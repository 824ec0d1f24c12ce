/** Building the API request from the collector's inputs: the service key
    fallback, the optional integer fields, the preview dedupe key list and
    `build_query`. */
module Query {
  import opened Results
  import opened Text

  /** A query-string value: text or an integer. */
  datatype Param = PStr(s: string) | PInt(n: int)

  type Params = map<string, Param>

  datatype QueryError =
    | MissingKey(key: string)   // `p["serviceKey"]` raised KeyError
    | NoServiceKey              // neither the input nor the settings supply a key
    | NotAnInteger(text: string)

  const ServiceKey := "serviceKey"
  const CommercialClass := "상용제품"
  const DefaultRows := 100
  const OptionalFilters: seq<string> := ["FOOD_NM_KR", "MAKER_NM", "FOOD_CAT1_NM"]

  /** `p.get(k)` is truthy. */
  predicate Given(p: map<string, string>, k: string)
  {
    k in p && p[k] != ""
  }

  /** `build_query`: the key, the fixed `type` and class, the row count
      (default 100), the page when given, and each filter that is non-empty. */
  function BuildQuery(p: map<string, string>, numRows: Option<int>, pageNo: Option<int>)
    : (r: Result<Params, QueryError>)
    ensures r.Err? <==> ServiceKey !in p
    ensures r.Err? ==> r.error == MissingKey(ServiceKey)
    ensures r.Ok? ==> ServiceKey in r.value && r.value[ServiceKey] == PStr(p[ServiceKey])
  {
    if ServiceKey !in p then Err(MissingKey(ServiceKey))
    else
      var q0 := map[ServiceKey := PStr(p[ServiceKey]), "type" := PStr("json"), "DB_CLASS_NM" := PStr(CommercialClass)];
      var q1 := q0["numOfRows" := PInt(if numRows.Some? then numRows.value else DefaultRows)];
      var q2 := if pageNo.Some? then q1["pageNo" := PInt(pageNo.value)] else q1;
      var q3 := if Given(p, "FOOD_NM_KR") then q2["FOOD_NM_KR" := PStr(p["FOOD_NM_KR"])] else q2;
      var q4 := if Given(p, "MAKER_NM") then q3["MAKER_NM" := PStr(p["MAKER_NM"])] else q3;
      var q5 := if Given(p, "FOOD_CAT1_NM") then q4["FOOD_CAT1_NM" := PStr(p["FOOD_CAT1_NM"])] else q4;
      Ok(q5)
  }

  /** The fixed parameters: `type=json`, the commercial class, the row
      count (100 unless given) and the page exactly when given. */
  lemma BuildQueryFixed(p: map<string, string>, numRows: Option<int>, pageNo: Option<int>)
    requires ServiceKey in p
    ensures var q := BuildQuery(p, numRows, pageNo).value;
      && "type" in q && q["type"] == PStr("json")
      && "DB_CLASS_NM" in q && q["DB_CLASS_NM"] == PStr(CommercialClass)
      && "numOfRows" in q && q["numOfRows"] == PInt(if numRows.Some? then numRows.value else DefaultRows)
      && ("pageNo" in q <==> pageNo.Some?)
      && (pageNo.Some? ==> q["pageNo"] == PInt(pageNo.value))
  {
  }

  /** Each optional filter is sent exactly when it is given, with its value. */
  lemma BuildQueryFilters(p: map<string, string>, numRows: Option<int>, pageNo: Option<int>, k: string)
    requires BuildQuery(p, numRows, pageNo).Ok? && k in OptionalFilters
    ensures k in BuildQuery(p, numRows, pageNo).value <==> Given(p, k)
    ensures Given(p, k) ==> BuildQuery(p, numRows, pageNo).value[k] == PStr(p[k])
  {
  }

  /** No parameter other than the fixed ones and the optional filters is sent. */
  lemma BuildQueryKeys(p: map<string, string>, numRows: Option<int>, pageNo: Option<int>, k: string)
    requires BuildQuery(p, numRows, pageNo).Ok? && k in BuildQuery(p, numRows, pageNo).value
    ensures k in {ServiceKey, "type", "DB_CLASS_NM", "numOfRows", "pageNo"} || k in OptionalFilters
  {
  }

  /** The collector's service key guard: an empty key from the input is
      replaced by the configured one (stripped), and with neither there is
      an error. `configured` is the settings module's value, `None` when
      the module or the attribute is missing. */
  function ResolveServiceKey(p: map<string, string>, configured: Option<string>)
    : (r: Result<map<string, string>, QueryError>)
    ensures Given(p, ServiceKey) ==> r == Ok(p)
    ensures !Given(p, ServiceKey) ==> (r.Ok? <==> configured.Some? && configured.value != "")
    ensures r.Err? ==> r.error == NoServiceKey
    ensures r.Ok? ==> ServiceKey in r.value
    ensures r.Ok? ==> forall k :: k in p && k != ServiceKey ==> k in r.value && r.value[k] == p[k]
    ensures r.Ok? ==> r.value.Keys == p.Keys + {ServiceKey}
    ensures r.Ok? && !Given(p, ServiceKey) ==> r.value[ServiceKey] == Strip(configured.value)
  {
    if Given(p, ServiceKey) then Ok(p)
    else if configured.Some? && configured.value != "" then Ok(p[ServiceKey := Strip(configured.value)])
    else Err(NoServiceKey)
  }

  /** After the guard, building the query cannot fail. */
  lemma ResolvedKeyBuilds(p: map<string, string>, configured: Option<string>,
                          numRows: Option<int>, pageNo: Option<int>)
    requires ResolveServiceKey(p, configured).Ok?
    ensures BuildQuery(ResolveServiceKey(p, configured).value, numRows, pageNo).Ok?
  {
  }

  /** The digits of Python's base-10 `int()` literal: digits, with single
      underscores allowed between them. */
  predicate DigitPart(s: string)
  {
    && |s| >= 1
    && IsDigit(s[0])
    && IsDigit(s[|s| - 1])
    && (forall i :: 0 <= i < |s| ==> IsDigit(s[i]) || s[i] == '_')
    && (forall i :: 0 <= i < |s| - 1 ==> !(s[i] == '_' && s[i + 1] == '_'))
  }

  /** Python's `int(s)` on a stripped string: an optional sign, then a digit part. */
  function ParseInt(s: string): (r: Option<int>)
    ensures r.Some? <==> DigitPart(s) || (|s| >= 1 && (s[0] == '+' || s[0] == '-') && DigitPart(s[1..]))
  {
    if |s| >= 1 && (s[0] == '+' || s[0] == '-') then
      if DigitPart(s[1..]) then
        var v: int := DigitsValue(Digits(s[1..]));
        Some(if s[0] == '-' then -v else v)
      else None
    else if DigitPart(s) then Some(DigitsValue(Digits(s)))
    else None
  }

  /** An optional integer entry: blank text is no value; anything else must
      read as an integer once stripped. */
  function ParseOptionalInt(text: string): (r: Result<Option<int>, QueryError>)
    ensures Strip(text) == "" ==> r == Ok(None)
    ensures r.Err? <==> Strip(text) != "" && ParseInt(Strip(text)).None?
    ensures r.Err? ==> r.error == NotAnInteger(Strip(text))
    ensures r.Ok? && Strip(text) != "" ==> r.value.Some? && Some(r.value.value) == ParseInt(Strip(text))
  {
    var s := Strip(text);
    if s == "" then Ok(None)
    else match ParseInt(s)
      case Some(n) => Ok(Some(n))
      case None => Err(NotAnInteger(s))
  }

  function IntToString(n: int): string
  {
    if n < 0 then "-" + NatToDigits(-n) else NatToDigits(n)
  }

  lemma ParseDigits(m: nat)
    ensures ParseInt(NatToDigits(m)) == Some(m as int)
  {
    var d := NatToDigits(m);
    assert DigitPart(d);
    DigitsOfDigits(d);
    DigitsValueOfNat(m);
  }

  lemma ParseNegativeDigits(m: nat)
    requires m > 0
    ensures ParseInt("-" + NatToDigits(m)) == Some(-(m as int))
  {
    var d := NatToDigits(m);
    assert DigitPart(d);
    ParseMinus(d);
    DigitsOfDigits(d);
    DigitsValueOfNat(m);
  }

  /** A minus sign before a digit part negates its value. */
  lemma ParseMinus(d: string)
    requires DigitPart(d)
    ensures ParseInt("-" + d) == Some(-(DigitsValue(Digits(d)) as int))
  {
    var s := "-" + d;
    assert s[0] == '-' && s[1..] == d;
  }

  /** A field that needs no stripping and reads as `n` parses to `n`. */
  lemma ParseOptionalIntUnstripped(s: string, n: int)
    requires s != [] && !IsSpace(s[0]) && !IsSpace(s[|s| - 1])
    requires ParseInt(s) == Some(n)
    ensures ParseOptionalInt(s) == Ok(Some(n))
  {
    StripNoop(s);
  }

  /** Whatever integer a user types (in its usual decimal form) is read back. */
  lemma ParseOptionalIntRoundTrip(n: int)
    ensures ParseOptionalInt(IntToString(n)) == Ok(Some(n))
  {
    var s := IntToString(n);
    if n < 0 {
      var d := NatToDigits(-n);
      assert s == "-" + d;
      assert s[|s| - 1] == d[|d| - 1];
      ParseNegativeDigits(-n);
      ParseOptionalIntUnstripped(s, n);
    } else {
      ParseDigits(n);
      ParseOptionalIntUnstripped(s, n);
    }
  }

  /** Python's `s.split(sep)`. */
  function Split(s: string, sep: char): (parts: seq<string>)
    ensures |parts| >= 1
    ensures forall i :: 0 <= i < |parts| ==> sep !in parts[i]
  {
    if s == [] then [[]]
    else
      var rest := Split(s[1..], sep);
      if s[0] == sep then [[]] + rest
      else [[s[0]] + rest[0]] + rest[1..]
  }

  function Join(parts: seq<string>, sep: char): string
    requires |parts| >= 1
  {
    if |parts| == 1 then parts[0] else parts[0] + [sep] + Join(parts[1..], sep)
  }

  /** Splitting loses nothing: joining the parts restores the text. */
  lemma {:induction false} SplitJoin(s: string, sep: char)
    ensures Join(Split(s, sep), sep) == s
  {
    if s != [] {
      var rest := Split(s[1..], sep);
      SplitJoin(s[1..], sep);
      if s[0] == sep {
        assert Split(s, sep)[1..] == rest;
      } else {
        var parts := Split(s, sep);
        if |rest| == 1 {
          assert parts == [[s[0]] + rest[0]];
        } else {
          assert parts[1..] == rest[1..];
          assert Join(rest, sep) == rest[0] + [sep] + Join(rest[1..], sep);
        }
      }
    }
  }

  /** The non-empty images of `parts` under `f`, in order. */
  function NonEmptyImages(parts: seq<string>, f: string -> string): (keys: seq<string>)
    ensures |keys| <= |parts|
    ensures forall i :: 0 <= i < |keys| ==> keys[i] != ""
    ensures forall k :: k in keys ==> exists p :: p in parts && f(p) == k
  {
    if parts == [] then []
    else
      var rest := NonEmptyImages(parts[1..], f);
      assert forall q :: q in parts[1..] ==> q in parts;
      if f(parts[0]) != "" then [f(parts[0])] + rest else rest
  }

  /** Every piece with a non-empty image contributes that image. */
  lemma {:induction false} NonEmptyImagesComplete(parts: seq<string>, f: string -> string, p: string)
    requires p in parts && f(p) != ""
    ensures f(p) in NonEmptyImages(parts, f)
  {
    if parts[0] != p {
      assert p in parts[1..] by {
        var i :| 0 <= i < |parts| && parts[i] == p;
        assert parts[1..][i - 1] == p;
      }
      NonEmptyImagesComplete(parts[1..], f, p);
    }
  }

  /** Taking non-empty images distributes over concatenation; with
      `NonEmptyImagesSingle` this fixes the order and the multiplicity. */
  lemma {:induction false} NonEmptyImagesAppend(a: seq<string>, b: seq<string>, f: string -> string)
    ensures NonEmptyImages(a + b, f) == NonEmptyImages(a, f) + NonEmptyImages(b, f)
  {
    if a != [] {
      assert (a + b)[1..] == a[1..] + b;
      NonEmptyImagesAppend(a[1..], b, f);
    } else {
      assert a + b == b;
    }
  }

  lemma NonEmptyImagesSingle(p: string, f: string -> string)
    ensures NonEmptyImages([p], f) == if f(p) != "" then [f(p)] else []
  {
  }

  /** The non-empty stripped pieces, in order. */
  function StrippedNonEmpty(parts: seq<string>): (keys: seq<string>)
    ensures |keys| <= |parts|
    ensures forall k :: k in keys ==> k != "" && Strip(k) == k
    ensures forall k :: k in keys ==> exists p :: p in parts && Strip(p) == k
  {
    var keys := NonEmptyImages(parts, Strip);
    assert forall k :: k in keys ==> Strip(k) == k by {
      forall k | k in keys
        ensures Strip(k) == k
      {
        var p :| p in parts && Strip(p) == k;
        StripIdempotent(p);
      }
    }
    keys
  }

  /** Every non-blank piece gives its stripped key. */
  lemma StrippedNonEmptyComplete(parts: seq<string>, p: string)
    requires p in parts && Strip(p) != ""
    ensures Strip(p) in StrippedNonEmpty(parts)
  {
    NonEmptyImagesComplete(parts, Strip, p);
  }

  /** The stripped pieces of a concatenation are those of each part, in order. */
  lemma StrippedNonEmptyAppend(a: seq<string>, b: seq<string>)
    ensures StrippedNonEmpty(a + b) == StrippedNonEmpty(a) + StrippedNonEmpty(b)
  {
    NonEmptyImagesAppend(a, b, Strip);
  }

  /** One piece yields its strip, or nothing when that is blank. */
  lemma StrippedNonEmptySingle(p: string)
    ensures StrippedNonEmpty([p]) == if Strip(p) != "" then [Strip(p)] else []
  {
    NonEmptyImagesSingle(p, Strip);
  }

  /** The preview dedupe keys: the comma-separated pieces of the entry text,
      stripped, with the blank ones dropped. Every key is non-empty, stripped
      and comma-free, and every non-blank piece gives its key. */
  function ParseKeyList(text: string): (keys: seq<string>)
    ensures forall k :: k in keys ==> k != "" && Strip(k) == k && ',' !in k
    ensures forall p :: p in Split(text, ',') && Strip(p) != "" ==> Strip(p) in keys
    ensures ',' !in text && Strip(text) != "" ==> keys == [Strip(text)]
  {
    var parts := Split(text, ',');
    forall p | p in parts && Strip(p) != ""
      ensures Strip(p) in StrippedNonEmpty(parts)
    {
      StrippedNonEmptyComplete(parts, p);
    }
    assert ',' !in text ==> parts == [text] by {
      if ',' !in text {
        SplitWithoutSep(text, ',');
      }
    }
    StrippedNonEmpty(parts)
  }

  lemma {:induction false} SplitWithoutSep(s: string, sep: char)
    requires sep !in s
    ensures Split(s, sep) == [s]
  {
    if s != [] {
      assert s[0] in s;
      SplitWithoutSep(s[1..], sep);
      assert [s[0]] + s[1..] == s;
    }
  }

  /** A comma-free piece followed by the separator splits off as one piece. */
  lemma {:induction false} SplitCons(a: string, t: string, sep: char)
    requires sep !in a
    ensures Split(a + [sep] + t, sep) == [a] + Split(t, sep)
  {
    var s := a + [sep] + t;
    if a == [] {
      assert s == [sep] + t;
      assert s[1..] == t;
    } else {
      assert a[0] in a;
      assert s[0] == a[0] && s[1..] == a[1..] + [sep] + t;
      assert forall c :: c in a[1..] ==> c in a;
      SplitCons(a[1..], t, sep);
      assert [a[0]] + a[1..] == a;
    }
  }

  /** Joining separator-free pieces and splitting again gives the pieces back. */
  lemma {:induction false} JoinSplit(parts: seq<string>, sep: char)
    requires |parts| >= 1
    requires forall i :: 0 <= i < |parts| ==> sep !in parts[i]
    ensures Split(Join(parts, sep), sep) == parts
  {
    if |parts| == 1 {
      SplitWithoutSep(parts[0], sep);
    } else {
      JoinSplit(parts[1..], sep);
      SplitCons(parts[0], Join(parts[1..], sep), sep);
      assert [parts[0]] + parts[1..] == parts;
    }
  }

  /** Entry text written as comma-separated pieces gives the keys of those
      pieces, in order. */
  lemma ParseKeyListOfJoin(text: string, parts: seq<string>)
    requires |parts| >= 1 && text == Join(parts, ',')
    requires forall i :: 0 <= i < |parts| ==> ',' !in parts[i]
    ensures ParseKeyList(text) == StrippedNonEmpty(parts)
  {
    JoinSplit(parts, ',');
  }

  /** Keys written out with commas read back as the same keys. */
  lemma ParseKeyListRoundTrip(keys: seq<string>)
    requires |keys| >= 1
    requires forall i :: 0 <= i < |keys| ==> keys[i] != "" && Strip(keys[i]) == keys[i] && ',' !in keys[i]
    ensures ParseKeyList(Join(keys, ',')) == keys
  {
    ParseKeyListOfJoin(Join(keys, ','), keys);
    StrippedKeys(keys);
  }

  lemma {:induction false} StrippedKeys(keys: seq<string>)
    requires forall i :: 0 <= i < |keys| ==> keys[i] != "" && Strip(keys[i]) == keys[i]
    ensures StrippedNonEmpty(keys) == keys
  {
    if keys != [] {
      StrippedKeys(keys[1..]);
      StrippedNonEmptySingle(keys[0]);
      StrippedNonEmptyAppend([keys[0]], keys[1..]);
      assert [keys[0]] + keys[1..] == keys;
    }
  }

  /** A key typed in front of others, followed by a comma and a space as in
      "NUM, MAKER_NM", comes first and leaves the other keys as they were. */
  lemma KeyListCons(k: string, t: string)
    requires k != "" && Strip(k) == k && ',' !in k
    ensures ParseKeyList(k + [','] + ([' '] + t)) == [k] + ParseKeyList(t)
  {
    var parts := Split(t, ',');
    SplitCons(k, [' '] + t, ',');
    SplitSpaceCons(t);
    StrippedSpaceCons(parts);
    StrippedNonEmptyAppend([k], Split([' '] + t, ','));
    StrippedNonEmptySingle(k);
  }

  /** A space before the text joins the first piece. */
  lemma SplitSpaceCons(t: string)
    ensures Split([' '] + t, ',') == [[' '] + Split(t, ',')[0]] + Split(t, ',')[1..]
  {
    assert ([' '] + t)[1..] == t;
  }

  /** A space before the first piece changes none of the keys. */
  lemma StrippedSpaceCons(parts: seq<string>)
    requires |parts| >= 1
    ensures StrippedNonEmpty([[' '] + parts[0]] + parts[1..]) == StrippedNonEmpty(parts)
  {
    StrippedNonEmptyAppend([[' '] + parts[0]], parts[1..]);
    StrippedNonEmptyAppend([parts[0]], parts[1..]);
    StrippedNonEmptySingle([' '] + parts[0]);
    StrippedNonEmptySingle(parts[0]);
    StripSpaceCons(parts[0]);
    assert [parts[0]] + parts[1..] == parts;
  }
}
