/** The `AMT_NUM*` nutrient columns of a batch (`_amt_keys_all`, and the
    same computation inside `to_csv`): every field name starting with
    `AMT_NUM`, ordered by the number that follows it. */
module AmountKeys {
  import opened Text
  import opened Records

  /** The longest run of digits at the start of `s`. */
  function LeadingDigits(s: string): (d: string)
    ensures |d| <= |s| && d == s[..|d|]
    ensures forall i :: 0 <= i < |d| ==> IsDigit(d[i])
    ensures |d| < |s| ==> !IsDigit(s[|d|])
  {
    if s != [] && IsDigit(s[0]) then [s[0]] + LeadingDigits(s[1..]) else []
  }

  /** `AMT_NUM` followed by a digit starts at position `j` of `k`. */
  predicate AmtMatchAt(k: string, j: int)
  {
    0 <= j && j + |AmtPrefix| < |k| && k[j..j + |AmtPrefix|] == AmtPrefix && IsDigit(k[j + |AmtPrefix|])
  }

  /** No match of `AMT_NUM\d` starts before position `j`. */
  predicate NoMatchBefore(k: string, j: int)
  {
    forall i :: 0 <= i < j ==> !AmtMatchAt(k, i)
  }

  /** `amt_key`: the number in the leftmost match of `AMT_NUM(\d+)`, or 0
      when there is none. */
  function AmtSuffix(k: string): nat
    decreases |k|
  {
    if |k| > |AmtPrefix| && k[..|AmtPrefix|] == AmtPrefix && IsDigit(k[|AmtPrefix|]) then
      DigitsValue(LeadingDigits(k[|AmtPrefix|..]))
    else if k == [] then 0
    else AmtSuffix(k[1..])
  }

  /** With a match starting at `j` and none before it, the key is the
      number spelled by the digits of that match. */
  lemma {:induction false} AmtSuffixLeftmost(k: string, j: int)
    requires AmtMatchAt(k, j) && NoMatchBefore(k, j)
    ensures AmtSuffix(k) == DigitsValue(LeadingDigits(k[j + |AmtPrefix|..]))
    decreases j
  {
    if j == 0 {
      assert k[..|AmtPrefix|] == k[0..|AmtPrefix|];
    } else {
      FirstNoMatch(k);
      AmtMatchShift(k, j - 1);
      forall i | 0 <= i < j - 1
        ensures !AmtMatchAt(k[1..], i)
      {
        AmtMatchShift(k, i);
      }
      AmtSuffixLeftmost(k[1..], j - 1);
      assert k[1..][j - 1 + |AmtPrefix|..] == k[j + |AmtPrefix|..];
    }
  }

  /** Without any match, the key is 0. */
  lemma {:induction false} AmtSuffixNoMatch(k: string)
    requires NoMatchBefore(k, |k|)
    ensures AmtSuffix(k) == 0
    decreases |k|
  {
    if k != [] {
      FirstNoMatch(k);
      forall i | 0 <= i < |k| - 1
        ensures !AmtMatchAt(k[1..], i)
      {
        AmtMatchShift(k, i);
      }
      AmtSuffixNoMatch(k[1..]);
    }
  }

  /** Without a match at 0, the key is that of the rest of the text. */
  lemma FirstNoMatch(k: string)
    requires k != [] && !AmtMatchAt(k, 0)
    ensures AmtSuffix(k) == AmtSuffix(k[1..])
  {
    assert |k| > |AmtPrefix| ==> k[..|AmtPrefix|] == k[0..|AmtPrefix|];
  }

  /** Dropping the first character shifts a match one place left. */
  lemma AmtMatchShift(k: string, j: nat)
    requires k != []
    ensures AmtMatchAt(k, j + 1) <==> AmtMatchAt(k[1..], j)
  {
    if j + 1 + |AmtPrefix| < |k| {
      assert k[j + 1..j + 1 + |AmtPrefix|] == k[1..][j..j + |AmtPrefix|];
    }
  }

  /** `AMT_NUM<n>` (decimal, as the API names its columns) has suffix `n`. */
  lemma AmtSuffixOfColumn(n: nat)
    ensures AmtSuffix(AmtPrefix + NatToDigits(n)) == n
  {
    var k := AmtPrefix + NatToDigits(n);
    assert k[..|AmtPrefix|] == AmtPrefix;
    assert k[|AmtPrefix|..] == NatToDigits(n);
    assert LeadingDigits(NatToDigits(n)) == NatToDigits(n);
    DigitsValueOfNat(n);
  }

  /** Code-point lexicographic order, as Python compares `str`. */
  predicate StrLess(a: string, b: string)
  {
    if a == [] then b != []
    else if b == [] then false
    else if a[0] != b[0] then a[0] < b[0]
    else StrLess(a[1..], b[1..])
  }

  lemma {:induction false} StrLessIrreflexive(a: string)
    ensures !StrLess(a, a)
  {
    if a != [] {
      StrLessIrreflexive(a[1..]);
    }
  }

  lemma {:induction false} StrLessTransitive(a: string, b: string, c: string)
    requires StrLess(a, b) && StrLess(b, c)
    ensures StrLess(a, c)
  {
    if a != [] && b != [] && c != [] && a[0] == b[0] && b[0] == c[0] {
      StrLessTransitive(a[1..], b[1..], c[1..]);
    }
  }

  lemma {:induction false} StrLessTotal(a: string, b: string)
    requires a != b
    ensures StrLess(a, b) || StrLess(b, a)
  {
    if a != [] && b != [] && a[0] == b[0] {
      assert a == [a[0]] + a[1..] && b == [b[0]] + b[1..];
      StrLessTotal(a[1..], b[1..]);
    }
  }

  lemma StrLessAsymmetric(a: string, b: string)
    requires StrLess(a, b)
    ensures !StrLess(b, a)
  {
    if StrLess(b, a) {
      StrLessTransitive(a, b, a);
      StrLessIrreflexive(a);
    }
  }

  /** The column order: by numeric suffix, and between equal suffixes by
      the names themselves. */
  predicate Before(a: string, b: string)
  {
    AmtSuffix(a) < AmtSuffix(b) || (AmtSuffix(a) == AmtSuffix(b) && StrLess(a, b))
  }

  lemma BeforeStrictTotal()
    ensures forall a, b :: Before(a, b) ==> !Before(b, a)
    ensures forall a, b, c :: Before(a, b) && Before(b, c) ==> Before(a, c)
    ensures forall a, b :: a != b ==> Before(a, b) || Before(b, a)
  {
    forall a, b | Before(a, b)
      ensures !Before(b, a)
    {
      if AmtSuffix(a) == AmtSuffix(b) {
        StrLessAsymmetric(a, b);
      }
    }
    forall a, b, c | Before(a, b) && Before(b, c)
      ensures Before(a, c)
    {
      if AmtSuffix(a) == AmtSuffix(b) == AmtSuffix(c) {
        StrLessTransitive(a, b, c);
      }
    }
    forall a, b | a != b
      ensures Before(a, b) || Before(b, a)
    {
      StrLessTotal(a, b);
    }
  }

  predicate IsFirst(m: string, s: set<string>)
  {
    m in s && forall y :: y in s && y != m ==> Before(m, y)
  }

  lemma FirstUnique(s: set<string>)
    ensures forall a, b :: IsFirst(a, s) && IsFirst(b, s) ==> a == b
  {
    forall a, b | IsFirst(a, s) && IsFirst(b, s)
      ensures a == b
    {
      if a != b && AmtSuffix(a) == AmtSuffix(b) {
        StrLessAsymmetric(a, b);
      }
    }
  }

  lemma {:induction false} FirstExists(s: set<string>)
    requires s != {}
    ensures exists m :: IsFirst(m, s)
    decreases |s|
  {
    var x :| x in s;
    if s == {x} {
      assert IsFirst(x, s);
    } else {
      FirstExists(s - {x});
      var m :| IsFirst(m, s - {x});
      BeforeStrictTotal();
      if Before(m, x) {
        assert IsFirst(m, s);
      } else {
        assert IsFirst(x, s);
      }
    }
  }

  /** The elements of `s` in `Before` order. */
  function SortKeys(s: set<string>): (r: seq<string>)
    ensures |r| == |s|
    ensures forall k :: k in r <==> k in s
    ensures forall i, j :: 0 <= i < j < |r| ==> Before(r[i], r[j])
    decreases |s|
  {
    if s == {} then []
    else
      FirstExists(s);
      FirstUnique(s);
      var m :| IsFirst(m, s);
      var rest := SortKeys(s - {m});
      var r := [m] + rest;
      assert forall j :: 0 < j < |r| ==> r[j] == rest[j - 1] && r[j] in s - {m};
      r
  }

  predicate IsAmtColumn(k: string)
  {
    StartsWith(k, AmtPrefix)
  }

  /** `_amt_keys_all`: every field name starting with `AMT_NUM` found in any
      record, each once, ordered by numeric suffix. */
  function AmtKeysAll(records: seq<Record>): (r: seq<string>)
    ensures forall k :: k in r <==> IsAmtColumn(k) && exists rec :: rec in records && k in rec
    ensures forall i, j :: 0 <= i < j < |r| ==> r[i] != r[j]
    ensures forall i, j :: 0 <= i < j < |r| ==> AmtSuffix(r[i]) <= AmtSuffix(r[j])
    ensures records == [] ==> r == []
  {
    var found := set rec, k | rec in records && k in rec && IsAmtColumn(k) :: k;
    BeforeStrictTotal();
    SortKeys(found)
  }
}
