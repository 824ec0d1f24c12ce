/** The image crawler's naming and bookkeeping: safe folder names for
    products (`sanitize`, `get_save_path`), the progress log with its
    update-or-insert (`upsert_log_row`), and the "already crawled" test
    that skips a product. Unicode NFKC normalisation is a parameter, and so
    is the clock's timestamp. */
module CrawlLog {
  import opened Results
  import opened Text

  /** The characters `sanitize` replaces one after another, then the three
      control characters it replaces afterwards. */
  const PathChars: seq<char> := ['<', '>', ':', '"', '/', '\\', '|', '?', '*']
  const ControlChars: seq<char> := ['\n', '\r', '\t']
  const DefaultMaxLen := 80

  /** A character that never survives `sanitize`. */
  predicate Unsafe(c: char)
  {
    c in PathChars || c in ControlChars
  }

  /** `t.replace(ch, sub)` for single characters. */
  function ReplaceChar(t: string, ch: char, sub: char): (r: string)
    ensures |r| == |t|
    ensures forall i :: 0 <= i < |t| ==> r[i] == (if t[i] == ch then sub else t[i])
  {
    seq(|t|, i requires 0 <= i < |t| => if t[i] == ch then sub else t[i])
  }

  /** The replacement loop: each character of `chars` in turn becomes `_`. */
  function ReplaceEach(t: string, chars: seq<char>): string
    decreases |chars|
  {
    if chars == [] then t else ReplaceEach(ReplaceChar(t, chars[0], '_'), chars[1..])
  }

  /** Python's `t[:n]`: a negative `n` counts from the end. */
  function PyPrefix(t: string, n: int): (r: string)
    ensures n >= 0 ==> |r| == (if n < |t| then n else |t|)
    ensures n < 0 ==> |r| == (if |t| + n > 0 then |t| + n else 0)
    ensures forall i :: 0 <= i < |r| ==> r[i] == t[i]
  {
    if n >= 0 then (if n < |t| then t[..n] else t)
    else if |t| + n > 0 then t[..|t| + n] else []
  }

  /** The safe form of a character. */
  function SafeChar(c: char): (d: char)
    ensures !Unsafe(d)
    ensures Unsafe(c) ==> d == '_'
    ensures !Unsafe(c) ==> d == c
  {
    if Unsafe(c) then '_' else c
  }

  /** Every character of `t` in its safe form. */
  function SafeText(t: string): (r: string)
    ensures |r| == |t|
    ensures forall i :: 0 <= i < |t| ==> r[i] == SafeChar(t[i])
    ensures forall c :: c in r ==> !Unsafe(c)
  {
    seq(|t|, i requires 0 <= i < |t| => SafeChar(t[i]))
  }

  /** Each position of `t` holds `_` if its character is in `chars` and the
      character itself otherwise: the successive replacements do not
      interfere, since `_` is never replaced. */
  lemma {:induction false} ReplaceEachIsMap(t: string, chars: seq<char>)
    requires '_' !in chars
    ensures |ReplaceEach(t, chars)| == |t|
    ensures forall i :: 0 <= i < |t| ==>
              ReplaceEach(t, chars)[i] == (if t[i] in chars then '_' else t[i])
    decreases |chars|
  {
    if chars != [] {
      var t' := ReplaceChar(t, chars[0], '_');
      assert '_' !in chars[1..] by {
        assert forall c :: c in chars[1..] ==> c in chars;
      }
      ReplaceEachIsMap(t', chars[1..]);
      forall i | 0 <= i < |t|
        ensures ReplaceEach(t, chars)[i] == (if t[i] in chars then '_' else t[i])
      {
        assert t[i] in chars <==> t[i] == chars[0] || t[i] in chars[1..] by {
          assert chars == [chars[0]] + chars[1..];
        }
      }
    }
  }

  /** `_` is not one of the replaced characters. */
  lemma UnderscoreKept()
    ensures '_' !in PathChars && '_' !in ControlChars
  {
  }

  /** The two replacement loops of `sanitize` together put every character
      in its safe form. */
  lemma ReplacementsAreSafeText(t: string)
    ensures ReplaceEach(ReplaceEach(t, PathChars), ControlChars) == SafeText(t)
  {
    UnderscoreKept();
    var u := ReplaceEach(t, PathChars);
    ReplaceEachIsMap(t, PathChars);
    var v := ReplaceEach(u, ControlChars);
    ReplaceEachIsMap(u, ControlChars);
    var w := SafeText(t);
    forall i | 0 <= i < |t|
      ensures v[i] == w[i]
    {
      var c := t[i];
      if c in PathChars {
        assert u[i] == '_' && v[i] == '_';
        assert Unsafe(c);
      } else if c in ControlChars {
        assert u[i] == c && v[i] == '_';
        assert Unsafe(c);
      } else {
        assert u[i] == c && v[i] == c;
        assert !Unsafe(c);
      }
    }
  }

  /** `sanitize(text, max_len)`; `nfkc` is `unicodedata.normalize("NFKC", ·)`. */
  function Sanitize(text: string, maxLen: int, nfkc: string -> string): (r: string)
    ensures forall c :: c in r ==> !Unsafe(c)
    ensures maxLen >= 0 ==> |r| <= maxLen
  {
    var t := nfkc(Strip(text));
    var u := ReplaceEach(ReplaceEach(t, PathChars), ControlChars);
    ReplacementsAreSafeText(t);
    var r := PyPrefix(u, maxLen);
    assert forall c :: c in r ==> c in u by {
      forall c | c in r
        ensures c in u
      {
        var i :| 0 <= i < |r| && r[i] == c;
        assert u[i] == c;
      }
    }
    r
  }

  /** `sanitize` keeps the first `max_len` characters (Python slice rules)
      of the normalised, stripped text, each unsafe one turned into `_`. */
  lemma SanitizeSpec(text: string, maxLen: int, nfkc: string -> string)
    ensures var t := nfkc(Strip(text));
            var r := Sanitize(text, maxLen, nfkc);
            && |r| == |PyPrefix(t, maxLen)|
            && forall i :: 0 <= i < |r| ==> r[i] == SafeChar(t[i])
  {
    ReplacementsAreSafeText(nfkc(Strip(text)));
  }

  /** The product folder name in `get_save_path`: the sanitized name (at
      most 80 characters) with spaces turned into `_`. */
  function FolderName(productName: string, nfkc: string -> string): (r: string)
    ensures ' ' !in r
    ensures forall c :: c in r ==> !Unsafe(c)
    ensures |r| <= DefaultMaxLen
  {
    var s := Sanitize(productName, DefaultMaxLen, nfkc);
    SpacesReplaced(s);
    ReplaceChar(s, ' ', '_')
  }

  /** Turning spaces into `_` leaves no space and adds no unsafe character. */
  lemma SpacesReplaced(s: string)
    requires forall c :: c in s ==> !Unsafe(c)
    ensures ' ' !in ReplaceChar(s, ' ', '_')
    ensures forall c :: c in ReplaceChar(s, ' ', '_') ==> !Unsafe(c)
  {
    var r := ReplaceChar(s, ' ', '_');
    forall c | c in r
      ensures c != ' ' && !Unsafe(c)
    {
      var i :| 0 <= i < |r| && r[i] == c;
      assert s[i] in s;
    }
  }

  /** The category folder name: `sanitize(category)`. */
  function CategoryFolder(category: string, nfkc: string -> string): (r: string)
    ensures forall c :: c in r ==> !Unsafe(c)
    ensures |r| <= DefaultMaxLen
  {
    Sanitize(category, DefaultMaxLen, nfkc)
  }

  // ---------------------------------------------------------------------
  // The progress log

  /** A row of the log table; `None` is a missing (`NA`) cell. */
  datatype LogRow = LogRow(
    name: Option<string>,
    cat: Option<string>,
    count: Option<int>,
    timestamp: Option<string>,
    directory: Option<string>)

  type Log = seq<LogRow>

  /** The row is for product `name` in category `cat`. */
  predicate Matches(row: LogRow, name: string, cat: string)
  {
    row.name == Some(name) && row.cat == Some(cat)
  }

  /** `df[mask].index[0]`: the first matching row, if any. */
  function FirstMatch(log: Log, name: string, cat: string): (r: Option<nat>)
    ensures r.None? <==> forall j :: 0 <= j < |log| ==> !Matches(log[j], name, cat)
    ensures r.Some? ==> r.value < |log| && Matches(log[r.value], name, cat)
    ensures r.Some? ==> forall j :: 0 <= j < r.value ==> !Matches(log[j], name, cat)
  {
    if log == [] then None
    else if Matches(log[0], name, cat) then Some(0)
    else match FirstMatch(log[1..], name, cat)
      case None => None
      case Some(i) =>
        assert forall j :: 1 <= j < i + 1 ==> log[j] == log[1..][j - 1];
        Some(i + 1)
  }

  /** `upsert_log_row(df, name, cat, count, directory)` at time `ts`: the
      first matching row gets the new count, time and directory; without a
      match a new row is added at the end. */
  function UpsertLogRow(log: Log, name: string, cat: string, count: int, directory: string, ts: string)
    : (r: Log)
    ensures FirstMatch(log, name, cat).Some? ==>
              var i := FirstMatch(log, name, cat).value;
              && |r| == |log|
              && r[i] == log[i].(count := Some(count), timestamp := Some(ts), directory := Some(directory))
              && forall j :: 0 <= j < |log| && j != i ==> r[j] == log[j]
    ensures FirstMatch(log, name, cat).None? ==>
              r == log + [LogRow(Some(name), Some(cat), Some(count), Some(ts), Some(directory))]
  {
    match FirstMatch(log, name, cat)
    case Some(i) =>
      log[i := log[i].(count := Some(count), timestamp := Some(ts), directory := Some(directory))]
    case None =>
      log + [LogRow(Some(name), Some(cat), Some(count), Some(ts), Some(directory))]
  }

  /** The `main` test: the first matching row has both a count and a time. */
  predicate AlreadyCrawled(log: Log, name: string, cat: string)
  {
    match FirstMatch(log, name, cat)
    case None => false
    case Some(i) => log[i].count.Some? && log[i].timestamp.Some?
  }

  /** Without `--force`, an already crawled product is skipped. */
  predicate Skip(force: bool, log: Log, name: string, cat: string)
  {
    !force && AlreadyCrawled(log, name, cat)
  }

  /** A matching row with no match before it is the first match. */
  lemma FirstMatchAt(log: Log, name: string, cat: string, i: int)
    requires 0 <= i < |log| && Matches(log[i], name, cat)
    requires forall j :: 0 <= j < i ==> !Matches(log[j], name, cat)
    ensures FirstMatch(log, name, cat) == Some(i)
  {
    var k := FirstMatch(log, name, cat);
    assert k.Some?;
    assert !Matches(log[i], name, cat) || i >= k.value;
    assert !Matches(log[k.value], name, cat) || k.value >= i;
  }

  /** Two logs that agree on which rows match, where the longer one has no
      further match, have the same first match. */
  lemma FirstMatchSame(a: Log, b: Log, name: string, cat: string)
    requires |a| <= |b|
    requires forall j :: 0 <= j < |a| ==> (Matches(a[j], name, cat) <==> Matches(b[j], name, cat))
    requires forall j :: |a| <= j < |b| ==> !Matches(b[j], name, cat)
    ensures FirstMatch(a, name, cat) == FirstMatch(b, name, cat)
  {
    match FirstMatch(a, name, cat)
    case Some(i) =>
      FirstMatchAt(b, name, cat, i);
    case None =>
      assert forall j :: 0 <= j < |b| ==> !Matches(b[j], name, cat);
  }

  /** A product is skipped exactly when `--force` is off and the first log
      row for it has a count and a timestamp. */
  lemma SkipSpec(force: bool, log: Log, name: string, cat: string)
    ensures Skip(force, log, name, cat) <==>
              !force && exists i :: 0 <= i < |log| && Matches(log[i], name, cat)
                                    && (forall j :: 0 <= j < i ==> !Matches(log[j], name, cat))
                                    && log[i].count.Some? && log[i].timestamp.Some?
  {
    if exists i :: 0 <= i < |log| && Matches(log[i], name, cat)
                   && (forall j :: 0 <= j < i ==> !Matches(log[j], name, cat))
                   && log[i].count.Some? && log[i].timestamp.Some? {
      var i :| 0 <= i < |log| && Matches(log[i], name, cat)
               && (forall j :: 0 <= j < i ==> !Matches(log[j], name, cat))
               && log[i].count.Some? && log[i].timestamp.Some?;
      FirstMatchAt(log, name, cat, i);
    }
  }

  /** A product just recorded is skipped on the next run. */
  lemma UpsertThenSkip(log: Log, name: string, cat: string, count: int, directory: string, ts: string)
    ensures Skip(false, UpsertLogRow(log, name, cat, count, directory, ts), name, cat)
  {
    var r := UpsertLogRow(log, name, cat, count, directory, ts);
    match FirstMatch(log, name, cat)
    case Some(i) =>
      assert forall j :: 0 <= j < i ==> r[j] == log[j];
      FirstMatchAt(r, name, cat, i);
    case None =>
      var n := |log|;
      assert forall j :: 0 <= j < n ==> r[j] == log[j];
      FirstMatchAt(r, name, cat, n);
  }

  /** Recording one product leaves every other product's log state as it
      was. */
  lemma UpsertKeepsOthers(log: Log, name: string, cat: string, count: int, directory: string, ts: string,
                          name': string, cat': string)
    requires (name', cat') != (name, cat)
    ensures var r := UpsertLogRow(log, name, cat, count, directory, ts);
            && FirstMatch(r, name', cat') == FirstMatch(log, name', cat')
            && (AlreadyCrawled(r, name', cat') <==> AlreadyCrawled(log, name', cat'))
  {
    var r := UpsertLogRow(log, name, cat, count, directory, ts);
    assert forall j :: 0 <= j < |log| ==> (Matches(log[j], name', cat') <==> Matches(r[j], name', cat'));
    assert forall j :: |log| <= j < |r| ==> !Matches(r[j], name', cat');
    FirstMatchSame(log, r, name', cat');
    match FirstMatch(log, name', cat')
    case Some(i) =>
      assert !Matches(log[i], name, cat);
      assert r[i] == log[i];
    case None =>
  }

  /** Recording the same product twice in a row is the same as recording
      it once with the second values. */
  lemma UpsertOverwrites(log: Log, name: string, cat: string, c1: int, d1: string, t1: string,
                         c2: int, d2: string, t2: string)
    ensures UpsertLogRow(UpsertLogRow(log, name, cat, c1, d1, t1), name, cat, c2, d2, t2)
            == UpsertLogRow(log, name, cat, c2, d2, t2)
  {
    var r := UpsertLogRow(log, name, cat, c1, d1, t1);
    UpsertThenSkip(log, name, cat, c1, d1, t1);
    match FirstMatch(log, name, cat)
    case Some(i) =>
      assert FirstMatch(r, name, cat) == Some(i);
    case None =>
      assert FirstMatch(r, name, cat) == Some(|log|);
  }
}
