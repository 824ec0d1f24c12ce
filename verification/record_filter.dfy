/** The per-record filter of the collector: the "zero sugar" name test
    (`matches_zero`) and the extra-keyword test (`filter_record`). */
module RecordFilter {
  import opened Text
  import opened Records

  /** Name fragments that mark a sugar-free product. */
  const ZeroPatterns: seq<string> := [
    "제로", "zero", "sugar free", "sugar-free", "no sugar",
    "무설탕", "무가당", "무당", "제로슈거", "zero sugar", "0 sugar", "0g sugar"
  ]

  /** Some pattern occurs in the text. */
  function AnyContained(s: string, pats: seq<string>): (b: bool)
    ensures b <==> exists i, j :: 0 <= i < |pats| && OccursAt(s, pats[i], j)
  {
    if pats == [] then false
    else
      ContainsIff(s, pats[0]);
      var rest := AnyContained(s, pats[1..]);
      assert rest <==> exists i, j :: 1 <= i < |pats| && OccursAt(s, pats[i], j) by {
        forall i, j | 1 <= i < |pats| && OccursAt(s, pats[i], j)
          ensures exists i', j' :: 0 <= i' < |pats[1..]| && OccursAt(s, pats[1..][i'], j')
        {
          assert pats[1..][i - 1] == pats[i];
        }
      }
      Contains(s, pats[0]) || rest
  }

  /** `matches_zero`: an empty name never matches; otherwise some pattern
      occurs in the lower-cased name. */
  function MatchesZero(name: string): (b: bool)
    ensures name == "" ==> !b
    ensures b <==> name != "" && exists i, j :: 0 <= i < |ZeroPatterns| && OccursAt(Lower(name), ZeroPatterns[i], j)
  {
    if name == "" then false else AnyContained(Lower(name), ZeroPatterns)
  }

  /** The outcome of `filter_record`: whether to keep the record, and whether
      its name is a zero-sugar name. */
  datatype Verdict = Verdict(keep: bool, isZero: bool)

  /** The extra keyword occurs in the name or the maker (all lower-cased);
      an empty keyword always passes. */
  predicate KeywordHit(name: string, maker: string, keyword: string)
  {
    keyword == "" || Contains(Lower(name), Lower(keyword)) || Contains(Lower(maker), Lower(keyword))
  }

  function FilterRecord(rec: Record, onlyZero: bool, keyword: string): (v: Verdict)
    ensures v.isZero == MatchesZero(StrippedField(rec, NameField))
    ensures onlyZero && !v.isZero ==> !v.keep
    ensures !onlyZero && keyword == "" ==> v.keep
    ensures v.keep <==> (!onlyZero || v.isZero)
                        && KeywordHit(StrippedField(rec, NameField), StrippedField(rec, MakerField), keyword)
  {
    var name := StrippedField(rec, NameField);
    var maker := StrippedField(rec, MakerField);
    var ok := if keyword != "" then
                var k := Lower(keyword);
                Contains(Lower(name), k) || Contains(Lower(maker), k)
              else true;
    var isZero := MatchesZero(name);
    if onlyZero && !isZero then Verdict(false, isZero) else Verdict(ok, isZero)
  }

  /** A keyword is found however it is capitalised. */
  lemma KeywordIgnoresCase(rec: Record, onlyZero: bool, keyword: string)
    ensures FilterRecord(rec, onlyZero, keyword).keep == FilterRecord(rec, onlyZero, Lower(keyword)).keep
  {
    LowerIdempotent(keyword);
  }

  /** A pattern whose first character is absent from a string occurs nowhere in it. */
  lemma FirstCharAbsent(s: string, p: string)
    requires p != [] && p[0] !in s
    ensures forall j :: !OccursAt(s, p, j)
  {
    forall j
      ensures !OccursAt(s, p, j)
    {
      if 0 <= j && j + |p| <= |s| {
        assert s[j..j + |p|][0] == s[j];
        assert s[j] in s;
      }
    }
  }

  /** A name that is already stripped and lower-case is kept under
      `only_zero` when some zero pattern occurs in it. */
  lemma ZeroNameKept(name: string, i: nat, j: int)
    requires name == [] || (!IsSpace(name[0]) && !IsSpace(name[|name| - 1]))
    requires forall k :: 0 <= k < |name| ==> !IsUpper(name[k])
    requires i < |ZeroPatterns| && OccursAt(name, ZeroPatterns[i], j)
    ensures FilterRecord(map[NameField := name], true, "").keep
  {
    var rec := map[NameField := name];
    StripNoop(name);
    LowerNoop(name);
    StrippedFieldPresent(rec, NameField);
    assert name != "" by {
      assert |ZeroPatterns[i]| > 0 by { PatternsNonEmpty(ZeroPatterns, i); }
    }
    AnyContainedAt(name, ZeroPatterns, i, j);
    assert MatchesZero(name);
  }

  lemma AnyContainedAt(s: string, pats: seq<string>, i: int, j: int)
    requires 0 <= i < |pats| && OccursAt(s, pats[i], j)
    ensures AnyContained(s, pats)
  {
  }

  lemma PatternsNonEmpty(pats: seq<string>, i: int)
    requires pats == ZeroPatterns && 0 <= i < |pats|
    ensures |pats[i]| > 0
  {
  }

  /** A stripped, lower-case name in which no zero pattern occurs is dropped
      under `only_zero`. */
  lemma PlainNameDropped(name: string)
    requires name == [] || (!IsSpace(name[0]) && !IsSpace(name[|name| - 1]))
    requires forall k :: 0 <= k < |name| ==> !IsUpper(name[k])
    requires forall i, j :: 0 <= i < |ZeroPatterns| ==> !OccursAt(name, ZeroPatterns[i], j)
    ensures !FilterRecord(map[NameField := name], true, "").keep
  {
    var rec := map[NameField := name];
    StripNoop(name);
    LowerNoop(name);
    StrippedFieldPresent(rec, NameField);
  }

  /** With `only_zero`, a product named "립톤제로복숭아 아이스티" is kept. */
  lemma ZeroDrinkKept()
    ensures FilterRecord(map[NameField := "립톤제로복숭아 아이스티"], true, "").keep
  {
    var name := "립톤제로복숭아 아이스티";
    assert name[2..4] == ZeroPatterns[0];
    ZeroNameKept(name, 0, 2);
  }

  /** With `only_zero`, a product named "코카콜라 오리지널" is dropped. */
  lemma RegularDrinkDropped()
    ensures !FilterRecord(map[NameField := "코카콜라 오리지널"], true, "").keep
  {
    var name := "코카콜라 오리지널";
    forall i | 0 <= i < |ZeroPatterns|
      ensures forall j :: !OccursAt(name, ZeroPatterns[i], j)
    {
      FirstCharAbsent(name, ZeroPatterns[i]);
    }
    PlainNameDropped(name);
  }
}
