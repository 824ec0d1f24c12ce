/** The collection run of the collector window (`CollectorThread.run`),
    from the decoded API response to the records shown: extraction, the
    per-record filter, the name-and-amounts dedupe, then the optional
    preview dedupe. The HTTP request is left out: its decoded response is
    an input. */
module Pipeline {
  import opened Text
  import opened Records
  import opened Response
  import opened Query
  import opened RecordFilter
  import opened AmountKeys
  import opened SignatureDedupe
  import opened PreviewDedupe

  /** A JSON field value as the collector reads it: strings as they are,
      anything else as the empty string. */
  function ValueText(j: Json): string
  {
    if j.Str? then j.s else ""
  }

  /** A response object as a record: the same field names, each with its
      text. */
  function ToRecord(m: Fields): (r: Record)
    ensures r.Keys == m.Keys
    ensures forall k :: k in m && m[k].Str? ==> r[k] == m[k].s
    ensures forall k :: k in m && !m[k].Str? ==> r[k] == ""
  {
    map k | k in m :: ValueText(m[k])
  }

  /** The records of a response, in response order. */
  function Items(data: Json): (rs: seq<Record>)
    ensures |rs| == |ExtractItems(data)|
    ensures forall i :: 0 <= i < |rs| ==> rs[i] == ToRecord(ExtractItems(data)[i])
  {
    var objs := ExtractItems(data);
    seq(|objs|, i requires 0 <= i < |objs| => ToRecord(objs[i]))
  }

  /** The filter loop: the records `filter_record` keeps, in order. */
  function KeepMatching(rs: seq<Record>, onlyZero: bool, keyword: string): (out: seq<Record>)
    ensures |out| <= |rs|
    ensures SubsequenceOf(out, rs)
    ensures forall r :: r in out <==> r in rs && FilterRecord(r, onlyZero, keyword).keep
  {
    if rs == [] then []
    else
      var rest := KeepMatching(rs[1..], onlyZero, keyword);
      assert forall r :: r in rs <==> r == rs[0] || r in rs[1..] by {
        assert rs == [rs[0]] + rs[1..];
      }
      if FilterRecord(rs[0], onlyZero, keyword).keep then
        var out := [rs[0]] + rest;
        assert out[1..] == rest;
        out
      else rest
  }

  /** The records kept by the filter for the given window inputs (the
      keyword entry is stripped first). */
  function Collected(data: Json, onlyZero: bool, keywordText: string): seq<Record>
  {
    KeepMatching(Items(data), onlyZero, Strip(keywordText))
  }

  /** The preview dedupe runs unless it is switched off or no key field
      is named. */
  predicate PreviewOn(noDedupe: bool, keyText: string)
  {
    !noDedupe && ParseKeyList(keyText) != []
  }

  /** The records the run shows. */
  function Collect(data: Json, onlyZero: bool, keywordText: string, noDedupe: bool, keyText: string)
    : (out: seq<Record>)
    ensures |out| <= |Items(data)|
  {
    var collected := Collected(data, onlyZero, keywordText);
    var records := DedupeByNameAndAmt(collected);
    if PreviewOn(noDedupe, keyText) then Dedupe(records, ParseKeyList(keyText)) else records
  }

  /** The name-and-amounts class, as a key function. */
  function ClassOf(amtKeys: seq<string>): Record -> (string, seq<string>)
  {
    r => Class(r, amtKeys)
  }

  /** Every shown record comes from the response and passes the filter;
      no two share a name-and-amounts class of the filtered batch; with the
      preview dedupe, no two share a key tuple either, and without it every
      class of the filtered batch is shown. */
  lemma CollectSpec(data: Json, onlyZero: bool, keywordText: string, noDedupe: bool, keyText: string)
    ensures var out := Collect(data, onlyZero, keywordText, noDedupe, keyText);
            var cs := Collected(data, onlyZero, keywordText);
            var ak := AmtKeysAll(cs);
            && (forall r :: r in out ==> r in Items(data) && FilterRecord(r, onlyZero, Strip(keywordText)).keep)
            && (forall i, j :: 0 <= i < j < |out| ==> Class(out[i], ak) != Class(out[j], ak))
            && (PreviewOn(noDedupe, keyText) ==>
                  forall i, j :: 0 <= i < j < |out| ==>
                    KeyTuple(out[i], ParseKeyList(keyText)) != KeyTuple(out[j], ParseKeyList(keyText)))
            && (!PreviewOn(noDedupe, keyText) ==> forall r :: r in cs ==> Class(r, ak) in Classes(out, ak))
  {
    var out := Collect(data, onlyZero, keywordText, noDedupe, keyText);
    var cs := Collected(data, onlyZero, keywordText);
    var ak := AmtKeysAll(cs);
    var records := DedupeByNameAndAmt(cs);
    assert DistinctKeys(records, ClassOf(ak)) by {
      forall i, j | 0 <= i < j < |records|
        ensures ClassOf(ak)(records[i]) != ClassOf(ak)(records[j])
      {
      }
    }
    if PreviewOn(noDedupe, keyText) {
      var keys := ParseKeyList(keyText);
      assert out == Dedupe(records, keys);
      SubsequenceMembers(out, records);
      SubsequenceDistinct(out, records, ClassOf(ak));
      assert forall i, j :: 0 <= i < j < |out| ==> ClassOf(ak)(out[i]) != ClassOf(ak)(out[j]);
    }
  }
}
