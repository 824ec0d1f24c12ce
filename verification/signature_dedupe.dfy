/** The persistence dedupe (`dedupe_by_name_and_amt`): records with the same
    whitespace-free, lower-cased name and the same tuple of `AMT_NUM*`
    values are copies of one product; of each such class the one with the
    latest `UPDATE_DATE` survives, the earliest in the batch on a tie. */
module SignatureDedupe {
  import opened Results
  import opened Text
  import opened Records
  import opened Grouping
  import opened AmountKeys

  /** A record with its position in the batch (`enumerate(records)`). */
  datatype Entry = Entry(pos: nat, rec: Record)

  function Enumerate(records: seq<Record>): (es: seq<Entry>)
    ensures |es| == |records|
    ensures forall i :: 0 <= i < |es| ==> es[i] == Entry(i, records[i])
  {
    seq(|records|, i requires 0 <= i < |records| => Entry(i, records[i]))
  }

  lemma EnumerateMember(records: seq<Record>, x: Entry)
    requires x in Enumerate(records)
    ensures x.pos < |records| && records[x.pos] == x.rec
  {
    var es := Enumerate(records);
    var i :| 0 <= i < |es| && es[i] == x;
  }

  /** `_norm_name`: the name without any whitespace, lower-cased. */
  function NormName(name: string): (r: string)
    ensures |r| <= |name|
    ensures forall i :: 0 <= i < |r| ==> !IsSpace(r[i]) && !IsUpper(r[i])
  {
    Lower(RemoveSpaces(name))
  }

  /** Normalising a normalised name changes nothing. */
  lemma NormNameIdempotent(name: string)
    ensures NormName(NormName(name)) == NormName(name)
  {
    var r := NormName(name);
    assert RemoveSpaces(r) == r;
    LowerIdempotent(RemoveSpaces(name));
  }

  /** Names that differ only in spacing and ASCII case fall in one group. */
  lemma NormNameIgnoresSpacing(a: string, b: string)
    requires RemoveSpaces(Lower(a)) == RemoveSpaces(Lower(b))
    ensures NormName(a) == NormName(b)
  {
    LowerRemoveSpacesCommute(a);
    LowerRemoveSpacesCommute(b);
  }

  lemma {:induction false} LowerRemoveSpacesCommute(s: string)
    ensures Lower(RemoveSpaces(s)) == RemoveSpaces(Lower(s))
  {
    if s != [] {
      var c := s[0];
      var t := s[1..];
      LowerRemoveSpacesCommute(t);
      LowerCons(c, t);
      assert s == [c] + t;
      assert IsSpace(LowerChar(c)) == IsSpace(c);
      if !IsSpace(c) {
        LowerCons(c, RemoveSpaces(t));
      }
    }
  }

  lemma LowerCons(c: char, t: string)
    ensures Lower([c] + t) == [LowerChar(c)] + Lower(t)
  {
  }

  /** `_date_int`: the first eight decimal digits of the text as a number,
      or 0 when the text is empty or has fewer than eight digits. */
  function DateInt(s: string): (d: nat)
    ensures d < 100_000_000
    ensures s == "" || |Digits(s)| < 8 ==> d == 0
    ensures |Digits(s)| >= 8 ==> d == DigitsValue(Digits(s)[..8])
  {
    if s == "" then 0
    else
      var digits := Digits(s);
      if |digits| >= 8 then DigitsValue(digits[..8]) else 0
  }

  ghost predicate AllDigits(s: string)
  {
    forall i :: 0 <= i < |s| ==> IsDigit(s[i])
  }

  /** A date written `YYYYMMDD` or `YYYY-MM-DD`, whatever follows it, reads
      as the number `YYYYMMDD`. */
  lemma DateIntOfDate(y: string, m: string, d: string, rest: string)
    requires |y| == 4 && |m| == 2 && |d| == 2
    requires AllDigits(y) && AllDigits(m) && AllDigits(d)
    ensures DateInt(y + m + d + rest) == DigitsValue(y + m + d)
    ensures DateInt(y + "-" + m + "-" + d + rest) == DigitsValue(y + m + d)
    ensures DigitsValue(y + m + d) == DigitsValue(y) * 10000 + DigitsValue(m) * 100 + DigitsValue(d)
  {
    var ymd := y + m + d;
    DateValue(y, m, d);
    assert AllDigits(ymd);
    DigitsOfDigits(ymd);
    DigitsAppend(ymd, rest);
    assert Digits(ymd + rest)[..8] == ymd;
    assert ymd + rest != "";
    DateIntSeparated(y, m, d, rest);
  }

  /** `YYYYMMDD` reads as `YYYY * 10000 + MM * 100 + DD`. */
  lemma DateValue(y: string, m: string, d: string)
    requires |m| == 2 && |d| == 2
    requires AllDigits(y) && AllDigits(m) && AllDigits(d)
    ensures AllDigits(y + m + d)
    ensures DigitsValue(y + m + d) == DigitsValue(y) * 10000 + DigitsValue(m) * 100 + DigitsValue(d)
  {
    assert Pow10(|m|) == 100 && Pow10(|d|) == 100 by {
      assert Pow10(1) == 10;
    }
    DigitsValueAppend(y, m);
    var vy, vm, vd := DigitsValue(y), DigitsValue(m), DigitsValue(d);
    var vym := DigitsValue(y + m);
    assert vym == vy * 100 + vm;
    DigitsValueAppend(y + m, d);
    assert DigitsValue(y + m + d) == vym * 100 + vd;
    assert (vy * 100 + vm) * 100 == vy * 10000 + vm * 100;
  }

  lemma DateIntSeparated(y: string, m: string, d: string, rest: string)
    requires |y| == 4 && |m| == 2 && |d| == 2
    requires AllDigits(y) && AllDigits(m) && AllDigits(d)
    ensures AllDigits(y + m + d)
    ensures DateInt(y + "-" + m + "-" + d + rest) == DigitsValue(y + m + d)
  {
    var iso := y + "-" + m + "-" + d;
    DigitsOfDigits(y);
    DigitsOfDigits(m);
    DigitsOfDigits(d);
    assert Digits("-") == [];
    DigitsAppend(y, "-");
    DigitsAppend(y + "-", m);
    DigitsAppend(y + "-" + m, "-");
    DigitsAppend(y + "-" + m + "-", d);
    assert Digits(iso) == y + m + d;
    DigitsAppend(iso, rest);
    assert Digits(iso + rest)[..8] == y + m + d;
    assert iso + rest != "";
  }

  /** A record's amount signature: for each amount column in turn, its
      value with surrounding whitespace removed, "" when it is missing. */
  function Signature(r: Record, amtKeys: seq<string>): (sig: seq<string>)
    ensures |sig| == |amtKeys|
  {
    seq(|amtKeys|, i requires 0 <= i < |amtKeys| => StrippedField(r, amtKeys[i]))
  }

  /** Two records share a signature exactly when they agree, after
      stripping, on every amount column. */
  lemma SignatureEqual(r: Record, s: Record, amtKeys: seq<string>)
    ensures Signature(r, amtKeys) == Signature(s, amtKeys)
            <==> forall k :: k in amtKeys ==> StrippedField(r, k) == StrippedField(s, k)
  {
    var sr, ss := Signature(r, amtKeys), Signature(s, amtKeys);
    if sr == ss {
      forall k | k in amtKeys
        ensures StrippedField(r, k) == StrippedField(s, k)
      {
        var i :| 0 <= i < |amtKeys| && amtKeys[i] == k;
        assert sr[i] == ss[i];
      }
    }
  }

  /** `e` is at least as good a survivor as `f`: a later date, or the same
      date and an earlier (or the same) position. */
  predicate Preferred(e: Entry, f: Entry, date: Entry -> int)
  {
    date(f) < date(e) || (date(f) == date(e) && e.pos <= f.pos)
  }

  /** The survivor loop over a cluster: `best` replaces the current pick
      when none is chosen yet, when its date is later, or when its date is
      equal and its position earlier. */
  function Pick(bucket: seq<Entry>, best: Option<Entry>, date: Entry -> int): (r: Option<Entry>)
    ensures r.Some? <==> best.Some? || bucket != []
    ensures r.Some? ==> r.value in bucket || best == r
    ensures r.Some? ==> forall e :: e in bucket ==> Preferred(r.value, e, date)
    ensures best.Some? ==> Preferred(r.value, best.value, date)
  {
    if bucket == [] then best
    else
      var e := bucket[0];
      var next :=
        if best.None? || date(e) > date(best.value) || (date(e) == date(best.value) && e.pos < best.value.pos)
        then Some(e) else best;
      var r := Pick(bucket[1..], next, date);
      assert forall f :: f in bucket ==> f == e || f in bucket[1..];
      r
  }

  /** The one record kept from a cluster. */
  function Survivor(bucket: seq<Entry>, date: Entry -> int): (s: Entry)
    requires bucket != []
    ensures s in bucket
    ensures forall e :: e in bucket ==> Preferred(s, e, date)
  {
    if |bucket| == 1 then bucket[0] else Pick(bucket, None, date).value
  }

  function ClusterSurvivors<S>(clusters: seq<Group<S, Entry>>, date: Entry -> int): (out: seq<Entry>)
    requires forall i :: 0 <= i < |clusters| ==> clusters[i].members != []
    ensures |out| == |clusters|
    ensures forall i {:trigger out[i]} :: 0 <= i < |out| ==> out[i] == Survivor(clusters[i].members, date)
  {
    if clusters == [] then []
    else [Survivor(clusters[0].members, date)] + ClusterSurvivors(clusters[1..], date)
  }

  /** One name group: a lone record passes; otherwise one survivor per
      signature cluster, clusters in order of first appearance. */
  function GroupSurvivors<S(==)>(items: seq<Entry>, sig: Entry -> S, date: Entry -> int): seq<Entry>
    requires items != []
  {
    if |items| == 1 then [items[0]]
    else
      GroupByNonEmpty(items, sig);
      ClusterSurvivors(GroupBy(items, sig), date)
  }

  function FlattenGroups<N, S(==)>(groups: seq<Group<N, Entry>>, sig: Entry -> S, date: Entry -> int): seq<Entry>
    requires forall i :: 0 <= i < |groups| ==> groups[i].members != []
  {
    if groups == [] then []
    else GroupSurvivors(groups[0].members, sig, date) + FlattenGroups(groups[1..], sig, date)
  }

  /** What one name group contributes: records of the group with pairwise
      different signatures, one for every signature in the group, each
      preferred to every record of the group with its signature. */
  ghost predicate Survives<S>(out: seq<Entry>, items: seq<Entry>, sig: Entry -> S, date: Entry -> int)
  {
    && (forall x :: x in out ==> x in items)
    && (forall i, j :: 0 <= i < j < |out| ==> sig(out[i]) != sig(out[j]))
    && (forall e :: e in items ==> sig(e) in MapSeq(out, sig))
    && (forall x, e :: x in out && e in items && sig(x) == sig(e) ==> Preferred(x, e, date))
  }

  lemma ClusterSurvivorsKeys<S>(cs: seq<Group<S, Entry>>, items: seq<Entry>, sig: Entry -> S, date: Entry -> int)
    requires GroupsOf(cs, items, sig)
    ensures forall i :: 0 <= i < |ClusterSurvivors(cs, date)| ==>
              ClusterSurvivors(cs, date)[i] in items && sig(ClusterSurvivors(cs, date)[i]) == cs[i].key
  {
    var out := ClusterSurvivors(cs, date);
    forall i | 0 <= i < |out|
      ensures out[i] in items && sig(out[i]) == cs[i].key
    {
      assert out[i] in cs[i].members;
    }
  }

  lemma ClusterSurvivorsWithin<S>(cs: seq<Group<S, Entry>>, items: seq<Entry>, sig: Entry -> S, date: Entry -> int)
    requires GroupsOf(cs, items, sig)
    ensures forall x :: x in ClusterSurvivors(cs, date) ==> x in items
    ensures forall i, j :: 0 <= i < j < |ClusterSurvivors(cs, date)| ==>
              sig(ClusterSurvivors(cs, date)[i]) != sig(ClusterSurvivors(cs, date)[j])
  {
    var out := ClusterSurvivors(cs, date);
    var ks := Keys(cs);
    ClusterSurvivorsKeys(cs, items, sig, date);
    assert forall i :: 0 <= i < |out| ==> out[i] in items && sig(out[i]) == ks[i];
    assert forall i, j :: 0 <= i < j < |ks| ==> ks[i] != ks[j];
    KeyedWithin(out, ks, items, sig);
  }

  /** Elements of `items` with pairwise different keys `ks`, position by
      position, lie in `items` and have pairwise different signatures. */
  lemma KeyedWithin<S>(out: seq<Entry>, ks: seq<S>, items: seq<Entry>, sig: Entry -> S)
    requires |out| == |ks|
    requires forall i :: 0 <= i < |out| ==> out[i] in items && sig(out[i]) == ks[i]
    requires forall i, j :: 0 <= i < j < |ks| ==> ks[i] != ks[j]
    ensures forall x :: x in out ==> x in items
    ensures forall i, j :: 0 <= i < j < |out| ==> sig(out[i]) != sig(out[j])
  {
  }

  lemma ClusterSurvivorsCover<S>(cs: seq<Group<S, Entry>>, items: seq<Entry>, sig: Entry -> S, date: Entry -> int)
    requires IsGrouping(cs, items, sig)
    ensures forall e :: e in items ==> sig(e) in MapSeq(ClusterSurvivors(cs, date), sig)
  {
    var out := ClusterSurvivors(cs, date);
    var sigs := MapSeq(out, sig);
    ClusterSurvivorsKeys(cs, items, sig, date);
    forall e | e in items
      ensures sig(e) in sigs
    {
      var i :| 0 <= i < |cs| && cs[i].key == sig(e);
      assert sig(out[i]) == cs[i].key;
      assert sigs[i] == sig(e);
    }
  }

  lemma ClusterSurvivorsBest<S>(cs: seq<Group<S, Entry>>, items: seq<Entry>, sig: Entry -> S, date: Entry -> int)
    requires IsGrouping(cs, items, sig)
    ensures forall x, e :: x in ClusterSurvivors(cs, date) && e in items && sig(x) == sig(e) ==>
              Preferred(x, e, date)
  {
    var out := ClusterSurvivors(cs, date);
    forall x, e | x in out && e in items && sig(x) == sig(e)
      ensures Preferred(x, e, date)
    {
      var i :| 0 <= i < |out| && out[i] == x;
      assert out[i] in cs[i].members;
      assert e in cs[i].members;
    }
  }

  /** One survivor per cluster of a grouping: the clusters' survivors
      satisfy `Survives`. */
  lemma ClusterSurvivorsSpec<S>(cs: seq<Group<S, Entry>>, items: seq<Entry>, sig: Entry -> S, date: Entry -> int)
    requires IsGrouping(cs, items, sig)
    ensures Survives(ClusterSurvivors(cs, date), items, sig, date)
  {
    ClusterSurvivorsWithin(cs, items, sig, date);
    ClusterSurvivorsCover(cs, items, sig, date);
    ClusterSurvivorsBest(cs, items, sig, date);
  }

  lemma {:induction false} GroupSurvivorsSpec<S>(items: seq<Entry>, sig: Entry -> S, date: Entry -> int)
    requires items != []
    ensures Survives(GroupSurvivors(items, sig, date), items, sig, date)
  {
    var out := GroupSurvivors(items, sig, date);
    if |items| == 1 {
      assert forall e :: e in items ==> e == items[0];
      assert MapSeq(out, sig)[0] == sig(items[0]);
    } else {
      GroupByIsGrouping(items, sig);
      ClusterSurvivorsSpec(GroupBy(items, sig), items, sig, date);
    }
  }

  lemma GroupSurvivorsWithin<S>(items: seq<Entry>, sig: Entry -> S, date: Entry -> int)
    requires items != []
    ensures forall x :: x in GroupSurvivors(items, sig, date) ==> x in items
  {
    GroupSurvivorsSpec(items, sig, date);
  }

  lemma GroupSurvivorsDistinct<S>(items: seq<Entry>, sig: Entry -> S, date: Entry -> int)
    requires items != []
    ensures forall i, j :: 0 <= i < j < |GroupSurvivors(items, sig, date)| ==>
              sig(GroupSurvivors(items, sig, date)[i]) != sig(GroupSurvivors(items, sig, date)[j])
  {
    GroupSurvivorsSpec(items, sig, date);
  }

  lemma GroupSurvivorsCover<S>(items: seq<Entry>, sig: Entry -> S, date: Entry -> int)
    requires items != []
    ensures forall e :: e in items ==> sig(e) in MapSeq(GroupSurvivors(items, sig, date), sig)
  {
    GroupSurvivorsSpec(items, sig, date);
  }

  lemma GroupSurvivorsBest<S>(items: seq<Entry>, sig: Entry -> S, date: Entry -> int)
    requires items != []
    ensures forall x, e :: x in GroupSurvivors(items, sig, date) && e in items && sig(x) == sig(e) ==>
              Preferred(x, e, date)
  {
    GroupSurvivorsSpec(items, sig, date);
  }

  /** Same normalised name and same signature. */
  ghost predicate SameClass<N, S>(x: Entry, e: Entry, name: Entry -> N, sig: Entry -> S)
  {
    name(x) == name(e) && sig(x) == sig(e)
  }

  /** The (name, signature) classes of `out`, position by position. */
  ghost function ClassesOf<N, S>(out: seq<Entry>, name: Entry -> N, sig: Entry -> S): (r: seq<(N, S)>)
    ensures |r| == |out|
    ensures forall i :: 0 <= i < |out| ==> r[i] == (name(out[i]), sig(out[i]))
  {
    seq(|out|, i requires 0 <= i < |out| => (name(out[i]), sig(out[i])))
  }

  ghost function Keys<N, T>(groups: seq<Group<N, T>>): (ks: seq<N>)
    ensures |ks| == |groups|
    ensures forall i :: 0 <= i < |groups| ==> ks[i] == groups[i].key
  {
    seq(|groups|, i requires 0 <= i < |groups| => groups[i].key)
  }

  lemma {:induction false} FlattenWithin<N, S>(groups: seq<Group<N, Entry>>, es: seq<Entry>,
                                               name: Entry -> N, sig: Entry -> S, date: Entry -> int)
    requires GroupsOf(groups, es, name)
    ensures forall x :: x in FlattenGroups(groups, sig, date) ==> x in es && name(x) in Keys(groups)
  {
    if groups != [] {
      var a := GroupSurvivors(groups[0].members, sig, date);
      var b := FlattenGroups(groups[1..], sig, date);
      GroupSurvivorsWithin(groups[0].members, sig, date);
      GroupsOfTail(groups, es, name);
      FlattenWithin(groups[1..], es, name, sig, date);
      forall x | x in a + b
        ensures x in es && name(x) in Keys(groups)
      {
        if x in a {
          assert x in groups[0].members;
          assert Keys(groups)[0] == name(x);
        } else {
          assert x in b;
          var k :| 0 <= k < |groups[1..]| && Keys(groups[1..])[k] == name(x);
          assert Keys(groups)[k + 1] == name(x);
        }
      }
    }
  }

  lemma {:induction false} FlattenDistinct<N, S>(groups: seq<Group<N, Entry>>, es: seq<Entry>,
                                                 name: Entry -> N, sig: Entry -> S, date: Entry -> int)
    requires GroupsOf(groups, es, name)
    ensures forall i, j :: 0 <= i < j < |FlattenGroups(groups, sig, date)| ==>
              !SameClass(FlattenGroups(groups, sig, date)[i], FlattenGroups(groups, sig, date)[j], name, sig)
  {
    if groups != [] {
      var a := GroupSurvivors(groups[0].members, sig, date);
      var b := FlattenGroups(groups[1..], sig, date);
      var out := a + b;
      GroupSurvivorsWithin(groups[0].members, sig, date);
      GroupSurvivorsDistinct(groups[0].members, sig, date);
      GroupsOfTail(groups, es, name);
      FlattenDistinct(groups[1..], es, name, sig, date);
      FlattenWithin(groups[1..], es, name, sig, date);
      forall i, j | 0 <= i < j < |out|
        ensures !SameClass(out[i], out[j], name, sig)
      {
        if j < |a| {
          assert out[i] == a[i] && out[j] == a[j];
        } else if i >= |a| {
          assert out[i] == b[i - |a|] && out[j] == b[j - |a|];
        } else {
          assert out[i] == a[i] && out[j] == b[j - |a|];
          assert out[i] in groups[0].members;
          assert out[j] in b;
          var k :| 0 <= k < |groups[1..]| && Keys(groups[1..])[k] == name(out[j]);
        }
      }
    }
  }

  lemma {:induction false} FlattenCovers<N, S>(groups: seq<Group<N, Entry>>, es: seq<Entry>,
                                               name: Entry -> N, sig: Entry -> S, date: Entry -> int)
    requires GroupsOf(groups, es, name)
    ensures forall e :: e in es && name(e) in Keys(groups) ==>
              (name(e), sig(e)) in ClassesOf(FlattenGroups(groups, sig, date), name, sig)
  {
    if groups != [] {
      var g := groups[0];
      var a := GroupSurvivors(g.members, sig, date);
      var b := FlattenGroups(groups[1..], sig, date);
      GroupsOfTail(groups, es, name);
      FlattenCovers(groups[1..], es, name, sig, date);
      assert forall x :: x in g.members ==> name(x) == g.key;
      GroupClasses(g, name, sig, date);
      ClassesOfAppend(a, b, name, sig);
      assert Keys(groups) == [g.key] + Keys(groups[1..]);
      forall e | e in es && name(e) in Keys(groups)
        ensures (name(e), sig(e)) in ClassesOf(a, name, sig) + ClassesOf(b, name, sig)
      {
        if name(e) == g.key {
          assert e in g.members;
          PairedHas(g.key, g.members, sig, e);
        }
      }
    }
  }

  lemma PairedHas<N, S>(n: N, items: seq<Entry>, sig: Entry -> S, e: Entry)
    requires e in items
    ensures (n, sig(e)) in Paired(n, KeysInOrder(items, sig))
  {
    var ks := KeysInOrder(items, sig);
    KeysInOrderSpec(items, sig);
    var i :| 0 <= i < |ks| && ks[i] == sig(e);
    assert Paired(n, ks)[i] == (n, sig(e));
  }

  lemma {:induction false} FlattenBest<N, S>(groups: seq<Group<N, Entry>>, es: seq<Entry>,
                                             name: Entry -> N, sig: Entry -> S, date: Entry -> int)
    requires GroupsOf(groups, es, name)
    ensures forall x, e :: x in FlattenGroups(groups, sig, date) && e in es && SameClass(x, e, name, sig) ==>
              Preferred(x, e, date)
  {
    if groups != [] {
      var a := GroupSurvivors(groups[0].members, sig, date);
      var b := FlattenGroups(groups[1..], sig, date);
      GroupSurvivorsWithin(groups[0].members, sig, date);
      GroupSurvivorsBest(groups[0].members, sig, date);
      GroupsOfTail(groups, es, name);
      FlattenBest(groups[1..], es, name, sig, date);
      forall x, e | x in a + b && e in es && SameClass(x, e, name, sig)
        ensures Preferred(x, e, date)
      {
        if x in a {
          assert x in groups[0].members;
          assert e in groups[0].members;
        }
      }
    }
  }

  /** `n` paired with each of `ss`, in order. */
  ghost function Paired<N, S>(n: N, ss: seq<S>): (r: seq<(N, S)>)
    ensures |r| == |ss|
    ensures forall i :: 0 <= i < |ss| ==> r[i] == (n, ss[i])
  {
    seq(|ss|, i requires 0 <= i < |ss| => (n, ss[i]))
  }

  /** The classes a sequence of name groups yields: group by group, the
      group's key with each of its signatures in order of first appearance. */
  ghost function GroupClassOrder<N, S>(groups: seq<Group<N, Entry>>, sig: Entry -> S): seq<(N, S)>
  {
    if groups == [] then []
    else Paired(groups[0].key, KeysInOrder(groups[0].members, sig)) + GroupClassOrder(groups[1..], sig)
  }

  /** A name group emits one survivor per signature, in order of first
      appearance of the signature. */
  lemma GroupSurvivorsOrder<S>(items: seq<Entry>, sig: Entry -> S, date: Entry -> int)
    requires items != []
    ensures MapSeq(GroupSurvivors(items, sig, date), sig) == KeysInOrder(items, sig)
  {
    if |items| == 1 {
      assert items[..0] == [];
      assert KeysInOrder(items, sig) == [sig(items[0])];
    } else {
      var cs := GroupBy(items, sig);
      GroupByIsReference(items, sig);
      GroupByIsGrouping(items, sig);
      ClusterSurvivorsKeys(cs, items, sig, date);
    }
  }

  lemma {:induction false} FlattenOrder<N, S>(groups: seq<Group<N, Entry>>, name: Entry -> N,
                                              sig: Entry -> S, date: Entry -> int)
    requires forall i :: 0 <= i < |groups| ==> groups[i].members != []
    requires forall i, x :: 0 <= i < |groups| && x in groups[i].members ==> name(x) == groups[i].key
    ensures ClassesOf(FlattenGroups(groups, sig, date), name, sig) == GroupClassOrder(groups, sig)
  {
    if groups != [] {
      var g := groups[0];
      var rest := groups[1..];
      assert forall i :: 0 <= i < |rest| ==> rest[i] == groups[i + 1];
      FlattenOrder(rest, name, sig, date);
      GroupClasses(g, name, sig, date);
      ClassesOfAppend(GroupSurvivors(g.members, sig, date), FlattenGroups(rest, sig, date), name, sig);
    }
  }

  /** A name group's survivors carry the group's name and its signatures in
      order of first appearance. */
  lemma GroupClasses<N, S>(g: Group<N, Entry>, name: Entry -> N, sig: Entry -> S, date: Entry -> int)
    requires g.members != []
    requires forall x :: x in g.members ==> name(x) == g.key
    ensures ClassesOf(GroupSurvivors(g.members, sig, date), name, sig) == Paired(g.key, KeysInOrder(g.members, sig))
  {
    var a := GroupSurvivors(g.members, sig, date);
    GroupSurvivorsWithin(g.members, sig, date);
    GroupSurvivorsOrder(g.members, sig, date);
    var ca := ClassesOf(a, name, sig);
    forall i | 0 <= i < |a|
      ensures ca[i] == (g.key, MapSeq(a, sig)[i])
    {
      assert a[i] in a;
    }
  }

  lemma ClassesOfAppend<N, S>(a: seq<Entry>, b: seq<Entry>, name: Entry -> N, sig: Entry -> S)
    ensures ClassesOf(a + b, name, sig) == ClassesOf(a, name, sig) + ClassesOf(b, name, sig)
  {
    var cab := ClassesOf(a + b, name, sig);
    var cc := ClassesOf(a, name, sig) + ClassesOf(b, name, sig);
    forall i | 0 <= i < |a + b|
      ensures cab[i] == cc[i]
    {
      if i < |a| { assert (a + b)[i] == a[i]; } else { assert (a + b)[i] == b[i - |a|]; }
    }
  }

  /** The normalised name of a record. */
  function RecordName(r: Record): string
  {
    NormName(Field(r, NameField))
  }

  /** The name key of an entry. */
  function NameKey(e: Entry): string
  {
    RecordName(e.rec)
  }

  function SigKey(amtKeys: seq<string>): Entry -> seq<string>
  {
    (e: Entry) => Signature(e.rec, amtKeys)
  }

  /** The parsed `UPDATE_DATE` of a record. */
  function RecordDate(r: Record): int
  {
    DateInt(StrippedField(r, UpdateField))
  }

  function DateOf(e: Entry): int
  {
    RecordDate(e.rec)
  }

  /** The surviving records with their batch positions, in output order:
      name groups in order of first appearance, and within a group the
      signature clusters in order of first appearance. */
  function SurvivorEntries(records: seq<Record>): seq<Entry>
  {
    if records == [] then []
    else
      var es := Enumerate(records);
      GroupByNonEmpty(es, NameKey);
      FlattenGroups(GroupBy(es, NameKey), SigKey(AmtKeysAll(records)), DateOf)
  }

  /** The equivalence the dedupe works by: normalised name and signature. */
  function Class(r: Record, amtKeys: seq<string>): (string, seq<string>)
  {
    (RecordName(r), Signature(r, amtKeys))
  }

  /** The classes of `rs`, position by position. */
  function Classes(rs: seq<Record>, amtKeys: seq<string>): (cs: seq<(string, seq<string>)>)
    ensures |cs| == |rs|
    ensures forall i :: 0 <= i < |rs| ==> cs[i] == Class(rs[i], amtKeys)
  {
    seq(|rs|, i requires 0 <= i < |rs| => Class(rs[i], amtKeys))
  }

  function Recs(es: seq<Entry>): (rs: seq<Record>)
    ensures |rs| == |es|
    ensures forall i :: 0 <= i < |es| ==> rs[i] == es[i].rec
  {
    seq(|es|, i requires 0 <= i < |es| => es[i].rec)
  }

  /** `dedupe_by_name_and_amt`: one record per class, the latest-dated one
      (the earliest in the batch on a tie). */
  function DedupeByNameAndAmt(records: seq<Record>): (out: seq<Record>)
    ensures |out| <= |records|
    ensures forall r :: r in out ==> r in records
    ensures forall i, j :: 0 <= i < j < |out| ==>
              Class(out[i], AmtKeysAll(records)) != Class(out[j], AmtKeysAll(records))
    ensures forall r :: r in records ==> Class(r, AmtKeysAll(records)) in Classes(out, AmtKeysAll(records))
  {
    var es := SurvivorEntries(records);
    SurvivorsFromBatch(records);
    SurvivorsDistinct(records);
    SurvivorsCover(records);
    SurvivorsBound(records);
    var out := Recs(es);
    assert forall r :: r in out ==> r in records by {
      forall r | r in out
        ensures r in records
      {
        var t :| 0 <= t < |out| && out[t] == r;
        assert records[es[t].pos] == r;
      }
    }
    out
  }

  function RecordSig(amtKeys: seq<string>): Record -> seq<string>
  {
    r => Signature(r, amtKeys)
  }

  /** The classes of `records` in the order the dedupe emits them: names in
      order of first appearance, and under each name its signatures in order
      of first appearance among the records of that name. */
  ghost function ClassOrder(records: seq<Record>, amtKeys: seq<string>): seq<(string, seq<string>)>
  {
    NamesClassOrder(KeysInOrder(records, RecordName), records, amtKeys)
  }

  ghost function NamesClassOrder(names: seq<string>, records: seq<Record>, amtKeys: seq<string>)
    : seq<(string, seq<string>)>
  {
    if names == [] then []
    else Paired(names[0], KeysInOrder(Members(records, RecordName, names[0]), RecordSig(amtKeys)))
         + NamesClassOrder(names[1..], records, amtKeys)
  }

  lemma {:induction false} GroupClassOrderNames(groups: seq<Group<string, Entry>>, names: seq<string>,
                                                records: seq<Record>, amtKeys: seq<string>)
    requires |groups| == |names|
    requires forall i :: 0 <= i < |groups| ==> groups[i].key == names[i]
    requires forall i :: 0 <= i < |groups| ==>
               KeysInOrder(groups[i].members, SigKey(amtKeys))
               == KeysInOrder(Members(records, RecordName, names[i]), RecordSig(amtKeys))
    ensures GroupClassOrder(groups, SigKey(amtKeys)) == NamesClassOrder(names, records, amtKeys)
  {
    if groups != [] {
      assert forall i :: 0 <= i < |groups| - 1 ==> groups[1..][i] == groups[i + 1] && names[1..][i] == names[i + 1];
      GroupClassOrderNames(groups[1..], names[1..], records, amtKeys);
    }
  }

  /** The name groups of the batch, read back on the records: the same names
      in the same order, each with the same signatures in the same order. */
  lemma NameGroupsOrder(records: seq<Record>, amtKeys: seq<string>)
    ensures GroupClassOrder(GroupBy(Enumerate(records), NameKey), SigKey(amtKeys)) == ClassOrder(records, amtKeys)
  {
    var es := Enumerate(records);
    var groups := GroupBy(es, NameKey);
    var names := KeysInOrder(records, RecordName);
    GroupByIsReference(es, NameKey);
    KeysInOrderMap(es, records, NameKey, RecordName);
    forall i | 0 <= i < |groups|
      ensures KeysInOrder(groups[i].members, SigKey(amtKeys))
              == KeysInOrder(Members(records, RecordName, names[i]), RecordSig(amtKeys))
    {
      var n := names[i];
      var me := Members(es, NameKey, n);
      var mr := Members(records, RecordName, n);
      MembersMap(es, records, (e: Entry) => e.rec, NameKey, RecordName, n);
      KeysInOrderMap(me, mr, SigKey(amtKeys), RecordSig(amtKeys));
    }
    GroupClassOrderNames(groups, names, records, amtKeys);
  }

  /** The output of `dedupe_by_name_and_amt` lists its classes in
      `ClassOrder`: grouped by name in order of the name's first appearance,
      and within a name by order of the signature's first appearance. */
  lemma DedupeOrder(records: seq<Record>)
    ensures Classes(DedupeByNameAndAmt(records), AmtKeysAll(records)) == ClassOrder(records, AmtKeysAll(records))
  {
    var ak := AmtKeysAll(records);
    if records != [] {
      var es := Enumerate(records);
      var groups := GroupBy(es, NameKey);
      GroupBySpec(es, NameKey);
      var sv := SurvivorEntries(records);
      assert sv == FlattenGroups(groups, SigKey(ak), DateOf);
      FlattenOrder(groups, NameKey, SigKey(ak), DateOf);
      NameGroupsOrder(records, ak);
      var out := DedupeByNameAndAmt(records);
      assert out == Recs(sv);
      assert Classes(out, ak) == ClassesOf(sv, NameKey, SigKey(ak));
    }
  }

  /** `records[p]` is the one `dedupe_by_name_and_amt` keeps of its class:
      no record of the class is dated later, and none dated the same comes
      earlier in the batch. */
  ghost predicate LatestOfClass(records: seq<Record>, p: int, amtKeys: seq<string>)
    requires 0 <= p < |records|
  {
    forall i :: 0 <= i < |records| && Class(records[i], amtKeys) == Class(records[p], amtKeys) ==>
      RecordDate(records[i]) < RecordDate(records[p])
      || (RecordDate(records[i]) == RecordDate(records[p]) && p <= i)
  }

  /** Every kept record is, at some position of the batch, the latest of its
      class (the earliest among equally dated ones). */
  lemma DedupeKeepsLatest(records: seq<Record>, t: int)
    requires 0 <= t < |DedupeByNameAndAmt(records)|
    ensures exists p :: 0 <= p < |records| && records[p] == DedupeByNameAndAmt(records)[t]
                        && LatestOfClass(records, p, AmtKeysAll(records))
  {
    var es := SurvivorEntries(records);
    SurvivorsFromBatch(records);
    SurvivorsLatest(records);
    var p := es[t].pos;
    assert records[p] == DedupeByNameAndAmt(records)[t];
    assert LatestOfClass(records, p, AmtKeysAll(records));
  }

  /** Conversely, the latest record of each class (the earliest among
      equally dated ones) is kept. */
  lemma DedupeKeepsEveryLatest(records: seq<Record>, p: int)
    requires 0 <= p < |records| && LatestOfClass(records, p, AmtKeysAll(records))
    ensures records[p] in DedupeByNameAndAmt(records)
  {
    var ak := AmtKeysAll(records);
    var es := SurvivorEntries(records);
    var out := DedupeByNameAndAmt(records);
    var c := Class(records[p], ak);
    SurvivorsCover(records);
    assert c in Classes(out, ak);
    var t :| 0 <= t < |out| && Classes(out, ak)[t] == c;
    SurvivorsFromBatch(records);
    var q := es[t].pos;
    assert records[q] == out[t];
    assert Class(records[q], ak) == c;
    SurvivorsLatest(records);
    assert RecordDate(records[p]) < RecordDate(records[q])
           || (RecordDate(records[p]) == RecordDate(records[q]) && q <= p);
    assert RecordDate(records[q]) < RecordDate(records[p])
           || (RecordDate(records[q]) == RecordDate(records[p]) && p <= q);
    assert out[t] in out;
  }

  lemma EntryClass(e: Entry, amtKeys: seq<string>)
    ensures Class(e.rec, amtKeys) == (NameKey(e), SigKey(amtKeys)(e))
  {
  }

  lemma SurvivorsFromBatch(records: seq<Record>)
    ensures forall t :: 0 <= t < |SurvivorEntries(records)| ==>
              SurvivorEntries(records)[t].pos < |records|
              && records[SurvivorEntries(records)[t].pos] == SurvivorEntries(records)[t].rec
  {
    if records != [] {
      var es := Enumerate(records);
      var groups := GroupBy(es, NameKey);
      var out := SurvivorEntries(records);
      GroupByIsGrouping(es, NameKey);
      FlattenWithin(groups, es, NameKey, SigKey(AmtKeysAll(records)), DateOf);
      forall t | 0 <= t < |out|
        ensures out[t].pos < |records| && records[out[t].pos] == out[t].rec
      {
        assert out[t] in out;
        EnumerateMember(records, out[t]);
      }
    }
  }

  lemma SurvivorsDistinct(records: seq<Record>)
    ensures forall s, t :: 0 <= s < t < |SurvivorEntries(records)| ==>
              Class(SurvivorEntries(records)[s].rec, AmtKeysAll(records))
              != Class(SurvivorEntries(records)[t].rec, AmtKeysAll(records))
  {
    if records != [] {
      var ak := AmtKeysAll(records);
      var es := Enumerate(records);
      var groups := GroupBy(es, NameKey);
      var out := SurvivorEntries(records);
      GroupByIsGrouping(es, NameKey);
      FlattenDistinct(groups, es, NameKey, SigKey(ak), DateOf);
      forall s, t | 0 <= s < t < |out|
        ensures Class(out[s].rec, ak) != Class(out[t].rec, ak)
      {
        EntryClass(out[s], ak);
        EntryClass(out[t], ak);
        assert !SameClass(out[s], out[t], NameKey, SigKey(ak));
      }
    }
  }

  lemma ClassesAgree(out: seq<Entry>, amtKeys: seq<string>)
    ensures Classes(Recs(out), amtKeys) == ClassesOf(out, NameKey, SigKey(amtKeys))
  {
    var cs := Classes(Recs(out), amtKeys);
    var ds := ClassesOf(out, NameKey, SigKey(amtKeys));
    forall t | 0 <= t < |out|
      ensures cs[t] == ds[t]
    {
      EntryClass(out[t], amtKeys);
    }
  }

  lemma SurvivorsCover(records: seq<Record>)
    ensures forall i :: 0 <= i < |records| ==>
              Class(records[i], AmtKeysAll(records)) in Classes(Recs(SurvivorEntries(records)), AmtKeysAll(records))
  {
    if records != [] {
      var ak := AmtKeysAll(records);
      var sk := SigKey(ak);
      var es := Enumerate(records);
      var groups := GroupBy(es, NameKey);
      var out := SurvivorEntries(records);
      GroupByIsGrouping(es, NameKey);
      FlattenCovers(groups, es, NameKey, sk, DateOf);
      ClassesAgree(out, ak);
      forall i | 0 <= i < |records|
        ensures Class(records[i], ak) in ClassesOf(out, NameKey, sk)
      {
        var e := es[i];
        assert e in es;
        var g :| 0 <= g < |groups| && groups[g].key == NameKey(e);
        assert Keys(groups)[g] == NameKey(e);
        EntryClass(e, ak);
      }
    }
  }

  /** Of each class, the survivor carries the latest date of the class, and
      on equal dates it is the earliest record of the class in the batch. */
  lemma SurvivorsLatest(records: seq<Record>)
    ensures forall t, i :: 0 <= t < |SurvivorEntries(records)| && 0 <= i < |records|
                           && Class(records[i], AmtKeysAll(records))
                              == Class(SurvivorEntries(records)[t].rec, AmtKeysAll(records)) ==>
              RecordDate(records[i]) < RecordDate(SurvivorEntries(records)[t].rec)
              || (RecordDate(records[i]) == RecordDate(SurvivorEntries(records)[t].rec)
                  && SurvivorEntries(records)[t].pos <= i)
  {
    if records != [] {
      var ak := AmtKeysAll(records);
      var sk := SigKey(ak);
      var es := Enumerate(records);
      var groups := GroupBy(es, NameKey);
      var out := SurvivorEntries(records);
      GroupByIsGrouping(es, NameKey);
      FlattenBest(groups, es, NameKey, sk, DateOf);
      forall t, i | 0 <= t < |out| && 0 <= i < |records| && Class(records[i], ak) == Class(out[t].rec, ak)
        ensures RecordDate(records[i]) < RecordDate(out[t].rec)
                || (RecordDate(records[i]) == RecordDate(out[t].rec) && out[t].pos <= i)
      {
        var e := es[i];
        assert e in es;
        assert out[t] in out;
        EntryClass(out[t], ak);
        EntryClass(e, ak);
        assert Preferred(out[t], e, DateOf);
      }
    }
  }

  /** The survivors sit at pairwise different positions of the batch, so
      there are at most as many as records. */
  lemma SurvivorsBound(records: seq<Record>)
    ensures |SurvivorEntries(records)| <= |records|
  {
    var out := SurvivorEntries(records);
    SurvivorsFromBatch(records);
    SurvivorsDistinct(records);
    var ps := seq(|out|, t requires 0 <= t < |out| => out[t].pos);
    forall s, t | 0 <= s < t < |ps|
      ensures ps[s] != ps[t]
    {
      assert out[s].rec != out[t].rec;
    }
    DistinctBelow(ps, |records|);
  }

  ghost function ValueSet(ps: seq<nat>): set<nat>
  {
    set p | p in ps
  }

  /** The numbers below `n`. */
  ghost function Below(n: nat): (b: set<nat>)
    ensures forall i: nat :: i in b <==> i < n
  {
    if n == 0 then {} else Below(n - 1) + {n - 1}
  }

  lemma {:induction false} DistinctSetSize(ps: seq<nat>)
    requires forall s, t :: 0 <= s < t < |ps| ==> ps[s] != ps[t]
    ensures |ValueSet(ps)| == |ps|
  {
    if ps != [] {
      var init := ps[..|ps| - 1];
      var last := ps[|ps| - 1];
      assert forall s, t :: 0 <= s < t < |init| ==> init[s] != init[t] by {
        assert forall k :: 0 <= k < |init| ==> init[k] == ps[k];
      }
      DistinctSetSize(init);
      assert ps == init + [last];
      assert last !in init by {
        forall k | 0 <= k < |init|
          ensures init[k] != last
        {
          assert init[k] == ps[k];
        }
      }
      assert ValueSet(ps) == ValueSet(init) + {last};
    }
  }

  lemma {:induction false} BelowSize(n: nat)
    ensures |Below(n)| == n
  {
    if n > 0 {
      BelowSize(n - 1);
      var prev := Below(n - 1);
      assert Below(n) == prev + {n - 1};
      assert n - 1 !in prev;
      assert |prev + {n - 1}| == |prev| + 1;
    }
  }

  lemma {:induction false} SubsetSize(a: set<nat>, b: set<nat>)
    requires a <= b
    ensures |a| <= |b|
    decreases |a|
  {
    if a != {} {
      var x :| x in a;
      SubsetSize(a - {x}, b - {x});
    }
  }

  /** Pairwise different numbers below `n` are at most `n` many. */
  lemma DistinctBelow(ps: seq<nat>, n: nat)
    requires forall t :: 0 <= t < |ps| ==> ps[t] < n
    requires forall s, t :: 0 <= s < t < |ps| ==> ps[s] != ps[t]
    ensures |ps| <= n
  {
    DistinctSetSize(ps);
    BelowSize(n);
    SubsetSize(ValueSet(ps), Below(n));
  }
}
