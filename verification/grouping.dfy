/** Grouping into an insertion-ordered dict of lists, as
    `groups.setdefault(k, []).append(x)` does in the collector. */
module Grouping {

  datatype Group<K, T> = Group(key: K, members: seq<T>)

  /** `f` applied to each element of `xs`, position by position. */
  ghost function MapSeq<A, B>(xs: seq<A>, f: A -> B): (ys: seq<B>)
    ensures |ys| == |xs|
    ensures forall i :: 0 <= i < |xs| ==> ys[i] == f(xs[i])
  {
    seq(|xs|, i requires 0 <= i < |xs| => f(xs[i]))
  }

  /** `groups.setdefault(k, []).append(x)`: appends to the group of `k`, or
      opens a new group at the end. */
  function AddTo<K(==), T>(gs: seq<Group<K, T>>, k: K, x: T): (r: seq<Group<K, T>>)
    ensures |r| >= 1
  {
    if gs == [] then [Group(k, [x])]
    else if gs[0].key == k then [gs[0].(members := gs[0].members + [x])] + gs[1..]
    else [gs[0]] + AddTo(gs[1..], k, x)
  }

  /** The dict built by the `setdefault`/`append` loop over `xs`, as a
      sequence of groups in the dict's iteration order. */
  function GroupBy<K(==), T>(xs: seq<T>, key: T -> K): seq<Group<K, T>>
  {
    if xs == [] then []
    else AddTo(GroupBy(xs[..|xs| - 1], key), key(xs[|xs| - 1]), xs[|xs| - 1])
  }

  /** The distinct keys of `xs` in order of first appearance. */
  ghost function KeysInOrder<K, T>(xs: seq<T>, key: T -> K): seq<K>
  {
    if xs == [] then []
    else
      var ks := KeysInOrder(xs[..|xs| - 1], key);
      if key(xs[|xs| - 1]) in ks then ks else ks + [key(xs[|xs| - 1])]
  }

  /** The elements of `xs` with key `k`, in order. */
  ghost function Members<K, T>(xs: seq<T>, key: T -> K, k: K): seq<T>
  {
    if xs == [] then []
    else Members(xs[..|xs| - 1], key, k) + (if key(xs[|xs| - 1]) == k then [xs[|xs| - 1]] else [])
  }

  ghost predicate Distinct<K>(ks: seq<K>)
  {
    forall i, j :: 0 <= i < j < |ks| ==> ks[i] != ks[j]
  }

  lemma {:induction false} KeysInOrderSpec<K, T>(xs: seq<T>, key: T -> K)
    ensures Distinct(KeysInOrder(xs, key))
    ensures |KeysInOrder(xs, key)| <= |xs|
    ensures forall k :: k in KeysInOrder(xs, key) ==> exists x :: x in xs && key(x) == k
    ensures forall x :: x in xs ==> key(x) in KeysInOrder(xs, key)
  {
    if xs != [] {
      var init := xs[..|xs| - 1];
      var last := xs[|xs| - 1];
      KeysInOrderSpec(init, key);
      assert forall x :: x in xs <==> x in init || x == last by {
        assert xs == init + [last];
      }
    }
  }

  lemma {:induction false} MembersSpec<K, T>(xs: seq<T>, key: T -> K, k: K)
    ensures |Members(xs, key, k)| <= |xs|
    ensures forall y :: y in Members(xs, key, k) <==> y in xs && key(y) == k
  {
    if xs != [] {
      var init := xs[..|xs| - 1];
      var last := xs[|xs| - 1];
      MembersSpec(init, key, k);
      assert forall x :: x in xs <==> x in init || x == last by {
        assert xs == init + [last];
      }
    }
  }

  lemma {:induction false} AddToFound<K, T>(gs: seq<Group<K, T>>, k: K, x: T, j: int)
    requires 0 <= j < |gs| && gs[j].key == k
    requires forall i :: 0 <= i < j ==> gs[i].key != k
    ensures |AddTo(gs, k, x)| == |gs|
    ensures AddTo(gs, k, x)[j] == Group(k, gs[j].members + [x])
    ensures forall i :: 0 <= i < |gs| && i != j ==> AddTo(gs, k, x)[i] == gs[i]
  {
    if j > 0 {
      AddToFound(gs[1..], k, x, j - 1);
    }
  }

  lemma {:induction false} AddToMissing<K, T>(gs: seq<Group<K, T>>, k: K, x: T)
    requires forall i :: 0 <= i < |gs| ==> gs[i].key != k
    ensures AddTo(gs, k, x) == gs + [Group(k, [x])]
  {
    if gs != [] {
      AddToMissing(gs[1..], k, x);
      assert gs == [gs[0]] + gs[1..];
    }
  }

  lemma {:induction false} MembersNone<K, T>(xs: seq<T>, key: T -> K, k: K)
    requires k !in KeysInOrder(xs, key)
    ensures Members(xs, key, k) == []
  {
    if xs != [] {
      var init := xs[..|xs| - 1];
      assert k !in KeysInOrder(init, key);
      MembersNone(init, key, k);
    }
  }

  /** The `setdefault`/`append` loop yields one group per distinct key, in
      order of first appearance, holding exactly that key's elements in order. */
  lemma {:induction false} GroupByIsReference<K, T>(xs: seq<T>, key: T -> K)
    ensures Reference(GroupBy(xs, key), xs, key)
  {
    if xs != [] {
      var init := xs[..|xs| - 1];
      var k := key(xs[|xs| - 1]);
      GroupByIsReference(init, key);
      KeysInOrderSpec(init, key);
      if k in KeysInOrder(init, key) {
        GroupByFoundStep(xs, key, GroupBy(init, key), GroupBy(xs, key));
      } else {
        GroupByMissingStep(xs, key, GroupBy(init, key), GroupBy(xs, key));
      }
    }
  }

  /** `gs` is one group per distinct key of `xs`, in order of first
      appearance, holding that key's elements in order. */
  ghost predicate Reference<K, T>(gs: seq<Group<K, T>>, xs: seq<T>, key: T -> K)
  {
    && |gs| == |KeysInOrder(xs, key)|
    && forall i :: 0 <= i < |gs| ==> gs[i] == Group(KeysInOrder(xs, key)[i], Members(xs, key, KeysInOrder(xs, key)[i]))
  }

  /** The last element's key already has a group. */
  lemma GroupByFoundStep<K, T>(xs: seq<T>, key: T -> K, g: seq<Group<K, T>>, gs: seq<Group<K, T>>)
    requires xs != []
    requires Reference(g, xs[..|xs| - 1], key)
    requires Distinct(KeysInOrder(xs[..|xs| - 1], key))
    requires key(xs[|xs| - 1]) in KeysInOrder(xs[..|xs| - 1], key)
    requires gs == AddTo(g, key(xs[|xs| - 1]), xs[|xs| - 1])
    ensures Reference(gs, xs, key)
  {
    var init := xs[..|xs| - 1];
    var last := xs[|xs| - 1];
    var k := key(last);
    var ks := KeysInOrder(init, key);
    var j :| 0 <= j < |ks| && ks[j] == k;
    assert forall i :: 0 <= i < j ==> g[i].key == ks[i] != k;
    AddToFound(g, k, last, j);
    KeysSnoc(xs, key);
    FoundAll(xs, key, g, ks, gs, j);
    ReferenceOf(gs, xs, key, ks);
  }

  lemma ReferenceOf<K, T>(gs: seq<Group<K, T>>, xs: seq<T>, key: T -> K, ks: seq<K>)
    requires KeysInOrder(xs, key) == ks && |gs| == |ks|
    requires forall i :: 0 <= i < |gs| ==> gs[i] == Group(ks[i], Members(xs, key, ks[i]))
    ensures Reference(gs, xs, key)
  {
  }

  lemma FoundAll<K, T>(xs: seq<T>, key: T -> K, g: seq<Group<K, T>>, ks: seq<K>, gs: seq<Group<K, T>>, j: int)
    requires xs != [] && |gs| == |g| == |ks| && 0 <= j < |g|
    requires ks[j] == key(xs[|xs| - 1]) && Distinct(ks)
    requires forall i :: 0 <= i < |g| ==> g[i] == Group(ks[i], Members(xs[..|xs| - 1], key, ks[i]))
    requires gs[j] == Group(ks[j], g[j].members + [xs[|xs| - 1]])
    requires forall i :: 0 <= i < |g| && i != j ==> gs[i] == g[i]
    ensures forall i :: 0 <= i < |gs| ==> gs[i] == Group(ks[i], Members(xs, key, ks[i]))
  {
    forall i | 0 <= i < |gs|
      ensures gs[i] == Group(ks[i], Members(xs, key, ks[i]))
    {
      assert i != j ==> ks[i] != ks[j];
      FoundEntry(xs, key, g, ks, gs, i, j);
    }
  }

  lemma FoundEntry<K, T>(xs: seq<T>, key: T -> K, g: seq<Group<K, T>>, ks: seq<K>, gs: seq<Group<K, T>>, i: int, j: int)
    requires xs != [] && |gs| == |g| == |ks| && 0 <= i < |g| && 0 <= j < |g|
    requires ks[j] == key(xs[|xs| - 1])
    requires g[i] == Group(ks[i], Members(xs[..|xs| - 1], key, ks[i]))
    requires i == j ==> gs[i] == Group(ks[j], g[j].members + [xs[|xs| - 1]])
    requires i != j ==> gs[i] == g[i] && ks[i] != ks[j]
    ensures gs[i] == Group(ks[i], Members(xs, key, ks[i]))
  {
    MembersSnoc(xs, key, ks[i]);
  }

  /** The last element opens a new group. */
  lemma GroupByMissingStep<K, T>(xs: seq<T>, key: T -> K, g: seq<Group<K, T>>, gs: seq<Group<K, T>>)
    requires xs != []
    requires Reference(g, xs[..|xs| - 1], key)
    requires key(xs[|xs| - 1]) !in KeysInOrder(xs[..|xs| - 1], key)
    requires gs == AddTo(g, key(xs[|xs| - 1]), xs[|xs| - 1])
    ensures Reference(gs, xs, key)
  {
    var init := xs[..|xs| - 1];
    var last := xs[|xs| - 1];
    var k := key(last);
    var ks := KeysInOrder(init, key);
    AddToMissing(g, k, last);
    KeysSnoc(xs, key);
    var kk := ks + [k];
    forall i | 0 <= i < |gs|
      ensures gs[i] == Group(kk[i], Members(xs, key, kk[i]))
    {
      MembersSnoc(xs, key, kk[i]);
      if i < |ks| {
        assert kk[i] == ks[i] && ks[i] != k;
        assert gs[i] == g[i];
      } else {
        MembersNone(init, key, k);
        assert gs[i] == Group(k, [last]);
      }
    }
  }

  lemma KeysSnoc<K, T>(xs: seq<T>, key: T -> K)
    requires xs != []
    ensures var ks := KeysInOrder(xs[..|xs| - 1], key);
            KeysInOrder(xs, key) == if key(xs[|xs| - 1]) in ks then ks else ks + [key(xs[|xs| - 1])]
  {
  }

  lemma MembersSnoc<K, T>(xs: seq<T>, key: T -> K, k: K)
    requires xs != []
    ensures Members(xs, key, k)
            == Members(xs[..|xs| - 1], key, k) + (if key(xs[|xs| - 1]) == k then [xs[|xs| - 1]] else [])
  {
  }

  /** Keys that agree position by position give the same key order. */
  lemma {:induction false} KeysInOrderMap<K, T, U>(xs: seq<T>, ys: seq<U>, kx: T -> K, ky: U -> K)
    requires |xs| == |ys|
    requires forall i :: 0 <= i < |xs| ==> kx(xs[i]) == ky(ys[i])
    ensures KeysInOrder(xs, kx) == KeysInOrder(ys, ky)
  {
    if xs != [] {
      var n := |xs| - 1;
      assert forall i :: 0 <= i < n ==> xs[..n][i] == xs[i] && ys[..n][i] == ys[i];
      KeysInOrderMap(xs[..n], ys[..n], kx, ky);
      assert kx(xs[n]) == ky(ys[n]);
    }
  }

  /** Mapping every element by `f`, under a key that `f` preserves, maps
      the members of each key in order. */
  lemma {:induction false} MembersMap<K, T, U>(xs: seq<T>, ys: seq<U>, f: T -> U, kx: T -> K, ky: U -> K, k: K)
    requires |xs| == |ys|
    requires forall i :: 0 <= i < |xs| ==> ys[i] == f(xs[i])
    requires forall x :: kx(x) == ky(f(x))
    ensures |Members(ys, ky, k)| == |Members(xs, kx, k)|
    ensures forall i :: 0 <= i < |Members(xs, kx, k)| ==> Members(ys, ky, k)[i] == f(Members(xs, kx, k)[i])
  {
    if xs != [] {
      var n := |xs| - 1;
      assert forall i :: 0 <= i < n ==> ys[..n][i] == f(xs[..n][i]);
      MembersMap(xs[..n], ys[..n], f, kx, ky, k);
      assert ys[n] == f(xs[n]);
      assert kx(xs[n]) == ky(ys[n]);
    }
  }

  lemma KeyHasWitness<K, T>(xs: seq<T>, key: T -> K, k: K) returns (x: T)
    requires k in KeysInOrder(xs, key)
    ensures x in xs && key(x) == k
  {
    KeysInOrderSpec(xs, key);
    x :| x in xs && key(x) == k;
  }

  lemma WitnessHasKey<K, T>(xs: seq<T>, key: T -> K, x: T) returns (i: int)
    requires x in xs
    ensures 0 <= i < |KeysInOrder(xs, key)| && KeysInOrder(xs, key)[i] == key(x)
  {
    KeysInOrderSpec(xs, key);
    var ks := KeysInOrder(xs, key);
    assert key(x) in ks;
    i :| 0 <= i < |ks| && ks[i] == key(x);
  }

  lemma GroupMember<K, T>(xs: seq<T>, key: T -> K, i: int, y: T)
    requires 0 <= i < |GroupBy(xs, key)|
    ensures y in GroupBy(xs, key)[i].members <==> y in xs && key(y) == GroupBy(xs, key)[i].key
  {
    GroupByIsReference(xs, key);
    MembersSpec(xs, key, KeysInOrder(xs, key)[i]);
  }

  lemma GroupByNonEmpty<K, T>(xs: seq<T>, key: T -> K)
    ensures forall i :: 0 <= i < |GroupBy(xs, key)| ==> GroupBy(xs, key)[i].members != []
  {
    var g := GroupBy(xs, key);
    var ks := KeysInOrder(xs, key);
    GroupByIsReference(xs, key);
    forall i | 0 <= i < |g|
      ensures g[i].members != []
    {
      var x := KeyHasWitness(xs, key, ks[i]);
      GroupMember(xs, key, i, x);
    }
  }

  lemma GroupByKeys<K, T>(xs: seq<T>, key: T -> K)
    ensures |GroupBy(xs, key)| <= |xs|
    ensures forall i, j :: 0 <= i < j < |GroupBy(xs, key)| ==> GroupBy(xs, key)[i].key != GroupBy(xs, key)[j].key
  {
    GroupByIsReference(xs, key);
    KeysInOrderSpec(xs, key);
  }

  /** Some group of `gs` has key `k`. */
  ghost predicate HasGroup<K, T>(gs: seq<Group<K, T>>, k: K)
  {
    exists i :: 0 <= i < |gs| && gs[i].key == k
  }

  lemma GroupByCovers<K, T>(xs: seq<T>, key: T -> K)
    ensures forall x :: x in xs ==> HasGroup(GroupBy(xs, key), key(x))
  {
    GroupByIsReference(xs, key);
    forall x | x in xs
      ensures HasGroup(GroupBy(xs, key), key(x))
    {
      var i := WitnessHasKey(xs, key, x);
      GroupKeyAt(xs, key, i);
    }
  }

  lemma GroupKeyAt<K, T>(xs: seq<T>, key: T -> K, i: int)
    requires Reference(GroupBy(xs, key), xs, key)
    requires 0 <= i < |KeysInOrder(xs, key)|
    ensures 0 <= i < |GroupBy(xs, key)| && GroupBy(xs, key)[i].key == KeysInOrder(xs, key)[i]
  {
  }

  /** Every group of `GroupBy` has members, all with the group's key; the
      keys are distinct and are exactly the keys of the input. */
  lemma GroupBySpec<K, T>(xs: seq<T>, key: T -> K)
    ensures |GroupBy(xs, key)| <= |xs|
    ensures forall i :: 0 <= i < |GroupBy(xs, key)| ==> GroupBy(xs, key)[i].members != []
    ensures forall i, j :: 0 <= i < j < |GroupBy(xs, key)| ==> GroupBy(xs, key)[i].key != GroupBy(xs, key)[j].key
    ensures forall i, y :: 0 <= i < |GroupBy(xs, key)| && y in GroupBy(xs, key)[i].members ==>
              y in xs && key(y) == GroupBy(xs, key)[i].key
    ensures forall i, y :: 0 <= i < |GroupBy(xs, key)| && y in xs && key(y) == GroupBy(xs, key)[i].key ==>
              y in GroupBy(xs, key)[i].members
    ensures forall x :: x in xs ==> exists i :: 0 <= i < |GroupBy(xs, key)| && GroupBy(xs, key)[i].key == key(x)
  {
    var g := GroupBy(xs, key);
    GroupByNonEmpty(xs, key);
    GroupByKeys(xs, key);
    GroupByCovers(xs, key);
    forall i, y | 0 <= i < |g| && y in g[i].members
      ensures y in xs && key(y) == g[i].key
    {
      GroupMember(xs, key, i, y);
    }
    forall i, y | 0 <= i < |g| && y in xs && key(y) == g[i].key
      ensures y in g[i].members
    {
      GroupMember(xs, key, i, y);
    }
  }

  /** `gs` groups the elements of `es` by `key`: non-empty groups with
      distinct keys, each holding exactly the elements with its key. */
  ghost predicate GroupsOf<K, T>(gs: seq<Group<K, T>>, es: seq<T>, key: T -> K)
  {
    && (forall i :: 0 <= i < |gs| ==> gs[i].members != [])
    && (forall i, j :: 0 <= i < j < |gs| ==> gs[i].key != gs[j].key)
    && (forall i, y :: 0 <= i < |gs| && y in gs[i].members ==> y in es && key(y) == gs[i].key)
    && (forall i, y :: 0 <= i < |gs| && y in es && key(y) == gs[i].key ==> y in gs[i].members)
  }

  /** `GroupsOf`, and every element of `es` has its group. */
  ghost predicate IsGrouping<K, T>(gs: seq<Group<K, T>>, es: seq<T>, key: T -> K)
  {
    && GroupsOf(gs, es, key)
    && (forall x :: x in es ==> exists i :: 0 <= i < |gs| && gs[i].key == key(x))
  }

  lemma GroupByIsGrouping<K, T>(xs: seq<T>, key: T -> K)
    ensures IsGrouping(GroupBy(xs, key), xs, key)
  {
    GroupBySpec(xs, key);
    GroupingOf(GroupBy(xs, key), xs, key);
  }

  lemma GroupingOf<K, T>(gs: seq<Group<K, T>>, es: seq<T>, key: T -> K)
    requires forall i :: 0 <= i < |gs| ==> gs[i].members != []
    requires forall i, j :: 0 <= i < j < |gs| ==> gs[i].key != gs[j].key
    requires forall i, y :: 0 <= i < |gs| && y in gs[i].members ==> y in es && key(y) == gs[i].key
    requires forall i, y :: 0 <= i < |gs| && y in es && key(y) == gs[i].key ==> y in gs[i].members
    requires forall x :: x in es ==> exists i :: 0 <= i < |gs| && gs[i].key == key(x)
    ensures IsGrouping(gs, es, key)
  {
  }

  /** Dropping the first group leaves a grouping of the remaining keys. */
  lemma GroupsOfTail<K, T>(gs: seq<Group<K, T>>, es: seq<T>, key: T -> K)
    requires gs != [] && GroupsOf(gs, es, key)
    ensures GroupsOf(gs[1..], es, key)
    ensures forall i :: 0 <= i < |gs[1..]| ==> gs[1..][i].key != gs[0].key
  {
    assert forall i :: 0 <= i < |gs[1..]| ==> gs[1..][i] == gs[i + 1];
  }
}
