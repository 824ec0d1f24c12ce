/** The preview dedupe (`dedupe`): keeps the first record for each tuple of
    stripped key-field values, in input order. */
module PreviewDedupe {
  import opened Records

  /** The preview key of a record: its stripped value of each key field, in
      key order. */
  function KeyTuple(r: Record, keys: seq<string>): (t: seq<string>)
    ensures |t| == |keys|
  {
    if keys == [] then [] else [StrippedField(r, keys[0])] + KeyTuple(r, keys[1..])
  }

  /** The key tuples of a batch. */
  ghost function KeySet<T, K>(rs: seq<T>, key: T -> K): set<K>
  {
    set r | r in rs :: key(r)
  }

  /** `a` is `b` with some elements left out, order kept. */
  ghost predicate SubsequenceOf<T>(a: seq<T>, b: seq<T>)
    decreases |b|
  {
    a == [] || (b != [] && ((a[0] == b[0] && SubsequenceOf(a[1..], b[1..])) || SubsequenceOf(a, b[1..])))
  }

  /** Everything in a subsequence is in the sequence. */
  lemma {:induction false} SubsequenceMembers<T>(a: seq<T>, b: seq<T>)
    requires SubsequenceOf(a, b)
    ensures forall x :: x in a ==> x in b
    decreases |b|
  {
    if a != [] {
      if a[0] == b[0] && SubsequenceOf(a[1..], b[1..]) {
        SubsequenceMembers(a[1..], b[1..]);
        assert forall x :: x in a ==> x == a[0] || x in a[1..];
        assert forall x :: x in b[1..] ==> x in b;
      } else {
        SubsequenceMembers(a, b[1..]);
        assert forall x :: x in b[1..] ==> x in b;
      }
    }
  }

  /** Keys that differ pairwise in a sequence still differ pairwise in any
      subsequence of it. */
  lemma {:induction false} SubsequenceDistinct<T, K>(a: seq<T>, b: seq<T>, key: T -> K)
    requires SubsequenceOf(a, b) && DistinctKeys(b, key)
    ensures DistinctKeys(a, key)
    decreases |b|
  {
    if a != [] {
      assert DistinctKeys(b[1..], key) by {
        forall i, j | 0 <= i < j < |b[1..]|
          ensures key(b[1..][i]) != key(b[1..][j])
        {
          assert b[1..][i] == b[i + 1] && b[1..][j] == b[j + 1];
        }
      }
      if a[0] == b[0] && SubsequenceOf(a[1..], b[1..]) {
        SubsequenceDistinct(a[1..], b[1..], key);
        SubsequenceMembers(a[1..], b[1..]);
        forall i, j | 0 <= i < j < |a|
          ensures key(a[i]) != key(a[j])
        {
          if i == 0 {
            assert a[j] == a[1..][j - 1];
            assert a[j] in a[1..];
            var q :| 0 <= q < |b[1..]| && b[1..][q] == a[j];
            assert b[q + 1] == a[j];
          } else {
            assert a[i] == a[1..][i - 1] && a[j] == a[1..][j - 1];
          }
        }
      } else {
        SubsequenceDistinct(a, b[1..], key);
      }
    }
  }

  /** No two elements share a key. */
  ghost predicate DistinctKeys<T, K>(rs: seq<T>, key: T -> K)
  {
    forall i, j :: 0 <= i < j < |rs| ==> key(rs[i]) != key(rs[j])
  }

  /** The loop of `dedupe`, with `seen` holding the keys met so far. */
  function DedupeFrom<T, K(==)>(rs: seq<T>, key: T -> K, seen: set<K>): (out: seq<T>)
    ensures |out| <= |rs|
  {
    if rs == [] then []
    else if key(rs[0]) in seen then DedupeFrom(rs[1..], key, seen)
    else [rs[0]] + DedupeFrom(rs[1..], key, seen + {key(rs[0])})
  }

  lemma {:induction false} DedupeFromSubsequence<T, K>(rs: seq<T>, key: T -> K, seen: set<K>)
    ensures SubsequenceOf(DedupeFrom(rs, key, seen), rs)
  {
    if rs != [] {
      var k := key(rs[0]);
      if k in seen {
        DedupeFromSubsequence(rs[1..], key, seen);
      } else {
        var out := DedupeFrom(rs, key, seen);
        DedupeFromSubsequence(rs[1..], key, seen + {k});
        assert out[0] == rs[0] && out[1..] == DedupeFrom(rs[1..], key, seen + {k});
      }
    }
  }

  lemma KeySetCons<T, K>(r: T, rs: seq<T>, key: T -> K)
    ensures KeySet([r] + rs, key) == {key(r)} + KeySet(rs, key)
  {
    assert forall x :: x in [r] + rs <==> x == r || x in rs;
  }

  lemma {:induction false} DedupeFromKeySet<T, K>(rs: seq<T>, key: T -> K, seen: set<K>)
    ensures KeySet(DedupeFrom(rs, key, seen), key) == KeySet(rs, key) - seen
  {
    if rs != [] {
      var k := key(rs[0]);
      KeySetCons(rs[0], rs[1..], key);
      assert [rs[0]] + rs[1..] == rs;
      if k in seen {
        DedupeFromKeySet(rs[1..], key, seen);
      } else {
        var rest := DedupeFrom(rs[1..], key, seen + {k});
        DedupeFromKeySet(rs[1..], key, seen + {k});
        KeySetCons(rs[0], rest, key);
      }
    }
  }

  lemma {:induction false} DedupeFromDistinctKeys<T, K>(rs: seq<T>, key: T -> K, seen: set<K>)
    ensures DistinctKeys(DedupeFrom(rs, key, seen), key)
  {
    if rs != [] {
      var k := key(rs[0]);
      if k in seen {
        DedupeFromDistinctKeys(rs[1..], key, seen);
      } else {
        var rest := DedupeFrom(rs[1..], key, seen + {k});
        DedupeFromDistinctKeys(rs[1..], key, seen + {k});
        DedupeFromKeySet(rs[1..], key, seen + {k});
        var out := [rs[0]] + rest;
        forall i, j | 0 <= i < j < |out|
          ensures key(out[i]) != key(out[j])
        {
          if i == 0 {
            assert out[j] == rest[j - 1];
            assert key(out[j]) in KeySet(rest, key);
          } else {
            assert out[i] == rest[i - 1] && out[j] == rest[j - 1];
          }
        }
      }
    }
  }

  lemma {:induction false} DedupeFromDistinct<T, K>(rs: seq<T>, key: T -> K, seen: set<K>)
    requires DistinctKeys(rs, key)
    requires forall i :: 0 <= i < |rs| ==> key(rs[i]) !in seen
    ensures DedupeFrom(rs, key, seen) == rs
  {
    if rs != [] {
      var k := key(rs[0]);
      assert DistinctKeys(rs[1..], key) by {
        forall i, j | 0 <= i < j < |rs[1..]|
          ensures key(rs[1..][i]) != key(rs[1..][j])
        {
          assert rs[1..][i] == rs[i + 1] && rs[1..][j] == rs[j + 1];
        }
      }
      forall i | 0 <= i < |rs[1..]|
        ensures key(rs[1..][i]) !in seen + {k}
      {
        assert rs[1..][i] == rs[i + 1];
      }
      DedupeFromDistinct(rs[1..], key, seen + {k});
    }
  }

  /** `dedupe` on any key function. */
  function DedupeBy<T, K(==)>(rs: seq<T>, key: T -> K): (out: seq<T>)
    ensures |out| <= |rs|
    ensures SubsequenceOf(out, rs)
    ensures DistinctKeys(out, key)
    ensures KeySet(out, key) == KeySet(rs, key)
  {
    DedupeFromSubsequence(rs, key, {});
    DedupeFromDistinctKeys(rs, key, {});
    DedupeFromKeySet(rs, key, {});
    DedupeFrom(rs, key, {})
  }

  /** Deduplicating a second time changes nothing. */
  lemma DedupeByIdempotent<T, K>(rs: seq<T>, key: T -> K)
    ensures DedupeBy(DedupeBy(rs, key), key) == DedupeBy(rs, key)
  {
    DedupeFromDistinct(DedupeBy(rs, key), key, {});
  }

  /** An independent description of the result: element `i` is kept exactly
      when no earlier element has its key. */
  ghost predicate FirstOfKey<T, K>(rs: seq<T>, key: T -> K, i: int)
  {
    0 <= i < |rs| && forall j :: 0 <= j < i ==> key(rs[j]) != key(rs[i])
  }

  ghost function FirstOccurrences<T, K>(rs: seq<T>, key: T -> K): seq<T>
  {
    if rs == [] then []
    else FirstOccurrences(rs[..|rs| - 1], key) + (if FirstOfKey(rs, key, |rs| - 1) then [rs[|rs| - 1]] else [])
  }

  lemma {:induction false} DedupeFromAppend<T, K>(a: seq<T>, b: seq<T>, key: T -> K, seen: set<K>)
    ensures DedupeFrom(a + b, key, seen) == DedupeFrom(a, key, seen) + DedupeFrom(b, key, seen + KeySet(a, key))
  {
    if a == [] {
      assert a + b == b;
      assert KeySet(a, key) == {};
      assert seen + KeySet(a, key) == seen;
    } else {
      var k := key(a[0]);
      assert (a + b)[0] == a[0];
      assert (a + b)[1..] == a[1..] + b;
      var seen' := if k in seen then seen else seen + {k};
      DedupeFromAppend(a[1..], b, key, seen');
      KeySetCons(a[0], a[1..], key);
      assert [a[0]] + a[1..] == a;
      assert seen' + KeySet(a[1..], key) == seen + KeySet(a, key);
    }
  }

  lemma FirstOfKeyLast<T, K>(rs: seq<T>, key: T -> K)
    requires rs != []
    ensures FirstOfKey(rs, key, |rs| - 1) <==> key(rs[|rs| - 1]) !in KeySet(rs[..|rs| - 1], key)
  {
    var n := |rs| - 1;
    var init := rs[..n];
    var k := key(rs[n]);
    if k in KeySet(init, key) {
      var r :| r in init && key(r) == k;
      var j :| 0 <= j < n && init[j] == r;
      assert rs[j] == r;
      assert !FirstOfKey(rs, key, n);
    } else {
      forall j | 0 <= j < n
        ensures key(rs[j]) != k
      {
        assert rs[j] == init[j];
        assert rs[j] in init;
      }
    }
  }

  /** Deduplication keeps exactly the first element of each key, in order. */
  lemma {:induction false} DedupeByIsFirstOccurrences<T, K>(rs: seq<T>, key: T -> K)
    ensures DedupeBy(rs, key) == FirstOccurrences(rs, key)
  {
    if rs != [] {
      var n := |rs| - 1;
      var init := rs[..n];
      assert rs == init + [rs[n]];
      DedupeFromAppend(init, [rs[n]], key, {});
      DedupeByIsFirstOccurrences(init, key);
      FirstOfKeyLast(rs, key);
      assert {} + KeySet(init, key) == KeySet(init, key);
    }
  }

  /** The key of a record for `dedupe`: its stripped key-field values. */
  function KeyOf(keys: seq<string>): Record -> seq<string>
  {
    r => KeyTuple(r, keys)
  }

  /** `dedupe(records, keys)`: an order-preserving subsequence in which no two
      records share a key tuple, and every key tuple of the input survives. */
  function Dedupe(records: seq<Record>, keys: seq<string>): (out: seq<Record>)
    ensures |out| <= |records|
    ensures SubsequenceOf(out, records)
    ensures forall i, j :: 0 <= i < j < |out| ==> KeyTuple(out[i], keys) != KeyTuple(out[j], keys)
    ensures forall r :: r in records ==> exists s :: s in out && KeyTuple(s, keys) == KeyTuple(r, keys)
  {
    var out := DedupeBy(records, KeyOf(keys));
    assert forall r :: r in records ==> KeyOf(keys)(r) in KeySet(out, KeyOf(keys));
    out
  }

  /** Applying `dedupe` twice equals applying it once. */
  lemma DedupeIdempotent(records: seq<Record>, keys: seq<string>)
    ensures Dedupe(Dedupe(records, keys), keys) == Dedupe(records, keys)
  {
    DedupeByIdempotent(records, KeyOf(keys));
  }

  /** `dedupe` keeps a record exactly when no earlier record has its key tuple. */
  lemma DedupeKeepsFirst(records: seq<Record>, keys: seq<string>)
    ensures Dedupe(records, keys) == FirstOccurrences(records, KeyOf(keys))
  {
    DedupeByIsFirstOccurrences(records, KeyOf(keys));
  }
}
