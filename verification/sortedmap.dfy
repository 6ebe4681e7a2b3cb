/** `BTreeMap<String, V>` as a strictly key-sorted association list. Keys
    are ordered the way Rust orders `String`: byte-lexicographically over the
    UTF-8 encoding. */
module SortedMap {
  import opened ByteOrder
  import opened Results
  import opened Utf8

  /** Strict byte-lexicographic order: `a` is a proper prefix of `b`, or the
      first byte where they differ is smaller in `a`. */
  predicate Below(a: seq<byte>, b: seq<byte>)
    decreases |a|
  {
    if |a| == 0 then |b| > 0
    else |b| > 0 && (a[0] < b[0] || (a[0] == b[0] && Below(a[1..], b[1..])))
  }

  lemma {:induction false} BelowIrreflexive(a: seq<byte>)
    ensures !Below(a, a)
    decreases |a|
  {
    if |a| > 0 {
      BelowIrreflexive(a[1..]);
    }
  }

  lemma {:induction false} BelowTransitive(a: seq<byte>, b: seq<byte>, c: seq<byte>)
    requires Below(a, b) && Below(b, c)
    ensures Below(a, c)
    decreases |a|
  {
    if |a| > 0 && a[0] == b[0] && b[0] == c[0] {
      BelowTransitive(a[1..], b[1..], c[1..]);
    }
  }

  lemma {:induction false} BelowTotal(a: seq<byte>, b: seq<byte>)
    requires a != b
    ensures Below(a, b) || Below(b, a)
    decreases |a|
  {
    if |a| > 0 && |b| > 0 && a[0] == b[0] {
      assert a == [a[0]] + a[1..] && b == [b[0]] + b[1..];
      BelowTotal(a[1..], b[1..]);
    }
  }

  lemma {:induction false} BelowAsymmetric(a: seq<byte>, b: seq<byte>)
    requires Below(a, b)
    ensures !Below(b, a)
    decreases |a|
  {
    if |a| > 0 && a[0] == b[0] {
      BelowAsymmetric(a[1..], b[1..]);
    }
  }

  /** Keys strictly increase along the list: the `BTreeMap` invariant, which
      also makes the keys unique. */
  predicate Sorted<V>(m: seq<(Text, V)>) {
    forall i, j {:trigger Below(m[i].0, m[j].0)} :: 0 <= i < j < |m| ==> Below(m[i].0, m[j].0)
  }

  /** The keys present in `m`. */
  function Keys<V>(m: seq<(Text, V)>): set<Text> {
    set i | 0 <= i < |m| :: m[i].0
  }

  /** The value stored under `k` (the first entry with that key). */
  function Lookup<V>(m: seq<(Text, V)>, k: Text): Option<V> {
    if |m| == 0 then None
    else if m[0].0 == k then Some(m[0].1)
    else Lookup(m[1..], k)
  }

  lemma KeysCons<V>(x: (Text, V), t: seq<(Text, V)>)
    ensures Keys([x] + t) == {x.0} + Keys(t)
  {
    var r := [x] + t;
    forall key | key in Keys(r)
      ensures key in {x.0} + Keys(t)
    {
      var i :| 0 <= i < |r| && r[i].0 == key;
      if i > 0 {
        assert t[i - 1].0 == key;
      }
    }
    forall key | key in Keys(t)
      ensures key in Keys(r)
    {
      var i :| 0 <= i < |t| && t[i].0 == key;
      assert r[i + 1].0 == key;
    }
    assert r[0].0 == x.0;
  }

  /** `k` is below every key of `m`. */
  predicate BelowAll<V>(k: Text, m: seq<(Text, V)>) {
    forall i :: 0 <= i < |m| ==> Below(k, m[i].0)
  }

  /** A sorted list stays sorted when an entry below all its keys is put in front. */
  lemma SortedCons<V>(x: (Text, V), t: seq<(Text, V)>)
    requires Sorted(t) && BelowAll(x.0, t)
    ensures Sorted([x] + t)
  {
    var r := [x] + t;
    forall i, j | 0 <= i < j < |r|
      ensures Below(r[i].0, r[j].0)
    {
      if i > 0 {
        assert r[i] == t[i - 1] && r[j] == t[j - 1];
      } else {
        assert r[j] == t[j - 1];
      }
    }
  }

  /** The head of a sorted list is below the keys of its tail. */
  lemma SortedHead<V>(m: seq<(Text, V)>)
    requires |m| > 0 && Sorted(m)
    ensures Sorted(m[1..]) && BelowAll(m[0].0, m[1..])
  {
    assert forall i :: 0 <= i < |m| - 1 ==> m[1..][i] == m[i + 1];
  }

  /** `BTreeMap::insert`: the entry for `k` is replaced, or a new one is put
      at its place in key order. */
  function Insert<V>(m: seq<(Text, V)>, k: Text, v: V): (r: seq<(Text, V)>)
    ensures |m| <= |r| <= |m| + 1
  {
    if |m| == 0 then [(k, v)]
    else if m[0].0 == k then [(k, v)] + m[1..]
    else if Below(k, m[0].0) then [(k, v)] + m
    else [m[0]] + Insert(m[1..], k, v)
  }

  /** After `Insert(m, k, v)`, `k` maps to `v` and every other key keeps
      what it had. */
  lemma {:induction false} InsertLookup<V>(m: seq<(Text, V)>, k: Text, v: V, k': Text)
    ensures Lookup(Insert(m, k, v), k') == if k' == k then Some(v) else Lookup(m, k')
  {
    if |m| > 0 && m[0].0 != k && !Below(k, m[0].0) {
      InsertLookup(m[1..], k, v, k');
    }
  }

  /** Insertion adds exactly its key to the key set. */
  lemma {:induction false} InsertKeys<V>(m: seq<(Text, V)>, k: Text, v: V)
    ensures Keys(Insert(m, k, v)) == Keys(m) + {k}
  {
    if |m| == 0 {
      KeysCons((k, v), m);
    } else if m[0].0 == k {
      KeysCons((k, v), m[1..]);
      KeysCons(m[0], m[1..]);
      assert m == [m[0]] + m[1..];
    } else if Below(k, m[0].0) {
      KeysCons((k, v), m);
    } else {
      var t := Insert(m[1..], k, v);
      InsertKeys(m[1..], k, v);
      KeysCons(m[0], t);
      KeysCons(m[0], m[1..]);
      assert m == [m[0]] + m[1..];
    }
  }

  /** Insertion keeps the keys strictly sorted. */
  lemma {:induction false} InsertSorted<V>(m: seq<(Text, V)>, k: Text, v: V)
    requires Sorted(m)
    ensures Sorted(Insert(m, k, v))
  {
    if |m| > 0 {
      SortedHead(m);
      if m[0].0 == k {
        SortedCons((k, v), m[1..]);
      } else if Below(k, m[0].0) {
        forall i | 0 <= i < |m|
          ensures Below(k, m[i].0)
        {
          if i > 0 {
            BelowTransitive(k, m[0].0, m[i].0);
          }
        }
        SortedCons((k, v), m);
      } else {
        var t := Insert(m[1..], k, v);
        InsertSorted(m[1..], k, v);
        InsertKeys(m[1..], k, v);
        BelowTotal(k, m[0].0);
        forall i | 0 <= i < |t|
          ensures Below(m[0].0, t[i].0)
        {
          assert t[i].0 in Keys(t);
          if t[i].0 != k {
            assert t[i].0 in Keys(m[1..]);
          }
        }
        SortedCons(m[0], t);
      }
    }
  }

  /** Inserting a key above every key already present appends it: this is
      what decoding a map that was written in key order does. */
  lemma {:induction false} InsertAbove<V>(m: seq<(Text, V)>, k: Text, v: V)
    requires forall i :: 0 <= i < |m| ==> Below(m[i].0, k)
    ensures Insert(m, k, v) == m + [(k, v)]
  {
    if |m| > 0 {
      BelowIrreflexive(k);
      BelowAsymmetric(m[0].0, k);
      InsertAbove(m[1..], k, v);
      assert m == [m[0]] + m[1..];
    }
  }

  /** The map built by inserting `pairs` one after another into `m`. */
  function InsertAll<V>(m: seq<(Text, V)>, pairs: seq<(Text, V)>): (r: seq<(Text, V)>)
    ensures |r| <= |m| + |pairs|
    decreases |pairs|
  {
    if |pairs| == 0 then m
    else InsertAll(Insert(m, pairs[0].0, pairs[0].1), pairs[1..])
  }

  /** The value of the last pair with key `k`, if any. */
  function LastValue<V>(pairs: seq<(Text, V)>, k: Text): Option<V> {
    if |pairs| == 0 then None
    else
      var later := LastValue(pairs[1..], k);
      if later.Some? then later
      else if pairs[0].0 == k then Some(pairs[0].1)
      else None
  }

  /** Later pairs overwrite earlier ones: after inserting `pairs`, a key maps
      to the value of its last pair, and keys not among the pairs keep the
      value they had. */
  lemma {:induction false} InsertAllLookup<V>(m: seq<(Text, V)>, pairs: seq<(Text, V)>, k: Text)
    ensures Lookup(InsertAll(m, pairs), k)
         == (if LastValue(pairs, k).Some? then LastValue(pairs, k) else Lookup(m, k))
    decreases |pairs|
  {
    if |pairs| > 0 {
      InsertAllLookup(Insert(m, pairs[0].0, pairs[0].1), pairs[1..], k);
      InsertLookup(m, pairs[0].0, pairs[0].1, k);
    }
  }

  /** Inserting pairs in ascending key order, all above the keys already
      present, appends them: this is how a map written in key order reads
      back. */
  lemma {:induction false} InsertAllAbove<V>(m: seq<(Text, V)>, pairs: seq<(Text, V)>)
    requires Sorted(pairs)
    requires forall i, j :: 0 <= i < |m| && 0 <= j < |pairs| ==> Below(m[i].0, pairs[j].0)
    ensures InsertAll(m, pairs) == m + pairs
    decreases |pairs|
  {
    if |pairs| > 0 {
      var (k, v) := pairs[0];
      InsertAbove(m, k, v);
      SortedHead(pairs);
      var m' := m + [(k, v)];
      forall i, j | 0 <= i < |m'| && 0 <= j < |pairs[1..]|
        ensures Below(m'[i].0, pairs[1..][j].0)
      {
        if i < |m| {
          assert pairs[1..][j] == pairs[j + 1];
        }
      }
      InsertAllAbove(m', pairs[1..]);
      assert m' + pairs[1..] == m + pairs;
    } else {
      assert m + pairs == m;
    }
  }
}
