/** A multimap built from a list of (key, values) entries, the way
    `relationshipMap` fills its `HashMap<String, List<Block>>`: the first entry
    for a key stores its list, every later one appends to it. */
module Multimap {

  /** The keys that occur in the entries. */
  function Keys<K(==), V>(es: seq<(K, seq<V>)>): set<K> {
    set i | 0 <= i < |es| :: es[i].0
  }

  /** The values of every entry for `k`, concatenated in entry order. */
  function ValuesFor<K(==), V>(es: seq<(K, seq<V>)>, k: K): seq<V> {
    if es == [] then []
    else (if es[0].0 == k then es[0].1 else []) + ValuesFor(es[1..], k)
  }

  /** The grouped multimap: every key that occurs, with all of its values. */
  function Group<K(==), V>(es: seq<(K, seq<V>)>): map<K, seq<V>> {
    map k | k in Keys(es) :: ValuesFor(es, k)
  }

  /** One insertion: a new key stores `vs`; a present key gets `vs` appended
      to its list; no other key changes. */
  function Put<K(==), V>(m: map<K, seq<V>>, k: K, vs: seq<V>): (r: map<K, seq<V>>)
    ensures r.Keys == m.Keys + {k}
    ensures k in m ==> r[k] == m[k] + vs
    ensures k !in m ==> r[k] == vs
    ensures forall k' :: k' in m && k' != k ==> r[k'] == m[k']
  {
    if k in m then m[k := m[k] + vs] else m[k := vs]
  }

  lemma {:induction false} ValuesForAppend<K, V>(a: seq<(K, seq<V>)>, b: seq<(K, seq<V>)>, k: K)
    ensures ValuesFor(a + b, k) == ValuesFor(a, k) + ValuesFor(b, k)
  {
    if a == [] {
      assert a + b == b;
    } else {
      assert (a + b)[0] == a[0];
      assert (a + b)[1..] == a[1..] + b;
      ValuesForAppend(a[1..], b, k);
    }
  }

  /** A key that occurs in no entry has no values. */
  lemma {:induction false} ValuesForAbsent<K, V>(es: seq<(K, seq<V>)>, k: K)
    requires k !in Keys(es)
    ensures ValuesFor(es, k) == []
  {
    if es != [] {
      var rest := es[1..];
      assert forall i :: 0 <= i < |rest| ==> rest[i] == es[i + 1];
      assert es[0].0 in Keys(es);
      ValuesForAbsent(rest, k);
    }
  }

  lemma KeysSnoc<K, V>(es: seq<(K, seq<V>)>, e: (K, seq<V>))
    ensures Keys(es + [e]) == Keys(es) + {e.0}
  {
    var all := es + [e];
    assert forall i :: 0 <= i < |es| ==> all[i] == es[i];
    assert all[|es|] == e;
  }

  /** Grouping one more entry is one more insertion: the loop of
      `relationshipMap` computes the grouped multimap. */
  lemma GroupSnoc<K, V>(es: seq<(K, seq<V>)>, e: (K, seq<V>))
    ensures Group(es + [e]) == Put(Group(es), e.0, e.1)
  {
    KeysSnoc(es, e);
    var got, want := Group(es + [e]), Put(Group(es), e.0, e.1);
    forall k | k in got ensures got[k] == want[k] {
      ValuesForAppend(es, [e], k);
      assert ValuesFor([e], k) == (if e.0 == k then e.1 else []) + ValuesFor([], k);
      if k !in Keys(es) {
        ValuesForAbsent(es, k);
      }
    }
  }

  /** The sum of the lengths of the entries for `k`. */
  function CountFor<K(==), V>(es: seq<(K, seq<V>)>, k: K): nat {
    if es == [] then 0
    else (if es[0].0 == k then |es[0].1| else 0) + CountFor(es[1..], k)
  }

  /** Appending does not deduplicate: a key's list is as long as all of its
      entries' lists together. */
  lemma {:induction false} ValuesForLength<K, V>(es: seq<(K, seq<V>)>, k: K)
    ensures |ValuesFor(es, k)| == CountFor(es, k)
  {
    if es != [] {
      ValuesForLength(es[1..], k);
    }
  }

  /** A value is listed under `k` exactly when some entry for `k` holds it. */
  lemma {:induction false} ValuesForMembership<K, V>(es: seq<(K, seq<V>)>, k: K, v: V)
    ensures v in ValuesFor(es, k) <==> exists i :: 0 <= i < |es| && es[i].0 == k && v in es[i].1
  {
    if es != [] {
      var rest := es[1..];
      assert forall i :: 0 <= i < |rest| ==> rest[i] == es[i + 1];
      ValuesForMembership(rest, k, v);
      if exists i :: 0 <= i < |es| && es[i].0 == k && v in es[i].1 {
        var i :| 0 <= i < |es| && es[i].0 == k && v in es[i].1;
        if i > 0 {
          assert rest[i - 1] == es[i];
        }
      }
    }
  }

  /** A key with exactly one entry keeps that entry's list unchanged. */
  lemma {:induction false} ValuesForSingle<K, V>(es: seq<(K, seq<V>)>, k: K, j: nat)
    requires j < |es| && es[j].0 == k
    requires forall i :: 0 <= i < |es| && i != j ==> es[i].0 != k
    ensures ValuesFor(es, k) == es[j].1
  {
    var rest := es[1..];
    assert forall i :: 0 <= i < |rest| ==> rest[i] == es[i + 1];
    if j == 0 {
      assert k !in Keys(rest);
      ValuesForAbsent(rest, k);
    } else {
      ValuesForSingle(rest, k, j - 1);
    }
  }

  /** A key with exactly two entries gets the earlier entry's list followed by
      the later one's. */
  lemma {:induction false} ValuesForPair<K, V>(es: seq<(K, seq<V>)>, k: K, p: nat, q: nat)
    requires p < q < |es| && es[p].0 == k && es[q].0 == k
    requires forall i :: 0 <= i < |es| && i != p && i != q ==> es[i].0 != k
    ensures ValuesFor(es, k) == es[p].1 + es[q].1
  {
    var rest := es[1..];
    assert forall i :: 0 <= i < |rest| ==> rest[i] == es[i + 1];
    if p == 0 {
      ValuesForSingle(rest, k, q - 1);
    } else {
      ValuesForPair(rest, k, p - 1, q - 1);
    }
  }
}
