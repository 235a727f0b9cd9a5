/** The panel's selection step (`drawBoundingBoxWithCondition`): the key/value
    map is built once and cached in `kvMap`, then the value blocks of every key
    that satisfies a condition are drawn. Drawing itself is not modelled: the
    visit returns the blocks it would draw, in the order it draws them. */
module DocumentView {
  import opened Blocks
  import opened Resolver
  import KeyPredicate

  /** No key is visited twice. */
  predicate Distinct(order: seq<string>) {
    forall i, j :: 0 <= i < j < |order| ==> order[i] != order[j]
  }

  /** Every value block of every key that satisfies the condition can be drawn:
      drawing a `null` entry of the map throws. */
  predicate Drawable(m: map<string, seq<Option<Block>>>, condition: string -> bool) {
    forall k :: k in m && condition(k) ==> AllPresent(m[k])
  }

  /** Every key of `order` is in the map with an entry that can be drawn. */
  predicate Visitable(m: map<string, seq<Option<Block>>>, order: seq<string>) {
    forall i :: 0 <= i < |order| ==> order[i] in m && AllPresent(m[order[i]])
  }

  /** The blocks drawn when the keys of `order` are visited in that order: each
      key's value blocks, in list order. */
  function DrawnFor(m: map<string, seq<Option<Block>>>, order: seq<string>): seq<Block>
    requires Visitable(m, order)
  {
    if order == [] then []
    else
      var last := order[|order| - 1];
      DrawnFor(m, order[..|order| - 1]) + Deref(m[last])
  }

  /** The blocks drawn for a set of keys, counted with multiplicity and
      regardless of the order in which the keys are visited. */
  /** Some key of a non-empty set: the one the bag below takes first. */
  ghost function Pick(keys: set<string>): (k: string)
    requires keys != {}
    ensures k in keys
  {
    var k :| k in keys; k
  }

  ghost function ValuesBag(m: map<string, seq<Option<Block>>>, keys: set<string>): multiset<Block>
    requires forall k :: k in keys ==> k in m && AllPresent(m[k])
    decreases keys
  {
    if keys == {} then multiset{}
    else
      var k := Pick(keys);
      multiset(Deref(m[k])) + ValuesBag(m, keys - {k})
  }

  /** The visit of `kvMap.forEach`: the map's keys are taken in an unspecified
      order (a `HashMap` promises none), and for each key that satisfies the
      condition every value block is drawn. Returns the keys visited, in order,
      and the blocks drawn. */
  method VisitMatching(m: map<string, seq<Option<Block>>>, condition: string -> bool)
    returns (order: seq<string>, drawn: seq<Block>)
    requires Drawable(m, condition)
    ensures Distinct(order)
    ensures forall k :: k in order <==> k in m && condition(k)
    ensures Visitable(m, order)
    ensures drawn == DrawnFor(m, order)
  {
    order, drawn := [], [];
    var remaining := m.Keys;
    while remaining != {}
      invariant remaining <= m.Keys
      invariant Distinct(order)
      invariant forall k :: k in order <==> k in m.Keys - remaining && condition(k)
      invariant Visitable(m, order)
      invariant drawn == DrawnFor(m, order)
      decreases remaining
    {
      var k :| k in remaining;
      remaining := remaining - {k};
      if condition(k) {
        var v := m[k];
        ghost var before := drawn;
        for j := 0 to |v|
          invariant drawn == before + Deref(v[..j])
        {
          assert v[..j + 1] == v[..j] + [v[j]];
          DerefAppend(v[..j], [v[j]]);
          drawn := drawn + [v[j].value];
        }
        assert v[..|v|] == v;
        ghost var visited := order;
        order := order + [k];
        assert order[..|order| - 1] == visited;
      }
    }
  }

  /** The keys of a sequence, as a set. */
  function KeySet(order: seq<string>): (keys: set<string>)
    ensures forall k :: k in keys <==> k in order
  {
    set i | 0 <= i < |order| :: order[i]
  }

  /** Taking out one key of a set takes out exactly that key's blocks. */
  lemma {:induction false} ValuesBagRemove(m: map<string, seq<Option<Block>>>, keys: set<string>, k: string)
    requires forall k :: k in keys ==> k in m && AllPresent(m[k])
    requires k in keys
    ensures ValuesBag(m, keys) == multiset(Deref(m[k])) + ValuesBag(m, keys - {k})
    decreases keys
  {
    var j := Pick(keys);
    assert ValuesBag(m, keys) == multiset(Deref(m[j])) + ValuesBag(m, keys - {j});
    if j != k {
      ValuesBagRemove(m, keys - {j}, k);
      ValuesBagRemove(m, keys - {k}, j);
      assert keys - {j} - {k} == keys - {k} - {j};
    }
  }

  /** Without its last key, a sequence of distinct keys covers its key set
      without that key. */
  lemma KeySetInit(order: seq<string>)
    requires order != [] && Distinct(order)
    ensures KeySet(order) - {order[|order| - 1]} == KeySet(order[..|order| - 1])
  {
    var init, last := order[..|order| - 1], order[|order| - 1];
    forall x ensures x in KeySet(order) - {last} <==> x in KeySet(init) {
      if x in init {
        var i :| 0 <= i < |init| && init[i] == x;
        assert order[i] == x;
      }
      if x in order && x != last {
        var i :| 0 <= i < |order| && order[i] == x;
        assert init[i] == x;
      }
    }
  }

  /** Whatever order the keys are visited in, each value block of each visited
      key is drawn once per occurrence in its list, and nothing else is drawn. */
  lemma {:induction false} DrawnForBag(m: map<string, seq<Option<Block>>>, order: seq<string>)
    requires Visitable(m, order) && Distinct(order)
    ensures multiset(DrawnFor(m, order)) == ValuesBag(m, KeySet(order))
  {
    if order != [] {
      var init, last := order[..|order| - 1], order[|order| - 1];
      assert Visitable(m, init) && Distinct(init);
      DrawnForBag(m, init);
      KeySetInit(order);
      ValuesBagRemove(m, KeySet(order), last);
      assert DrawnFor(m, order) == DrawnFor(m, init) + Deref(m[last]);
      assert multiset(DrawnFor(m, order)) == multiset(DrawnFor(m, init)) + multiset(Deref(m[last]));
    }
  }

  /** The visit order that the `HashMap` happens to use does not change what
      is drawn, only the order in which it is drawn. */
  lemma VisitOrderIrrelevant(m: map<string, seq<Option<Block>>>, o1: seq<string>, o2: seq<string>)
    requires Visitable(m, o1) && Distinct(o1)
    requires Visitable(m, o2) && Distinct(o2)
    requires forall k :: k in o1 <==> k in o2
    ensures multiset(DrawnFor(m, o1)) == multiset(DrawnFor(m, o2))
  {
    DrawnForBag(m, o1);
    DrawnForBag(m, o2);
    assert KeySet(o1) == KeySet(o2);
  }

  /** A block is drawn exactly when it is a value block of a visited key. */
  lemma {:induction false} DrawnForMembership(m: map<string, seq<Option<Block>>>, order: seq<string>, b: Block)
    requires Visitable(m, order)
    ensures b in DrawnFor(m, order) <==> exists i :: 0 <= i < |order| && Some(b) in m[order[i]]
  {
    if order != [] {
      var init, last := order[..|order| - 1], order[|order| - 1];
      assert Visitable(m, init);
      DrawnForMembership(m, init, b);
      var vs := Deref(m[last]);
      assert b in vs <==> Some(b) in m[last] by {
        if b in vs {
          var i :| 0 <= i < |vs| && vs[i] == b;
          assert m[last][i] == Some(b);
        }
        if Some(b) in m[last] {
          var i :| 0 <= i < |m[last]| && m[last][i] == Some(b);
          assert vs[i] == b;
        }
      }
      if exists i :: 0 <= i < |order| && Some(b) in m[order[i]] {
        var i :| 0 <= i < |order| && Some(b) in m[order[i]];
        if i < |init| {
          assert init[i] == order[i];
        }
      }
      if exists i :: 0 <= i < |init| && Some(b) in m[init[i]] {
        var i :| 0 <= i < |init| && Some(b) in m[init[i]];
        assert order[i] == init[i];
      }
    }
  }

  /** The panel: the analysis result's blocks and the cached key/value map. */
  class DocumentText {
    /** `result.getBlocks()`. */
    const blocks: seq<Block>
    /** `kvMap`, `null` until the first draw. */
    var kvMap: Option<map<string, seq<Option<Block>>>>

    /** A cached map is the one `relationshipMap` computes. */
    ghost predicate Valid()
      reads this
    {
      kvMap.Some? ==> Resolvable(blocks) && kvMap.value == ResolvedMap(blocks)
    }

    /** A new panel has no map yet. */
    constructor (blocks: seq<Block>)
      ensures this.blocks == blocks
      ensures kvMap == None
      ensures Valid()
    {
      this.blocks := blocks;
      kvMap := None;
    }

    /** `drawBoundingBoxWithCondition`: builds the map on first use, keeps it
        afterwards, and draws the value blocks of the keys that satisfy
        `condition`. */
    method DrawBoundingBoxWithCondition(condition: string -> bool)
      returns (order: seq<string>, drawn: seq<Block>)
      requires Valid() && Resolvable(blocks)
      requires Drawable(ResolvedMap(blocks), condition)
      modifies this
      ensures Valid()
      ensures kvMap == Some(ResolvedMap(blocks))
      ensures old(kvMap).Some? ==> kvMap == old(kvMap)
      ensures Distinct(order)
      ensures forall k :: k in order <==> k in kvMap.value && condition(k)
      ensures Visitable(kvMap.value, order)
      ensures drawn == DrawnFor(kvMap.value, order)
    {
      if kvMap.None? {
        var m := RelationshipMap(blocks);
        kvMap := Some(m);
      }
      order, drawn := VisitMatching(kvMap.value, condition);
    }

    /** `paintComponent`, without the image: draws the value blocks of the
        keys that read as "Signature of Buyer(s)". */
    method PaintComponent() returns (order: seq<string>, drawn: seq<Block>)
      requires Valid() && Resolvable(blocks)
      requires Drawable(ResolvedMap(blocks), KeyPredicate.IsSignatureOfBuyerKey)
      modifies this
      ensures Valid()
      ensures kvMap == Some(ResolvedMap(blocks))
      ensures old(kvMap).Some? ==> kvMap == old(kvMap)
      ensures forall k :: k in order <==> k in kvMap.value && KeyPredicate.IsSignatureOfBuyerKey(k)
      ensures Visitable(kvMap.value, order)
      ensures drawn == DrawnFor(kvMap.value, order)
    {
      order, drawn := DrawBoundingBoxWithCondition(KeyPredicate.IsSignatureOfBuyerKey);
    }
  }
}
