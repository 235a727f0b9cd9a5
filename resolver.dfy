/** The key/value relationship resolver (`DocumentText.relationshipMap`): from a
    flat list of blocks it builds a multimap from a key's text to the blocks
    holding that key's value. Each stream stage of the Java code is one function
    here; the map-building loop is the method `RelationshipMap`. */
module Resolver {
  import opened Blocks
  import Multimap

  // ---------------------------------------------------------------------------
  // Preconditions: the inputs for which the Java code throws no exception.
  // ---------------------------------------------------------------------------

  /** `Collectors.toMap` throws on a repeated id. */
  predicate DistinctIds(blocks: seq<Block>) {
    forall i, j :: 0 <= i < j < |blocks| ==> blocks[i].id != blocks[j].id
  }

  /** The entity-type filter dereferences the entity types of every
      `KEY_VALUE_SET` block. */
  predicate EntityTypesPresent(blocks: seq<Block>) {
    forall i :: 0 <= i < |blocks| && blocks[i].blockType == KeyValueSet ==> blocks[i].entityTypes.Some?
  }

  /** A key block: a `KEY_VALUE_SET` block whose entity types include `KEY`. */
  predicate IsKeyBlock(b: Block) {
    b.blockType == KeyValueSet && b.entityTypes.Some? && Key in b.entityTypes.value
  }

  /** What the loop body needs of one key block: a relationship list, and every
      CHILD and VALUE target present in the index (the key text calls `getText`
      and the value walk calls `getRelationships` on what the lookup returns). */
  predicate KeyResolvable(index: map<string, Block>, kb: Block) {
    && kb.relationships.Some?
    && IdsResolve(index, IdsOfType(kb.relationships.value, Child))
    && IdsResolve(index, IdsOfType(kb.relationships.value, Value))
  }

  /** Every id of the list is present in the index. */
  predicate IdsResolve(index: map<string, Block>, ids: seq<string>) {
    forall i :: 0 <= i < |ids| ==> ids[i] in index
  }

  predicate AllKeysResolvable(index: map<string, Block>, kbs: seq<Block>) {
    forall i :: 0 <= i < |kbs| ==> KeyResolvable(index, kbs[i])
  }

  /** Everything `relationshipMap` demands of its input. */
  predicate Resolvable(blocks: seq<Block>) {
    && DistinctIds(blocks)
    && EntityTypesPresent(blocks)
    && (forall i :: 0 <= i < |blocks| && IsKeyBlock(blocks[i]) ==> KeyResolvable(Index(blocks), blocks[i]))
  }

  // ---------------------------------------------------------------------------
  // The stream stages.
  // ---------------------------------------------------------------------------

  /** The id index, `Collectors.toMap(Block::getId, Function.identity())`. */
  function Index(blocks: seq<Block>): (index: map<string, Block>)
    requires DistinctIds(blocks)
    ensures forall id :: id in index <==> exists i :: 0 <= i < |blocks| && blocks[i].id == id
    ensures forall i :: 0 <= i < |blocks| ==> blocks[i].id in index && index[blocks[i].id] == blocks[i]
  {
    if blocks == [] then map[]
    else
      var rest := Index(blocks[1..]);
      assert forall i :: 1 <= i < |blocks| ==> blocks[i] == blocks[1..][i - 1];
      rest[blocks[0].id := blocks[0]]
  }

  /** The key blocks, in input order: the two `filter`s of lines 151-154. */
  function KeyBlocks(blocks: seq<Block>): (kbs: seq<Block>)
    requires EntityTypesPresent(blocks)
  {
    if blocks == [] then []
    else
      (if IsKeyBlock(blocks[0]) then [blocks[0]] else []) + KeyBlocks(blocks[1..])
  }

  /** `filter(type equals t).flatMap(getIds)` over a relationship list: the ids
      of every relationship of type `t`, relationship by relationship. */
  function IdsOfType(rels: seq<Relationship>, t: string): seq<string>
  {
    if rels == [] then []
    else
      (if rels[0].relType == t then rels[0].ids else []) + IdsOfType(rels[1..], t)
  }

  /** `map(blockMap::get)`: a missing id becomes `null`. */
  function LookupAll(index: map<string, Block>, ids: seq<string>): (found: seq<Option<Block>>)
    ensures |found| == |ids|
    ensures forall i :: 0 <= i < |ids| ==> found[i] == if ids[i] in index then Some(index[ids[i]]) else None
  {
    if ids == [] then []
    else [if ids[0] in index then Some(index[ids[0]]) else None] + LookupAll(index, ids[1..])
  }

  /** What `Block::getText` contributes to `Collectors.joining()`: a null text
      is appended as the four characters "null". */
  function TextOf(b: Block): string {
    if b.text.Some? then b.text.value else "null"
  }

  /** `map(Block::getText).collect(Collectors.joining())`: no separator. */
  function JoinTexts(bs: seq<Block>): (s: string) {
    if bs == [] then "" else TextOf(bs[0]) + JoinTexts(bs[1..])
  }

  /** The text of the CHILD targets of a relationship list, joined. */
  function ChildText(index: map<string, Block>, rels: seq<Relationship>): string
    requires IdsResolve(index, IdsOfType(rels, Child))
  {
    JoinTexts(Deref(LookupAll(index, IdsOfType(rels, Child))))
  }

  /** The key text of a key block (lines 156-163). */
  function KeyText(index: map<string, Block>, kb: Block): string
    requires KeyResolvable(index, kb)
  {
    ChildText(index, kb.relationships.value)
  }

  /** The stages after the VALUE lookup (lines 168-171): targets without a
      relationship list are dropped, then the CHILD ids of the others follow. */
  function ChildIdsOf(targets: seq<Block>): seq<string>
  {
    if targets == [] then []
    else
      (if targets[0].relationships.Some? then IdsOfType(targets[0].relationships.value, Child) else [])
      + ChildIdsOf(targets[1..])
  }

  /** The value blocks of a key block (lines 164-173): the CHILD targets of its
      VALUE targets. The last lookup is not dereferenced, so a dangling id there
      yields a `null` entry rather than an exception. */
  function ValueBlocks(index: map<string, Block>, kb: Block): seq<Option<Block>>
    requires KeyResolvable(index, kb)
  {
    var targets := Deref(LookupAll(index, IdsOfType(kb.relationships.value, Value)));
    LookupAll(index, ChildIdsOf(targets))
  }

  // ---------------------------------------------------------------------------
  // The map: one (key text, value blocks) entry per key block, grouped.
  // ---------------------------------------------------------------------------

  /** What one iteration of the loop stores: the key text and value blocks of
      one key block. */
  function Entry(index: map<string, Block>, kb: Block): (string, seq<Option<Block>>)
    requires KeyResolvable(index, kb)
  {
    (KeyText(index, kb), ValueBlocks(index, kb))
  }

  /** The entries of a list of key blocks, in order. */
  function Entries(index: map<string, Block>, kbs: seq<Block>): (es: seq<(string, seq<Option<Block>>)>)
    requires AllKeysResolvable(index, kbs)
    ensures |es| == |kbs|
    ensures forall i :: 0 <= i < |kbs| ==> es[i] == Entry(index, kbs[i])
  {
    if kbs == [] then []
    else
      assert AllKeysResolvable(index, kbs[1..]) by {
        assert forall i :: 1 <= i < |kbs| ==> kbs[1..][i - 1] == kbs[i];
      }
      [Entry(index, kbs[0])] + Entries(index, kbs[1..])
  }

  /** The map `relationshipMap` returns: the entries of the key blocks,
      grouped by key text. */
  function ResolvedMap(blocks: seq<Block>): map<string, seq<Option<Block>>>
    requires Resolvable(blocks)
  {
    KeyBlocksResolvable(blocks);
    Multimap.Group(Entries(Index(blocks), KeyBlocks(blocks)))
  }

  /** `relationshipMap`: one pass over the key blocks, inserting a new key or
      appending to the list already stored under it. */
  method RelationshipMap(blocks: seq<Block>) returns (m: map<string, seq<Option<Block>>>)
    requires Resolvable(blocks)
    ensures m == ResolvedMap(blocks)
  {
    var blockMap := Index(blocks);
    var keyRefBlock := KeyBlocks(blocks);
    KeyBlocksResolvable(blocks);
    ghost var entries := Entries(blockMap, keyRefBlock);
    m := map[];
    for i := 0 to |keyRefBlock|
      invariant m == Multimap.Group(entries[..i])
    {
      var refK := keyRefBlock[i];
      var keyText := KeyText(blockMap, refK);
      var valueBlocks := ValueBlocks(blockMap, refK);
      GroupStep(entries, i, keyText, valueBlocks);
      if keyText !in m {
        m := m[keyText := valueBlocks];
      } else {
        var former := m[keyText];
        m := m[keyText := former + valueBlocks];
      }
    }
    assert entries[..|keyRefBlock|] == entries;
  }

  /** One iteration of the loop of `relationshipMap` inserts one more entry. */
  lemma GroupStep(entries: seq<(string, seq<Option<Block>>)>, i: nat, keyText: string, valueBlocks: seq<Option<Block>>)
    requires i < |entries| && entries[i] == (keyText, valueBlocks)
    ensures Multimap.Group(entries[..i + 1]) == Multimap.Put(Multimap.Group(entries[..i]), keyText, valueBlocks)
  {
    assert entries[..i + 1] == entries[..i] + [entries[i]];
    Multimap.GroupSnoc(entries[..i], entries[i]);
  }

  // ---------------------------------------------------------------------------
  // Lemmas.
  // ---------------------------------------------------------------------------

  /** The key blocks are the input's blocks of type `KEY_VALUE_SET` with entity
      type `KEY`, each as often as it occurs in the input. */
  lemma {:induction false} KeyBlocksMultiset(blocks: seq<Block>)
    requires EntityTypesPresent(blocks)
    ensures forall b :: multiset(KeyBlocks(blocks))[b] == if IsKeyBlock(b) then multiset(blocks)[b] else 0
  {
    if blocks != [] {
      assert blocks == [blocks[0]] + blocks[1..];
      assert EntityTypesPresent(blocks[1..]) by {
        assert forall i :: 1 <= i < |blocks| ==> blocks[1..][i - 1] == blocks[i];
      }
      KeyBlocksMultiset(blocks[1..]);
    }
  }

  /** Every key block of a resolvable input can be resolved. */
  lemma KeyBlocksResolvable(blocks: seq<Block>)
    requires Resolvable(blocks)
    ensures AllKeysResolvable(Index(blocks), KeyBlocks(blocks))
  {
    var kbs := KeyBlocks(blocks);
    KeyBlocksMultiset(blocks);
    forall i | 0 <= i < |kbs| ensures KeyResolvable(Index(blocks), kbs[i]) {
      assert multiset(kbs)[kbs[i]] > 0;
      assert kbs[i] in blocks;
    }
  }

  /** The key blocks keep their input order: filtering distributes over
      concatenation. */
  lemma {:induction false} KeyBlocksAppend(a: seq<Block>, b: seq<Block>)
    requires EntityTypesPresent(a) && EntityTypesPresent(b)
    ensures EntityTypesPresent(a + b)
    ensures KeyBlocks(a + b) == KeyBlocks(a) + KeyBlocks(b)
  {
    assert EntityTypesPresent(a + b) by {
      forall i | 0 <= i < |a + b| && (a + b)[i].blockType == KeyValueSet ensures (a + b)[i].entityTypes.Some? {
        if i < |a| { assert (a + b)[i] == a[i]; } else { assert (a + b)[i] == b[i - |a|]; }
      }
    }
    if a == [] {
      assert a + b == b;
    } else {
      assert (a + b)[0] == a[0];
      assert (a + b)[1..] == a[1..] + b;
      assert EntityTypesPresent(a[1..]) by {
        assert forall i :: 1 <= i < |a| ==> a[1..][i - 1] == a[i];
      }
      KeyBlocksAppend(a[1..], b);
    }
  }

  /** An id is collected exactly when some relationship of type `t` lists it. */
  lemma {:induction false} IdsOfTypeMembership(rels: seq<Relationship>, t: string, id: string)
    ensures id in IdsOfType(rels, t) <==> exists j :: 0 <= j < |rels| && rels[j].relType == t && id in rels[j].ids
  {
    if rels != [] {
      IdsOfTypeMembership(rels[1..], t, id);
      assert forall j :: 1 <= j < |rels| ==> rels[1..][j - 1] == rels[j];
      if exists j :: 0 <= j < |rels| && rels[j].relType == t && id in rels[j].ids {
        var j :| 0 <= j < |rels| && rels[j].relType == t && id in rels[j].ids;
        if j > 0 { assert rels[1..][j - 1] == rels[j]; }
      }
    }
  }

  /** Ids are collected relationship by relationship, and within one
      relationship in its own order. */
  lemma {:induction false} IdsOfTypeAppend(a: seq<Relationship>, b: seq<Relationship>, t: string)
    ensures IdsOfType(a + b, t) == IdsOfType(a, t) + IdsOfType(b, t)
  {
    if a == [] {
      assert a + b == b;
    } else {
      assert (a + b)[0] == a[0];
      assert (a + b)[1..] == a[1..] + b;
      IdsOfTypeAppend(a[1..], b, t);
    }
  }

  /** Without a relationship of type `t` there is no id of type `t`. */
  lemma {:induction false} IdsOfTypeNone(rels: seq<Relationship>, t: string)
    requires forall j :: 0 <= j < |rels| ==> rels[j].relType != t
    ensures IdsOfType(rels, t) == []
  {
    if rels != [] {
      assert forall j :: 1 <= j < |rels| ==> rels[1..][j - 1] == rels[j];
      IdsOfTypeNone(rels[1..], t);
    }
  }

  /** A relationship of another type contributes no id. */
  lemma IdsOfTypeSkipsOtherTypes(a: seq<Relationship>, r: Relationship, b: seq<Relationship>, t: string)
    requires r.relType != t
    ensures IdsOfType(a + [r] + b, t) == IdsOfType(a + b, t)
  {
    IdsOfTypeAppend(a + [r], b, t);
    IdsOfTypeAppend(a, [r], t);
    IdsOfTypeAppend(a, b, t);
    assert IdsOfType([r], t) == [] + IdsOfType([], t);
  }

  lemma LookupAllAppend(index: map<string, Block>, a: seq<string>, b: seq<string>)
    ensures LookupAll(index, a + b) == LookupAll(index, a) + LookupAll(index, b)
  {
    var r := LookupAll(index, a + b);
    assert |r| == |LookupAll(index, a) + LookupAll(index, b)|;
    forall i | 0 <= i < |r| ensures r[i] == (LookupAll(index, a) + LookupAll(index, b))[i] {
      if i < |a| {
        assert (a + b)[i] == a[i];
      } else {
        assert (a + b)[i] == b[i - |a|];
      }
    }
  }

  lemma {:induction false} JoinTextsAppend(a: seq<Block>, b: seq<Block>)
    ensures JoinTexts(a + b) == JoinTexts(a) + JoinTexts(b)
  {
    if a == [] {
      assert a + b == b;
    } else {
      assert (a + b)[0] == a[0];
      assert (a + b)[1..] == a[1..] + b;
      JoinTextsAppend(a[1..], b);
    }
  }

  /** Ids of a concatenation resolve when those of both parts do, and
      conversely. */
  lemma IdsResolveAppend(index: map<string, Block>, a: seq<string>, b: seq<string>)
    ensures IdsResolve(index, a + b) <==> IdsResolve(index, a) && IdsResolve(index, b)
  {
    assert forall i :: 0 <= i < |a| ==> (a + b)[i] == a[i];
    assert forall i :: 0 <= i < |b| ==> (a + b)[|a| + i] == b[i];
  }

  /** A key's text is the concatenation, without separator, of the texts of
      its CHILD targets: relationship by relationship. */
  lemma ChildTextAppend(index: map<string, Block>, a: seq<Relationship>, b: seq<Relationship>)
    requires IdsResolve(index, IdsOfType(a + b, Child))
    ensures IdsResolve(index, IdsOfType(a, Child)) && IdsResolve(index, IdsOfType(b, Child))
    ensures ChildText(index, a + b) == ChildText(index, a) + ChildText(index, b)
  {
    IdsOfTypeAppend(a, b, Child);
    var ia, ib := IdsOfType(a, Child), IdsOfType(b, Child);
    IdsResolveAppend(index, ia, ib);
    var la, lb := LookupAll(index, ia), LookupAll(index, ib);
    calc {
      ChildText(index, a + b);
      JoinTexts(Deref(LookupAll(index, ia + ib)));
      { LookupAllAppend(index, ia, ib); }
      JoinTexts(Deref(la + lb));
      { DerefAppend(la, lb); }
      JoinTexts(Deref(la) + Deref(lb));
      { JoinTextsAppend(Deref(la), Deref(lb)); }
      JoinTexts(Deref(la)) + JoinTexts(Deref(lb));
    }
  }

  /** Within one CHILD relationship: the texts of its targets, in id order. */
  lemma ChildTextOfOne(index: map<string, Block>, ids: seq<string>)
    requires IdsResolve(index, ids)
    ensures IdsResolve(index, IdsOfType([Relationship(Child, ids)], Child))
    ensures ChildText(index, [Relationship(Child, ids)]) == JoinTexts(seq(|ids|, i requires 0 <= i < |ids| => index[ids[i]]))
  {
    var rels := [Relationship(Child, ids)];
    assert IdsOfType(rels, Child) == ids + IdsOfType(rels[1..], Child);
    assert rels[1..] == [];
    assert IdsOfType(rels, Child) == ids;
    var found := Deref(LookupAll(index, ids));
    assert found == seq(|ids|, i requires 0 <= i < |ids| => index[ids[i]]);
  }

  /** With no CHILD relationship the key text is the empty string. */
  lemma ChildTextWithoutChildren(index: map<string, Block>, rels: seq<Relationship>)
    requires forall j :: 0 <= j < |rels| ==> rels[j].relType != Child
    ensures IdsResolve(index, IdsOfType(rels, Child))
    ensures ChildText(index, rels) == ""
  {
    IdsOfTypeNone(rels, Child);
  }

  lemma {:induction false} ChildIdsOfAppend(a: seq<Block>, b: seq<Block>)
    ensures ChildIdsOf(a + b) == ChildIdsOf(a) + ChildIdsOf(b)
  {
    if a == [] {
      assert a + b == b;
    } else {
      assert (a + b)[0] == a[0];
      assert (a + b)[1..] == a[1..] + b;
      ChildIdsOfAppend(a[1..], b);
    }
  }

  /** A VALUE target without a relationship list, or without a CHILD
      relationship, contributes no value block. */
  lemma ValueTargetWithoutChildren(a: seq<Block>, v: Block, b: seq<Block>)
    requires v.relationships.None? || forall j :: 0 <= j < |v.relationships.value| ==> v.relationships.value[j].relType != Child
    ensures ChildIdsOf(a + [v] + b) == ChildIdsOf(a + b)
  {
    ChildIdsOfAppend(a + [v], b);
    ChildIdsOfAppend(a, [v]);
    ChildIdsOfAppend(a, b);
    if v.relationships.Some? {
      IdsOfTypeNone(v.relationships.value, Child);
    }
    assert ChildIdsOf([v]) == [] + ChildIdsOf([]);
  }

  /** A block is a key block of the input exactly when it is a block of the
      input of type `KEY_VALUE_SET` with entity type `KEY`. */
  lemma KeyBlocksMembership(blocks: seq<Block>, b: Block)
    requires EntityTypesPresent(blocks)
    ensures b in KeyBlocks(blocks) <==> b in blocks && IsKeyBlock(b)
  {
    KeyBlocksMultiset(blocks);
    assert multiset(KeyBlocks(blocks))[b] > 0 <==> b in KeyBlocks(blocks);
    assert multiset(blocks)[b] > 0 <==> b in blocks;
  }

  /** The key set of the result: exactly the texts of the key blocks, whether
      or not their value lists are empty. */
  lemma ResolvedMapKeys(blocks: seq<Block>, t: string)
    requires Resolvable(blocks)
    ensures t in ResolvedMap(blocks) <==>
      exists i :: 0 <= i < |blocks| && IsKeyBlock(blocks[i]) && KeyText(Index(blocks), blocks[i]) == t
  {
    var index := Index(blocks);
    var kbs := KeyBlocks(blocks);
    KeyBlocksResolvable(blocks);
    var es := Entries(index, kbs);
    if t in ResolvedMap(blocks) {
      var k :| 0 <= k < |es| && es[k].0 == t;
      KeyBlocksMembership(blocks, kbs[k]);
      var i :| 0 <= i < |blocks| && blocks[i] == kbs[k];
    }
    if exists i :: 0 <= i < |blocks| && IsKeyBlock(blocks[i]) && KeyText(index, blocks[i]) == t {
      var i :| 0 <= i < |blocks| && IsKeyBlock(blocks[i]) && KeyText(index, blocks[i]) == t;
      KeyBlocksMembership(blocks, blocks[i]);
      var k :| 0 <= k < |kbs| && kbs[k] == blocks[i];
      assert es[k] == Entry(index, kbs[k]);
      assert es[k].0 == t;
      assert t in Multimap.Keys(es);
    }
  }

  /** Distinct ids stay distinct among the key blocks. */
  lemma {:induction false} KeyBlocksDistinct(blocks: seq<Block>)
    requires DistinctIds(blocks) && EntityTypesPresent(blocks)
    ensures DistinctIds(KeyBlocks(blocks))
  {
    if blocks != [] {
      var rest := blocks[1..];
      assert forall i :: 0 <= i < |rest| ==> rest[i] == blocks[i + 1];
      KeyBlocksDistinct(rest);
      var kr := KeyBlocks(rest);
      forall k | 0 <= k < |kr| ensures kr[k].id != blocks[0].id {
        KeyBlocksMembership(rest, kr[k]);
        var i :| 0 <= i < |rest| && rest[i] == kr[k];
        assert blocks[i + 1] == kr[k];
      }
    }
  }

  /** Every value block listed under a key text comes from a key block with
      that text. */
  lemma ResolvedMapValueSource(blocks: seq<Block>, t: string, v: Option<Block>)
    requires Resolvable(blocks) && t in ResolvedMap(blocks) && v in ResolvedMap(blocks)[t]
    ensures exists i :: Contributes(blocks, i, t, v)
  {
    var index := Index(blocks);
    var kbs := KeyBlocks(blocks);
    KeyBlocksResolvable(blocks);
    var es := Entries(index, kbs);
    Multimap.ValuesForMembership(es, t, v);
    var k :| 0 <= k < |es| && es[k].0 == t && v in es[k].1;
    assert es[k] == Entry(index, kbs[k]);
    KeyBlocksMembership(blocks, kbs[k]);
    var i :| 0 <= i < |blocks| && blocks[i] == kbs[k];
    assert Contributes(blocks, i, t, v);
  }

  /** Every value block of every key block is listed under its key text. */
  lemma ResolvedMapValueListed(blocks: seq<Block>, i: nat, v: Option<Block>)
    requires Resolvable(blocks) && i < |blocks| && IsKeyBlock(blocks[i])
    requires v in ValueBlocks(Index(blocks), blocks[i])
    ensures KeyText(Index(blocks), blocks[i]) in ResolvedMap(blocks)
    ensures v in ResolvedMap(blocks)[KeyText(Index(blocks), blocks[i])]
  {
    var index := Index(blocks);
    var t := KeyText(index, blocks[i]);
    var kbs := KeyBlocks(blocks);
    KeyBlocksResolvable(blocks);
    var es := Entries(index, kbs);
    ResolvedMapKeys(blocks, t);
    KeyBlocksMembership(blocks, blocks[i]);
    var k :| 0 <= k < |kbs| && kbs[k] == blocks[i];
    assert es[k] == Entry(index, kbs[k]);
    Multimap.ValuesForMembership(es, t, v);
  }

  /** The key block at input position `i` has text `t` and lists `v` among
      its value blocks. */
  predicate Contributes(blocks: seq<Block>, i: int, t: string, v: Option<Block>)
    requires Resolvable(blocks)
  {
    && 0 <= i < |blocks| && IsKeyBlock(blocks[i])
    && KeyText(Index(blocks), blocks[i]) == t
    && v in ValueBlocks(Index(blocks), blocks[i])
  }

  /** A value block is listed under a key text exactly when some key block with
      that text has it among its value blocks. */
  lemma ResolvedMapValues(blocks: seq<Block>, t: string, v: Option<Block>)
    requires Resolvable(blocks) && t in ResolvedMap(blocks)
    ensures v in ResolvedMap(blocks)[t] <==> exists i :: Contributes(blocks, i, t, v)
  {
    if v in ResolvedMap(blocks)[t] {
      ResolvedMapValueSource(blocks, t, v);
    }
    if exists i :: Contributes(blocks, i, t, v) {
      var i :| Contributes(blocks, i, t, v);
      ResolvedMapValueListed(blocks, i, v);
    }
  }

  /** The key block at input position `i` is at some position of the key
      blocks before the key blocks of `blocks[j..]`, for `i < j`. */
  lemma KeyBlockBefore(blocks: seq<Block>, i: nat, j: nat) returns (p: nat)
    requires DistinctIds(blocks) && EntityTypesPresent(blocks)
    requires i < j <= |blocks| && IsKeyBlock(blocks[i])
    ensures EntityTypesPresent(blocks[..j])
    ensures p < |KeyBlocks(blocks[..j])| && p < |KeyBlocks(blocks)|
    ensures KeyBlocks(blocks)[p] == blocks[i]
  {
    var a, b := blocks[..j], blocks[j..];
    assert blocks == a + b;
    assert EntityTypesPresent(a) by {
      assert forall k :: 0 <= k < |a| ==> a[k] == blocks[k];
    }
    assert EntityTypesPresent(b) by {
      assert forall k :: 0 <= k < |b| ==> b[k] == blocks[j + k];
    }
    KeyBlocksAppend(a, b);
    assert a[i] == blocks[i];
    KeyBlocksMembership(a, blocks[i]);
    p :| 0 <= p < |KeyBlocks(a)| && KeyBlocks(a)[p] == blocks[i];
  }

  /** The key block at input position `j` is at some position of the key
      blocks of `blocks[j..]`. */
  lemma KeyBlockFrom(blocks: seq<Block>, j: nat) returns (q: nat)
    requires DistinctIds(blocks) && EntityTypesPresent(blocks)
    requires j < |blocks| && IsKeyBlock(blocks[j])
    ensures EntityTypesPresent(blocks[..j])
    ensures |KeyBlocks(blocks[..j])| <= q < |KeyBlocks(blocks)|
    ensures KeyBlocks(blocks)[q] == blocks[j]
  {
    var a, b := blocks[..j], blocks[j..];
    assert blocks == a + b;
    assert EntityTypesPresent(a) by {
      assert forall k :: 0 <= k < |a| ==> a[k] == blocks[k];
    }
    assert EntityTypesPresent(b) by {
      assert forall k :: 0 <= k < |b| ==> b[k] == blocks[j + k];
    }
    KeyBlocksAppend(a, b);
    assert b[0] == blocks[j];
    KeyBlocksMembership(b, blocks[j]);
    var r :| 0 <= r < |KeyBlocks(b)| && KeyBlocks(b)[r] == blocks[j];
    q := |KeyBlocks(a)| + r;
  }

  /** The entry at position `r` belongs to a key block of the input. */
  lemma EntryOfKeyBlock(blocks: seq<Block>, r: nat) returns (k: nat)
    requires Resolvable(blocks) && AllKeysResolvable(Index(blocks), KeyBlocks(blocks))
    requires r < |KeyBlocks(blocks)|
    ensures k < |blocks| && blocks[k] == KeyBlocks(blocks)[r] && IsKeyBlock(blocks[k])
    ensures Entries(Index(blocks), KeyBlocks(blocks))[r].0 == KeyText(Index(blocks), blocks[k])
  {
    var kbs := KeyBlocks(blocks);
    KeyBlocksMembership(blocks, kbs[r]);
    k :| 0 <= k < |blocks| && blocks[k] == kbs[r];
  }

  /** Two key blocks with the same text, and no other key block with it: the
      text maps to the value blocks of the earlier one followed by those of the
      later one, nothing deduplicated. */
  lemma DuplicateKeyTextAccumulates(blocks: seq<Block>, i: nat, j: nat)
    requires Resolvable(blocks)
    requires i < j < |blocks| && IsKeyBlock(blocks[i]) && IsKeyBlock(blocks[j])
    requires KeyText(Index(blocks), blocks[i]) == KeyText(Index(blocks), blocks[j])
    requires forall k :: 0 <= k < |blocks| && k != i && k != j && IsKeyBlock(blocks[k]) ==>
      KeyText(Index(blocks), blocks[k]) != KeyText(Index(blocks), blocks[i])
    ensures KeyText(Index(blocks), blocks[i]) in ResolvedMap(blocks)
    ensures ResolvedMap(blocks)[KeyText(Index(blocks), blocks[i])]
      == ValueBlocks(Index(blocks), blocks[i]) + ValueBlocks(Index(blocks), blocks[j])
  {
    var index := Index(blocks);
    var t := KeyText(index, blocks[i]);
    var kbs := KeyBlocks(blocks);
    KeyBlocksResolvable(blocks);
    KeyBlocksDistinct(blocks);
    var es := Entries(index, kbs);
    var p := KeyBlockBefore(blocks, i, j);
    var q := KeyBlockFrom(blocks, j);
    forall r | 0 <= r < |es| && r != p && r != q ensures es[r].0 != t {
      var k := EntryOfKeyBlock(blocks, r);
      assert kbs[r].id != kbs[p].id && kbs[r].id != kbs[q].id;
      assert k != i && k != j;
    }
    assert es[p] == Entry(index, kbs[p]);
    assert es[q] == Entry(index, kbs[q]);
    Multimap.ValuesForPair(es, t, p, q);
    ResolvedMapKeys(blocks, t);
  }
}
