/** The slice of Textract's analysis result that the key/value resolver reads:
    blocks and the typed relationships between them. Java's nullable fields
    (`getText()`, `getEntityTypes()`, `getRelationships()`) are `Option`s. */
module Blocks {

  /** A Java reference that may be `null`. */
  datatype Option<+T> = None | Some(value: T)

  /** A typed, directed link from one block to other blocks, by id. */
  datatype Relationship = Relationship(relType: string, ids: seq<string>)

  /** One analysis result unit. Geometry and confidence are only used for
      drawing, which is not part of this model. */
  datatype Block = Block(
    id: string,
    blockType: string,
    entityTypes: Option<seq<string>>,
    text: Option<string>,
    relationships: Option<seq<Relationship>>)

  const KeyValueSet: string := "KEY_VALUE_SET"
  const Key: string := "KEY"
  const Child: string := "CHILD"
  const Value: string := "VALUE"

  /** No element of `s` is a null reference. */
  predicate AllPresent<T>(s: seq<Option<T>>) {
    forall i :: 0 <= i < |s| ==> s[i].Some?
  }

  /** The referents of a list of references that are all non-null; using a
      reference that is null throws, hence the precondition. */
  function Deref<T>(s: seq<Option<T>>): (r: seq<T>)
    requires AllPresent(s)
    ensures |r| == |s|
    ensures forall i :: 0 <= i < |s| ==> s[i] == Some(r[i])
  {
    if s == [] then [] else [s[0].value] + Deref(s[1..])
  }

  lemma {:induction false} DerefAppend<T>(a: seq<Option<T>>, b: seq<Option<T>>)
    requires AllPresent(a) && AllPresent(b)
    ensures AllPresent(a + b)
    ensures Deref(a + b) == Deref(a) + Deref(b)
  {
    assert AllPresent(a + b);
    var r := Deref(a + b);
    assert |r| == |Deref(a) + Deref(b)|;
    forall i | 0 <= i < |r|
      ensures r[i] == (Deref(a) + Deref(b))[i]
    {
      if i < |a| {
        assert (a + b)[i] == a[i];
      } else {
        assert (a + b)[i] == b[i - |a|];
      }
    }
  }
}
