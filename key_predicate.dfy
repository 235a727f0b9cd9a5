/** The key condition that `paintComponent` hands to the overlay: the key,
    lower-cased, contains the label "Signature of Buyer(s)" lower-cased and
    with its spaces removed. Only the key is lower-cased and only the label
    loses its spaces. Case folding is modelled on ASCII letters only. */
module KeyPredicate {

  /** The label the overlay looks for, as written in `paintComponent`. */
  const SignatureLabel: string := "Signature of Buyer(s)"

  function LowerChar(c: char): char {
    if 'A' <= c <= 'Z' then (c as int + 32) as char else c
  }

  /** `String.toLowerCase(Locale.ROOT)`, on ASCII letters. */
  function ToLower(s: string): (r: string)
    ensures |r| == |s|
    ensures forall i :: 0 <= i < |s| ==> r[i] == LowerChar(s[i])
  {
    seq(|s|, i requires 0 <= i < |s| => LowerChar(s[i]))
  }

  /** `replaceAll(" ", "")`: every space removed, every other character kept
      in order. */
  function RemoveSpaces(s: string): (r: string)
  {
    if s == [] then []
    else
      (if s[0] == ' ' then [] else [s[0]]) + RemoveSpaces(s[1..])
  }

  /** No space is left, and every other character is kept as often as it
      occurs. */
  lemma {:induction false} RemoveSpacesKeepsOthers(s: string)
    ensures ' ' !in RemoveSpaces(s)
    ensures forall c :: c != ' ' ==> multiset(RemoveSpaces(s))[c] == multiset(s)[c]
  {
    if s != [] {
      assert s == [s[0]] + s[1..];
      RemoveSpacesKeepsOthers(s[1..]);
    }
  }

  lemma {:induction false} RemoveSpacesAppend(a: string, b: string)
    ensures RemoveSpaces(a + b) == RemoveSpaces(a) + RemoveSpaces(b)
  {
    if a == [] {
      assert a + b == b;
    } else {
      assert (a + b)[0] == a[0];
      assert (a + b)[1..] == a[1..] + b;
      RemoveSpacesAppend(a[1..], b);
    }
  }

  /** `needle` occurs in `hay` starting at index `i`. */
  predicate OccursAt(hay: string, needle: string, i: int) {
    0 <= i && i + |needle| <= |hay| && hay[i..i + |needle|] == needle
  }

  /** Past a first position where it does not occur, the needle occurs in
      the haystack exactly when it occurs in the haystack's tail. */
  lemma OccursInTail(hay: string, needle: string)
    requires hay != [] && !OccursAt(hay, needle, 0)
    ensures (exists i :: OccursAt(hay, needle, i)) <==> (exists i :: OccursAt(hay[1..], needle, i))
  {
    if exists i :: OccursAt(hay, needle, i) {
      var i :| OccursAt(hay, needle, i);
      assert hay[1..][i - 1..i - 1 + |needle|] == hay[i..i + |needle|];
      assert OccursAt(hay[1..], needle, i - 1);
    }
    if exists i :: OccursAt(hay[1..], needle, i) {
      var i :| OccursAt(hay[1..], needle, i);
      assert hay[1..][i..i + |needle|] == hay[i + 1..i + 1 + |needle|];
      assert OccursAt(hay, needle, i + 1);
    }
  }

  /** `String.contains`: the needle occurs somewhere in the haystack. */
  function Contains(hay: string, needle: string): (found: bool)
    ensures found <==> exists i :: OccursAt(hay, needle, i)
    decreases |hay|
  {
    if |needle| > |hay| then false
    else if hay[..|needle|] == needle then assert OccursAt(hay, needle, 0); true
    else
      assert !OccursAt(hay, needle, 0);
      OccursInTail(hay, needle);
      Contains(hay[1..], needle)
  }

  /** The key condition of `paintComponent`. */
  predicate IsSignatureOfBuyerKey(k: string) {
    Contains(ToLower(k), RemoveSpaces(ToLower(SignatureLabel)))
  }

  /** The label lower-cased. */
  lemma LowerLabel(s: string)
    requires s == "Signature of Buyer(s)"
    ensures ToLower(s) == "signature of buyer(s)"
  {
    var r, t := ToLower(s), "signature of buyer(s)";
    forall i | 0 <= i < |t| ensures r[i] == t[i] {
      assert r[i] == LowerChar(s[i]);
    }
  }

  /** A string without spaces is left as it is. */
  lemma {:induction false} RemoveSpacesWithoutSpaces(s: string)
    requires ' ' !in s
    ensures RemoveSpaces(s) == s
  {
    if s != [] {
      assert s[0] != ' ';
      assert ' ' !in s[1..];
      RemoveSpacesWithoutSpaces(s[1..]);
    }
  }

  /** A space between two strings is dropped and both sides are kept. */
  lemma {:induction false} RemoveSpacesSkipsSpace(x: string, y: string)
    ensures RemoveSpaces(x + [' '] + y) == RemoveSpaces(x) + RemoveSpaces(y)
  {
    var sp: string := [' '];
    RemoveSpacesAppend(x + sp, y);
    RemoveSpacesAppend(x, sp);
    assert sp[1..] == [];
    assert RemoveSpaces(sp) == [] + RemoveSpaces(sp[1..]);
  }

  /** Three space-free words separated by single spaces are joined. */
  lemma RemoveSpacesBetween(a: string, b: string, c: string)
    requires ' ' !in a && ' ' !in b && ' ' !in c
    ensures RemoveSpaces(a + [' '] + b + [' '] + c) == a + b + c
  {
    RemoveSpacesSkipsSpace(a + [' '] + b, c);
    RemoveSpacesSkipsSpace(a, b);
    RemoveSpacesWithoutSpaces(a);
    RemoveSpacesWithoutSpaces(b);
    RemoveSpacesWithoutSpaces(c);
  }

  /** The lower-cased label loses its two spaces. */
  lemma LowerLabelWithoutSpaces(lower: string)
    requires lower == "signature of buyer(s)"
    ensures RemoveSpaces(lower) == "signatureofbuyer(s)"
  {
    RemoveSpacesBetween("signature", "of", "buyer(s)");
    assert lower == "signature" + [' '] + "of" + [' '] + "buyer(s)";
    assert "signature" + "of" + "buyer(s)" == "signatureofbuyer(s)";
  }

  /** The label is turned into "signatureofbuyer(s)". */
  lemma SignatureTarget(s: string)
    requires s == SignatureLabel
    ensures RemoveSpaces(ToLower(s)) == "signatureofbuyer(s)"
  {
    LowerLabel(s);
    LowerLabelWithoutSpaces(ToLower(s));
  }

  /** The condition holds exactly when the lower-cased key contains
      "signatureofbuyer(s)". */
  lemma SignatureKeyIff(k: string)
    ensures IsSignatureOfBuyerKey(k) <==> exists i :: OccursAt(ToLower(k), "signatureofbuyer(s)", i)
  {
    SignatureTarget(SignatureLabel);
  }

  /** Lower-casing twice is lower-casing once. */
  lemma ToLowerIdempotent(s: string)
    ensures ToLower(ToLower(s)) == ToLower(s)
  {
  }

  /** The condition does not depend on the case of the key. */
  lemma SignatureKeyIgnoresCase(k1: string, k2: string)
    requires ToLower(k1) == ToLower(k2)
    ensures IsSignatureOfBuyerKey(k1) == IsSignatureOfBuyerKey(k2)
  {
  }

  /** A key read as "SignatureofBuyer(s)", lower-cased. */
  lemma LowerJoined(s: string)
    requires s == "SignatureofBuyer(s)"
    ensures ToLower(s) == "signatureofbuyer(s)"
  {
    var r, t := ToLower(s), "signatureofbuyer(s)";
    forall i | 0 <= i < |t| ensures r[i] == t[i] {
      assert r[i] == LowerChar(s[i]);
    }
  }

  /** Every string occurs in itself at its start. */
  lemma OccursAtStart(s: string)
    ensures OccursAt(s, s, 0)
  {
    assert s[0..|s|] == s;
  }

  /** Key texts are joined without separator, so the words "Signature", "of"
      and "Buyer(s)" make a key that matches. */
  lemma JoinedWordsMatch(k: string)
    requires k == "SignatureofBuyer(s)"
    ensures IsSignatureOfBuyerKey(k)
  {
    SignatureKeyIff(k);
    LowerJoined(k);
    OccursAtStart(ToLower(k));
  }

  /** The lower-cased label, spaces included, does not contain the target. */
  lemma LabelLacksTarget(hay: string, needle: string)
    requires hay == "signature of buyer(s)" && needle == "signatureofbuyer(s)"
    ensures forall i :: !OccursAt(hay, needle, i)
  {
    forall i | 0 <= i <= |hay| - |needle|
      ensures !OccursAt(hay, needle, i)
    {
      if i == 0 {
        assert hay[i..i + |needle|][9] != needle[9];
      } else {
        assert hay[i..i + |needle|][0] != needle[0];
      }
    }
  }

  /** The key keeps its spaces: a key that reads "Signature of Buyer(s)"
      does not match. */
  lemma SpacedKeyDoesNotMatch(k: string)
    requires k == SignatureLabel
    ensures !IsSignatureOfBuyerKey(k)
  {
    SignatureKeyIff(k);
    LowerLabel(k);
    LabelLacksTarget(ToLower(k), "signatureofbuyer(s)");
  }
}
