/** Cutting a text at octets: which slices can be encoded by themselves. */
module Cutting {
  import opened Bits
  import opened Utf8
  import opened Gsm7

  /** A character of the text, read from its front, starts at pos, or the text ends there. */
  predicate IsBoundary(text: Bytes, pos: nat)
    requires pos <= |text|
    decreases |text|
  {
    pos == 0 || (text != [] && CodePointAt(text, 0).length <= pos
                 && IsBoundary(text[CodePointAt(text, 0).length..], pos - CodePointAt(text, 0).length))
  }

  /** Code point 0, which the reader makes of an incomplete character, has no septet. */
  lemma NothingForZero()
    ensures CharSeptets(0).None?
  {
    hide PositionFrom;
    PositionFromFinds(0, 0);
  }

  lemma CutCharacter(text: Bytes, pos: nat)
    requires 0 < pos <= |text|
    ensures CodePointAt(text[..pos], 0)
         == if CodePointAt(text, 0).length <= pos then CodePointAt(text, 0) else CodePoint(0, 1)
  {
    hide Join;
  }

  lemma EncodedFirst(text: Bytes)
    requires text != []
    ensures
      var c := CodePointAt(text, 0);
      Encoded(text, false).Some? <==> CharSeptets(c.value).Some? && Encoded(text[c.length..], false).Some?
  {
    hide CodePointAt, CharSeptets;
  }

  lemma BoundaryFirst(text: Bytes, pos: nat)
    requires 0 < pos <= |text|
    ensures
      var c := CodePointAt(text, 0);
      IsBoundary(text, pos) <==> c.length <= pos && IsBoundary(text[c.length..], pos - c.length)
  {
    hide CodePointAt;
  }

  /** The front of a text that can be encoded can be encoded exactly when it ends between characters. */
  lemma {:induction false} FrontEncodesExactly(text: Bytes, pos: nat)
    requires Encoded(text, false).Some? && pos <= |text|
    ensures Encoded(text[..pos], false).Some? <==> IsBoundary(text, pos)
    decreases |text|
  {
    hide *;
    if pos == 0 {
      NothingEncodes(text);
    } else {
      var c := CodePointAt(text, 0);
      EncodedFirst(text);
      EncodedFirst(text[..pos]);
      CutCharacter(text, pos);
      BoundaryFirst(text, pos);
      if c.length <= pos {
        FrontEncodesExactly(text[c.length..], pos - c.length);
        assert text[..pos][c.length..] == text[c.length..][..pos - c.length];
      } else {
        NothingForZero();
      }
    }
  }

  lemma NothingEncodes(text: Bytes)
    ensures Encoded(text[..0], false).Some? && IsBoundary(text, 0)
  {
    assert text[..0] == [];
  }

  /** What follows a boundary can be encoded too, and has the remaining boundaries. */
  lemma {:induction false} BackEncodes(text: Bytes, pos: nat, next: nat)
    requires Encoded(text, false).Some? && pos <= next <= |text| && IsBoundary(text, pos)
    ensures Encoded(text[pos..], false).Some?
    ensures IsBoundary(text[pos..], next - pos) <==> IsBoundary(text, next)
    decreases |text|
  {
    hide *;
    if pos == 0 {
      assert text[0..] == text;
    } else {
      var c := CodePointAt(text, 0);
      EncodedFirst(text);
      BoundaryFirst(text, pos);
      BoundaryFirst(text, next);
      BackEncodes(text[c.length..], pos - c.length, next - c.length);
      assert text[c.length..][pos - c.length..] == text[pos..];
    }
  }
}
