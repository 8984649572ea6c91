/** Which texts survive GSM 7-bit encoding, and packing on top of it. */
module Gsm7Text {
  import opened Wrappers
  import opened Sequences
  import opened Bits
  import opened Utf8
  import opened Gsm7
  import opened Septets

  // ---------------------------------------------------------------- encoding and decoding

  /** A code point that the tables map both ways. The escape code itself is not one. */
  predicate AgreeingPoint(cp: nat) {
    cp != 0x1B &&
    match Position(cp)
    case Some(p) => !Disagrees(p)
    case None => ExtensionCode(cp).Some?
  }

  /** What a caller can check, character by character: shortest-form UTF-8 of agreeing code points,
      with a bare escape allowed as the last character. */
  predicate Survives(text: Bytes) {
    text == [] || text == [0x1B]
    || (StartsShort(text) && AgreeingPoint(CodePointAt(text, 0).value)
        && Survives(text[CodePointAt(text, 0).length..]))
  }

  /** Only a lone escape shows as an escape character. */
  lemma {:induction false} EscapeShownLast(s: seq<byte>)
    ensures Decoded(s) == [] || exists u: nat :: u < 0x10000 && Utf8Of(u) <= Decoded(s)
                                              && (u == 0x1B ==> Decoded(s) == [0x1B])
  {
    if s == [] {
    } else if s[0] == ESC && |s| > 1 {
      var rest := Decoded(s[2..]);
      EscapeShownLast(s[2..]);
      var shown := EscapedText(s[1]);
      if shown != [] {
        ExtensionTextIsUtf8(s[1]);
        hide ExtensionText, Utf8Of;
        assert Utf8Of(shown[0]) <= shown + rest;
      } else {
        assert shown + rest == rest;
      }
    } else if s[0] == ESC {
      assert s == [ESC] && s[1..] == [];
      assert Decoded(s) == [0x1B];
      Utf8Single(0x1B);
      assert Utf8Of(0x1B) <= Decoded(s);
    } else if s[0] < 128 {
      CharAtIsUtf8(s[0]);
      DisagreementIsExact(s[0]);
      assert Utf8Of(ShownCodePoint(s[0])) <= Decoded(s);
    } else {
      EscapeShownLast(s[1..]);
      assert [] + Decoded(s[1..]) == Decoded(s[1..]);
    }
  }

  /** What the decoder shows for a code point the encoder accepts, the escape apart. */
  function Shown(cp: nat): (u: nat)
    requires CharSeptets(cp).Some?
    ensures u < 0x10000
  {
    match Position(cp)
    case Some(p) => ShownCodePoint(p)
    case None => ExtensionInverts(cp); cp
  }

  lemma ShownExactly(cp: nat)
    requires CharSeptets(cp).Some? && cp != 0x1B
    ensures Shown(cp) == cp <==> AgreeingPoint(cp)
  {
    hide ShownCodePoint, TableCodePoint, PositionFrom, ExtensionCode;
    if Position(cp).Some? {
      var p := Position(cp).value;
      PositionIsExact(cp, p);
      DisagreementIsExact(p);
    }
  }

  lemma EscapePosition(cp: nat)
    ensures CharSeptets(cp) == Some([ESC]) <==> cp == 0x1B
    ensures CharSeptets(cp).Some? && cp != 0x1B && |CharSeptets(cp).value| == 1 ==> CharSeptets(cp).value[0] != ESC
  {
    PositionIsExact(cp, ESC);
    assert TableCodePoint(ESC) == 0x1B;
    hide TableCodePoint, PositionFrom, ExtensionCode;
  }

  lemma DecodedPair(a: byte, b: byte, rest: seq<byte>)
    ensures Decoded([a, b] + rest) == if a == ESC then EscapedText(b) + Decoded(rest)
                                      else PlainText(a) + Decoded([b] + rest)
  {
    hide EscapedText, PlainText;
    assert ([a, b] + rest)[1..] == [b] + rest;
    assert ([a, b] + rest)[2..] == rest;
  }

  lemma DecodedPlain(a: byte, rest: seq<byte>)
    requires a != ESC || rest == []
    ensures Decoded([a] + rest) == PlainText(a) + Decoded(rest)
  {
    hide PlainText;
    assert ([a] + rest)[1..] == rest;
  }

  /** One character is decoded by itself, whatever follows. */
  lemma DecodedChar(cp: nat, rest: seq<septet>)
    requires CharSeptets(cp).Some? && cp != 0x1B
    ensures Decoded(CharSeptets(cp).value + rest) == Utf8Of(Shown(cp)) + Decoded(rest)
  {
    EscapePosition(cp);
    if Position(cp).Some? {
      var p := Position(cp).value;
      hide CharAt, Utf8Of, Decoded, PositionFrom, ExtensionCode, ShownCodePoint, TableCodePoint;
      DecodedPlain(p, rest);
      CharAtIsUtf8(p);
    } else {
      hide ExtensionText, Utf8Of, Decoded, PositionFrom;
      ExtensionInverts(cp);
      DecodedPair(ESC, ExtensionCode(cp).value, rest);
    }
  }

  lemma EncodedCons(text: Bytes, s: seq<septet>)
    requires text != [] && Encoded(text, false) == Some(s)
    ensures
      var c := CodePointAt(text, 0);
      && CharSeptets(c.value).Some? && Encoded(text[c.length..], false).Some?
      && s == CharSeptets(c.value).value + Encoded(text[c.length..], false).value
  {
    hide CodePointAt, CharSeptets;
  }

  lemma NeverEmpty(text: Bytes)
    requires text != [] && Encoded(text, false).Some?
    ensures Encoded(text, false).value != []
  {
    hide Encoded, CharSeptets, CodePointAt;
    EncodedCons(text, Encoded(text, false).value);
  }

  /** A text that starts with an escape and goes on never comes back. */
  lemma InnerEscapeIsLost(text: Bytes, s: seq<septet>)
    requires text != [] && Encoded(text, false) == Some(s)
    requires CodePointAt(text, 0).value == 0x1B && text != [0x1B]
    ensures Decoded(s) != text
  {
    EscapeShownLast(s);
    hide CodePointAt, Encoded, Decoded, Utf8Of;
    if Decoded(s) == text {
      var u: nat :| u < 0x10000 && Utf8Of(u) <= text && (u == 0x1B ==> text == [0x1B]);
      ReadBack(u, text);
    }
  }

  lemma LoneEscape(text: Bytes)
    requires text == [0x1B]
    ensures CodePointAt(text, 0) == CodePoint(0x1B, 1)
    ensures Encoded(text, false) == Some([ESC]) && Decoded([ESC]) == text
  {
    EscapePosition(0x1B);
    assert CodePointAt(text, 0) == CodePoint(0x1B, 1);
    CharAtShape(ESC);
    assert CharAt(ESC) == [0x1B];
    hide PositionFrom, ExtensionCode, CharSeptets, CodePointAt, Decoded, CharAt;
    assert text[1..] == [];
    EncodedNothing();
    assert [ESC] + [] == [ESC];
    assert Encoded(text, false) == Prepend([ESC], Some([]));
    DecodedPlain(ESC, []);
    DecodedNothing();
  }

  lemma EncodedNothing()
    ensures Encoded([], false) == Some([])
  {
  }

  /** A text comes back from encoding and decoding exactly if it passes the check. */
  lemma {:induction false} RoundTripExactlyIf(text: Bytes, s: seq<septet>)
    requires Encoded(text, false) == Some(s)
    ensures Decoded(s) == text <==> Survives(text)
  {
    if text == [] {
    } else if text == [0x1B] {
      LoneEscape(text);
    } else {
      var c := CodePointAt(text, 0);
      EncodedCons(text, s);
      if c.value == 0x1B {
        InnerEscapeIsLost(text, s);
      } else {
        var rest := text[c.length..];
        var r := Encoded(rest, false).value;
        hide CodePointAt, Encoded, Decoded, Utf8Of, CharSeptets, AgreeingPoint, Shown, StartsShort;
        RoundTripExactlyIf(rest, r);
        DecodedChar(c.value, r);
        ShownExactly(c.value);
        PrefixExactly(text, Shown(c.value), Decoded(r));
      }
    }
  }

  // ---------------------------------------------------------------- with septets dropped

  /** A character the encoder accepts, with at least the octets its code point needs. */
  predicate Acceptable(c: CodePoint) {
    CharSeptets(c.value).Some? && c.length >= 1 && (c.value >= 0x80 ==> c.length >= 2)
  }

  predicate AllAcceptable(cs: seq<CodePoint>) {
    forall i :: 0 <= i < |cs| ==> Acceptable(cs[i])
  }

  function Flat(cs: seq<CodePoint>): seq<septet>
    requires AllAcceptable(cs)
  {
    if cs == [] then [] else CharSeptets(cs[0].value).value + Flat(cs[1..])
  }

  function OctetsOf(cs: seq<CodePoint>): nat {
    if cs == [] then 0 else cs[0].length + OctetsOf(cs[1..])
  }

  function Chars(text: Bytes): seq<CodePoint> {
    if text == [] then [] else [CodePointAt(text, 0)] + Chars(text[CodePointAt(text, 0).length..])
  }

  lemma {:induction false} EncodedIsFlat(text: Bytes, s: seq<septet>)
    requires Encoded(text, false) == Some(s)
    ensures AllAcceptable(Chars(text)) && Flat(Chars(text)) == s && OctetsOf(Chars(text)) == |text|
  {
    if text != [] {
      var c := CodePointAt(text, 0);
      assert c.value >= 0x80 ==> c.length >= 2;
      EncodedCons(text, s);
      hide CodePointAt, CharSeptets, Encoded;
      EncodedIsFlat(text[c.length..], Encoded(text[c.length..], false).value);
    }
  }

  lemma ShownFits(p: septet)
    ensures |CharAt(p)| <= 2 && (|CharAt(p)| == 2 ==> TableCodePoint(p) >= 0x80)
  {
  }

  lemma PlainFits(c: CodePoint, b: septet)
    requires Acceptable(c) && CharSeptets(c.value) == Some([b])
    ensures |PlainText(b)| <= c.length
  {
    PositionIsExact(c.value, b);
    ShownFits(b);
    hide CharAt, TableCodePoint, PositionFrom, ExtensionCode;
  }

  lemma EscapedFits(b: byte)
    ensures |EscapedText(b)| <= 1 && EscapedText(ESC) == [] && |PlainText(b)| <= 2
  {
    if b < 128 { ShownFits(b); }
    hide CharAt;
  }

  lemma TwoSeptets(cp: nat)
    requires CharSeptets(cp).Some? && |CharSeptets(cp).value| == 2
    ensures CharSeptets(cp).value[0] == ESC && CharSeptets(cp).value[1] != 0 && CharSeptets(cp).value[1] != ESC
  {
    ExtensionInverts(cp);
    hide PositionFrom, ExtensionCode;
  }

  lemma SwallowPlain(b: septet, rest: seq<septet>)
    ensures |Decoded([ESC] + ([b] + rest))| <= 1 + |Decoded(rest)|
  {
    hide Decoded, PlainText, EscapedText;
    assert [ESC] + ([b] + rest) == [ESC, b] + rest;
    DecodedPair(ESC, b, rest);
    EscapedFits(b);
  }

  lemma SwallowEscape(b: septet, rest: seq<septet>)
    requires b != ESC
    ensures |Decoded([ESC] + ([ESC, b] + rest))| <= 2 + |Decoded(rest)|
  {
    hide Decoded, PlainText, EscapedText;
    assert [ESC] + ([ESC, b] + rest) == [ESC, ESC] + ([b] + rest);
    DecodedPair(ESC, ESC, [b] + rest);
    DecodedPlain(b, rest);
    EscapedFits(b);
  }

  /** Decoding never makes a text longer. */
  lemma {:induction false} DecodeShrinks(cs: seq<CodePoint>)
    requires AllAcceptable(cs)
    ensures |Decoded(Flat(cs))| <= OctetsOf(cs)
    decreases |cs|
  {
    if cs == [] {
    } else {
      var e := CharSeptets(cs[0].value).value;
      var rest := cs[1..];
      hide CharSeptets, Decoded, PlainText, EscapedText;
      DecodeShrinks(rest);
      if |e| == 2 {
        TwoSeptets(cs[0].value);
        assert e == [ESC, e[1]];
        EscapedFits(e[1]);
        DecodedPair(ESC, e[1], Flat(rest));
      } else if e[0] != ESC || rest == [] {
        assert e == [e[0]];
        PlainFits(cs[0], e[0]);
        DecodedPlain(e[0], Flat(rest));
      } else {
        assert e == [ESC];
        EscapeSwallows(cs);
      }
    }
  }

  /** An escape takes the septet after it, whatever character that belongs to. */
  lemma {:induction false} EscapeSwallows(cs: seq<CodePoint>)
    requires AllAcceptable(cs) && |cs| >= 2 && CharSeptets(cs[0].value) == Some([ESC])
    ensures |Decoded(Flat(cs))| <= OctetsOf(cs)
    decreases |cs|, 0
  {
    var e := CharSeptets(cs[1].value).value;
    var rest := cs[2..];
    assert cs[1..][1..] == rest;
    assert Flat(cs[1..]) == e + Flat(rest) && Flat(cs) == [ESC] + Flat(cs[1..]);
    assert OctetsOf(cs) == cs[0].length + (cs[1].length + OctetsOf(rest));
    hide CharSeptets, Decoded, PlainText, EscapedText, Flat, OctetsOf;
    DecodeShrinks(rest);
    if |e| == 1 {
      assert e == [e[0]];
      SwallowPlain(e[0], Flat(rest));
    } else {
      TwoSeptets(cs[1].value);
      assert e == [ESC, e[1]];
      SwallowEscape(e[1], Flat(rest));
    }
  }

  /** From septet k on, dropping leaves the encoding of some of the characters. */
  ghost predicate ThinnedTo(t: seq<septet>, k: nat, cs: seq<CodePoint>, left: seq<CodePoint>)
    requires k <= |t|
  {
    && AllAcceptable(left) && Kept(t) == KeptTo(t, k) + Flat(left)
    && OctetsOf(left) <= OctetsOf(cs)
    && (OctetsOf(left) == OctetsOf(cs) ==> |Flat(left)| == |t| - k)
  }

  lemma FlatCons(c: CodePoint, tail: seq<CodePoint>)
    requires Acceptable(c) && AllAcceptable(tail)
    ensures Flat([c] + tail) == CharSeptets(c.value).value + Flat(tail)
    ensures OctetsOf([c] + tail) == c.length + OctetsOf(tail)
  {
    hide CharSeptets;
    assert ([c] + tail)[1..] == tail;
  }

  lemma ThinnedOne(t: seq<septet>, k: nat, cs: seq<CodePoint>, tail: seq<CodePoint>)
    requires k < |t| && cs != [] && AllAcceptable(cs) && CharSeptets(cs[0].value) == Some([t[k]])
    requires ThinnedTo(t, k + 1, cs[1..], tail)
    ensures ThinnedTo(t, k, cs, if Dropped(t, k) then tail else [cs[0]] + tail)
  {
    assert KeptTo(t, k + 1) == KeptTo(t, k) + if Dropped(t, k) then [] else [t[k]];
    hide CharSeptets, Dropped, Flat, KeptTo, Kept, OctetsOf;
    FlatCons(cs[0], tail);
    TailAcceptable(cs);
    Regroup(KeptTo(t, k), if Dropped(t, k) then [] else [t[k]], Flat(tail));
    if Dropped(t, k) {
      Regroup(KeptTo(t, k), [], Flat(tail));
    }
  }

  lemma ThinnedTwo(t: seq<septet>, k: nat, cs: seq<CodePoint>, tail: seq<CodePoint>)
    requires k + 1 < |t| && cs != [] && AllAcceptable(cs)
    requires CharSeptets(cs[0].value) == Some([t[k], t[k + 1]])
    requires ThinnedTo(t, k + 2, cs[1..], tail)
    ensures ThinnedTo(t, k, cs, [cs[0]] + tail)
  {
    TwoSeptets(cs[0].value);
    hide CharSeptets, Dropped, Flat, KeptTo, Kept, OctetsOf;
    FlatCons(cs[0], tail);
    TailAcceptable(cs);
    NonZeroKept(t, k);
    NonZeroKept(t, k + 1);
    RegroupPair(KeptTo(t, k), t[k], t[k + 1], Flat(tail));
  }

  lemma TailAcceptable(cs: seq<CodePoint>)
    requires cs != [] && AllAcceptable(cs)
    ensures Acceptable(cs[0]) && AllAcceptable(cs[1..]) && OctetsOf(cs) == cs[0].length + OctetsOf(cs[1..])
  {
    hide Acceptable;
  }

  lemma {:induction false} Thinned(t: seq<septet>, k: nat, cs: seq<CodePoint>) returns (left: seq<CodePoint>)
    requires k <= |t| && AllAcceptable(cs) && t[k..] == Flat(cs)
    ensures ThinnedTo(t, k, cs, left)
    decreases |cs|
  {
    if cs == [] {
      left := [];
      hide CharSeptets, Dropped;
    } else {
      var e := CharSeptets(cs[0].value).value;
      assert t[k..] == e + Flat(cs[1..]);
      hide CharSeptets, Dropped, Flat, ThinnedTo;
      assert t[k] == e[0];
      assert t[k + |e|..] == t[k..][|e|..];
      var tail := Thinned(t, k + |e|, cs[1..]);
      if |e| == 1 {
        assert e == [t[k]];
        ThinnedOne(t, k, cs, tail);
        left := if Dropped(t, k) then tail else [cs[0]] + tail;
      } else {
        assert t[k + 1] == e[1];
        assert e == [t[k], t[k + 1]];
        ThinnedTwo(t, k, cs, tail);
        left := [cs[0]] + tail;
      }
    }
  }

  lemma NonZeroKept(t: seq<septet>, k: nat)
    requires k < |t| && t[k] != 0
    ensures KeptTo(t, k + 1) == KeptTo(t, k) + [t[k]]
  {
  }

  lemma LeadKept(t: seq<septet>, k: nat)
    requires k <= |t| && k <= 7
    ensures KeptTo(t, k) == t[..k]
  {
    KeptLength(t, k);
  }

  /** What is read back of a text packed behind the septets of a header, if any. */
  function ReadBackText(lead: seq<septet>, s: seq<septet>): Bytes
    requires |lead| <= 7
  {
    var t := Kept(lead + s);
    if |t| <= |lead| then Decoded([]) else Decoded(t[|lead|..])
  }

  /** Packing, unpacking and decoding bring a text back exactly if it passes the character check and
      no septet meets the dropping condition. */
  lemma PackedTextExactly(text: Bytes, s: seq<septet>, lead: seq<septet>)
    requires Encoded(text, false) == Some(s) && |lead| <= 7
    ensures ReadBackText(lead, s) == text <==> Survives(text) && NothingDropped(lead + s)
  {
    var t := lead + s;
    KeptLength(t, |t|);
    LeadKept(t, |lead|);
    assert t[..|lead|] == lead && t[|lead|..] == s && t[..|t|] == t;
    EncodedIsFlat(text, s);
    var left := Thinned(t, |lead|, Chars(text));
    hide Encoded, Decoded, Flat, Survives, Dropped, Chars;
    assert Kept(t) == lead + Flat(left);
    assert Kept(t)[|lead|..] == Flat(left);
    assert ReadBackText(lead, s) == Decoded(Flat(left)) by {
      if Flat(left) == [] {
        assert Kept(t) == lead;
      }
    }
    if NothingDropped(t) {
      assert Flat(left) == s;
      RoundTripExactlyIf(text, s);
    } else {
      DecodeShrinks(left);
    }
  }

  // ---------------------------------------------------------------- with characters discarded

  /** The characters that are left when those without septets are discarded. */
  function Accepted(text: Bytes): (cs: seq<CodePoint>)
  {
    if text == [] then []
    else
      var c := CodePointAt(text, 0);
      (if CharSeptets(c.value).Some? then [c] else []) + Accepted(text[c.length..])
  }

  lemma AcceptedStep(text: Bytes)
    requires text != []
    ensures
      var c := CodePointAt(text, 0);
      var rest := text[c.length..];
      && |text| == c.length + |rest|
      && (CharSeptets(c.value).Some? ==>
           && Acceptable(c) && Accepted(text) == [c] + Accepted(rest)
           && Encoded(text, true) == Prepend(CharSeptets(c.value).value, Encoded(rest, true))
           && (Encoded(rest, false).Some? ==> Encoded(text, false).Some?))
      && (CharSeptets(c.value).None? ==>
           Accepted(text) == Accepted(rest) && Encoded(text, true) == Encoded(rest, true))
  {
    var c := CodePointAt(text, 0);
    assert c.value >= 0x80 ==> c.length >= 2;
    hide CodePointAt, CharSeptets;
  }

  /** Discarding encodes the characters that are left, of fewer octets than the text if any is discarded. */
  lemma {:induction false} EncodedIsAccepted(text: Bytes)
    ensures AllAcceptable(Accepted(text)) && Encoded(text, true) == Some(Flat(Accepted(text)))
    ensures OctetsOf(Accepted(text)) <= |text|
    ensures Encoded(text, false).None? ==> OctetsOf(Accepted(text)) < |text|
    decreases |text|
  {
    if text != [] {
      var c := CodePointAt(text, 0);
      AcceptedStep(text);
      hide CodePointAt, CharSeptets, Encoded, Accepted, Flat, OctetsOf, Acceptable;
      EncodedIsAccepted(text[c.length..]);
      if CharSeptets(c.value).Some? {
        FlatCons(c, Accepted(text[c.length..]));
      }
    }
  }

  /** A text of which a character is discarded does not come back. */
  lemma DiscardedIsLost(text: Bytes)
    requires Encoded(text, false).None?
    ensures Encoded(text, true).Some? && Decoded(Kept(Encoded(text, true).value)) != text
  {
    hide *;
    EncodedIsAccepted(text);
    var cs := Accepted(text);
    var t := Flat(cs);
    assert t[0..] == t;
    var left := Thinned(t, 0, cs);
    LeftIsKept(t, cs, left);
    DecodeShrinks(left);
  }

  lemma LeftIsKept(t: seq<septet>, cs: seq<CodePoint>, left: seq<CodePoint>)
    requires ThinnedTo(t, 0, cs, left)
    ensures AllAcceptable(left) && Kept(t) == Flat(left) && OctetsOf(left) <= OctetsOf(cs)
  {
    assert KeptTo(t, 0) == [];
    hide Kept, Flat, OctetsOf, AllAcceptable;
  }
}
