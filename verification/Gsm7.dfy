/** The GSM 7-bit default alphabet as the codec tabulates it (section 6.2.1 of 3GPP TS 23.038). */
module Gsm7 {
  import opened Wrappers
  import opened Bits
  import opened Utf8

  const ESC: septet := 0x1B

  /** The code point stored at a position of the encoding table. */
  function TableCodePoint(position: septet): (cp: nat)
  {
    match position
    case 0 => 0x40 case 1 => 0xA3 case 2 => 0x24 case 3 => 0xA5
    case 4 => 0xE8 case 5 => 0xE9 case 6 => 0xF9 case 7 => 0xEC
    case 8 => 0xF2 case 9 => 0xC7 case 10 => 0x0A case 11 => 0xD8
    case 12 => 0xF8 case 13 => 0x0D case 14 => 0xC5 case 15 => 0xE5
    case 16 => 0x394 case 17 => 0x5F case 18 => 0x3A6 case 19 => 0x393
    case 20 => 0x39B case 21 => 0x3A9 case 22 => 0x3A0 case 23 => 0x3A8
    case 24 => 0x3A3 case 25 => 0x398 case 26 => 0x39E case 27 => 0x1B
    case 28 => 0xC6 case 29 => 0xAE case 30 => 0xDF case 31 => 0xC9
    case 36 => 0xA4 case 64 => 0xA1
    case 91 => 0xC4 case 92 => 0xD6 case 93 => 0xD1 case 94 => 0xDC
    case 95 => 0x60 case 96 => 0xBF
    case 123 => 0xE4 case 124 => 0xF6 case 125 => 0xF1 case 126 => 0xFC
    case 127 => 0xE0
    case _ => position
  }

  /** The UTF-8 text that the decoder shows for a position. */
  function CharAt(position: septet): (text: Bytes)
  {
    match position
    case 0 => [0x40] case 1 => [0xC2, 0xA3] case 2 => [0x24] case 3 => [0xC2, 0xA5]
    case 4 => [0xC3, 0xA8] case 5 => [0xC3, 0xA9] case 6 => [0xC3, 0xB9] case 7 => [0xC3, 0xAC]
    case 8 => [0xC3, 0xB2] case 9 => [0xC3, 0x87] case 10 => [0x0A] case 11 => [0xC3, 0x98]
    case 12 => [0xC3, 0xB8] case 13 => [0x0D] case 14 => [0xC3, 0x85] case 15 => [0xC3, 0xA5]
    case 16 => [0xCE, 0x94] case 17 => [0x5F] case 18 => [0xCE, 0xA6] case 19 => [0xCE, 0x93]
    case 20 => [0xCE, 0x9B] case 21 => [0xCE, 0xA9] case 22 => [0xCE, 0xA0] case 23 => [0xCE, 0xA8]
    case 24 => [0xCE, 0xA3] case 25 => [0xCE, 0x98] case 26 => [0xCE, 0x9E] case 27 => [0x1B]
    case 28 => [0xC3, 0x86] case 29 => [0xC3, 0xAE] case 30 => [0xC3, 0x9F] case 31 => [0xC3, 0x89]
    case _ => if 32 <= position <= 126 then [position as byte] else [0x3F]
  }

  /** Positions whose encoding and decoding disagree. */
  predicate Disagrees(position: septet) {
    position == 29 || position == 36 || position == 64 || 91 <= position <= 96 || 123 <= position
  }

  /** The code point shown for a position. */
  function ShownCodePoint(position: septet): (cp: nat)
    ensures cp < 0x800
  {
    if position == 29 then 0xEE
    else if position == 127 then 0x3F
    else if Disagrees(position) then position
    else TableCodePoint(position)
  }

  lemma CharAtShape(position: septet)
    ensures |CharAt(position)| == 1 ==> CharAt(position)[0] == ShownCodePoint(position) < 0x80
    ensures |CharAt(position)| != 1 ==>
      && |CharAt(position)| == 2
      && 0xC2 <= CharAt(position)[0] < 0xE0 && 0x80 <= CharAt(position)[1] < 0xC0
      && ShownCodePoint(position) == 64 * (CharAt(position)[0] as int - 0xC0) + (CharAt(position)[1] - 0x80)
  {
  }

  lemma CharAtIsUtf8(position: septet)
    ensures CharAt(position) == Utf8Of(ShownCodePoint(position))
  {
    CharAtShape(position);
    hide *;
    var s := CharAt(position);
    if |s| == 1 {
      Utf8Single(s[0]);
    } else {
      Utf8Pair(s[0] - 0xC0, s[1] - 0x80);
    }
  }

  lemma DisagreementIsExact(position: septet)
    ensures ShownCodePoint(position) == TableCodePoint(position) <==> !Disagrees(position)
    ensures position != ESC ==> ShownCodePoint(position) != 0x1B
  {
  }

  /** An inverse of the table. */
  function Inverse(cp: nat): int {
    match cp
    case 0x40 => 0 case 0xA3 => 1 case 0x24 => 2 case 0xA5 => 3
    case 0xE8 => 4 case 0xE9 => 5 case 0xF9 => 6 case 0xEC => 7
    case 0xF2 => 8 case 0xC7 => 9 case 0x0A => 10 case 0xD8 => 11
    case 0xF8 => 12 case 0x0D => 13 case 0xC5 => 14 case 0xE5 => 15
    case 0x394 => 16 case 0x5F => 17 case 0x3A6 => 18 case 0x393 => 19
    case 0x39B => 20 case 0x3A9 => 21 case 0x3A0 => 22 case 0x3A8 => 23
    case 0x3A3 => 24 case 0x398 => 25 case 0x39E => 26 case 0x1B => 27
    case 0xC6 => 28 case 0xAE => 29 case 0xDF => 30 case 0xC9 => 31
    case 0xA4 => 36 case 0xA1 => 64
    case 0xC4 => 91 case 0xD6 => 92 case 0xD1 => 93 case 0xDC => 94
    case 0x60 => 95 case 0xBF => 96
    case 0xE4 => 123 case 0xF6 => 124 case 0xF1 => 125 case 0xFC => 126
    case 0xE0 => 127
    case _ => cp
  }

  lemma TableInverts(position: septet)
    ensures Inverse(TableCodePoint(position)) == position
  {
  }

  /** The first table position at or after p that holds the code point. */
  function PositionFrom(cp: nat, p: nat): (r: Option<septet>)
    requires p <= 128
    decreases 128 - p
  {
    if p == 128 then None
    else if TableCodePoint(p) == cp then Some(p)
    else PositionFrom(cp, p + 1)
  }

  function Position(cp: nat): Option<septet> { PositionFrom(cp, 0) }

  method FindPosition(cp: nat) returns (r: Option<septet>)
    ensures r == Position(cp)
  {
    hide TableCodePoint;
    for p := 0 to 128
      invariant Position(cp) == PositionFrom(cp, p)
    {
      if TableCodePoint(p) == cp {
        return Some(p);
      }
    }
    r := None;
  }

  lemma {:induction false} PositionFromFinds(cp: nat, p: nat)
    requires p <= 128
    ensures match PositionFrom(cp, p)
            case Some(q) => p <= q && TableCodePoint(q) == cp
            case None => forall q: septet :: p <= q ==> TableCodePoint(q) != cp
    decreases 128 - p
  {
    hide TableCodePoint;
    if p < 128 {
      PositionFromFinds(cp, p + 1);
    }
  }

  /** The search finds the one position of a code point, and fails only if there is none. */
  lemma PositionIsExact(cp: nat, position: septet)
    ensures Position(cp) == Some(position) <==> TableCodePoint(position) == cp
  {
    PositionFromFinds(cp, 0);
    TableInverts(position);
    if Position(cp).Some? {
      TableInverts(Position(cp).value);
    }
    hide TableCodePoint, PositionFrom, Inverse;
  }

  /** The code of a character of the extension table. */
  function ExtensionCode(cp: nat): Option<septet> {
    match cp
    case 0x0C => Some(0x0A) case 0x5E => Some(0x14) case 0x7B => Some(0x28)
    case 0x7D => Some(0x29) case 0x5C => Some(0x2F) case 0x5B => Some(0x3C)
    case 0x7E => Some(0x3D) case 0x5D => Some(0x3E) case 0x7C => Some(0x40)
    case _ => None
  }

  /** The text shown for an extension code; an unknown code shows nothing. */
  function ExtensionText(code: septet): (text: Bytes)
    ensures |text| <= 1
  {
    match code
    case 0x0A => [0x0C] case 0x14 => [0x5E] case 0x28 => [0x7B]
    case 0x29 => [0x7D] case 0x2F => [0x5C] case 0x3C => [0x5B]
    case 0x3D => [0x7E] case 0x3E => [0x5D] case 0x40 => [0x7C]
    case _ => []
  }

  lemma ExtensionInverts(cp: nat)
    requires ExtensionCode(cp).Some?
    ensures cp < 0x80 && cp != 0x1B
    ensures ExtensionText(ExtensionCode(cp).value) == Utf8Of(cp)
    ensures ExtensionCode(cp).value != 0 && ExtensionCode(cp).value != ESC
  {
    Utf8Octets(cp);
    hide Utf8Of;
  }

  /** The extension table holds nine characters: form feed, caret, braces, backslash, brackets, tilde and bar. */
  lemma ExtensionExactly(cp: nat)
    ensures ExtensionCode(cp).Some? <==> cp in {0x0C, 0x5E, 0x7B, 0x7D, 0x5C, 0x5B, 0x7E, 0x5D, 0x7C}
  {
  }

  /** Whatever is shown for a code is encoded as that code. */
  lemma ExtensionIsExact(code: septet)
    requires ExtensionText(code) != []
    ensures ExtensionCode(ExtensionText(code)[0]) == Some(code)
  {
  }

  lemma ExtensionTextIsUtf8(code: septet)
    requires ExtensionText(code) != []
    ensures ExtensionText(code)[0] < 0x80 && ExtensionText(code)[0] != 0x1B
    ensures ExtensionText(code) == Utf8Of(ExtensionText(code)[0])
  {
    Utf8Octets(ExtensionText(code)[0]);
    hide Utf8Of;
  }

  /** The septets of one character. */
  function CharSeptets(cp: nat): (r: Option<seq<septet>>)
    ensures r.Some? ==> 1 <= |r.value| <= 2
  {
    if Position(cp).Some? then Some([Position(cp).value])
    else if ExtensionCode(cp).Some? then Some([ESC, ExtensionCode(cp).value])
    else None
  }

  function Prepend(s: seq<septet>, rest: Option<seq<septet>>): Option<seq<septet>> {
    if rest.Some? then Some(s + rest.value) else None
  }

  /** The septets of a text, or None where the encoder throws. */
  function Encoded(text: Bytes, discardInvalid: bool): Option<seq<septet>> {
    if text == [] then Some([])
    else
      var c := CodePointAt(text, 0);
      var rest := Encoded(text[c.length..], discardInvalid);
      match CharSeptets(c.value)
      case Some(s) => Prepend(s, rest)
      case None => if discardInvalid then rest else None
  }

  lemma EncodedStep(text: Bytes, i: nat, discardInvalid: bool, result: seq<septet>)
    requires i < |text|
    ensures
      var c := CodePointAt(text, i);
      Prepend(result, Encoded(text[i..], discardInvalid))
      == match CharSeptets(c.value)
         case Some(s) => Prepend(result + s, Encoded(text[i + c.length..], discardInvalid))
         case None => if discardInvalid then Prepend(result, Encoded(text[i + c.length..], discardInvalid))
                      else None
  {
    hide CodePointAt, CharSeptets;
    var c := CodePointAt(text, i);
    CodePointOfSuffix(text, i);
    assert text[i..][c.length..] == text[i + c.length..];
    var rest := Encoded(text[i + c.length..], discardInvalid);
    match CharSeptets(c.value)
    case Some(s) =>
      if rest.Some? {
        assert result + (s + rest.value) == result + s + rest.value;
      }
    case None =>
  }

  lemma EncodedEnds(text: Bytes, discardInvalid: bool, result: seq<septet>)
    ensures Prepend([], Encoded(text[0..], discardInvalid)) == Encoded(text, discardInvalid)
    ensures Prepend(result, Encoded(text[|text|..], discardInvalid)) == Some(result)
  {
    assert text[0..] == text && text[|text|..] == [];
    if Encoded(text, discardInvalid).Some? {
      assert [] + Encoded(text, discardInvalid).value == Encoded(text, discardInvalid).value;
    }
    assert result + [] == result;
  }

  method Gsm7Encode(text: Bytes, discardInvalid: bool := false) returns (r: Option<seq<septet>>)
    ensures r == Encoded(text, discardInvalid)
  {
    hide CodePointAt, PositionFrom, ExtensionCode, Encoded;
    var result: seq<septet> := [];
    var i := 0;
    EncodedEnds(text, discardInvalid, []);
    while i < |text|
      invariant 0 <= i <= |text|
      invariant Encoded(text, discardInvalid) == Prepend(result, Encoded(text[i..], discardInvalid))
    {
      EncodedStep(text, i, discardInvalid, result);
      var c := CodePointAt(text, i);
      i := i + c.length;
      var position := FindPosition(c.value);
      if position.Some? {
        result := result + [position.value];
      } else {
        var extension := ExtensionCode(c.value);
        if extension.Some? {
          assert result + [ESC, extension.value] == result + [ESC] + [extension.value];
          result := result + [ESC];
          result := result + [extension.value];
        } else if !discardInvalid {
          return None;
        }
      }
    }
    EncodedEnds(text, discardInvalid, result);
    r := Some(result);
  }

  /** The text of a sequence of septets; octets of 128 and more show nothing. */
  function Decoded(encoded: seq<byte>): Bytes {
    if encoded == [] then []
    else if encoded[0] == ESC && |encoded| > 1 then
      EscapedText(encoded[1]) + Decoded(encoded[2..])
    else
      PlainText(encoded[0]) + Decoded(encoded[1..])
  }

  function PlainText(b: byte): Bytes { if b < 128 then CharAt(b) else [] }

  function EscapedText(b: byte): Bytes { if b < 128 then ExtensionText(b) else [] }

  lemma DecodedStep(encoded: seq<byte>, i: nat, result: Bytes)
    requires i < |encoded|
    ensures result + Decoded(encoded[i..])
         == if encoded[i] == ESC && i + 1 < |encoded|
            then result + EscapedText(encoded[i + 1]) + Decoded(encoded[i + 2..])
            else result + PlainText(encoded[i]) + Decoded(encoded[i + 1..])
  {
    hide PlainText, EscapedText;
    assert encoded[i..][1..] == encoded[i + 1..];
    if i + 1 < |encoded| {
      assert encoded[i..][2..] == encoded[i + 2..];
      assert encoded[i..][1] == encoded[i + 1];
    }
  }

  method Gsm7Decode(encoded: seq<byte>) returns (result: Bytes)
    ensures result == Decoded(encoded)
  {
    hide CharAt, EscapedText, PlainText, Decoded;
    result := [];
    var i := 0;
    assert encoded[0..] == encoded;
    while i < |encoded|
      invariant 0 <= i <= |encoded|
      invariant result + Decoded(encoded[i..]) == Decoded(encoded)
    {
      DecodedStep(encoded, i, result);
      var b := encoded[i];
      PlainAppended(result, b);
      if b == ESC && i + 1 < |encoded| {
        i := i + 1;
        result := result + EscapedText(encoded[i]);
      } else if b < 128 {
        result := result + CharAt(b);
      }
      i := i + 1;
    }
    assert encoded[i..] == [];
    DecodedNothing();
  }

  lemma PlainAppended(result: Bytes, b: byte)
    ensures result + PlainText(b) == if b < 128 then result + CharAt(b) else result
  {
    hide CharAt;
  }

  lemma DecodedNothing()
    ensures Decoded([]) == []
  {
  }
}
