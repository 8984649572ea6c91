/** UTF-8 as the codec reads it, and the UCS-2 coding of message text. */
module Utf8 {
  import opened Bits

  datatype CodePoint = CodePoint(value: nat, length: nat)

  /** The code point at pos. Continuation octets are not checked, and an octet that starts no
      complete sequence reads as code point 0 of length 1. */
  function CodePointAt(str: Bytes, pos: nat): (r: CodePoint)
    requires pos < |str|
    ensures 1 <= r.length <= |str| - pos
  {
    var c := str[pos];
    if c < 0x80 then
      CodePoint(c, 1)
    else if c / 32 == 6 && pos + 1 < |str| then
      CodePoint(Join(c % 32, str[pos + 1] % 64), 2)
    else if c / 16 == 14 && pos + 2 < |str| then
      CodePoint(Join(Join(c % 16, str[pos + 1] % 64), str[pos + 2] % 64), 3)
    else if c / 8 == 30 && pos + 3 < |str| then
      CodePoint(Join(Join(Join(c % 8, str[pos + 1] % 64), str[pos + 2] % 64), str[pos + 3] % 64), 4)
    else
      CodePoint(0, 1)
  }

  /** (high << 6) | low, six bits being added below. */
  function Join(high: nat, low: nat): (r: nat)
    requires low < 64
    ensures r == 64 * high + low
  {
    SmallShifts(high);
    SmallShifts(1);
    OrDisjoint(high, low, 6);
    Or(Shl(high, 6), low)
  }

  lemma CodePointOfSuffix(str: Bytes, pos: nat)
    requires pos < |str|
    ensures CodePointAt(str, pos) == CodePointAt(str[pos..], 0)
  {
    hide Join;
  }

  /** prefix << k | payload, the prefix marking the kind of octet. */
  function Marked(mark: nat, k: nat, payload: nat): (r: nat)
    requires k <= 8 && payload < Shl(1, k)
    ensures r == Shl(mark, k) + payload
  {
    OrDisjoint(mark, payload, k);
    Or(Shl(mark, k), payload)
  }

  /** An octet 10xxxxxx. */
  function Continuation(payload: nat): (b: byte)
    ensures b == 0x80 + payload % 64
  {
    SmallShifts(1);
    SmallShifts(2);
    Marked(2, 6, payload % 64)
  }

  /** The UTF-8 octets that ucs2_decode writes for one 16-bit code point. */
  function Utf8Of(u: nat): (s: Bytes)
    requires u < 0x10000
    ensures 1 <= |s| <= 3
  {
    SmallShifts(1);
    SmallShifts(6);
    SmallShifts(14);
    if u < 0x80 then [u]
    else if u < 0x800 then [Marked(6, 5, u / 64), Continuation(u)]
    else [Marked(14, 4, u / 4096), Continuation(u / 64), Continuation(u)]
  }

  lemma Utf8Octets(u: nat)
    requires u < 0x10000
    ensures Utf8Of(u) == if u < 0x80 then [u]
                         else if u < 0x800 then [0xC0 + u / 64, 0x80 + u % 64]
                         else [0xE0 + u / 4096, 0x80 + u / 64 % 64, 0x80 + u % 64]
  {
    SmallShifts(6);
    SmallShifts(14);
    hide Marked, Shl;
  }

  lemma Utf8Single(u: nat)
    requires u < 0x80
    ensures Utf8Of(u) == [u]
  {
  }

  lemma Utf8Pair(a: nat, b: nat)
    requires 2 <= a < 32 && b < 64
    ensures Utf8Of(64 * a + b) == [0xC0 + a, 0x80 + b]
  {
    var u := 64 * a + b;
    assert u / 64 == a && u % 64 == b;
    Utf8Octets(u);
    hide *;
  }

  lemma ReadTwo(text: Bytes, a: nat, b: nat)
    requires |text| >= 2 && a < 32 && b < 64 && text[0] == 0xC0 + a && text[1] == 0x80 + b
    ensures CodePointAt(text, 0) == CodePoint(64 * a + b, 2)
  {
    hide Join;
  }

  lemma ReadThree(text: Bytes, a: nat, b: nat, c: nat)
    requires |text| >= 3 && a < 16 && b < 64 && c < 64
    requires text[0] == 0xE0 + a && text[1] == 0x80 + b && text[2] == 0x80 + c
    ensures CodePointAt(text, 0) == CodePoint(64 * (64 * a + b) + c, 3)
  {
    hide Join;
  }

  lemma ReadFour(text: Bytes, a: nat, b: nat, c: nat, d: nat)
    requires |text| >= 4 && a < 8 && b < 64 && c < 64 && d < 64
    requires text[0] == 0xF0 + a && text[1] == 0x80 + b && text[2] == 0x80 + c && text[3] == 0x80 + d
    ensures CodePointAt(text, 0) == CodePoint(64 * (64 * (64 * a + b) + c) + d, 4)
  {
    hide Join;
  }

  lemma ReadOne(text: Bytes)
    requires text != [] && text[0] < 0x80
    ensures CodePointAt(text, 0) == CodePoint(text[0], 1)
  {
  }

  lemma SplitTwice(u: nat)
    requires u < 0x10000
    ensures 64 * (64 * (u / 4096) + u / 64 % 64) + u % 64 == u && u / 4096 < 16
    ensures 64 * (u / 64) + u % 64 == u
  {
    assert u / 4096 == u / 64 / 64;
  }

  /** A text that starts with the octets of u reads as u first. */
  lemma ReadBack(u: nat, text: Bytes)
    requires u < 0x10000 && Utf8Of(u) <= text
    ensures CodePointAt(text, 0) == CodePoint(u, |Utf8Of(u)|)
    ensures Utf8Of(u) + text[|Utf8Of(u)|..] == text
  {
    Utf8Octets(u);
    hide *;
    var s := Utf8Of(u);
    assert text[0] == s[0];
    if u < 0x80 {
      ReadOne(text);
    } else if u < 0x800 {
      assert text[1] == s[1];
      ReadTwo(text, u / 64, u % 64);
    } else {
      assert text[1] == s[1] && text[2] == s[2];
      SplitTwice(u);
      ReadThree(text, u / 4096, u / 64 % 64, u % 64);
    }
  }

  /** The UTF-8 text of a sequence of 16-bit code points. */
  function Utf8Text(points: seq<nat>): Bytes
    requires AllBelow(points, 0x10000)
  {
    if points == [] then [] else Utf8Of(points[0]) + Utf8Text(points[1..])
  }

  // ---------------------------------------------------------------- UCS-2

  /** Two octets for each code point read from the text, the high one first, cut to 16 bits. */
  function Ucs2Encoded(text: Bytes): Bytes {
    if text == [] then []
    else
      var c := CodePointAt(text, 0);
      BigEndian16(c.value) + Ucs2Encoded(text[c.length..])
  }

  function BigEndian16(v: nat): (s: Bytes)
    ensures |s| == 2
  {
    var value := v % 0x10000;
    [value / 256, value % 256]
  }

  /** The UTF-8 text of big-endian octet pairs; an odd octet at the end is ignored. */
  function Ucs2Decoded(encoded: Bytes): Bytes {
    if |encoded| < 2 then []
    else Utf8Of(Join8(encoded[0], encoded[1])) + Ucs2Decoded(encoded[2..])
  }

  function Join8(high: byte, low: byte): (r: nat)
    ensures r == 256 * high + low < 0x10000
  {
    SmallShifts(high);
    SmallShifts(1);
    OrDisjoint(high, low, 8);
    Or(Shl(high, 8), low)
  }

  method Ucs2Encode(text: Bytes) returns (result: Bytes)
    ensures result == Ucs2Encoded(text)
  {
    hide CodePointAt, BigEndian16;
    result := [];
    var i := 0;
    while i < |text|
      invariant 0 <= i <= |text|
      invariant result + Ucs2Encoded(text[i..]) == Ucs2Encoded(text)
    {
      var c := CodePointAt(text, i);
      CodePointOfSuffix(text, i);
      assert text[i..][c.length..] == text[i + c.length..];
      i := i + c.length;
      result := result + BigEndian16(c.value);
    }
  }

  method Ucs2Decode(encoded: Bytes) returns (result: Bytes)
    ensures result == Ucs2Decoded(encoded)
  {
    hide Join8, Utf8Of;
    result := [];
    var i := 0;
    while i + 1 < |encoded|
      invariant 0 <= i <= |encoded|
      invariant result + Ucs2Decoded(encoded[i..]) == Ucs2Decoded(encoded)
    {
      var u := Join8(encoded[i], encoded[i + 1]);
      assert encoded[i..][2..] == encoded[i + 2..];
      result := result + Utf8Of(u);
      i := i + 2;
    }
  }

  lemma PairOfJoined(high: byte, low: byte)
    ensures BigEndian16(Join8(high, low)) == [high, low]
  {
    hide Join8;
  }

  lemma JoinedPair(v: nat)
    ensures Join8(BigEndian16(v)[0], BigEndian16(v)[1]) == v % 0x10000
  {
    hide Join8;
  }

  lemma DecodePair(v: nat, rest: Bytes)
    ensures Ucs2Decoded(BigEndian16(v) + rest) == Utf8Of(v % 0x10000) + Ucs2Decoded(rest)
  {
    JoinedPair(v);
    hide Join8, BigEndian16, Utf8Of;
    assert (BigEndian16(v) + rest)[2..] == rest;
  }

  lemma EncodeChar(u: nat, rest: Bytes)
    requires u < 0x10000
    ensures Ucs2Encoded(Utf8Of(u) + rest) == BigEndian16(u) + Ucs2Encoded(rest)
  {
    hide BigEndian16, Utf8Of, CodePointAt;
    ReadBack(u, Utf8Of(u) + rest);
    assert (Utf8Of(u) + rest)[|Utf8Of(u)|..] == rest;
  }

  lemma DecodedFirst(octets: Bytes)
    requires |octets| >= 2
    ensures Ucs2Decoded(octets) == Utf8Of(Join8(octets[0], octets[1])) + Ucs2Decoded(octets[2..])
  {
    hide Utf8Of, Join8;
  }

  lemma NothingCoded()
    ensures Ucs2Decoded([]) == [] && Ucs2Encoded([]) == []
  {
  }

  /** Encoding undoes decoding for every string of octet pairs. */
  lemma {:induction false} EncodeInvertsDecode(octets: Bytes)
    requires |octets| % 2 == 0
    ensures Ucs2Encoded(Ucs2Decoded(octets)) == octets
  {
    hide *;
    if octets == [] {
      NothingCoded();
    } else {
      var high, low, rest := octets[0], octets[1], octets[2..];
      assert octets == [high, low] + rest;
      DecodedFirst(octets);
      PairOfJoined(high, low);
      EncodeChar(Join8(high, low), Ucs2Decoded(rest));
      EncodeInvertsDecode(rest);
    }
  }

  /** Shortest-form UTF-8 (section 3 of RFC 3629) of code points below 0x10000: what a caller can
      check, octet by octet, before encoding. */
  predicate IsShortestForm(text: Bytes) {
    text == [] || (StartsShort(text) && IsShortestForm(text[CodePointAt(text, 0).length..]))
  }

  predicate StartsShort(text: Bytes)
    requires text != []
  {
    var c := CodePointAt(text, 0);
    c.value < 0x10000 && Utf8Of(c.value) == text[..c.length]
  }

  /** A text is the octets of u and something else exactly if it starts with u in shortest form. */
  lemma PrefixExactly(text: Bytes, u: nat, back: Bytes)
    requires text != [] && u < 0x10000
    ensures
      var c := CodePointAt(text, 0);
      Utf8Of(u) + back == text <==> StartsShort(text) && c.value == u && back == text[c.length..]
  {
    hide CodePointAt, Utf8Of;
    var c := CodePointAt(text, 0);
    if Utf8Of(u) + back == text {
      ReadBack(u, text);
      assert back == text[|Utf8Of(u)|..];
      assert text[..c.length] == Utf8Of(u);
    }
    if StartsShort(text) && c.value == u {
      assert text == text[..c.length] + text[c.length..];
    }
  }

  lemma TruncatedPrefix(text: Bytes, back: Bytes)
    requires text != []
    ensures
      var c := CodePointAt(text, 0);
      Utf8Of(c.value % 0x10000) + back == text <==> StartsShort(text) && back == text[c.length..]
  {
    hide CodePointAt, Utf8Of;
    PrefixExactly(text, CodePointAt(text, 0).value % 0x10000, back);
  }

  lemma EncodeStep(text: Bytes)
    requires text != []
    ensures Ucs2Encoded(text)
         == BigEndian16(CodePointAt(text, 0).value) + Ucs2Encoded(text[CodePointAt(text, 0).length..])
  {
    hide CodePointAt, BigEndian16;
  }

  /** Decoding undoes encoding exactly for the texts in shortest form. */
  lemma {:induction false} DecodeInvertsEncodeExactly(text: Bytes)
    ensures Ucs2Decoded(Ucs2Encoded(text)) == text <==> IsShortestForm(text)
  {
    if text != [] {
      hide CodePointAt, BigEndian16, Utf8Of, Ucs2Decoded, Ucs2Encoded, StartsShort;
      var c := CodePointAt(text, 0);
      var rest := text[c.length..];
      EncodeStep(text);
      DecodePair(c.value, Ucs2Encoded(rest));
      DecodeInvertsEncodeExactly(rest);
      TruncatedPrefix(text, Ucs2Decoded(Ucs2Encoded(rest)));
    }
  }

  /** The texts in shortest form are the UTF-8 texts of code points. */
  lemma {:induction false} ShortestFormIsUtf8(points: seq<nat>)
    requires AllBelow(points, 0x10000)
    ensures IsShortestForm(Utf8Text(points))
  {
    if points != [] {
      hide Utf8Of, CodePointAt;
      var text := Utf8Text(points);
      ReadBack(points[0], text);
      assert text[..|Utf8Of(points[0])|] == Utf8Of(points[0]);
      assert text[|Utf8Of(points[0])|..] == Utf8Text(points[1..]);
      ShortestFormIsUtf8(points[1..]);
    }
  }

  /** A character outside the 16-bit range, such as U+1F600, does not survive. */
  lemma AstralCharacterIsLost(grin: Bytes)
    requires grin == [0xF0, 0x9F, 0x98, 0x80]
    ensures Ucs2Decoded(Ucs2Encoded(grin)) != grin
  {
    hide CodePointAt, Ucs2Encoded, Ucs2Decoded, Utf8Of;
    ReadFour(grin, 0, 0x1F, 0x18, 0);
    DecodeInvertsEncodeExactly(grin);
  }
}
