/** What decoding gives back of the PDUs that encoding made. */
module PduRoundTrip {
  import opened Wrappers
  import opened Sequences
  import opened Bits
  import opened Septets
  import opened Utf8
  import opened Gsm7
  import opened Gsm7Text
  import opened Address
  import opened Udh
  import opened Pdu
  import opened PduDecode
  import opened Ucs2Loss
  import opened Cutting

  // ---------------------------------------------------------------- the fields before the user data

  /** Both addresses fit the length octets of their fields. */
  predicate AddressesFit(e: Envelope) {
    LengthFits(e.number, false) && (e.smsc == [] || LengthFits(e.smsc, true))
  }

  /** The message that is read back, but for its user data. */
  function HeadBack(e: Envelope): PduMessage {
    BLANK.(smsc := if e.smsc == [] then [] else NumberBack(e.smsc), number := NumberBack(e.number), reference := e.reference)
  }

  lemma SmscComesBack(smsc: Bytes, rest: Bytes)
    requires smsc == [] || LengthFits(smsc, true)
    ensures ParsedAddress(SmscOctets(smsc) + rest, 0, true)
         == Some(Parsed(if smsc == [] then [] else NumberBack(smsc), |SmscOctets(smsc)|))
  {
    if smsc == [] {
      assert (SmscOctets(smsc) + rest)[0] == 0;
    } else {
      hide ParsedAddress, FieldOctets, NumberBack, LengthFits;
      var none: Bytes := [];
      FieldRoundTrip(smsc, true, none, rest);
      assert none + FieldOctets(smsc, true) == FieldOctets(smsc, true);
    }
  }

  lemma RegroupFields(a: Bytes, b: Bytes, c: Bytes, d: Bytes, u: Bytes)
    ensures a + b + c + d + u == a + (b + c + d + u)
    ensures a + b + c + d + u == (a + b) + c + (d + u)
  {
  }

  lemma At(p: Bytes, x: byte, y: byte, rest: Bytes, data: Bytes)
    requires data == p + ([x, y] + rest)
    ensures |data| == |p| + 2 + |rest| && data[|p|] == x && data[|p| + 1] == y && data[|p| + 2..] == rest
  {
  }

  lemma {:induction false} AfterSmsc(a: Bytes, first: byte, reference: byte, c: Bytes, d: Bytes, u: Bytes, data: Bytes)
    requires data == a + [first, reference] + c + d + u
    ensures |a| + 1 < |data| && data[|a|] == first && data[|a| + 1] == reference
  {
    hide *;
    assert data == a + ([first, reference] + (c + d + u));
    At(a, first, reference, c + d + u, data);
  }

  lemma FramedDecodes(e: Envelope, first: byte, dcs: byte, u: Bytes, data: Bytes)
    requires AddressesFit(e) && (first == 0x01 || first == 0x41) && data == Framed(e, first, dcs, u)
    ensures |u| <= |data| && data[|data| - |u|..] == u
    ensures Decoding(data) == WithUserData(HeadBack(e), UserDataAt(data, |data| - |u|, Scheme(dcs), first == 0x41))
  {
    hide *;
    var p := |SmscOctets(e.smsc)|;
    var q := p + 2 + |FieldOctets(e.number, false)|;
    FirstFields(e, first, dcs, u, data);
    Destination(e, first, dcs, u, data);
    LastFields(e, first, dcs, u, data);
    SubmitDecodes(data, e, first, p, q, dcs);
    assert q + 2 == |data| - |u|;
  }

  lemma FramedIs(e: Envelope, first: byte, dcs: byte, u: Bytes)
    ensures Framed(e, first, dcs, u)
         == SmscOctets(e.smsc) + [first, e.reference] + FieldOctets(e.number, false) + [0x00, dcs] + u
  {
    hide SmscOctets, FieldOctets;
  }

  lemma FirstFields(e: Envelope, first: byte, dcs: byte, u: Bytes, data: Bytes)
    requires AddressesFit(e) && data == Framed(e, first, dcs, u)
    ensures
      var p := |SmscOctets(e.smsc)|;
      && p + 1 < |data| && data[p] == first && data[p + 1] == e.reference
      && ParsedAddress(data, 0, true) == Some(Parsed(if e.smsc == [] then [] else NumberBack(e.smsc), p))
  {
    FramedIs(e, first, dcs, u);
    hide *;
    FitsBoth(e);
    var a, b, c, d := SmscOctets(e.smsc), [first, e.reference], FieldOctets(e.number, false), [0x00, dcs];
    RegroupFields(a, b, c, d, u);
    SmscComesBack(e.smsc, b + c + d + u);
    AfterSmsc(a, first, e.reference, c, d, u, data);
  }

  lemma Destination(e: Envelope, first: byte, dcs: byte, u: Bytes, data: Bytes)
    requires AddressesFit(e) && data == Framed(e, first, dcs, u)
    ensures ParsedAddress(data, |SmscOctets(e.smsc)| + 2, false)
         == Some(Parsed(NumberBack(e.number), |SmscOctets(e.smsc)| + 2 + |FieldOctets(e.number, false)|))
  {
    FramedIs(e, first, dcs, u);
    hide *;
    FitsBoth(e);
    var a, b, c, d := SmscOctets(e.smsc), [first, e.reference], FieldOctets(e.number, false), [0x00, dcs];
    DestinationAt(e, a, b, d, u, data);
  }

  lemma DestinationAt(e: Envelope, a: Bytes, b: Bytes, d: Bytes, u: Bytes, data: Bytes)
    requires LengthFits(e.number, false) && data == a + b + FieldOctets(e.number, false) + d + u
    ensures ParsedAddress(data, |a| + |b|, false)
         == Some(Parsed(NumberBack(e.number), |a| + |b| + |FieldOctets(e.number, false)|))
  {
    hide *;
    RegroupFields(a, b, FieldOctets(e.number, false), d, u);
    FieldRoundTrip(e.number, false, a + b, d + u);
  }

  lemma LastFields(e: Envelope, first: byte, dcs: byte, u: Bytes, data: Bytes)
    requires data == Framed(e, first, dcs, u)
    ensures
      var q := |SmscOctets(e.smsc)| + 2 + |FieldOctets(e.number, false)|;
      |data| == q + 2 + |u| && data[q + 1] == dcs && data[q + 2..] == u
  {
    var a, b, c := SmscOctets(e.smsc), [first, e.reference], FieldOctets(e.number, false);
    var z: byte := 0;
    FramedIs(e, first, dcs, u);
    hide *;
    assert data == a + b + c + [z, dcs] + u;
    Regroup(a + b + c, [z, dcs], u);
    At(a + b + c, z, dcs, u, data);
  }

  lemma FitsBoth(e: Envelope)
    requires AddressesFit(e)
    ensures LengthFits(e.number, false) && (e.smsc == [] || LengthFits(e.smsc, true))
  {
  }

  /** A SUBMIT without validity period, whose addresses end at p and q. */
  lemma SubmitDecodes(data: Bytes, e: Envelope, first: byte, p: nat, q: nat, dcs: byte)
    requires first == 0x01 || first == 0x41
    requires ParsedAddress(data, 0, true) == Some(Parsed(if e.smsc == [] then [] else NumberBack(e.smsc), p))
    requires p + 1 < |data| && data[p] == first && data[p + 1] == e.reference
    requires ParsedAddress(data, p + 2, false) == Some(Parsed(NumberBack(e.number), q))
    requires q + 2 <= |data| && data[q + 1] == dcs
    ensures Decoding(data) == WithUserData(HeadBack(e), UserDataAt(data, q + 2, Scheme(dcs), first == 0x41))
  {
    hide ParsedAddress, UserDataAt, NumberBack, Scheme, WithUserData;
    assert first % 4 == 1 && ValidityOctets(first) == 0 && (UdhIndicated(first) <==> first == 0x41);
  }

  // ---------------------------------------------------------------- the user data

  lemma AloneUserData(data: Bytes, pos: nat, dcs: byte, l: byte, p: Bytes)
    requires pos <= |data| && data[pos..] == [l] + p
    ensures UserDataAt(data, pos, dcs, false) == Some(UserData(TextOf(p, p, 0, dcs, l), false, NO_CONCAT))
  {
    assert data[pos] == data[pos..][0] == l;
    assert data[pos + 1..] == data[pos..][1..] == p;
    hide TextOf;
  }

  lemma ConcatIsWalked(c: Concat, before: Bytes, after: Bytes)
    ensures Walk(before + ConcatElement(c) + after, |before|, 5, 0, NO_CONCAT)
         == Some(Walked(UdhInfo(c.reference, c.total, c.seqNo), |before| + 5))
  {
    var body := [c.reference, c.total, c.seqNo];
    var es := [Element(0x00, body)];
    assert HeaderOctets(es[1..]) == [];
    assert HeaderOctets(es) == [0x00, 0x03] + body == ConcatElement(c);
    assert LastConcat(es) == UdhInfo(c.reference, c.total, c.seqNo);
    hide Walk, HeaderOctets, ConcatElement, LastConcat;
    WalkReportsLastConcat(before, es, after);
  }

  lemma PartUserData(data: Bytes, pos: nat, dcs: byte, l: byte, c: Concat, p: Bytes)
    requires pos <= |data| && data[pos..] == [l] + (ConcatHeader(c) + p)
    ensures UserDataAt(data, pos, dcs, true)
         == Some(UserData(TextOf(ConcatHeader(c) + p, p, 7, dcs, l), true, UdhInfo(c.reference, c.total, c.seqNo)))
  {
    hide TextOf, Walk;
    var tail := data[pos..];
    assert data[pos] == tail[0] == l && data[pos + 1] == tail[1] == 5;
    assert data[pos + 1..] == tail[1..] == ConcatHeader(c) + p;
    assert data == data[..pos + 2] + ConcatElement(c) + p;
    assert data[pos + 7..] == p;
    hide ConcatElement;
    ConcatIsWalked(c, data[..pos + 2], p);
  }

  // ---------------------------------------------------------------- the text

  lemma {:induction false} FlatLength(cs: seq<CodePoint>)
    requires AllAcceptable(cs)
    ensures |Flat(cs)| <= 2 * |cs|
  {
    if cs != [] {
      hide CharSeptets;
      FlatLength(cs[1..]);
    }
  }

  lemma CharsCons(u: nat, rest: Bytes)
    requires u < 0x10000
    ensures |Chars(Utf8Of(u) + rest)| == 1 + |Chars(rest)|
  {
    hide Utf8Of, CodePointAt;
    ReadBack(u, Utf8Of(u) + rest);
    assert (Utf8Of(u) + rest)[|Utf8Of(u)|..] == rest;
  }

  /** Each septet shows at most one character. */
  lemma {:induction false} CharsOfDecoded(s: seq<byte>)
    ensures |Chars(Decoded(s))| <= |s|
    decreases |s|
  {
    if s != [] {
      if s[0] == ESC && |s| > 1 {
        EscapedChars(s);
      } else {
        PlainChars(s);
      }
    }
  }

  lemma {:induction false} EscapedChars(s: seq<byte>)
    requires |s| > 1 && s[0] == ESC
    ensures |Chars(Decoded(s))| <= |s|
    decreases |s|, 0
  {
    var shown, rest := EscapedText(s[1]), Decoded(s[2..]);
    assert Decoded(s) == shown + rest;
    hide Decoded, Utf8Of, Chars, ExtensionText;
    CharsOfDecoded(s[2..]);
    if shown != [] {
      ExtensionTextIsUtf8(s[1]);
      CharsCons(shown[0], rest);
    } else {
      assert shown + rest == rest;
    }
  }

  lemma {:induction false} PlainChars(s: seq<byte>)
    requires s != [] && (s[0] != ESC || |s| == 1)
    ensures |Chars(Decoded(s))| <= |s|
    decreases |s|, 0
  {
    var shown, rest := PlainText(s[0]), Decoded(s[1..]);
    assert Decoded(s) == shown + rest;
    hide Decoded, Utf8Of, Chars, CharAt, ShownCodePoint;
    CharsOfDecoded(s[1..]);
    if s[0] < 128 {
      CharAtIsUtf8(s[0]);
      CharsCons(ShownCodePoint(s[0]), rest);
    } else {
      assert shown + rest == rest;
    }
  }

  /** Half of the septets do not show the text. */
  lemma TooFewSeptets(text: Bytes, s: seq<septet>, some: seq<byte>)
    requires Encoded(text, false) == Some(s) && 2 * |some| < |s|
    ensures Decoded(some) != text
  {
    hide Encoded, Decoded, Chars, Flat, AllAcceptable;
    EncodedIsFlat(text, s);
    FlatLength(Chars(text));
    CharsOfDecoded(some);
  }

  lemma {:induction false} EncodedLength(text: Bytes, s: seq<septet>)
    requires Encoded(text, false) == Some(s)
    ensures |s| <= 2 * |text|
  {
    if text != [] {
      var c := CodePointAt(text, 0);
      EncodedCons(text, s);
      hide CodePointAt, Encoded, CharSeptets;
      EncodedLength(text[c.length..], Encoded(text[c.length..], false).value);
    }
  }

  /** The user data length octet for text behind a header. */
  function WrittenLength(header: Bytes, s: seq<septet>): byte { (|Lead(header)| + |s|) % 256 }

  function GsmOctets(header: Bytes, s: seq<septet>): Bytes { header + Packed(s, HeaderPad(|header|)) }

  function GsmTextBack(header: Bytes, s: seq<septet>): Bytes {
    TextOf(GsmOctets(header, s), [], HeaderSeptets(|header|), DCS_GSM7, WrittenLength(header, s))
  }

  lemma TextWithinLength(header: Bytes, s: seq<septet>)
    requires |header| <= 6 && s != [] && |Lead(header)| + |s| <= 256
    ensures GsmTextBack(header, s) == ReadBackText(Lead(header), s)
  {
    hide *;
    PackedWithin(header, s);
    UnpackAfterPack(header, s, WrittenLength(header, s));
    TextIsUnpacked(header, s);
    ReadBackIs(Lead(header), s);
  }

  /** The length octet asks for no fewer septets than there are octets, unless it is 0 and asks for all. */
  lemma PackedWithin(header: Bytes, s: seq<septet>)
    requires |header| <= 6 && s != [] && |Lead(header)| + |s| <= 256
    ensures
      var n := WrittenLength(header, s);
      n == 0 || n >= |header + Packed(s, HeaderPad(|header|))|
  {
    hide Packed, Lead, Kept, HeaderPad, SeptetsIn, HeaderSeptets;
    SeptetsInPacked(header, s);
  }

  lemma TextIsUnpacked(header: Bytes, s: seq<septet>)
    requires |header| <= 6
    ensures |Lead(header)| == HeaderSeptets(|header|) <= 7
    ensures
      var t := Unpacked(header + Packed(s, HeaderPad(|header|)), WrittenLength(header, s));
      GsmTextBack(header, s)
      == if |t| <= HeaderSeptets(|header|) then Decoded([]) else Decoded(t[HeaderSeptets(|header|)..])
  {
    hide Packed, Unpacked, Decoded, WrittenLength, HeaderPad;
  }

  lemma ReadBackIs(lead: seq<septet>, s: seq<septet>)
    requires |lead| <= 7
    ensures
      var t := Kept(lead + s);
      ReadBackText(lead, s) == if |t| <= |lead| then Decoded([]) else Decoded(t[|lead|..])
  {
    hide Kept, Decoded;
  }

  lemma UnpackedLength(octets: Bytes, n: nat)
    requires n > 0
    ensures |Unpacked(octets, n)| <= n + n / 7
  {
    var t := SeptetsIn(octets[..OctetsRead(|octets|, n)]);
    hide SeptetsIn, Kept;
    KeptAtMost(t);
    assert |t| <= n + n / 7;
  }

  lemma KeptAtMost(t: seq<septet>)
    ensures |Kept(t)| <= |t|
  {
    KeptLength(t, |t|);
  }

  /** A text of more septets than the length octet can say is cut, and never comes back. */
  lemma TextBeyondLength(header: Bytes, text: Bytes, s: seq<septet>)
    requires |header| <= 6 && Encoded(text, false) == Some(s) && |text| <= 160
    requires |Lead(header)| + |s| > 256
    ensures GsmTextBack(header, s) != text
  {
    hide Encoded, Unpacked, Decoded, GsmOctets, Lead;
    EncodedLength(text, s);
    var n := WrittenLength(header, s);
    assert 1 <= n <= 71;
    var septets := Unpacked(GsmOctets(header, s), n);
    UnpackedLength(GsmOctets(header, s), n);
    TooFewSeptets(text, s, if |septets| > HeaderSeptets(|header|) then septets[HeaderSeptets(|header|)..] else []);
  }

  /** What a caller can check before submitting text in one PDU, or as one part behind a header. */
  ghost predicate ComesBack(header: Bytes, text: Bytes, s: seq<septet>) {
    |Lead(header)| + |s| <= 256 && Survives(text) && NothingDropped(Lead(header) + s)
  }

  lemma TextBackExactly(header: Bytes, text: Bytes, s: seq<septet>)
    requires |header| <= 6 && text != [] && Encoded(text, false) == Some(s) && |text| <= 160
    ensures GsmTextBack(header, s) == text <==> ComesBack(header, text, s)
  {
    hide GsmTextBack, Encoded, Lead, NothingDropped, Survives, ReadBackText;
    NeverEmpty(text);
    if |Lead(header)| + |s| <= 256 {
      TextWithinLength(header, s);
      PackedTextExactly(text, s, Lead(header));
    } else {
      TextBeyondLength(header, text, s);
    }
  }

  // ---------------------------------------------------------------- one PDU

  lemma AloneDecodes(e: Envelope, text: Bytes, s: seq<septet>)
    requires AddressesFit(e) && Encoded(text, false) == Some(s)
    ensures SubmitPdu(e, text, DCS_GSM7, None).Some?
    ensures Decoding(SubmitPdu(e, text, DCS_GSM7, None).value) == Ok(HeadBack(e).(text := GsmTextBack([], s)))
  {
    hide *;
    var l, p := |s| % 256, Packed(s, 0);
    var u := [l] + p;
    AloneShape(e, text, s);
    var data := Framed(e, 0x01, DCS_GSM7, u);
    FramedDecodes(e, 0x01, DCS_GSM7, u, data);
    AloneUserData(data, |data| - |u|, Scheme(DCS_GSM7), l, p);
    AloneText(e, s);
  }

  lemma AloneShape(e: Envelope, text: Bytes, s: seq<septet>)
    requires Encoded(text, false) == Some(s)
    ensures SubmitPdu(e, text, DCS_GSM7, None) == Some(Framed(e, 0x01, DCS_GSM7, [|s| % 256] + Packed(s, 0)))
  {
    hide Encoded, Packed, Framed;
  }

  lemma AloneText(e: Envelope, s: seq<septet>)
    ensures WithUserData(HeadBack(e), Some(UserData(
              TextOf(Packed(s, 0), Packed(s, 0), 0, Scheme(DCS_GSM7), |s| % 256), false, NO_CONCAT)))
         == Ok(HeadBack(e).(text := GsmTextBack([], s)))
  {
    GsmTextAlone(s);
    hide GsmTextBack, TextOf, Packed, NumberBack;
  }

  lemma NoHeader(none: Bytes)
    requires none == []
    ensures HeaderPad(|none|) == 0 && HeaderSeptets(|none|) == 0 && Scheme(DCS_GSM7) == DCS_GSM7
  {
  }

  lemma GsmTextAlone(s: seq<septet>)
    ensures GsmTextBack([], s) == TextOf(Packed(s, 0), Packed(s, 0), 0, Scheme(DCS_GSM7), |s| % 256)
  {
    hide *;
    var none: Bytes := [];
    NoHeader(none);
    GsmTextIs(none, s, 0);
    assert none + Packed(s, 0) == Packed(s, 0);
  }

  /** The single-part round trip: of a text of at most 160 octets that the 7-bit alphabet can write,
      the number, the SMSC and the reference always come back as address fields give them back, and
      the text exactly if it has at most 256 septets, survives coding and loses no zero septet. */
  lemma SinglePdu(e: Envelope, text: Bytes, s: seq<septet>) returns (pdu: Bytes, m: PduMessage)
    requires AddressesFit(e) && e.number != [] && text != [] && |text| <= 160
    requires Encoded(text, false) == Some(s)
    ensures Submitted(e, text) == Ok([pdu]) && Decoding(BytesOf(pdu)) == Ok(m)
    ensures m == HeadBack(e).(text := m.text)
    ensures m.text == text <==> |s| <= 256 && Survives(text) && NothingDropped(s)
  {
    hide *;
    var none: Bytes := [];
    NoLead(none, s);
    AloneDecodes(e, text, s);
    var octets := SubmitPdu(e, text, DCS_GSM7, None).value;
    AloneSubmitted(e, text, octets);
    HexInverts(octets);
    pdu := HexOf(octets);
    m := HeadBack(e).(text := GsmTextBack(none, s));
    TextBackExactly(none, text, s);
    ComesBackIs(none, text, s);
  }

  lemma NoLead(none: Bytes, s: seq<septet>)
    requires none == []
    ensures Lead(none) == [] && Lead(none) + s == s
  {
  }

  lemma AloneSubmitted(e: Envelope, text: Bytes, octets: Bytes)
    requires e.number != [] && text != [] && |text| <= 160 && Encoded(text, false).Some?
    requires SubmitPdu(e, text, DCS_GSM7, None) == Some(octets)
    ensures Submitted(e, text) == Ok([HexOf(octets)])
  {
    hide Encoded, SubmitPdu, HexOf;
  }

  /** A number of digits behind an optional plus, short enough for the length octets of its fields. */
  predicate IsNumeric(address: Bytes) {
    && address != [] && NumberingOf(address) != Alphanumeric
    && AllDigits(AddressValue(address)) && |AddressValue(address)| <= 255
  }

  /** Numeric numbers and SMSCs fit, and come back as they are. */
  lemma NumericComesBack(e: Envelope)
    requires IsNumeric(e.number) && (e.smsc == [] || IsNumeric(e.smsc))
    ensures AddressesFit(e) && HeadBack(e).number == e.number && HeadBack(e).smsc == e.smsc
  {
    NumericFits(e.number);
    if e.smsc != [] { NumericFits(e.smsc); }
    hide LengthFits, NumberBack, IsNumeric;
  }

  lemma NumericFits(address: Bytes)
    requires IsNumeric(address)
    ensures LengthFits(address, false) && LengthFits(address, true) && NumberBack(address) == address
  {
    NumberBackExactly(address);
    var value := AddressValue(address);
    assert |value| >= 1;
    SemiOctetsLength(Padded(value));
    hide NumberBack, NumberingOf, AllDigits, AddressValue, SemiOctets;
    assert |AddressOctets(address)| <= 128;
  }

  /** Only the character @ is septet 0. */
  lemma {:induction false} OnlyAtIsZero(text: Bytes, s: seq<septet>)
    requires Survives(text) && 0x40 !in text && Encoded(text, false) == Some(s)
    ensures 0 !in s
  {
    if text == [] {
      EncodedNothing();
    } else if text == [0x1B] {
      LoneEscape(text);
    } else {
      var rest := text[CodePointAt(text, 0).length..];
      SurvivesOn(text);
      EncodedCons(text, s);
      ZeroIsAt(CodePointAt(text, 0).value);
      hide *;
      OnlyAtIsZero(rest, Encoded(rest, false).value);
    }
  }

  lemma SurvivesOn(text: Bytes)
    requires Survives(text) && text != [] && text != [0x1B]
    ensures StartsShort(text) && Survives(text[CodePointAt(text, 0).length..])
    ensures CodePointAt(text, 0).value == 0x40 ==> text[0] == 0x40
  {
    ShortAt(text);
    hide CodePointAt, StartsShort, AgreeingPoint;
  }

  lemma ShortAt(text: Bytes)
    requires text != [] && StartsShort(text)
    ensures CodePointAt(text, 0).value == 0x40 ==> text[0] == 0x40
  {
  }

  lemma ZeroIsAt(cp: nat)
    requires CharSeptets(cp).Some?
    ensures 0 in CharSeptets(cp).value ==> cp == 0x40
  {
    PositionIsExact(cp, 0);
    assert TableCodePoint(0) == 0x40;
    if ExtensionCode(cp).Some? { ExtensionInverts(cp); }
    hide PositionFrom, ExtensionCode, TableCodePoint;
  }

  /** For a numeric number, a numeric or no SMSC, and text that survives coding and holds no @: everything
      that was submitted in one PDU is read back from it. */
  lemma NumericSinglePdu(e: Envelope, text: Bytes, s: seq<septet>) returns (pdu: Bytes)
    requires IsNumeric(e.number) && (e.smsc == [] || IsNumeric(e.smsc))
    requires text != [] && |text| <= 160 && Encoded(text, false) == Some(s) && |s| <= 256
    requires Survives(text) && 0x40 !in text
    ensures Submitted(e, text) == Ok([pdu])
    ensures Decoding(BytesOf(pdu))
         == Ok(BLANK.(smsc := e.smsc, number := e.number, reference := e.reference, text := text))
  {
    assert HeadBack(e) == BLANK.(smsc := HeadBack(e).smsc, number := HeadBack(e).number, reference := e.reference);
    assert e.number != [];
    hide *;
    NumericComesBack(e);
    var m: PduMessage;
    pdu, m := SinglePdu(e, text, s);
    OnlyAtIsZero(text, s);
    NothingIsDropped(s);
  }

  lemma NothingIsDropped(s: seq<septet>)
    requires 0 !in s
    ensures NothingDropped(s)
  {
    var none: seq<septet> := [];
    assert none + s == s;
    forall i | 0 <= i < |s| ensures s[i] != 0 { assert s[i] in s; }
    NoZeroIsDropped(none, s);
  }

  /** The parser reads the scheme octet that the encoder writes for UCS-2 as 7-bit text, so a text that
      needs UCS-2 is shown as whatever characters its octets pack, and never as itself. */
  lemma Ucs2IsReadAsSeptets(e: Envelope, text: Bytes) returns (pdu: Bytes, m: PduMessage)
    requires AddressesFit(e) && e.number != [] && text != [] && |text| <= 70 && Encoded(text, false).None?
    ensures Submitted(e, text) == Ok([pdu]) && Decoding(BytesOf(pdu)) == Ok(m)
    ensures
      var u := Ucs2Encoded(text);
      m == HeadBack(e).(text := Decoded(Unpacked(u, |u| % 256)))
    ensures m.text != text
  {
    hide *;
    var u := Ucs2Encoded(text);
    pdu := Ucs2Pdu(e, text);
    m := HeadBack(e).(text := Decoded(Unpacked(u, |u| % 256)));
    Ucs2NeverComesBack(text);
  }

  lemma Ucs2Pdu(e: Envelope, text: Bytes) returns (pdu: Bytes)
    requires AddressesFit(e) && e.number != [] && text != [] && |text| <= 70 && Encoded(text, false).None?
    ensures Submitted(e, text) == Ok([pdu])
    ensures
      var u := Ucs2Encoded(text);
      Decoding(BytesOf(pdu)) == Ok(HeadBack(e).(text := Decoded(Unpacked(u, |u| % 256))))
  {
    hide Encoded, Decoding, HeadBack, AddressesFit, Framed, UserDataAt, Ucs2Encoded, HexOf, BytesOf;
    var u := Ucs2Encoded(text);
    var l := |u| % 256;
    var data := Framed(e, 0x01, DCS_UCS2, [l] + u);
    assert SubmitPdu(e, text, DCS_UCS2, None) == Some(data);
    pdu := HexOf(data);
    HexInverts(data);
    SeptetsShown(e, u, l, data);
  }

  lemma SeptetsShown(e: Envelope, u: Bytes, l: byte, data: Bytes)
    requires AddressesFit(e) && data == Framed(e, 0x01, DCS_UCS2, [l] + u)
    ensures Decoding(data) == Ok(HeadBack(e).(text := Decoded(Unpacked(u, l))))
  {
    Ucs2Scheme(e, u, l);
    hide *;
    FramedDecodes(e, 0x01, DCS_UCS2, [l] + u, data);
    AloneUserData(data, |data| - |[l] + u|, Scheme(DCS_UCS2), l, u);
  }

  lemma Ucs2Scheme(e: Envelope, u: Bytes, l: byte)
    ensures WithUserData(HeadBack(e), Some(UserData(TextOf(u, u, 0, Scheme(DCS_UCS2), l), false, NO_CONCAT)))
         == Ok(HeadBack(e).(text := Decoded(Unpacked(u, l))))
  {
    assert Scheme(DCS_UCS2) == DCS_GSM7;
    hide Unpacked, Decoded, NumberBack;
    var septets := Unpacked(u, l);
    assert (if |septets| > 0 then septets[0..] else []) == septets;
  }

  // ---------------------------------------------------------------- one PDU of several

  lemma PartShape(e: Envelope, text: Bytes, s: seq<septet>, c: Concat)
    requires Encoded(text, false) == Some(s)
    ensures SubmitPdu(e, text, DCS_GSM7, Some(c))
         == Some(Framed(e, 0x41, DCS_GSM7, [(|s| + 7) % 256] + (ConcatHeader(c) + Packed(s, 6))))
  {
    hide Encoded, Packed, Framed, ConcatHeader;
  }

  lemma HeaderNumbers(c: Concat, h: nat)
    requires h == 6
    ensures |ConcatHeader(c)| == h && HeaderPad(h) == 6 && HeaderSeptets(h) == 7 && Scheme(DCS_GSM7) == DCS_GSM7
  {
  }

  lemma GsmTextInPart(c: Concat, s: seq<septet>)
    ensures |ConcatHeader(c)| == 6 && |Lead(ConcatHeader(c))| == 7
    ensures GsmTextBack(ConcatHeader(c), s)
         == TextOf(ConcatHeader(c) + Packed(s, 6), Packed(s, 6), 7, Scheme(DCS_GSM7), (|s| + 7) % 256)
  {
    hide *;
    HeaderNumbers(c, 6);
    GsmTextIs(ConcatHeader(c), s, 7);
  }

  lemma GsmTextIs(header: Bytes, s: seq<septet>, m: nat)
    requires m == HeaderSeptets(|header|)
    ensures GsmTextBack(header, s)
         == TextOf(header + Packed(s, HeaderPad(|header|)), Packed(s, HeaderPad(|header|)), m, DCS_GSM7, (|s| + m) % 256)
  {
    hide Packed, Unpacked, Decoded, Lead, HeaderPad, HeaderSeptets;
  }

  /** The message that a part decodes to, but for its text. */
  function PartBack(e: Envelope, c: Concat): PduMessage {
    HeadBack(e).(hasUdh := true, concat := UdhInfo(c.reference, c.total, c.seqNo))
  }

  lemma PartMessage(e: Envelope, c: Concat, s: seq<septet>)
    ensures WithUserData(HeadBack(e), Some(UserData(
              TextOf(ConcatHeader(c) + Packed(s, 6), Packed(s, 6), 7, Scheme(DCS_GSM7), (|s| + 7) % 256), true,
              UdhInfo(c.reference, c.total, c.seqNo))))
         == Ok(PartBack(e, c).(text := GsmTextBack(ConcatHeader(c), s)))
  {
    GsmTextInPart(c, s);
    hide GsmTextBack, TextOf, Packed, NumberBack, ConcatHeader;
  }

  lemma PartDecodes(e: Envelope, text: Bytes, s: seq<septet>, c: Concat)
    requires AddressesFit(e) && Encoded(text, false) == Some(s)
    ensures SubmitPdu(e, text, DCS_GSM7, Some(c)).Some?
    ensures Decoding(SubmitPdu(e, text, DCS_GSM7, Some(c)).value)
         == Ok(PartBack(e, c).(text := GsmTextBack(ConcatHeader(c), s)))
  {
    hide *;
    var l := (|s| + 7) % 256;
    var p := Packed(s, 6);
    var u := [l] + (ConcatHeader(c) + p);
    PartShape(e, text, s, c);
    var data := Framed(e, 0x41, DCS_GSM7, u);
    FramedDecodes(e, 0x41, DCS_GSM7, u, data);
    PartUserData(data, |data| - |u|, Scheme(DCS_GSM7), l, c, p);
    PartMessage(e, c, s);
  }

  /** Every part of the text, cut at octets, can be encoded by itself. */
  ghost predicate PartsEncode(text: Bytes, from: nat) {
    forall part: nat :: from <= part && PartStart(DCS_GSM7, part) < |text| ==>
      Encoded(PartText(text, DCS_GSM7, part), false).Some?
  }

  function PartPdu(e: Envelope, text: Bytes, part: nat): Option<Bytes>
    requires PartStart(DCS_GSM7, part) < |text|
  {
    SubmitPdu(e, PartText(text, DCS_GSM7, part), DCS_GSM7, Some(PartConcat(e, part, PartCount(DCS_GSM7, |text|))))
  }

  lemma PartPduEncodes(e: Envelope, text: Bytes, part: nat)
    requires PartStart(DCS_GSM7, part) < |text|
    ensures PartPdu(e, text, part).Some? <==> Encoded(PartText(text, DCS_GSM7, part), false).Some?
  {
    hide Encoded, PartText, Framed, Packed, PartStart, PartCount;
  }

  predicate IsPartPdu(e: Envelope, text: Bytes, part: nat, hex: Bytes) {
    && PartStart(DCS_GSM7, part) < |text| && PartPdu(e, text, part).Some?
    && hex == HexOf(PartPdu(e, text, part).value)
  }

  /** The hexadecimal PDUs of the parts from `from` on. */
  ghost predicate PdusFrom(e: Envelope, text: Bytes, from: nat, pdus: seq<Bytes>) {
    forall i :: 0 <= i < |pdus| ==> IsPartPdu(e, text, from + i, pdus[i])
  }

  lemma PdusFromCons(e: Envelope, text: Bytes, from: nat, hex: Bytes, rest: seq<Bytes>)
    requires IsPartPdu(e, text, from, hex) && PdusFrom(e, text, from + 1, rest)
    ensures PdusFrom(e, text, from, [hex] + rest)
  {
    hide IsPartPdu;
    var pdus := [hex] + rest;
    forall i | 0 <= i < |pdus|
      ensures IsPartPdu(e, text, from + i, pdus[i])
    {
      if i > 0 { assert pdus[i] == rest[i - 1] && from + 1 + (i - 1) == from + i; }
    }
  }

  lemma PartPdusCons(e: Envelope, text: Bytes, from: nat)
    requires PartStart(DCS_GSM7, from) < |text|
    ensures
      var pdu, rest := PartPdu(e, text, from), PartPdus(e, text, DCS_GSM7, from + 1);
      PartPdus(e, text, DCS_GSM7, from)
      == if pdu.Some? && rest.Some? then Some([HexOf(pdu.value)] + rest.value) else None
  {
    hide SubmitPdu, PartText, PartStart, PartCount;
  }

  lemma FirstPartPdu(e: Envelope, text: Bytes, part: nat, hex: Bytes)
    requires PartStart(DCS_GSM7, part) < |text| && PartPdu(e, text, part).Some?
    ensures hex == HexOf(PartPdu(e, text, part).value) <==> IsPartPdu(e, text, part, hex)
  {
  }

  lemma NoMoreParts(e: Envelope, text: Bytes, from: nat)
    requires |text| <= PartStart(DCS_GSM7, from) <= |text| + 152
    ensures PartPdus(e, text, DCS_GSM7, from) == Some([]) && PartsEncode(text, from)
    ensures from == PartCount(DCS_GSM7, |text|) && PdusFrom(e, text, from, [])
  {
  }

  lemma NextStart(from: nat)
    ensures PartStart(DCS_GSM7, from + 1) == PartStart(DCS_GSM7, from) + 153
  {
  }

  /** The PDUs from `from` on: one for each part, if and only if each can be encoded. */
  lemma {:induction false} PartPdusAre(e: Envelope, text: Bytes, from: nat)
    requires PartStart(DCS_GSM7, from) <= |text| + 152
    ensures PartPdus(e, text, DCS_GSM7, from).Some? <==> PartsEncode(text, from)
    ensures PartPdus(e, text, DCS_GSM7, from).Some? ==>
              && |PartPdus(e, text, DCS_GSM7, from).value| + from == PartCount(DCS_GSM7, |text|)
              && PdusFrom(e, text, from, PartPdus(e, text, DCS_GSM7, from).value)
    decreases |text| - PartStart(DCS_GSM7, from)
  {
    hide *;
    if PartStart(DCS_GSM7, from) < |text| {
      NextStart(from);
      PartPdusAre(e, text, from + 1);
      PartPduEncodes(e, text, from);
      PartsEncodeFrom(text, from);
      PartPdusCons(e, text, from);
      if PartPdus(e, text, DCS_GSM7, from).Some? {
        var hex := HexOf(PartPdu(e, text, from).value);
        FirstPartPdu(e, text, from, hex);
        PdusFromCons(e, text, from, hex, PartPdus(e, text, DCS_GSM7, from + 1).value);
      }
    } else {
      NoMoreParts(e, text, from);
    }
  }

  lemma PartsEncodeFrom(text: Bytes, from: nat)
    requires PartStart(DCS_GSM7, from) < |text|
    ensures PartsEncode(text, from)
       <==> Encoded(PartText(text, DCS_GSM7, from), false).Some? && PartsEncode(text, from + 1)
  {
    hide Encoded, PartText, PartStart;
  }

  // ---------------------------------------------------------------- the whole message

  lemma PartsSubmitted(e: Envelope, text: Bytes)
    requires e.number != [] && |text| > 160 && Encoded(text, false).Some?
    ensures Submitted(e, text) == Err(InvalidCharacter) || Submitted(e, text).Ok?
    ensures Submitted(e, text).Ok? <==> PartsEncode(text, 0)
    ensures Submitted(e, text).Ok? ==>
              |Submitted(e, text).value| == (|text| + 152) / 153 && PdusFrom(e, text, 0, Submitted(e, text).value)
  {
    assert PartStart(DCS_GSM7, 0) == 0;
    assert PartCount(DCS_GSM7, |text|) == (|text| + 152) / 153;
    hide PartPdus, Encoded, PartStart, PartCount, PdusFrom, PartsEncode;
    PartPdusAre(e, text, 0);
  }

  /** Every cut falls between two characters of the text. */
  ghost predicate CutsBetweenCharacters(text: Bytes) {
    forall part: nat :: PartStart(DCS_GSM7, part) < |text| ==> IsBoundary(text, PartStart(DCS_GSM7, part))
  }

  /** A part that starts with a character can be encoded exactly when the next part starts with one. */
  lemma PartEncodesExactly(text: Bytes, part: nat)
    requires Encoded(text, false).Some? && PartStart(DCS_GSM7, part) < |text|
    requires IsBoundary(text, PartStart(DCS_GSM7, part))
    ensures Encoded(PartText(text, DCS_GSM7, part), false).Some?
       <==> (PartStart(DCS_GSM7, part + 1) < |text| ==> IsBoundary(text, PartStart(DCS_GSM7, part + 1)))
  {
    hide *;
    var p, q := PartStart(DCS_GSM7, part), PartStart(DCS_GSM7, part + 1);
    var end := Min(q, |text|);
    NextStart(part);
    PartIs(text, part);
    assert text[p..end] == text[p..][..end - p];
    BackEncodes(text, p, end);
    FrontEncodesExactly(text[p..], end - p);
    if end == |text| {
      assert text[p..][..end - p] == text[p..];
    }
  }

  lemma PartIs(text: Bytes, part: nat)
    requires PartStart(DCS_GSM7, part) < |text|
    ensures
      var p, end := PartStart(DCS_GSM7, part), Min(PartStart(DCS_GSM7, part + 1), |text|);
      && p <= end <= |text| && PartText(text, DCS_GSM7, part) == text[p..end]
      && end == if PartStart(DCS_GSM7, part + 1) < |text| then PartStart(DCS_GSM7, part + 1) else |text|
  {
  }

  lemma {:induction false} PartStartsCharacter(text: Bytes, part: nat)
    requires Encoded(text, false).Some? && PartsEncode(text, 0) && PartStart(DCS_GSM7, part) < |text|
    ensures IsBoundary(text, PartStart(DCS_GSM7, part))
  {
    hide Encoded, IsBoundary, PartText;
    if part == 0 {
      StartIsBoundary(text);
    } else {
      NextStart(part - 1);
      PartStartsCharacter(text, part - 1);
      PartEncodesExactly(text, part - 1);
    }
  }

  lemma StartIsBoundary(text: Bytes)
    ensures IsBoundary(text, 0) && PartStart(DCS_GSM7, 0) == 0
  {
  }

  lemma PartsEncodeExactly(text: Bytes)
    requires Encoded(text, false).Some?
    ensures PartsEncode(text, 0) <==> CutsBetweenCharacters(text)
  {
    hide Encoded, IsBoundary, PartStart, PartText;
    if PartsEncode(text, 0) {
      forall part: nat | PartStart(DCS_GSM7, part) < |text|
        ensures IsBoundary(text, PartStart(DCS_GSM7, part))
      {
        PartStartsCharacter(text, part);
      }
    }
    if CutsBetweenCharacters(text) {
      forall part: nat | PartStart(DCS_GSM7, part) < |text|
        ensures Encoded(PartText(text, DCS_GSM7, part), false).Some?
      {
        PartEncodesExactly(text, part);
      }
    }
  }

  /** A text too long for one PDU is submitted, as one PDU for every 153 octets begun, if and only if
      none of the cuts falls inside a character; otherwise the whole is refused. */
  lemma MultipartPdus(e: Envelope, text: Bytes)
    requires e.number != [] && |text| > 160 && Encoded(text, false).Some?
    ensures Submitted(e, text) == Err(InvalidCharacter) || Submitted(e, text).Ok?
    ensures Submitted(e, text).Ok? <==> CutsBetweenCharacters(text)
    ensures Submitted(e, text).Ok? ==>
              |Submitted(e, text).value| == (|text| + 152) / 153 && PdusFrom(e, text, 0, Submitted(e, text).value)
  {
    hide *;
    PartsSubmitted(e, text);
    PartsEncodeExactly(text);
  }

  /** Part i of a message decodes to the same number, SMSC and reference, the position and total of the
      part cut to 8 bits, and to its own slice of the text exactly if that slice passes the check. */
  lemma PartComesBack(e: Envelope, text: Bytes, i: nat) returns (m: PduMessage)
    requires AddressesFit(e) && e.number != [] && |text| > 160 && Encoded(text, false).Some?
    requires Submitted(e, text).Ok? && i < |Submitted(e, text).value|
    ensures PartStart(DCS_GSM7, i) < |text| && Encoded(PartText(text, DCS_GSM7, i), false).Some?
    ensures Decoding(BytesOf(Submitted(e, text).value[i])) == Ok(m)
    ensures
      var c := PartConcat(e, i, (|text| + 152) / 153);
      var slice := PartText(text, DCS_GSM7, i);
      && m == PartBack(e, c).(text := m.text)
      && (m.text == slice <==> ComesBack(ConcatHeader(c), slice, Encoded(slice, false).value))
  {
    hide *;
    PartsSubmitted(e, text);
    PdusFromAt(e, text, 0, Submitted(e, text).value, i, i);
    PartPduEncodes(e, text, i);
    SliceIsShort(text, i);
    PartPduIs(e, text, i);
    var c, slice := PartConcat(e, i, (|text| + 152) / 153), PartText(text, DCS_GSM7, i);
    var s := Encoded(slice, false).value;
    PartDecodes(e, slice, s, c);
    HexInverts(PartPdu(e, text, i).value);
    m := PartBack(e, c).(text := GsmTextBack(ConcatHeader(c), s));
    GsmTextInPart(c, s);
    TextBackExactly(ConcatHeader(c), slice, s);
  }

  lemma PdusFromAt(e: Envelope, text: Bytes, from: nat, pdus: seq<Bytes>, i: nat, part: nat)
    requires PdusFrom(e, text, from, pdus) && i < |pdus| && part == from + i
    ensures IsPartPdu(e, text, part, pdus[i])
    ensures PartStart(DCS_GSM7, part) < |text| && PartPdu(e, text, part).Some?
    ensures pdus[i] == HexOf(PartPdu(e, text, part).value)
  {
    hide PartStart, PartPdu, HexOf;
  }

  lemma SliceIsShort(text: Bytes, i: nat)
    requires PartStart(DCS_GSM7, i) < |text|
    ensures 1 <= |PartText(text, DCS_GSM7, i)| <= 153
  {
  }

  lemma PartPduIs(e: Envelope, text: Bytes, i: nat)
    requires PartStart(DCS_GSM7, i) < |text|
    ensures PartPdu(e, text, i)
         == SubmitPdu(e, PartText(text, DCS_GSM7, i), DCS_GSM7, Some(PartConcat(e, i, (|text| + 152) / 153)))
  {
    hide SubmitPdu, PartText, PartStart, PartConcat;
  }

  // ---------------------------------------------------------------- plain text

  /** An ASCII character that is one septet other than 0, and is shown as itself. */
  predicate PlainOctet(b: byte) {
    b < 0x80 && b != 0x1B && Position(b).Some? && Position(b).value != 0 && !Disagrees(Position(b).value)
  }

  /** Letters, digits, space and full stop are plain, among others. */
  lemma LettersArePlain(b: byte)
    requires 0x41 <= b <= 0x5A || 0x61 <= b <= 0x7A || 0x30 <= b <= 0x39 || b == 0x20 || b == 0x2E
    ensures PlainOctet(b)
  {
    assert TableCodePoint(b) == b && !Disagrees(b);
    PositionIsExact(b, b);
    hide PositionFrom, TableCodePoint;
  }

  ghost predicate AllPlain(text: Bytes) {
    forall i :: 0 <= i < |text| ==> PlainOctet(text[i])
  }

  lemma PlainStep(text: Bytes)
    requires text != [] && PlainOctet(text[0])
    ensures CodePointAt(text, 0) == CodePoint(text[0], 1) && StartsShort(text) && AgreeingPoint(text[0])
    ensures CharSeptets(text[0]) == Some([Position(text[0]).value])
  {
    assert CodePointAt(text, 0) == CodePoint(text[0], 1);
    hide CodePointAt, Disagrees, PositionFrom, ExtensionCode;
    assert Utf8Of(text[0]) == [text[0]] by { Utf8Single(text[0]); }
    hide Utf8Of;
  }

  /** Plain text is one septet a character, and passes every check. */
  lemma {:induction false} PlainEncodes(text: Bytes)
    requires AllPlain(text)
    ensures Encoded(text, false).Some? && |Encoded(text, false).value| == |text|
    ensures forall i :: 0 <= i < |text| ==> Encoded(text, false).value[i] != 0
    ensures Survives(text)
  {
    if text != [] {
      PlainStep(text);
      var rest := text[1..];
      assert AllPlain(rest) by { PlainSlice(text, 1, |text|); }
      hide PlainOctet, CodePointAt, StartsShort, AgreeingPoint, CharSeptets, PositionFrom;
      PlainEncodes(rest);
      var s := Encoded(text, false).value;
      assert s == [Position(text[0]).value] + Encoded(rest, false).value;
      PlainNotZero(text[0]);
    }
  }

  lemma PlainNotZero(b: byte)
    requires PlainOctet(b)
    ensures Position(b).Some? && Position(b).value != 0
  {
  }

  lemma PlainSlice(text: Bytes, from: nat, to: nat)
    requires AllPlain(text) && from <= to <= |text|
    ensures AllPlain(text[from..to])
  {
    hide PlainOctet;
  }

  lemma NoZeroIsDropped(lead: seq<septet>, s: seq<septet>)
    requires |lead| <= 7 && forall i :: 0 <= i < |s| ==> s[i] != 0
    ensures NothingDropped(lead + s)
  {
    forall k | 0 <= k < |lead + s|
      ensures !Dropped(lead + s, k)
    {
      if k >= |lead| { assert (lead + s)[k] == s[k - |lead|]; }
    }
  }

  /** Plain text is never refused: each of its parts can be encoded. */
  lemma PlainPartsEncode(text: Bytes)
    requires AllPlain(text)
    ensures PartsEncode(text, 0)
  {
    hide AllPlain, Encoded, PartStart;
    forall part: nat | PartStart(DCS_GSM7, part) < |text|
      ensures Encoded(PartText(text, DCS_GSM7, part), false).Some?
    {
      PartIsPlain(text, part);
      PlainEncodes(PartText(text, DCS_GSM7, part));
    }
  }

  lemma PartIsPlain(text: Bytes, part: nat)
    requires AllPlain(text) && PartStart(DCS_GSM7, part) < |text|
    ensures AllPlain(PartText(text, DCS_GSM7, part))
  {
    PlainSlice(text, PartStart(DCS_GSM7, part), Min(PartStart(DCS_GSM7, part + 1), |text|));
  }

  /** Plain text in front of a text: it can be encoded as well, and has the same boundaries further on. */
  lemma {:induction false} PlainInFront(front: Bytes, text: Bytes, pos: nat)
    requires AllPlain(front) && Encoded(text, false).Some? && pos <= |text|
    ensures Encoded(front + text, false).Some?
    ensures IsBoundary(front + text, |front| + pos) <==> IsBoundary(text, pos)
  {
    hide *;
    if front == [] {
      assert front + text == text;
    } else {
      var whole, rest := front + text, front[1..];
      assert whole[0] == front[0] && whole[1..] == rest + text;
      PlainFirst(front);
      PlainSlice(front, 1, |front|);
      assert front[1..|front|] == rest;
      PlainInFront(rest, text, pos);
      PlainStep(whole);
      EncodedFirst(whole);
      BoundaryFirst(whole, |front| + pos);
    }
  }

  lemma PlainFirst(front: Bytes)
    requires front != [] && AllPlain(front)
    ensures PlainOctet(front[0])
  {
    hide PlainOctet;
  }

  /** An accented letter behind 152 plain characters is cut in two, so that a text of 161 octets or more
      is refused although each of its characters has septets. */
  lemma CutCharacterIsRefused(e: Envelope, front: Bytes, back: Bytes)
    requires e.number != [] && |front| == 152 && |back| >= 7 && AllPlain(front) && AllPlain(back)
    ensures
      var text := front + ([0xC3, 0xA9] + back);
      Encoded(text, false).Some? && Submitted(e, text) == Err(InvalidCharacter)
  {
    hide *;
    var letter: Bytes := [0xC3, 0xA9] + back;
    var text := front + letter;
    LetterInFront(back);
    PlainInFront(front, letter, 1);
    assert |text| > 160;
    MultipartPdus(e, text);
    SecondCut(text);
  }

  lemma SecondCut(text: Bytes)
    requires |text| > 160
    ensures CutsBetweenCharacters(text) ==> IsBoundary(text, 153)
  {
    assert PartStart(DCS_GSM7, 1) == 153;
    hide IsBoundary;
  }

  lemma LetterInFront(back: Bytes)
    requires AllPlain(back)
    ensures Encoded([0xC3, 0xA9] + back, false).Some? && !IsBoundary([0xC3, 0xA9] + back, 1)
  {
    var letter: Bytes := [0xC3, 0xA9] + back;
    hide *;
    PlainEncodes(back);
    LetterIs(back);
    EncodedFirst(letter);
    assert letter[2..] == back;
    BoundaryFirst(letter, 1);
  }

  lemma LetterIs(back: Bytes)
    ensures CodePointAt([0xC3, 0xA9] + back, 0) == CodePoint(0xE9, 2) && CharSeptets(0xE9).Some?
  {
    hide Utf8Of, PositionFrom, ExtensionCode, CodePointAt;
    Utf8Pair(3, 41);
    ReadBack(0xE9, [0xC3, 0xA9] + back);
    assert TableCodePoint(5) == 0xE9;
    PositionIsExact(0xE9, 5);
  }

  /** Plain text of 161 to 39015 octets becomes one PDU for every 153 octets begun, of at most 160
      septets with the header; each decodes to its slice, reference, position and total. */
  lemma PlainPartComesBack(e: Envelope, text: Bytes, i: nat) returns (m: PduMessage)
    requires AddressesFit(e) && e.number != [] && AllPlain(text) && 160 < |text| <= 39015
    requires i < (|text| + 152) / 153
    ensures Submitted(e, text).Ok? && |Submitted(e, text).value| == (|text| + 152) / 153 <= 255
    ensures PartStart(DCS_GSM7, i) < |text|
    ensures Decoding(BytesOf(Submitted(e, text).value[i])) == Ok(m)
    ensures m.text == PartText(text, DCS_GSM7, i) && Encoded(m.text, false).Some? && 7 + |Encoded(m.text, false).value| <= 160
    ensures m.smsc == HeadBack(e).smsc && m.number == HeadBack(e).number && m.reference == e.reference
    ensures m.hasUdh && m.concat.concatRef == e.reference
    ensures m.concat.concatTotal == |Submitted(e, text).value| && m.concat.concatSeq == i + 1
  {
    PlainEncodes(text);
    PlainPartsEncode(text);
    hide *;
    PartsSubmitted(e, text);
    m := PartComesBack(e, text, i);
    PlainPart(e, text, i, m);
  }

  /** The parts tell how many they are if and only if there are at most 255 of them. */
  lemma TotalToldExactly(e: Envelope, text: Bytes, i: nat) returns (m: PduMessage)
    requires AddressesFit(e) && e.number != [] && |text| > 160 && Encoded(text, false).Some?
    requires Submitted(e, text).Ok? && i < |Submitted(e, text).value|
    ensures Decoding(BytesOf(Submitted(e, text).value[i])) == Ok(m)
    ensures m.concat.concatTotal == |Submitted(e, text).value| <==> |text| <= 39015
  {
    hide *;
    PartsSubmitted(e, text);
    m := PartComesBack(e, text, i);
    var total := (|text| + 152) / 153;
    PartFields(e, PartConcat(e, i, total), m);
    TotalCut(e, i, total);
  }

  lemma TotalCut(e: Envelope, i: nat, total: nat)
    ensures PartConcat(e, i, total).total == total <==> total <= 255
  {
  }

  lemma PlainPart(e: Envelope, text: Bytes, i: nat, m: PduMessage)
    requires AllPlain(text) && PartStart(DCS_GSM7, i) < |text| && |text| <= 39015 && i < (|text| + 152) / 153
    requires Encoded(PartText(text, DCS_GSM7, i), false).Some?
    requires
      var c := PartConcat(e, i, (|text| + 152) / 153);
      var slice := PartText(text, DCS_GSM7, i);
      && m == PartBack(e, c).(text := m.text)
      && (m.text == slice <==> ComesBack(ConcatHeader(c), slice, Encoded(slice, false).value))
    ensures m.text == PartText(text, DCS_GSM7, i) && Encoded(m.text, false).Some? && 7 + |Encoded(m.text, false).value| <= 160
    ensures m.smsc == HeadBack(e).smsc && m.number == HeadBack(e).number && m.reference == e.reference
    ensures m.hasUdh && m.concat.concatRef == e.reference
    ensures m.concat.concatTotal == (|text| + 152) / 153 && m.concat.concatSeq == i + 1
  {
    hide *;
    var total := (|text| + 152) / 153;
    var c := PartConcat(e, i, total);
    PositionFits(e, i, total);
    PartFields(e, c, m);
    var slice := PartText(text, DCS_GSM7, i);
    PartIsPlain(text, i);
    SliceIsShort(text, i);
    PlainEncodes(slice);
    GsmTextInPart(c, []);
    NoZeroIsDropped(Lead(ConcatHeader(c)), Encoded(slice, false).value);
    ComesBackIs(ConcatHeader(c), slice, Encoded(slice, false).value);
  }

  lemma PositionFits(e: Envelope, i: nat, total: nat)
    requires i < total <= 255
    ensures
      var c := PartConcat(e, i, total);
      c.reference == e.reference && c.total == total && c.seqNo == i + 1
  {
  }

  lemma PartFields(e: Envelope, c: Concat, m: PduMessage)
    requires m == PartBack(e, c).(text := m.text)
    ensures m.smsc == HeadBack(e).smsc && m.number == HeadBack(e).number && m.reference == e.reference
    ensures m.hasUdh && m.concat == UdhInfo(c.reference, c.total, c.seqNo)
  {
    hide NumberBack;
  }

  lemma ComesBackIs(header: Bytes, text: Bytes, s: seq<septet>)
    ensures ComesBack(header, text, s)
       <==> |Lead(header)| + |s| <= 256 && Survives(text) && NothingDropped(Lead(header) + s)
  {
  }
}
