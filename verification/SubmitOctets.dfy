/** The octets of submitted PDUs, written out (section 9.2.2.2 of 3GPP TS 23.040). */
module SubmitOctets {
  import opened Wrappers
  import opened Bits
  import opened Septets
  import opened Utf8
  import opened Gsm7
  import opened Address
  import opened Udh
  import opened Pdu
  import opened PduDecode
  import opened PduRoundTrip

  // ---------------------------------------------------------------- addresses

  /** Length, type of address and value: digits behind a plus are an international number, other digits a
      national one, anything else is packed as text. In front of a PDU the length counts octets, with that
      of the type; inside it counts digits, or half octets of text. */
  lemma AddressIs(address: Bytes, smsc: bool)
    requires address != []
    ensures
      var plus := address[0] == 0x2B && |address| > 1;
      var digits := forall i :: 0 <= i < |address| ==> 0x30 <= address[i] <= 0x39;
      var value := if plus then address[1..] else address;
      var s := Encoded(address, true);
      s.Some? && FieldOctets(address, smsc)
      == if plus || digits then
           var octets := SemiOctets(if |value| % 2 == 1 then value + [0x46] else value);
           [(if smsc then |octets| + 1 else |value|) % 256, if plus then 0x91 else 0xA1] + octets
         else
           [|Packed(s.value, 0)| * 2 % 256, 0xD1] + Packed(s.value, 0)
  {
    DiscardNeverFails(address);
    DigitsAre(address);
    hide Encoded, Packed, SemiOctets, AllDigits;
  }

  /** The field of no address at all; no PDU is submitted with one. */
  lemma NoAddressIs(smsc: bool)
    ensures FieldOctets([], smsc) == [if smsc then 1 else 0, 0x81]
  {
    assert SemiOctets(Padded([])) == [];
  }

  /** A missing SMSC is one octet. */
  lemma SmscIs(smsc: Bytes)
    ensures SmscOctets(smsc) == if smsc == [] then [0x00] else FieldOctets(smsc, true)
  {
    hide FieldOctets;
  }

  // ---------------------------------------------------------------- one PDU

  /** A PDU: SMSC, first octet, reference, number, protocol, scheme, user data. */
  function Octets(e: Envelope, first: byte, scheme: byte, userData: Bytes): Bytes {
    SmscOctets(e.smsc) + [first, e.reference] + FieldOctets(e.number, false) + [0x00, scheme] + userData
  }

  lemma FramedOctets(e: Envelope, first: byte, scheme: byte, userData: Bytes)
    ensures Framed(e, first, scheme, userData) == Octets(e, first, scheme, userData)
  {
    hide SmscOctets, FieldOctets;
  }

  /** A text of at most 160 octets that has septets. */
  lemma AloneInSeptets(e: Envelope, text: Bytes, s: seq<septet>)
    requires e.number != [] && text != [] && |text| <= 160 && Encoded(text, false) == Some(s)
    ensures Submitted(e, text) == Ok([HexOf(Octets(e, 0x01, 0x00, [|s| % 256] + Packed(s, 0)))])
  {
    hide *;
    SchemesAre();
    AloneShape(e, text, s);
    FramedOctets(e, 0x01, 0x00, [|s| % 256] + Packed(s, 0));
    AloneSubmitted(e, text, Octets(e, 0x01, 0x00, [|s| % 256] + Packed(s, 0)));
  }

  lemma SchemesAre()
    ensures DCS_GSM7 == 0x00 && DCS_UCS2 == 0x02
  {
  }

  /** A text of at most 70 octets that needs UCS-2. */
  lemma AloneInUcs2(e: Envelope, text: Bytes)
    requires e.number != [] && text != [] && |text| <= 70 && Encoded(text, false).None?
    ensures Submitted(e, text) == Ok([HexOf(Octets(e, 0x01, 0x02, [|Ucs2Encoded(text)| % 256] + Ucs2Encoded(text)))])
  {
    FramedOctets(e, 0x01, 0x02, [|Ucs2Encoded(text)| % 256] + Ucs2Encoded(text));
    hide Encoded, Ucs2Encoded, Octets, Framed, HexOf;
  }

  lemma NothingSubmitted(e: Envelope, text: Bytes)
    ensures e.number == [] ==> Submitted(e, text) == Err(EmptyNumber)
    ensures e.number != [] && text == [] ==> Submitted(e, text) == Err(EmptyText)
  {
    hide Encoded;
  }

  // ---------------------------------------------------------------- several PDUs

  /** Part i of a longer text in septets: 153 octets of it, behind a header with reference, total and
      position. */
  predicate IsSeptetPart(e: Envelope, text: Bytes, i: nat, hex: Bytes) {
    && 153 * i < |text|
    && var s := Encoded(text[153 * i..Min(153 * i + 153, |text|)], false);
    && s.Some?
    && hex == HexOf(Octets(e, 0x41, 0x00,
         [(|s.value| + 7) % 256, 0x05, 0x00, 0x03, e.reference, (|text| + 152) / 153 % 256, (i + 1) % 256] + Packed(s.value, 6)))
  }

  /** A text of more than 160 octets that has septets, unless it is refused: one PDU for every 153 octets begun. */
  lemma PartsInSeptets(e: Envelope, text: Bytes)
    requires e.number != [] && |text| > 160 && Encoded(text, false).Some? && Submitted(e, text).Ok?
    ensures |Submitted(e, text).value| == (|text| + 152) / 153
    ensures forall i :: 0 <= i < |Submitted(e, text).value| ==> IsSeptetPart(e, text, i, Submitted(e, text).value[i])
  {
    hide *;
    PartsSubmitted(e, text);
    var pdus := Submitted(e, text).value;
    forall i | 0 <= i < |pdus| ensures IsSeptetPart(e, text, i, pdus[i]) {
      PdusFromAt(e, text, 0, pdus, i, i);
      SeptetPartIs(e, text, i, pdus[i]);
    }
  }

  lemma SeptetPartIs(e: Envelope, text: Bytes, i: nat, hex: Bytes)
    requires IsPartPdu(e, text, i, hex)
    ensures IsSeptetPart(e, text, i, hex)
  {
    assert PartText(text, DCS_GSM7, i) == text[153 * i..Min(153 * i + 153, |text|)];
    var s := Encoded(text[153 * i..Min(153 * i + 153, |text|)], false);
    hide Encoded, Packed, Octets, Framed, HexOf;
    if s.Some? {
      var total, position := (|text| + 152) / 153 % 256, (i + 1) % 256;
      HeaderSpread((|s.value| + 7) % 256, e.reference, total, position, Packed(s.value, 6));
      FramedOctets(e, 0x41, 0x00, [(|s.value| + 7) % 256, 0x05, 0x00, 0x03, e.reference, total, position] + Packed(s.value, 6));
    }
  }

  lemma HeaderSpread(l: byte, reference: byte, total: byte, position: byte, p: Bytes)
    ensures [l] + (ConcatHeader(Concat(reference, position, total)) + p) == [l, 0x05, 0x00, 0x03, reference, total, position] + p
    ensures [l] + (ConcatElement(Concat(reference, position, total)) + p) == [l, 0x00, 0x03, reference, total, position] + p
  {
  }

  /** Part i of a longer text in UCS-2: 67 octets of the UTF-8 text, behind a header that lacks the octet
      with its length. */
  predicate IsUcs2Part(e: Envelope, text: Bytes, i: nat, hex: Bytes) {
    && 67 * i < |text|
    && var u := Ucs2Encoded(text[67 * i..Min(67 * i + 67, |text|)]);
    hex == HexOf(Octets(e, 0x41, 0x02,
             [(|u| + 6) % 256, 0x00, 0x03, e.reference, (|text| + 66) / 67 % 256, (i + 1) % 256] + u))
  }

  lemma Ucs2PartIs(e: Envelope, text: Bytes, i: nat)
    requires 67 * i < |text|
    ensures PartStart(DCS_UCS2, i) == 67 * i
    ensures
      var pdu := SubmitPdu(e, PartText(text, DCS_UCS2, i), DCS_UCS2, Some(PartConcat(e, i, PartCount(DCS_UCS2, |text|))));
      pdu.Some? && IsUcs2Part(e, text, i, HexOf(pdu.value))
  {
    assert PartText(text, DCS_UCS2, i) == text[67 * i..Min(67 * i + 67, |text|)];
    var u := Ucs2Encoded(text[67 * i..Min(67 * i + 67, |text|)]);
    var total, position := (|text| + 66) / 67 % 256, (i + 1) % 256;
    hide Encoded, Ucs2Encoded, Octets, Framed, HexOf;
    HeaderSpread((|u| + 6) % 256, e.reference, total, position, u);
    FramedOctets(e, 0x41, 0x02, [(|u| + 6) % 256, 0x00, 0x03, e.reference, total, position] + u);
  }

  lemma Ucs2PartsEnd(e: Envelope, text: Bytes, from: nat)
    requires |text| <= 67 * from <= |text| + 66
    ensures PartPdus(e, text, DCS_UCS2, from) == Some([]) && from == (|text| + 66) / 67
  {
  }

  lemma Ucs2PartsCons(e: Envelope, text: Bytes, from: nat)
    requires 67 * from < |text|
    ensures
      var pdu := SubmitPdu(e, PartText(text, DCS_UCS2, from), DCS_UCS2, Some(PartConcat(e, from, PartCount(DCS_UCS2, |text|))));
      var rest := PartPdus(e, text, DCS_UCS2, from + 1);
      PartStart(DCS_UCS2, from) < |text|
      && PartPdus(e, text, DCS_UCS2, from) == if pdu.Some? && rest.Some? then Some([HexOf(pdu.value)] + rest.value) else None
  {
    hide SubmitPdu, PartText, PartCount;
  }

  predicate AreUcs2Parts(e: Envelope, text: Bytes, from: nat, pdus: seq<Bytes>) {
    forall i :: 0 <= i < |pdus| ==> IsUcs2Part(e, text, from + i, pdus[i])
  }

  lemma OneMorePart(e: Envelope, text: Bytes, from: nat, hex: Bytes, rest: seq<Bytes>)
    requires IsUcs2Part(e, text, from, hex) && AreUcs2Parts(e, text, from + 1, rest)
    ensures AreUcs2Parts(e, text, from, [hex] + rest)
  {
    hide IsUcs2Part;
    var pdus := [hex] + rest;
    forall i | 0 <= i < |pdus| ensures IsUcs2Part(e, text, from + i, pdus[i]) {
      if i > 0 { assert pdus[i] == rest[i - 1] && from + 1 + (i - 1) == from + i; }
    }
  }

  lemma {:induction false} Ucs2PartsFrom(e: Envelope, text: Bytes, from: nat)
    requires 67 * from <= |text| + 66
    ensures PartPdus(e, text, DCS_UCS2, from).Some?
    ensures
      var pdus := PartPdus(e, text, DCS_UCS2, from).value;
      |pdus| + from == (|text| + 66) / 67 && AreUcs2Parts(e, text, from, pdus)
    decreases |text| + 67 - 67 * from
  {
    hide *;
    if 67 * from < |text| {
      Ucs2PartIs(e, text, from);
      Ucs2PartsFrom(e, text, from + 1);
      Ucs2PartsCons(e, text, from);
      var pdu := SubmitPdu(e, PartText(text, DCS_UCS2, from), DCS_UCS2, Some(PartConcat(e, from, PartCount(DCS_UCS2, |text|))));
      OneMorePart(e, text, from, HexOf(pdu.value), PartPdus(e, text, DCS_UCS2, from + 1).value);
    } else {
      Ucs2PartsEnd(e, text, from);
      NoUcs2Parts(e, text, from);
    }
  }

  lemma NoUcs2Parts(e: Envelope, text: Bytes, from: nat)
    ensures AreUcs2Parts(e, text, from, [])
  {
  }

  /** A text of more than 70 octets that needs UCS-2 is never refused: it becomes one PDU for every 67
      octets begun, wherever these cut its characters. */
  lemma PartsInUcs2(e: Envelope, text: Bytes)
    requires e.number != [] && |text| > 70 && Encoded(text, false).None?
    ensures Submitted(e, text).Ok?
    ensures |Submitted(e, text).value| == (|text| + 66) / 67
    ensures forall i :: 0 <= i < |Submitted(e, text).value| ==> IsUcs2Part(e, text, i, Submitted(e, text).value[i])
  {
    SubmittedInParts(e, text);
    Ucs2PartsFrom(e, text, 0);
    hide Submitted, PartPdus, IsUcs2Part, Encoded;
  }

  lemma SubmittedInParts(e: Envelope, text: Bytes)
    requires e.number != [] && |text| > 70 && Encoded(text, false).None?
    ensures Submitted(e, text) == OrError(PartPdus(e, text, DCS_UCS2, 0), InvalidCharacter)
  {
    hide Encoded, PartPdus;
  }

  // ---------------------------------------------------------------- parts in UCS-2, decoded

  /** The first octet of a header without its length octet is taken for a length of zero. */
  lemma NoHeaderSeen(data: Bytes, pos: nat, l: byte, body: Bytes)
    requires pos <= |data| && data[pos..] == [l] + body && body != [] && body[0] == 0x00
    ensures
      var s := Unpacked(body, l);
      UserDataAt(data, pos, DCS_GSM7, true)
      == Some(UserData(Decoded(if |s| > 2 then s[2..] else []), true, NO_CONCAT))
  {
    assert data[pos] == data[pos..][0] == l;
    assert data[pos + 1] == data[pos..][1] == body[0];
    assert data[pos + 1..] == data[pos..][1..] == body;
    assert Walk(data, pos + 2, 0, 0, NO_CONCAT) == Some(Walked(NO_CONCAT, pos + 2));
    assert HeaderSeptets(1) == 2;
    hide Unpacked, Decoded, Walk, HeaderSeptets;
  }

  function HeadlessText(body: Bytes, l: byte): Bytes {
    var s := Unpacked(body, l);
    Decoded(if |s| > 2 then s[2..] else [])
  }

  /** The scheme octet written for UCS-2 is read as 7-bit text. */
  lemma SchemeWritten()
    ensures Scheme(0x02) == DCS_GSM7
  {
  }

  lemma HeadlessDecodes(e: Envelope, l: byte, body: Bytes, data: Bytes)
    requires AddressesFit(e) && body != [] && body[0] == 0x00 && data == Framed(e, 0x41, 0x02, [l] + body)
    ensures Decoding(data) == Ok(HeadBack(e).(hasUdh := true, concat := NO_CONCAT, text := HeadlessText(body, l)))
  {
    hide *;
    SchemeWritten();
    FramedDecodes(e, 0x41, 0x02, [l] + body, data);
    NoHeaderSeen(data, |data| - |[l] + body|, l, body);
    HeadlessShown(e, l, body);
  }

  lemma HeadlessShown(e: Envelope, l: byte, body: Bytes)
    ensures
      var s := Unpacked(body, l);
      WithUserData(HeadBack(e), Some(UserData(Decoded(if |s| > 2 then s[2..] else []), true, NO_CONCAT)))
      == Ok(HeadBack(e).(hasUdh := true, concat := NO_CONCAT, text := HeadlessText(body, l)))
  {
    hide Unpacked, Decoded, HeadBack;
  }

  /** The user data of part i behind their length octet. */
  function Ucs2Body(e: Envelope, text: Bytes, i: nat): Bytes
    requires 67 * i < |text|
  {
    [0x00, 0x03, e.reference, (|text| + 66) / 67 % 256, (i + 1) % 256] + Ucs2Encoded(text[67 * i..Min(67 * i + 67, |text|)])
  }

  lemma Ucs2PartIsFramed(e: Envelope, text: Bytes, i: nat, hex: Bytes)
    requires IsUcs2Part(e, text, i, hex)
    ensures 67 * i < |text| && Ucs2Body(e, text, i) != [] && Ucs2Body(e, text, i)[0] == 0x00
    ensures hex == HexOf(Framed(e, 0x41, 0x02, [(|Ucs2Body(e, text, i)| + 1) % 256] + Ucs2Body(e, text, i)))
  {
    var u := Ucs2Encoded(text[67 * i..Min(67 * i + 67, |text|)]);
    var body := Ucs2Body(e, text, i);
    hide Ucs2Encoded, Octets, Framed, HexOf;
    assert [(|u| + 6) % 256] + body == [(|u| + 6) % 256, 0x00, 0x03, e.reference, (|text| + 66) / 67 % 256, (i + 1) % 256] + u;
    FramedOctets(e, 0x41, 0x02, [(|u| + 6) % 256] + body);
  }

  /** A part of a longer text in UCS-2 decodes to a message that no longer tells reference, total and
      position, and so is never taken for a part; what it shows are the septets that its header and its text
      pack, all but the first two. */
  lemma Ucs2PartStandsAlone(e: Envelope, text: Bytes, i: nat, hex: Bytes) returns (m: PduMessage)
    requires AddressesFit(e) && IsUcs2Part(e, text, i, hex)
    ensures Decoding(BytesOf(hex)) == Ok(m)
    ensures m.hasUdh && m.concat == UdhInfo(0, 0, 0)
    ensures
      && 67 * i < |text|
      && var s := Unpacked(Ucs2Body(e, text, i), (|Ucs2Body(e, text, i)| + 1) % 256);
      m.text == Decoded(if |s| > 2 then s[2..] else [])
    ensures m == HeadBack(e).(hasUdh := true, concat := m.concat, text := m.text)
  {
    Ucs2PartIsFramed(e, text, i, hex);
    var body := Ucs2Body(e, text, i);
    var l := (|body| + 1) % 256;
    m := HeadBack(e).(hasUdh := true, concat := NO_CONCAT, text := HeadlessText(body, l));
    hide IsUcs2Part, Ucs2Body, Unpacked, Decoded, Decoding, BytesOf, HexOf, Framed, HeadBack, AddressesFit;
    HexInverts(Framed(e, 0x41, 0x02, [l] + body));
    HeadlessDecodes(e, l, body, Framed(e, 0x41, 0x02, [l] + body));
  }
}
