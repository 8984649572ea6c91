/** SMS-SUBMIT encoding with splitting, and decoding of PDUs (section 9.2 of 3GPP TS 23.040). */
module Pdu {
  import opened Wrappers
  import opened Bits
  import opened Septets
  import opened Utf8
  import opened Gsm7
  import opened Address

  const DCS_GSM7: byte := 0x00
  const DCS_UCS2: byte := 0x02

  datatype PduError = EmptyNumber | EmptyText | InvalidCharacter | EmptyPdu | PastTheEnd | BadTimeZone | UnknownType(kind: byte)

  /** What is the same for all PDUs of one message. */
  datatype Envelope = Envelope(number: Bytes, reference: byte, smsc: Bytes)

  /** The fields of the concatenation header of one part. */
  datatype Concat = Concat(reference: byte, seqNo: byte, total: byte)

  // ---------------------------------------------------------------- encoding one PDU

  function SmscOctets(smsc: Bytes): Bytes {
    if smsc == [] then [0] else FieldOctets(smsc, true)
  }

  function ConcatElement(c: Concat): Bytes { [0x00, 0x03, c.reference, c.total, c.seqNo] }

  /** The header with its length octet. */
  function ConcatHeader(c: Concat): Bytes { [5] + ConcatElement(c) }

  /** The user data length octet and what follows it, or None where a character cannot be encoded.
      Only the 7-bit form writes the length octet of its header. */
  function UserDataOctets(text: Bytes, dcs: byte, concat: Option<Concat>): Option<Bytes> {
    if dcs == DCS_GSM7 then
      match Encoded(text, false)
      case None => None
      case Some(s) =>
        match concat
        case None => Some([|s| % 256] + Packed(s, 0))
        case Some(c) => Some([(|s| + 7) % 256] + (ConcatHeader(c) + Packed(s, 6)))
    else
      var u := Ucs2Encoded(text);
      match concat
      case None => Some([|u| % 256] + u)
      case Some(c) => Some([(|u| + 6) % 256] + (ConcatElement(c) + u))
  }

  function FirstOctet(concat: Option<Concat>): byte { if concat.Some? then 0x41 else 0x01 }

  function Framed(e: Envelope, first: byte, dcs: byte, userData: Bytes): Bytes {
    SmscOctets(e.smsc) + [first, e.reference] + FieldOctets(e.number, false) + [0x00, dcs] + userData
  }

  function SubmitPdu(e: Envelope, text: Bytes, dcs: byte, concat: Option<Concat>): Option<Bytes> {
    match UserDataOctets(text, dcs, concat)
    case None => None
    case Some(u) => Some(Framed(e, FirstOctet(concat), dcs, u))
  }

  method EncodeUserData(text: Bytes, dcs: byte, concat: Option<Concat>) returns (r: Option<Bytes>)
    ensures r == UserDataOctets(text, dcs, concat)
  {
    hide Encoded, Packed, Ucs2Encoded;
    var userData: Bytes;
    var userDataLength: nat;
    if dcs == DCS_GSM7 {
      var septets := Gsm7Encode(text);
      if septets.None? {
        return None;
      }
      userDataLength := |septets.value|;
      if concat.Some? {
        var udh := [0x00, 0x03, concat.value.reference, concat.value.total, concat.value.seqNo];
        var shift := (|udh| + 1) * 8 % 7;
        userData := SeptetsPack(septets.value, shift);
        if shift > 0 {
          userDataLength := userDataLength + 1;
        }
        userDataLength := userDataLength + |udh| + 1;
        return Some([userDataLength % 256] + ([|udh|] + udh + userData));
      }
      userData := SeptetsPack(septets.value);
    } else {
      userData := Ucs2Encode(text);
      userDataLength := |userData|;
      if concat.Some? {
        var udh := [0x00, 0x03, concat.value.reference, concat.value.total, concat.value.seqNo];
        userData := udh + userData;
        userDataLength := userDataLength + |udh| + 1;
      }
    }
    return Some([userDataLength % 256] + userData);
  }

  method EncodeSubmitPdu(e: Envelope, text: Bytes, dcs: byte, concat: Option<Concat>) returns (r: Option<Bytes>)
    ensures r == SubmitPdu(e, text, dcs, concat)
  {
    hide UserDataOctets, Built;
    var pdu: Bytes := [];
    if e.smsc == [] {
      pdu := pdu + [0x00];
    } else {
      var smscField := BuildAddressField(e.smsc, true);
      pdu := pdu + [smscField.length, smscField.kind] + smscField.encoded;
    }
    assert pdu == SmscOctets(e.smsc);
    pdu := pdu + [if concat.Some? then 0x41 else 0x01, e.reference];
    var dest := BuildAddressField(e.number, false);
    pdu := pdu + ([dest.length, dest.kind] + dest.encoded);
    pdu := pdu + [0x00, dcs];
    var userData := EncodeUserData(text, dcs, concat);
    if userData.None? {
      return None;
    }
    return Some(pdu + userData.value);
  }

  // ---------------------------------------------------------------- encoding a message

  /** Octets of text in one PDU, and in one PDU of several. */
  function MaxAlone(dcs: byte): nat { if dcs == DCS_GSM7 then 160 else 70 }

  function MaxInPart(dcs: byte): nat { if dcs == DCS_GSM7 then 153 else 67 }

  /** part * MaxInPart(dcs) */
  function PartStart(dcs: byte, part: nat): nat { if dcs == DCS_GSM7 then 153 * part else 67 * part }

  function PartCount(dcs: byte, len: nat): nat { if dcs == DCS_GSM7 then (len + 152) / 153 else (len + 66) / 67 }

  function PartText(text: Bytes, dcs: byte, part: nat): Bytes
    requires PartStart(dcs, part) <= |text|
  {
    text[PartStart(dcs, part)..Min(PartStart(dcs, part + 1), |text|)]
  }

  function PartConcat(e: Envelope, part: nat, total: nat): Concat {
    Concat(e.reference, (part + 1) % 256, total % 256)
  }

  /** The hexadecimal PDUs of the parts from `part` on; None where a part cannot be encoded. */
  function PartPdus(e: Envelope, text: Bytes, dcs: byte, part: nat): Option<seq<Bytes>>
    decreases |text| - PartStart(dcs, part)
  {
    if PartStart(dcs, part) >= |text| then Some([])
    else
      match SubmitPdu(e, PartText(text, dcs, part), dcs, Some(PartConcat(e, part, PartCount(dcs, |text|))))
      case None => None
      case Some(pdu) =>
        match PartPdus(e, text, dcs, part + 1)
        case None => None
        case Some(rest) => Some([HexOf(pdu)] + rest)
  }

  function SchemeFor(text: Bytes): byte { if Encoded(text, false).Some? then DCS_GSM7 else DCS_UCS2 }

  function OrError<T>(r: Option<T>, error: PduError): Result<T, PduError> {
    if r.None? then Err(error) else Ok(r.value)
  }

  function Submitted(e: Envelope, text: Bytes): Result<seq<Bytes>, PduError> {
    var dcs := SchemeFor(text);
    if e.number == [] then Err(EmptyNumber)
    else if text == [] then Err(EmptyText)
    else if |text| > MaxAlone(dcs) then OrError(PartPdus(e, text, dcs, 0), InvalidCharacter)
    else
      match SubmitPdu(e, text, dcs, None)
      case None => Err(InvalidCharacter)
      case Some(pdu) => Ok([HexOf(pdu)])
  }

  lemma PartPdusStep(e: Envelope, text: Bytes, dcs: byte, part: nat, pdus: seq<Bytes>)
    requires PartStart(dcs, part) < |text|
    ensures
      match SubmitPdu(e, PartText(text, dcs, part), dcs, Some(PartConcat(e, part, PartCount(dcs, |text|))))
      case None => After(pdus, PartPdus(e, text, dcs, part)) == None
      case Some(pdu) => (After(pdus, PartPdus(e, text, dcs, part))
                         == After(pdus + [HexOf(pdu)], PartPdus(e, text, dcs, part + 1)))
  {
    hide SubmitPdu, PartText, PartStart, PartCount;
    var pdu := SubmitPdu(e, PartText(text, dcs, part), dcs, Some(PartConcat(e, part, PartCount(dcs, |text|))));
    var rest := PartPdus(e, text, dcs, part + 1);
    if pdu.Some? && rest.Some? {
      assert pdus + ([HexOf(pdu.value)] + rest.value) == pdus + [HexOf(pdu.value)] + rest.value;
    }
  }

  function After(pdus: seq<Bytes>, rest: Option<seq<Bytes>>): Option<seq<Bytes>> {
    if rest.None? then None else Some(pdus + rest.value)
  }

  lemma PartBounds(dcs: byte, len: nat, part: nat)
    ensures part < PartCount(dcs, len) <==> PartStart(dcs, part) < len
    ensures PartStart(dcs, part + 1) == PartStart(dcs, part) + MaxInPart(dcs)
  {
  }

  function CeilDiv(a: nat, b: nat): nat
    requires b > 0
  {
    (a + b - 1) / b
  }

  lemma PartsAreCeilDiv(dcs: byte, len: nat)
    ensures MaxInPart(dcs) > 0 && CeilDiv(len, MaxInPart(dcs)) == PartCount(dcs, len)
  {
    if dcs == DCS_GSM7 {
      assert CeilDiv(len, 153) == (len + 152) / 153;
    } else {
      assert CeilDiv(len, 67) == (len + 66) / 67;
    }
  }

  lemma PartTextIs(text: Bytes, dcs: byte, part: nat, len: int)
    requires PartStart(dcs, part) < |text| && len == Min(MaxInPart(dcs), |text| - PartStart(dcs, part))
    ensures 0 <= len <= |text| - PartStart(dcs, part)
    ensures text[PartStart(dcs, part)..PartStart(dcs, part) + len] == PartText(text, dcs, part)
  {
  }

  method EncodeParts(e: Envelope, text: Bytes, dcs: byte) returns (r: Option<seq<Bytes>>)
    requires dcs == DCS_GSM7 || dcs == DCS_UCS2
    ensures r == PartPdus(e, text, dcs, 0)
  {
    hide *;
    PartsAreCeilDiv(dcs, |text|);
    var withUdhMax := MaxInPart(dcs);
    var totalParts := CeilDiv(|text|, withUdhMax);
    var pdus := [];
    var part := 0;
    StartsWith(PartPdus(e, text, dcs, 0));
    while part < totalParts
      invariant 0 <= part <= totalParts
      invariant After(pdus, PartPdus(e, text, dcs, part)) == PartPdus(e, text, dcs, 0)
    {
      PartBounds(dcs, |text|, part);
      var start := PartStart(dcs, part);
      var len := Min(withUdhMax, |text| - start);
      PartTextIs(text, dcs, part, len);
      var partText := text[start..start + len];
      PartPdusStep(e, text, dcs, part, pdus);
      var pdu := EncodeSubmitPdu(e, partText, dcs, Some(PartConcat(e, part, totalParts)));
      if pdu.None? {
        return None;
      }
      var hex := BytesToHex(pdu.value);
      pdus := pdus + [hex];
      part := part + 1;
    }
    PartBounds(dcs, |text|, part);
    EndsWith(e, text, dcs, part, pdus);
    return Some(pdus);
  }

  lemma StartsWith(rest: Option<seq<Bytes>>)
    ensures After([], rest) == rest
  {
    if rest.Some? { assert [] + rest.value == rest.value; }
  }

  lemma EndsWith(e: Envelope, text: Bytes, dcs: byte, part: nat, pdus: seq<Bytes>)
    requires PartStart(dcs, part) >= |text|
    ensures After(pdus, PartPdus(e, text, dcs, part)) == Some(pdus)
  {
    assert pdus + [] == pdus;
  }

  method EncodeSubmit(number: Bytes, text: Bytes, reference: byte := 0, smsc: Bytes := [])
    returns (r: Result<seq<Bytes>, PduError>)
    ensures r == Submitted(Envelope(number, reference, smsc), text)
  {
    hide Encoded, SubmitPdu, PartPdus;
    if number == [] {
      return Err(EmptyNumber);
    }
    if text == [] {
      return Err(EmptyText);
    }
    var dcs, maxLen := DCS_GSM7, 160;
    var trial := Gsm7Encode(text);
    if trial.None? {
      dcs, maxLen := DCS_UCS2, 70;
    }
    var e := Envelope(number, reference, smsc);
    if |text| > maxLen {
      var pdus := EncodeParts(e, text, dcs);
      return if pdus.None? then Err(InvalidCharacter) else Ok(pdus.value);
    }
    var pdu := EncodeSubmitPdu(e, text, dcs, None);
    if pdu.None? {
      return Err(InvalidCharacter);
    }
    var hex := BytesToHex(pdu.value);
    return Ok([hex]);
  }
}
