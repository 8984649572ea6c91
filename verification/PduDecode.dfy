/** Decoding of SMS-DELIVER, SMS-SUBMIT and SMS-STATUS-REPORT PDUs. */
module PduDecode {
  import opened Wrappers
  import opened Bits
  import opened Septets
  import opened Utf8
  import opened Gsm7
  import opened Address
  import opened Udh
  import opened Pdu
  import opened Timestamp

  /** A decoded PDU. */
  datatype PduMessage = PduMessage(
    smsc: Bytes, number: Bytes, text: Bytes, reference: byte, status: byte, timestamp: Bytes,
    hasUdh: bool, concat: UdhInfo)

  const BLANK := PduMessage([], [], [], 0, 0, [], false, NO_CONCAT)

  /** Bits 3 and 2 of a data coding scheme in the general group, 7-bit text otherwise. */
  function Scheme(octet: byte): byte {
    if octet < 0x40 then octet / 4 % 4 else DCS_GSM7
  }

  /** The text of user data: `remaining` starts with the header, if any, and `afterHeader` behind it. */
  function TextOf(remaining: Bytes, afterHeader: Bytes, headerSeptets: nat, dcs: byte, userDataLen: byte): Bytes {
    if dcs == DCS_GSM7 then
      var septets := Unpacked(remaining, userDataLen);
      Decoded(if |septets| > headerSeptets then septets[headerSeptets..] else [])
    else if dcs == DCS_UCS2 then Ucs2Decoded(afterHeader)
    else remaining
  }

  datatype UserData = UserData(text: Bytes, hasUdh: bool, info: UdhInfo)

  /** The user data whose length octet is at pos, or None where the source would read past the end. */
  function UserDataAt(data: Bytes, pos: nat, dcs: byte, udhPresent: bool): Option<UserData> {
    if pos >= |data| then None
    else
      var remaining := data[pos + 1..];
      if !udhPresent then Some(UserData(TextOf(remaining, remaining, 0, dcs, data[pos]), false, NO_CONCAT))
      else if pos + 1 >= |data| then None
      else
        var udhLen: nat := data[pos + 1];
        match Walk(data, pos + 2, udhLen, 0, NO_CONCAT)
        case None => None
        case Some(w) =>
          Some(UserData(TextOf(remaining, data[w.next..], HeaderSeptets(udhLen + 1), dcs, data[pos]), true, w.info))
  }

  function WithUserData(m: PduMessage, u: Option<UserData>): Result<PduMessage, PduError> {
    if u.None? then Err(PastTheEnd)
    else Ok(m.(text := u.value.text, hasUdh := u.value.hasUdh, concat := u.value.info))
  }

  predicate UdhIndicated(first: byte) { first / 64 % 2 == 1 }

  function Deliver(data: Bytes, pos: nat, first: byte, smsc: Bytes): Result<PduMessage, PduError> {
    match ParsedAddress(data, pos, false)
    case None => Err(PastTheEnd)
    case Some(a) =>
      if a.next + 9 > |data| then Err(PastTheEnd)
      else
        match TimestampText(data[a.next + 2..a.next + 9])
        case None => Err(BadTimeZone)
        case Some(timestamp) =>
          WithUserData(BLANK.(smsc := smsc, number := a.number, timestamp := timestamp),
                       UserDataAt(data, a.next + 9, Scheme(data[a.next + 1]), UdhIndicated(first)))
  }

  /** Octets of the validity period, from bits 4 and 3 of the first octet. */
  function ValidityOctets(first: byte): nat {
    if first / 8 % 4 == 2 then 1 else if first / 8 % 4 == 3 then 7 else 0
  }

  function Submit(data: Bytes, pos: nat, first: byte, smsc: Bytes): Result<PduMessage, PduError> {
    if pos >= |data| then Err(PastTheEnd)
    else
      match ParsedAddress(data, pos + 1, false)
      case None => Err(PastTheEnd)
      case Some(a) =>
        if a.next + 2 > |data| then Err(PastTheEnd)
        else
          WithUserData(BLANK.(smsc := smsc, number := a.number, reference := data[pos]),
                       UserDataAt(data, a.next + 2 + ValidityOctets(first), Scheme(data[a.next + 1]), UdhIndicated(first)))
  }

  function StatusReport(data: Bytes, pos: nat, smsc: Bytes): Result<PduMessage, PduError> {
    if pos >= |data| then Err(PastTheEnd)
    else
      match ParsedAddress(data, pos + 1, false)
      case None => Err(PastTheEnd)
      case Some(a) =>
        if a.next + 7 > |data| then Err(PastTheEnd)
        else
          match TimestampText(data[a.next..a.next + 7])
          case None => Err(BadTimeZone)
          case Some(timestamp) =>
            Discharged(BLANK.(smsc := smsc, number := a.number, reference := data[pos], timestamp := timestamp), data, a.next + 7)
  }

  /** Behind its timestamp a status report holds the time of the discharge, which is read and dropped, and
      the status. */
  function Discharged(m: PduMessage, data: Bytes, pos: nat): Result<PduMessage, PduError> {
    if pos + 7 > |data| then Err(PastTheEnd)
    else if TimestampText(data[pos..pos + 7]).None? then Err(BadTimeZone)
    else if pos + 7 >= |data| then Err(PastTheEnd)
    else Ok(m.(status := data[pos + 7]))
  }

  function Decoding(data: Bytes): Result<PduMessage, PduError> {
    if data == [] then Err(EmptyPdu)
    else
      match ParsedAddress(data, 0, true)
      case None => Err(PastTheEnd)
      case Some(a) =>
        if a.next >= |data| then Err(PastTheEnd)
        else
          var first := data[a.next];
          match first % 4
          case 0 => Deliver(data, a.next + 1, first, a.number)
          case 1 => Submit(data, a.next + 1, first, a.number)
          case 2 => StatusReport(data, a.next + 1, a.number)
          case _ => Err(UnknownType(first % 4))
  }

  method ParseUserData(data: Bytes, pos: nat, dcs: byte, udhPresent: bool) returns (r: Option<UserData>)
    ensures r == UserDataAt(data, pos, dcs, udhPresent)
  {
    hide Walk, Unpacked, Decoded, Ucs2Decoded;
    if pos >= |data| {
      return None;
    }
    var userDataLen := data[pos];
    var it := pos + 1;
    var remaining := data[it..];
    var u := UserData([], udhPresent, NO_CONCAT);
    var udhSeptets := 0;
    if udhPresent {
      if it >= |data| {
        return None;
      }
      var udhLen := data[it];
      var walked := ParseUdh(data, it + 1, udhLen);
      if walked.None? {
        return None;
      }
      it := walked.value.next;
      u := u.(info := walked.value.info);
      udhSeptets := ((udhLen as int + 1) * 8 + 6) / 7;
    }
    if dcs == DCS_GSM7 {
      var septets := SeptetsUnpack(remaining, userDataLen);
      var textSeptets := if |septets| > udhSeptets then septets[udhSeptets..] else [];
      var text := Gsm7Decode(textSeptets);
      u := u.(text := text);
    } else if dcs == DCS_UCS2 {
      var text := Ucs2Decode(data[it..]);
      u := u.(text := text);
    } else {
      u := u.(text := remaining);
    }
    return Some(u);
  }

  method DecodeBytes(data: Bytes) returns (r: Result<PduMessage, PduError>)
    ensures r == Decoding(data)
  {
    hide ParsedAddress, UserDataAt, TimestampText;
    if data == [] {
      return Err(EmptyPdu);
    }
    var smscAddr := ParseAddressField(data, 0, true);
    if smscAddr.None? || smscAddr.value.next >= |data| {
      return Err(PastTheEnd);
    }
    var msg := BLANK.(smsc := smscAddr.value.number);
    var it := smscAddr.value.next;
    var tpduFirst := data[it];
    it := it + 1;
    if tpduFirst % 4 == 0 {
      r := DecodeDeliver(data, it, tpduFirst, msg);
    } else if tpduFirst % 4 == 1 {
      r := DecodeSubmit(data, it, tpduFirst, msg);
    } else if tpduFirst % 4 == 2 {
      r := DecodeStatusReport(data, it, msg);
    } else {
      r := Err(UnknownType(tpduFirst % 4));
    }
  }

  method DecodeDeliver(data: Bytes, pos: nat, tpduFirst: byte, blank: PduMessage) returns (r: Result<PduMessage, PduError>)
    requires blank == BLANK.(smsc := blank.smsc)
    ensures r == Deliver(data, pos, tpduFirst, blank.smsc)
  {
    hide ParsedAddress, UserDataAt, TimestampText;
    var sender := ParseAddressField(data, pos, false);
    if sender.None? {
      return Err(PastTheEnd);
    }
    var it := sender.value.next + 1;
    if it + 8 > |data| {
      return Err(PastTheEnd);
    }
    var dcs := Scheme(data[it]);
    var timestamp := ParseTimestamp(data, it + 1);
    if timestamp.None? {
      return Err(BadTimeZone);
    }
    var u := ParseUserData(data, it + 8, dcs, UdhIndicated(tpduFirst));
    return WithUserData(blank.(number := sender.value.number, timestamp := timestamp.value), u);
  }

  method DecodeSubmit(data: Bytes, pos: nat, tpduFirst: byte, blank: PduMessage) returns (r: Result<PduMessage, PduError>)
    requires blank == BLANK.(smsc := blank.smsc)
    ensures r == Submit(data, pos, tpduFirst, blank.smsc)
  {
    hide ParsedAddress, UserDataAt;
    if pos >= |data| {
      return Err(PastTheEnd);
    }
    var reference := data[pos];
    var destination := ParseAddressField(data, pos + 1, false);
    if destination.None? || destination.value.next + 1 >= |data| {
      return Err(PastTheEnd);
    }
    var it := destination.value.next + 1;
    var dcs := Scheme(data[it]);
    it := it + 1;
    var vpFormat := tpduFirst / 8 % 4;
    if vpFormat == 2 {
      it := it + 1;
    } else if vpFormat == 3 {
      it := it + 7;
    }
    var u := ParseUserData(data, it, dcs, UdhIndicated(tpduFirst));
    return WithUserData(blank.(number := destination.value.number, reference := reference), u);
  }

  method DecodeStatusReport(data: Bytes, pos: nat, blank: PduMessage) returns (r: Result<PduMessage, PduError>)
    requires blank == BLANK.(smsc := blank.smsc)
    ensures r == StatusReport(data, pos, blank.smsc)
  {
    hide ParsedAddress, TimestampText;
    if pos >= |data| {
      return Err(PastTheEnd);
    }
    var recipient := ParseAddressField(data, pos + 1, false);
    if recipient.None? || recipient.value.next + 7 > |data| {
      return Err(PastTheEnd);
    }
    var it := recipient.value.next;
    var timestamp := ParseTimestamp(data, it);
    if timestamp.None? {
      return Err(BadTimeZone);
    }
    it := it + 7;
    if it + 7 > |data| {
      return Err(PastTheEnd);
    }
    var discharge := ParseTimestamp(data, it);
    if discharge.None? {
      return Err(BadTimeZone);
    }
    it := it + 7;
    if it >= |data| {
      return Err(PastTheEnd);
    }
    return Ok(blank.(number := recipient.value.number, reference := data[pos], timestamp := timestamp.value, status := data[it]));
  }

  method Decode(pduHex: Bytes) returns (r: Result<PduMessage, PduError>)
    ensures r == Decoding(BytesOf(pduHex))
  {
    hide Decoding, BytesOf;
    var pduBytes := HexToBytes(pduHex);
    r := DecodeBytes(pduBytes);
  }
}
