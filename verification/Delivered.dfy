/** What decoding gives of the messages that the network delivers. */
module Delivered {
  import opened Wrappers
  import opened Bits
  import opened Septets
  import opened Utf8
  import opened Gsm7
  import opened Gsm7Text
  import opened Address
  import opened Udh
  import opened Pdu
  import opened Timestamp
  import opened PduDecode
  import opened PduRoundTrip

  /** What a DELIVER PDU says before its user data (section 9.2.2.1 of 3GPP TS 23.040): the address fields of
      its SMSC and its sender, of any type, and when it was sent. */
  datatype Delivery = Delivery(smsc: Bytes, sender: Bytes, first: byte, protocol: byte, dcs: byte, at: Moment)

  predicate IsDelivery(d: Delivery) {
    IsField(d.smsc, true) && IsField(d.sender, false) && d.first % 4 == 0 && IsMoment(d.at)
  }

  function DeliverOctets(d: Delivery, userData: Bytes): Bytes
    requires IsDelivery(d)
  {
    d.smsc + [d.first] + d.sender + ([d.protocol, d.dcs] + (Written(d.at) + userData))
  }

  lemma DeliveryIs(d: Delivery)
    requires IsDelivery(d)
    ensures IsField(d.smsc, true) && IsField(d.sender, false) && d.first % 4 == 0 && IsMoment(d.at)
  {
    hide IsField, IsMoment;
  }

  lemma OctetsAre(d: Delivery, u: Bytes)
    requires IsDelivery(d)
    ensures DeliverOctets(d, u)
         == d.smsc + [d.first] + d.sender + ([d.protocol, d.dcs] + (Written(d.at) + u))
  {
    hide Written, IsField, IsMoment;
  }

  /** Both address fields of a PDU are read, wherever it goes on. */
  lemma HeadRead(smsc: Bytes, b: Bytes, number: Bytes, rest: Bytes, data: Bytes)
    requires IsField(number, false) && IsField(smsc, true) && b != []
    requires data == smsc + b + number + rest
    ensures
      var q := |smsc| + |b| + |number|;
      && |smsc| + |b| <= q <= |data| && data[|smsc|..|smsc| + |b|] == b && data[|smsc|] == b[0] && data[q..] == rest
      && ParsedAddress(data, 0, true) == Some(Parsed(FieldNumber(smsc), |smsc|))
      && ParsedAddress(data, |smsc| + |b|, false) == Some(Parsed(FieldNumber(number), q))
  {
    hide *;
    var none: Bytes := [];
    Spread(smsc, b, number, rest, data);
    assert data == none + smsc + (b + number + rest);
    FieldRead(smsc, true, none, b + number + rest);
    FieldRead(number, false, smsc + b, rest);
  }

  lemma Spread(a: Bytes, b: Bytes, c: Bytes, rest: Bytes, data: Bytes)
    requires data == a + b + c + rest && b != []
    ensures data == a + (b + c + rest) && data == (a + b) + c + rest && |a + b| == |a| + |b|
    ensures data[|a|..|a| + |b|] == b && data[|a|] == b[0] && data[|a| + |b| + |c|..] == rest
  {
    assert data[|a|..|a| + |b|] == b;
    assert data[|a|] == data[|a|..|a| + |b|][0];
  }

  lemma SevenAhead(data: Bytes, at: nat, stamp: Bytes, u: Bytes)
    requires at <= |data| && data[at..] == stamp + u && |stamp| == 7
    ensures |data| == at + 7 + |u| && data[at..at + 7] == stamp && data[at + 7..] == u
  {
    assert data[at..at + 7] == data[at..][..7];
    assert data[at + 7..] == data[at..][7..];
  }

  /** A delivered message, behind its time stamp. */
  function DeliveryBack(d: Delivery, timestamp: Bytes): PduMessage {
    BLANK.(smsc := FieldNumber(d.smsc), number := FieldNumber(d.sender), timestamp := timestamp)
  }

  lemma Behind(data: Bytes, d: Delivery, p: nat, q: nat, timestamp: Option<Bytes>)
    requires d.first % 4 == 0
    requires ParsedAddress(data, 0, true) == Some(Parsed(FieldNumber(d.smsc), p)) && p < |data| && data[p] == d.first
    requires ParsedAddress(data, p + 1, false) == Some(Parsed(FieldNumber(d.sender), q))
    requires q + 9 <= |data| && data[q + 1] == d.dcs && TimestampText(data[q + 2..q + 9]) == timestamp
    ensures timestamp.None? ==> Decoding(data) == Err(BadTimeZone)
    ensures timestamp.Some? ==>
              Decoding(data) == WithUserData(DeliveryBack(d, timestamp.value),
                                             UserDataAt(data, q + 9, Scheme(d.dcs), UdhIndicated(d.first)))
  {
    hide ParsedAddress, UserDataAt, FieldNumber, Scheme, WithUserData, TimestampText, UdhIndicated;
    assert data != [];
    assert Decoding(data) == Deliver(data, p + 1, d.first, FieldNumber(d.smsc));
  }

  /** A delivered message of any user data is refused if its time stamp is, and keeps its fields if not. */
  lemma DeliveryDecodes(d: Delivery, u: Bytes, data: Bytes)
    requires IsDelivery(d) && data == DeliverOctets(d, u)
    ensures |u| <= |data| && data[|data| - |u|..] == u
    ensures
      var timestamp := TimestampText(Written(d.at));
      && (timestamp.None? ==> Decoding(data) == Err(BadTimeZone))
      && (timestamp.Some? ==>
            Decoding(data) == WithUserData(DeliveryBack(d, timestamp.value),
                                           UserDataAt(data, |data| - |u|, Scheme(d.dcs), UdhIndicated(d.first))))
  {
    hide *;
    DeliveryIs(d);
    OctetsAre(d, u);
    var p := |d.smsc|;
    var q := p + 1 + |d.sender|;
    var tail := Written(d.at) + u;
    HeadRead(d.smsc, [d.first], d.sender, [d.protocol, d.dcs] + tail, data);
    TwoAhead(data, q, d.protocol, d.dcs, tail);
    SevenAhead(data, q + 2, Written(d.at), u);
    Behind(data, d, p, q, TimestampText(Written(d.at)));
  }

  lemma SomeAhead(data: Bytes, at: nat, a: Bytes, u: Bytes)
    requires at <= |data| && data[at..] == a + u
    ensures |data| == at + |a| + |u| && data[at + |a|..] == u
  {
    assert data[at + |a|..] == data[at..][|a|..];
  }

  lemma TwoAhead(data: Bytes, at: nat, x: byte, y: byte, rest: Bytes)
    requires at <= |data| && data[at..] == [x, y] + rest
    ensures at + 2 <= |data| && data[at] == x && data[at + 1] == y && data[at + 2..] == rest
  {
    assert data[at] == data[at..][0] && data[at + 1] == data[at..][1];
    assert data[at + 2..] == data[at..][2..];
  }

  /** What a delivered message is decoded to: it is refused exactly if it was sent from five hours or more
      to the west; otherwise its numbers come back as address fields give them back, its time exactly if
      its zone is less than ten quarters of an hour away, with this text and these concatenation fields. */
  predicate Reads(r: Result<PduMessage, PduError>, d: Delivery, text: Bytes, hasUdh: bool, concat: UdhInfo)
    requires IsMoment(d.at)
  {
    if d.at.west && d.at.quarters >= 20 then r == Err(BadTimeZone)
    else
      && r.Ok?
      && r.value == PduMessage(FieldNumber(d.smsc), FieldNumber(d.sender), text, 0, 0, r.value.timestamp, hasUdh, concat)
      && (r.value.timestamp == Right(d.at) <==> d.at.quarters < 10)
  }

  lemma DeliveredAs(d: Delivery, u: Bytes, data: Bytes, x: UserData)
    requires IsDelivery(d) && data == DeliverOctets(d, u) && |u| <= |data|
    requires UserDataAt(data, |data| - |u|, Scheme(d.dcs), d.first / 64 % 2 == 1) == Some(x)
    ensures Reads(Decoding(data), d, x.text, x.hasUdh, x.info)
  {
    DeliveryIs(d);
    assert UdhIndicated(d.first) <==> d.first / 64 % 2 == 1;
    hide DeliverOctets, Decoding, UserDataAt, TimestampText, Scheme, FieldNumber, Right, Written, IsDelivery,
         UdhIndicated, IsMoment;
    DeliveryDecodes(d, u, data);
    ZoneShownExactly(d.at);
  }

  // ---------------------------------------------------------------- 7-bit text

  /** Bits 7 to 2 of the scheme octet tell the alphabet: 7-bit text outside the general group or for 00,
      octets for 01, UCS-2 for 10; 11 is taken as octets too. */
  lemma SchemeExactly(octet: byte)
    ensures Scheme(octet) == 0 <==> octet >= 0x40 || octet / 4 % 4 == 0
    ensures Scheme(octet) == 2 <==> octet < 0x40 && octet / 4 % 4 == 2
    ensures DCS_GSM7 == 0 && DCS_UCS2 == 2
  {
  }

  /** User data without a header, of any alphabet. */
  lemma PlainDelivery(d: Delivery, l: byte, p: Bytes)
    requires IsDelivery(d) && d.first / 64 % 2 == 0
    ensures Reads(Decoding(DeliverOctets(d, [l] + p)), d, TextOf(p, p, 0, Scheme(d.dcs), l), false, UdhInfo(0, 0, 0))
  {
    NoConcat();
    hide *;
    var data := DeliverOctets(d, [l] + p);
    DeliveryDecodes(d, [l] + p, data);
    AloneUserData(data, |data| - |[l] + p|, Scheme(d.dcs), l, p);
    DeliveredAs(d, [l] + p, data, UserData(TextOf(p, p, 0, Scheme(d.dcs), l), false, UdhInfo(0, 0, 0)));
  }

  lemma NoConcat()
    ensures NO_CONCAT == UdhInfo(0, 0, 0)
  {
  }

  /** User data behind a header of n octets that the walk reads to its end. */
  lemma HeadedDelivery(d: Delivery, l: byte, n: byte, es: seq<Element>, p: Bytes, u: Bytes)
    requires IsDelivery(d) && d.first / 64 % 2 == 1 && WellSized(es) && |HeaderOctets(es)| == n
    requires u == [l, n] + (HeaderOctets(es) + p)
    ensures Reads(Decoding(DeliverOctets(d, u)), d,
                  TextOf([n] + (HeaderOctets(es) + p), p, HeaderSeptets(n as nat + 1), Scheme(d.dcs), l), true, LastConcat(es))
  {
    hide *;
    var data := DeliverOctets(d, u);
    DeliveryDecodes(d, u, data);
    HeadedUserData(data, |data| - |u|, Scheme(d.dcs), l, n, es, p);
    DeliveredAs(d, u, data, UserData(TextOf([n] + (HeaderOctets(es) + p), p, HeaderSeptets(n as nat + 1), Scheme(d.dcs), l),
                                     true, LastConcat(es)));
  }

  /** A message in one part that the network delivers in 7-bit text: its text comes back exactly if it has
      at most 256 septets, survives coding and loses no zero septet. */
  lemma DeliveredText(d: Delivery, text: Bytes, s: seq<septet>) returns (shown: Bytes)
    requires IsDelivery(d) && d.first / 64 % 2 == 0 && (d.dcs >= 0x40 || d.dcs / 4 % 4 == 0)
    requires text != [] && |text| <= 160 && Encoded(text, false) == Some(s)
    ensures Reads(Decoding(DeliverOctets(d, [|s| % 256] + Packed(s, 0))), d, shown, false, UdhInfo(0, 0, 0))
    ensures shown == text <==> |s| <= 256 && Survives(text) && NothingDropped(s)
  {
    hide *;
    var l, p, none := |s| % 256, Packed(s, 0), [];
    SchemeExactly(d.dcs);
    PlainDelivery(d, l, p);
    shown := TextOf(p, p, 0, Scheme(d.dcs), l);
    TextAlone(s, p, l);
    NoLead(none, s);
    TextBackExactly(none, text, s);
    ComesBackIs(none, text, s);
  }

  lemma TextAlone(s: seq<septet>, p: Bytes, l: byte)
    requires p == Packed(s, 0) && l == |s| % 256
    ensures TextOf(p, p, 0, 0, l) == GsmTextBack([], s)
  {
    GsmTextAlone(s);
    hide TextOf, GsmTextBack, Packed;
  }

  /** One part of several: its text comes back under the same condition, its header counted in; and it
      tells its reference, the number of parts and its own. */
  lemma DeliveredPart(d: Delivery, c: Concat, text: Bytes, s: seq<septet>) returns (shown: Bytes)
    requires IsDelivery(d) && d.first / 64 % 2 == 1 && (d.dcs >= 0x40 || d.dcs / 4 % 4 == 0)
    requires text != [] && |text| <= 160 && Encoded(text, false) == Some(s)
    ensures
      var u := [(|s| + 7) % 256] + ([5, 0, 3, c.reference, c.total, c.seqNo] + Packed(s, 6));
      Reads(Decoding(DeliverOctets(d, u)), d, shown, true, UdhInfo(c.reference, c.total, c.seqNo))
    ensures shown == text <==>
              |s| <= 249 && Survives(text) && NothingDropped(Lead([5, 0, 3, c.reference, c.total, c.seqNo]) + s)
  {
    hide *;
    var l, p, header := (|s| + 7) % 256, Packed(s, 6), ConcatHeader(c);
    ConcatHeaderIs(c);
    SchemeExactly(d.dcs);
    PartDelivery(d, l, c, p);
    shown := TextOf(header + p, p, 7, Scheme(d.dcs), l);
    PartTextIs(c, s, l);
    TextBackExactly(header, text, s);
    ComesBackIs(header, text, s);
  }

  lemma ConcatHeaderIs(c: Concat)
    ensures ConcatHeader(c) == [5, 0, 3, c.reference, c.total, c.seqNo]
  {
  }

  lemma PartDelivery(d: Delivery, l: byte, c: Concat, p: Bytes)
    requires IsDelivery(d) && d.first / 64 % 2 == 1
    ensures Reads(Decoding(DeliverOctets(d, [l] + (ConcatHeader(c) + p))), d,
                  TextOf(ConcatHeader(c) + p, p, 7, Scheme(d.dcs), l), true, UdhInfo(c.reference, c.total, c.seqNo))
  {
    hide *;
    var u := [l] + (ConcatHeader(c) + p);
    var data := DeliverOctets(d, u);
    DeliveryDecodes(d, u, data);
    PartUserData(data, |data| - |u|, Scheme(d.dcs), l, c, p);
    DeliveredAs(d, u, data, UserData(TextOf(ConcatHeader(c) + p, p, 7, Scheme(d.dcs), l), true,
                                     UdhInfo(c.reference, c.total, c.seqNo)));
  }

  lemma PartTextIs(c: Concat, s: seq<septet>, l: byte)
    requires l == (|s| + 7) % 256
    ensures |ConcatHeader(c)| == 6 && |Lead(ConcatHeader(c))| == 7
    ensures TextOf(ConcatHeader(c) + Packed(s, 6), Packed(s, 6), 7, 0, l) == GsmTextBack(ConcatHeader(c), s)
  {
    GsmTextInPart(c, s);
    hide TextOf, GsmTextBack, Packed, ConcatHeader, Lead;
  }

  // ---------------------------------------------------------------- UCS-2 and octets

  /** User data behind a header of any elements. */
  lemma HeadedUserData(data: Bytes, pos: nat, dcs: byte, l: byte, n: byte, es: seq<Element>, p: Bytes)
    requires WellSized(es) && |HeaderOctets(es)| == n
    requires pos <= |data| && data[pos..] == [l, n] + (HeaderOctets(es) + p)
    ensures UserDataAt(data, pos, dcs, true)
         == Some(UserData(TextOf([n] + (HeaderOctets(es) + p), p, HeaderSeptets(n as nat + 1), dcs, l), true, LastConcat(es)))
  {
    var h := HeaderOctets(es);
    hide TextOf, Walk, HeaderOctets, LastConcat, HeaderSeptets, WellSized;
    HeadAt(data, pos, l, n, h, p);
    WalkReportsLastConcat(data[..pos + 2], es, p);
  }

  lemma HeadAt(data: Bytes, pos: nat, l: byte, n: byte, h: Bytes, p: Bytes)
    requires |h| == n && pos <= |data| && data[pos..] == [l, n] + (h + p)
    ensures pos + 1 < |data| && data[pos] == l && data[pos + 1] == n
    ensures data[pos + 1..] == [n] + (h + p) && pos + 2 + |h| <= |data| && data[pos + 2 + |h|..] == p
    ensures data == data[..pos + 2] + h + p && |data[..pos + 2]| == pos + 2
  {
    var tail := data[pos..];
    BehindTwo(tail, l, n, h, p);
    assert data[pos] == tail[0] && data[pos + 1] == tail[1];
    assert data[pos + 1..] == tail[1..] && data[pos + 2..] == tail[2..] && data[pos + 2 + |h|..] == tail[2 + |h|..];
    assert data == data[..pos + 2] + data[pos + 2..];
    Reassociate(data[..pos + 2], h, p);
  }

  lemma BehindTwo(tail: Bytes, l: byte, n: byte, h: Bytes, p: Bytes)
    requires tail == [l, n] + (h + p)
    ensures |tail| == 2 + |h| + |p| && tail[0] == l && tail[1] == n
    ensures tail[1..] == [n] + (h + p) && tail[2..] == h + p && tail[2 + |h|..] == p
  {
  }

  lemma Reassociate(a: Bytes, h: Bytes, p: Bytes)
    ensures a + (h + p) == a + h + p
  {
  }

  /** A delivered UCS-2 message, whatever its length octet: its text is exactly the text that was written,
      if that is UTF-8 in shortest form of code points below 0x10000. */
  lemma DeliveredUcs2(d: Delivery, l: byte, text: Bytes) returns (shown: Bytes)
    requires IsDelivery(d) && d.first / 64 % 2 == 0 && d.dcs < 0x40 && d.dcs / 4 % 4 == 2
    ensures Reads(Decoding(DeliverOctets(d, [l] + Ucs2Encoded(text))), d, shown, false, UdhInfo(0, 0, 0))
    ensures shown == text <==> IsShortestForm(text)
  {
    hide *;
    var p := Ucs2Encoded(text);
    SchemeExactly(d.dcs);
    PlainDelivery(d, l, p);
    shown := TextOf(p, p, 0, Scheme(d.dcs), l);
    Ucs2Shown(p, p, 0, l);
    DecodeInvertsEncodeExactly(text);
  }

  lemma Ucs2Shown(remaining: Bytes, p: Bytes, headerSeptets: nat, l: byte)
    ensures TextOf(remaining, p, headerSeptets, 2, l) == Ucs2Decoded(p)
  {
    hide Ucs2Decoded;
  }

  /** The same behind a header of any elements: no octet of it shows in the text, and the concatenation
      fields are those of its last concatenation element. */
  lemma DeliveredUcs2Part(d: Delivery, l: byte, n: byte, es: seq<Element>, text: Bytes) returns (shown: Bytes)
    requires IsDelivery(d) && d.first / 64 % 2 == 1 && d.dcs < 0x40 && d.dcs / 4 % 4 == 2
    requires WellSized(es) && |HeaderOctets(es)| == n
    ensures Reads(Decoding(DeliverOctets(d, [l, n] + (HeaderOctets(es) + Ucs2Encoded(text)))), d, shown, true, LastConcat(es))
    ensures shown == text <==> IsShortestForm(text)
  {
    hide *;
    var p := Ucs2Encoded(text);
    var all := [n] + (HeaderOctets(es) + p);
    SchemeExactly(d.dcs);
    HeadedDelivery(d, l, n, es, p, [l, n] + (HeaderOctets(es) + p));
    shown := TextOf(all, p, HeaderSeptets(n as nat + 1), Scheme(d.dcs), l);
    Ucs2Shown(all, p, HeaderSeptets(n as nat + 1), l);
    DecodeInvertsEncodeExactly(text);
  }

  /** One part of several in UCS-2, octet by octet. */
  lemma DeliveredUcs2Concat(d: Delivery, l: byte, reference: byte, total: byte, seqNo: byte, text: Bytes) returns (shown: Bytes)
    requires IsDelivery(d) && d.first / 64 % 2 == 1 && d.dcs < 0x40 && d.dcs / 4 % 4 == 2
    ensures
      var u := [l, 5, 0, 3, reference, total, seqNo] + Ucs2Encoded(text);
      Reads(Decoding(DeliverOctets(d, u)), d, shown, true, UdhInfo(reference, total, seqNo))
    ensures shown == text <==> IsShortestForm(text)
  {
    hide *;
    var es := [Element(0, [reference, total, seqNo])];
    ConcatElementIs(es, reference, total, seqNo);
    SevenOctets(l, reference, total, seqNo, HeaderOctets(es), Ucs2Encoded(text));
    shown := DeliveredUcs2Part(d, l, 5, es, text);
  }

  lemma SevenOctets(l: byte, reference: byte, total: byte, seqNo: byte, h: Bytes, p: Bytes)
    requires h == [0, 3, reference, total, seqNo]
    ensures [l, 5, 0, 3, reference, total, seqNo] + p == [l, 5] + (h + p)
  {
  }

  lemma ConcatElementIs(es: seq<Element>, reference: byte, total: byte, seqNo: byte)
    requires es == [Element(0, [reference, total, seqNo])]
    ensures WellSized(es) && HeaderOctets(es) == [0, 3, reference, total, seqNo]
    ensures LastConcat(es) == UdhInfo(reference, total, seqNo)
  {
    assert es[1..] == [] && HeaderOctets(es[1..]) == [];
  }

  /** Delivered octets are shown as they are ... */
  lemma DeliveredOctets(d: Delivery, l: byte, p: Bytes)
    requires IsDelivery(d) && d.first / 64 % 2 == 0 && d.dcs < 0x40 && (d.dcs / 4 % 4 == 1 || d.dcs / 4 % 4 == 3)
    ensures Reads(Decoding(DeliverOctets(d, [l] + p)), d, p, false, UdhInfo(0, 0, 0))
  {
    hide *;
    SchemeExactly(d.dcs);
    PlainDelivery(d, l, p);
    OctetsShown(p, p, 0, Scheme(d.dcs), l);
  }

  /** ... and behind a header, the header is shown in front of them, with its length octet. */
  lemma DeliveredOctetsPart(d: Delivery, l: byte, n: byte, es: seq<Element>, p: Bytes)
    requires IsDelivery(d) && d.first / 64 % 2 == 1 && d.dcs < 0x40 && (d.dcs / 4 % 4 == 1 || d.dcs / 4 % 4 == 3)
    requires WellSized(es) && |HeaderOctets(es)| == n
    ensures Reads(Decoding(DeliverOctets(d, [l, n] + (HeaderOctets(es) + p))), d, [n] + (HeaderOctets(es) + p), true, LastConcat(es))
  {
    hide *;
    var all := [n] + (HeaderOctets(es) + p);
    SchemeExactly(d.dcs);
    HeadedDelivery(d, l, n, es, p, [l, n] + (HeaderOctets(es) + p));
    OctetsShown(all, p, HeaderSeptets(n as nat + 1), Scheme(d.dcs), l);
  }

  lemma OctetsShown(remaining: Bytes, p: Bytes, headerSeptets: nat, dcs: byte, l: byte)
    requires dcs != 0 && dcs != 2
    ensures TextOf(remaining, p, headerSeptets, dcs, l) == remaining
  {
  }

  // ---------------------------------------------------------------- 7-bit text behind any header

  /** 7-bit text behind a header of any elements, 16-bit concatenation among them, within 256 septets: if
      none is dropped, the text comes back exactly if it survives coding. */
  lemma DeliveredTextBehind(d: Delivery, n: byte, es: seq<Element>, text: Bytes, s: seq<septet>) returns (shown: Bytes)
    requires IsDelivery(d) && d.first / 64 % 2 == 1 && (d.dcs >= 0x40 || d.dcs / 4 % 4 == 0)
    requires WellSized(es) && |HeaderOctets(es)| == n
    requires text != [] && Encoded(text, false) == Some(s)
    requires
      var lead := Lead([n] + HeaderOctets(es));
      |lead + s| <= 256 && NothingDropped(lead + s)
    ensures
      var header := [n] + HeaderOctets(es);
      var u := [|Lead(header) + s| % 256] + (header + Packed(s, HeaderPad(n as nat + 1)));
      Reads(Decoding(DeliverOctets(d, u)), d, shown, true, LastConcat(es))
    ensures shown == text <==> Survives(text)
  {
    hide *;
    var h := HeaderOctets(es);
    var header, p := [n] + h, Packed(s, HeaderPad(n as nat + 1));
    var l := |Lead(header) + s| % 256;
    assert [l] + (header + p) == [l, n] + (h + p) && header + p == [n] + (h + p);
    SchemeExactly(d.dcs);
    HeadedDelivery(d, l, n, es, p, [l] + (header + p));
    shown := TextOf(header + p, p, HeaderSeptets(n as nat + 1), Scheme(d.dcs), l);
    NeverEmpty(text);
    BehindUnpacked(header, s, l);
    LeadSkipped(header, p, s, l);
    RoundTripExactlyIf(text, s);
  }

  function WideHeader(high: byte, low: byte, total: byte, seqNo: byte): Bytes { [6, 8, 4, high, low, total, seqNo] }

  /** One part of several with a 16-bit reference, octet by octet. */
  lemma DeliveredWidePart(d: Delivery, high: byte, low: byte, total: byte, seqNo: byte, text: Bytes, s: seq<septet>)
    returns (shown: Bytes)
    requires IsDelivery(d) && d.first / 64 % 2 == 1 && (d.dcs >= 0x40 || d.dcs / 4 % 4 == 0)
    requires text != [] && Encoded(text, false) == Some(s)
    requires |s| <= 248 && NothingDropped(Lead(WideHeader(high, low, total, seqNo)) + s)
    ensures
      var u := [(|s| + 8) % 256] + (WideHeader(high, low, total, seqNo) + Packed(s, 0));
      Reads(Decoding(DeliverOctets(d, u)), d, shown, true, UdhInfo(256 * high as nat + low, total, seqNo))
    ensures shown == text <==> Survives(text)
  {
    hide *;
    var es := [Element(8, [high, low, total, seqNo])];
    WideElementIs(es, high, low, total, seqNo);
    shown := DeliveredTextBehind(d, 6, es, text, s);
  }

  lemma WideElementIs(es: seq<Element>, high: byte, low: byte, total: byte, seqNo: byte)
    requires es == [Element(8, [high, low, total, seqNo])]
    ensures WellSized(es) && [6] + HeaderOctets(es) == WideHeader(high, low, total, seqNo) && |HeaderOctets(es)| == 6
    ensures LastConcat(es) == UdhInfo(256 * high as nat + low, total, seqNo)
    ensures |Lead(WideHeader(high, low, total, seqNo))| == 8 && HeaderPad(7) == 0
  {
    assert es[1..] == [] && HeaderOctets(es[1..]) == [];
    hide Join8, Lead;
  }

  lemma BehindUnpacked(header: Bytes, s: seq<septet>, l: byte)
    requires s != [] && |Lead(header) + s| <= 256 && l == |Lead(header) + s| % 256 && NothingDropped(Lead(header) + s)
    ensures Unpacked(header + Packed(s, HeaderPad(|header|)), l) == Lead(header) + s
  {
    hide *;
    SeptetsInPacked(header, s);
    UnpackAfterPack(header, s, l);
    AllKept(Lead(header) + s);
  }

  lemma AllKept(t: seq<septet>)
    requires NothingDropped(t)
    ensures Kept(t) == t
  {
    KeptLength(t, |t|);
    assert t[..|t|] == t;
    hide KeptTo, Dropped;
  }

  lemma LeadSkipped(header: Bytes, p: Bytes, s: seq<septet>, l: byte)
    requires Unpacked(header + p, l) == Lead(header) + s && s != []
    ensures TextOf(header + p, p, HeaderSeptets(|header|), 0, l) == Decoded(s)
  {
    assert (Lead(header) + s)[|Lead(header)|..] == s;
    hide Unpacked, Decoded, Lead, HeaderSeptets;
  }

  // ---------------------------------------------------------------- status reports, and messages of others

  /** A status report: the reference, the number, both times and the status; the second time is dropped,
      but if it cannot be read, the report is refused like for the first. */
  lemma ReportDecodes(smsc: Bytes, first: byte, reference: byte, number: Bytes, at: Moment, discharge: Moment,
                      status: byte, rest: Bytes, data: Bytes)
    requires IsField(smsc, true) && IsField(number, false) && first % 4 == 2
    requires IsMoment(at) && IsMoment(discharge)
    requires data == smsc + [first, reference] + number + (Written(at) + (Written(discharge) + ([status] + rest)))
    ensures
      var r := Decoding(data);
      if (at.west && at.quarters >= 20) || (discharge.west && discharge.quarters >= 20) then r == Err(BadTimeZone)
      else
        && r.Ok?
        && r.value == PduMessage(FieldNumber(smsc), FieldNumber(number), [], reference, status, r.value.timestamp,
                                 false, UdhInfo(0, 0, 0))
        && (r.value.timestamp == Right(at) <==> at.quarters < 10)
  {
    hide *;
    HeadRead(smsc, [first, reference], number, Written(at) + (Written(discharge) + ([status] + rest)), data);
    var p := |smsc|;
    var q := p + 2 + |number|;
    assert data[p + 1] == data[p..p + 2][1];
    ReportTimes(data, q, at, discharge, status, rest);
    ReportRead(data, smsc, p, first);
    ReportFields(data, smsc, number, p, q, TimestampText(Written(at)), TimestampText(Written(discharge)));
  }

  lemma ReportTimes(data: Bytes, q: nat, at: Moment, discharge: Moment, status: byte, rest: Bytes)
    requires IsMoment(at) && IsMoment(discharge)
    requires q <= |data| && data[q..] == Written(at) + (Written(discharge) + ([status] + rest))
    ensures q + 14 < |data| && data[q + 14] == status
    ensures data[q..q + 7] == Written(at) && data[q + 7..q + 14] == Written(discharge)
    ensures TimestampText(Written(at)) == Some(Right(at)) <==> at.quarters < 10
    ensures TimestampText(Written(at)).None? <==> at.west && at.quarters >= 20
    ensures TimestampText(Written(discharge)).None? <==> discharge.west && discharge.quarters >= 20
  {
    hide *;
    SevenAhead(data, q, Written(at), Written(discharge) + ([status] + rest));
    SevenAhead(data, q + 7, Written(discharge), [status] + rest);
    assert data[q + 14] == data[q + 14..][0];
    ZoneShownExactly(at);
    ZoneShownExactly(discharge);
  }

  lemma ReportRead(data: Bytes, smsc: Bytes, p: nat, first: byte)
    requires ParsedAddress(data, 0, true) == Some(Parsed(FieldNumber(smsc), p)) && p + 1 < |data|
    requires data[p] == first && first % 4 == 2
    ensures Decoding(data) == StatusReport(data, p + 1, FieldNumber(smsc))
  {
    hide ParsedAddress, StatusReport, FieldNumber;
  }

  lemma ReportFields(data: Bytes, smsc: Bytes, number: Bytes, p: nat, q: nat, at: Option<Bytes>, discharge: Option<Bytes>)
    requires p + 1 < |data| && ParsedAddress(data, p + 2, false) == Some(Parsed(FieldNumber(number), q)) && q + 14 < |data|
    requires TimestampText(data[q..q + 7]) == at && TimestampText(data[q + 7..q + 14]) == discharge
    ensures StatusReport(data, p + 1, FieldNumber(smsc))
         == if at.None? || discharge.None? then Err(BadTimeZone)
            else Ok(PduMessage(FieldNumber(smsc), FieldNumber(number), [], data[p + 1], data[q + 14], at.value, false, UdhInfo(0, 0, 0)))
  {
    hide ParsedAddress, TimestampText, FieldNumber;
  }

  /** A SUBMIT PDU with any validity period: absent or enhanced none of its octets are skipped, relative
      one, absolute seven. */
  lemma SubmitWithValidity(smsc: Bytes, first: byte, reference: byte, number: Bytes, protocol: byte, dcs: byte,
                           validity: Bytes, u: Bytes, data: Bytes)
    requires IsField(smsc, true) && IsField(number, false) && first % 4 == 1
    requires |validity| == if first / 8 % 4 == 2 then 1 else if first / 8 % 4 == 3 then 7 else 0
    requires data == smsc + [first, reference] + number + ([protocol, dcs] + (validity + u))
    ensures |u| <= |data| && data[|data| - |u|..] == u
    ensures
      var x := UserDataAt(data, |data| - |u|, Scheme(dcs), first / 64 % 2 == 1);
      Decoding(data)
      == if x.None? then Err(PastTheEnd)
         else Ok(PduMessage(FieldNumber(smsc), FieldNumber(number), x.value.text, reference, 0, [], x.value.hasUdh, x.value.info))
  {
    hide *;
    HeadRead(smsc, [first, reference], number, [protocol, dcs] + (validity + u), data);
    var p := |smsc|;
    var q := p + 2 + |number|;
    assert data[p + 1] == data[p..p + 2][1];
    TwoAhead(data, q, protocol, dcs, validity + u);
    SomeAhead(data, q + 2, validity, u);
    SubmitRead(data, smsc, number, p, q, first, |validity|);
  }

  lemma SubmitRead(data: Bytes, smsc: Bytes, number: Bytes, p: nat, q: nat, first: byte, v: nat)
    requires ParsedAddress(data, 0, true) == Some(Parsed(FieldNumber(smsc), p)) && p + 1 < |data|
    requires data[p] == first && first % 4 == 1
    requires v == if first / 8 % 4 == 2 then 1 else if first / 8 % 4 == 3 then 7 else 0
    requires ParsedAddress(data, p + 2, false) == Some(Parsed(FieldNumber(number), q)) && q + 2 + v <= |data|
    ensures
      var x := UserDataAt(data, q + 2 + v, Scheme(data[q + 1]), first / 64 % 2 == 1);
      Decoding(data)
      == if x.None? then Err(PastTheEnd)
         else Ok(PduMessage(FieldNumber(smsc), FieldNumber(number), x.value.text, data[p + 1], 0, [], x.value.hasUdh, x.value.info))
  {
    hide ParsedAddress, UserDataAt, Scheme, FieldNumber;
    assert Decoding(data) == Submit(data, p + 1, first, FieldNumber(smsc));
  }
}
