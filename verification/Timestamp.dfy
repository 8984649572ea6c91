/** Timestamps of the service centre (section 9.2.3.11 of 3GPP TS 23.040). */
module Timestamp {
  import opened Wrappers
  import opened Bits
  import opened Decimals
  import opened Address

  const SLASH: byte := 0x2F
  const SPACE: byte := 0x20
  const COLON: byte := 0x3A
  const MINUS: byte := 0x2D
  const MIN: Bytes := [0x6D, 0x69, 0x6E]

  /** What std::stoi reads in base 16 of two characters that stand for half octets, which go from `0` to
      `?`: the digits in front, or None where it throws because there is none. */
  function ZoneRead(zone: Bytes): Option<byte>
    requires |zone| == 2
  {
    if !IsDigit(zone[0]) then None
    else if !IsDigit(zone[1]) then Some(zone[0] - 0x30)
    else Some(16 * (zone[0] - 0x30) + (zone[1] - 0x30))
  }

  /** The zone in minutes; bit 7 says that it lies west. */
  function ZoneText(zone: byte): Bytes {
    if zone >= 0x80 then [SPACE, MINUS] + Decimal((zone - 0x80) as int * 15) + MIN
    else [SPACE, PLUS] + Decimal(zone as int * 15) + MIN
  }

  /** YY/MM/DD hh:mm:ss */
  function LaidOut(s: Bytes): Bytes
    requires |s| >= 12
  {
    s[0..2] + [SLASH] + s[2..4] + [SLASH] + s[4..6] + [SPACE] + s[6..8] + [COLON] + s[8..10] + [COLON] + s[10..12]
  }

  /** The text of seven octets, or None where the zone is no number; cut short by a filler, it is left as
      it is. */
  function TimestampText(octets: Bytes): Option<Bytes> {
    var s := SemiText(octets);
    if |s| < 14 then Some(s)
    else
      var zone := ZoneRead(s[12..14]);
      if zone.None? then None else Some(LaidOut(s) + ZoneText(zone.value))
  }

  lemma FrontLaidOut(s: Bytes, ts: Bytes)
    requires |s| >= 12 && ts == s[0..12]
    ensures ts[0..2] + [SLASH] + ts[2..4] + [SLASH] + ts[4..6] + [SPACE]
            + ts[6..8] + [COLON] + ts[8..10] + [COLON] + ts[10..12] == LaidOut(s)
  {
    assert ts[0..2] == s[0..2] && ts[2..4] == s[2..4] && ts[4..6] == s[4..6];
    assert ts[6..8] == s[6..8] && ts[8..10] == s[8..10] && ts[10..12] == s[10..12];
  }

  method ParseTimestamp(data: Bytes, pos: nat) returns (r: Option<Bytes>)
    requires pos + 7 <= |data|
    ensures r == TimestampText(data[pos..pos + 7])
  {
    hide SemiText, Decimal, ZoneRead, LaidOut;
    var tsBytes := data[pos..pos + 7];
    var decoded := SemiOctetsDecode(tsBytes, 7);
    assert tsBytes[..7] == tsBytes;
    if |decoded| >= 14 {
      var ts, tzStr := decoded[0..12], decoded[12..14];
      var formatted := ts[0..2] + [SLASH] + ts[2..4] + [SLASH] + ts[4..6] + [SPACE]
                       + ts[6..8] + [COLON] + ts[8..10] + [COLON] + ts[10..12];
      FrontLaidOut(decoded, ts);
      var tzHex := ZoneRead(tzStr);
      if tzHex.None? {
        return None;
      }
      if tzHex.value >= 0x80 {
        var magnitude := tzHex.value % 0x80;
        return Some(formatted + ([SPACE, MINUS] + Decimal(magnitude as int * 15) + MIN));
      }
      return Some(formatted + ([SPACE, PLUS] + Decimal(tzHex.value as int * 15) + MIN));
    }
    return Some(decoded);
  }

  // ---------------------------------------------------------------- what a service centre writes

  /** A time in twelve digits, with the zone in quarters of an hour, up to nineteen hours and three quarters. */
  datatype Moment = Moment(digits: seq<nat>, quarters: nat, west: bool)

  predicate IsMoment(m: Moment) {
    |m.digits| == 12 && (forall i :: 0 <= i < 12 ==> m.digits[i] < 10) && m.quarters < 80
  }

  /** Half octets in pairs, the first one low. */
  function Pairs(halves: seq<nat>): Bytes
    requires |halves| % 2 == 0 && AllBelow(halves, 16)
  {
    if halves == [] then [] else [halves[0] + 16 * halves[1]] + Pairs(halves[2..])
  }

  function Chars(halves: seq<nat>): (s: Bytes)
    requires AllBelow(halves, 16)
    ensures |s| == |halves| && forall i :: 0 <= i < |s| ==> s[i] == 0x30 + halves[i]
  {
    seq(|halves|, i requires 0 <= i < |halves| => 0x30 + halves[i])
  }

  /** The half octets of a time: its digits, the tens of the quarters with the sign above, and the rest. */
  function Halves(m: Moment): (h: seq<nat>)
    requires IsMoment(m)
    ensures |h| == 14 && AllBelow(h, 16)
    ensures forall i :: 0 <= i < 14 && i != 12 ==> h[i] < 10
  {
    m.digits + [m.quarters / 10 + if m.west then 8 else 0, m.quarters % 10]
  }

  lemma {:induction false} PairsLength(halves: seq<nat>)
    requires |halves| % 2 == 0 && AllBelow(halves, 16)
    ensures |Pairs(halves)| == |halves| / 2
  {
    if halves != [] { PairsLength(halves[2..]); }
  }

  /** The seven octets of a time. */
  function Written(m: Moment): (octets: Bytes)
    requires IsMoment(m)
    ensures |octets| == 7
  {
    PairsLength(Halves(m));
    Pairs(Halves(m))
  }

  /** The time as it should be shown. */
  function Right(m: Moment): Bytes
    requires IsMoment(m)
  {
    LaidOut(Chars(Halves(m))) + ([SPACE, if m.west then MINUS else PLUS] + Decimal(m.quarters * 15) + MIN)
  }

  lemma {:induction false} PairsShown(halves: seq<nat>)
    requires |halves| % 2 == 0 && AllBelow(halves, 16) && forall i :: 0 <= i < |halves| && i % 2 == 1 ==> halves[i] < 10
    ensures SemiText(Pairs(halves)) == Chars(halves)
  {
    if halves != [] {
      var a, b, rest := halves[0], halves[1], halves[2..];
      hide SemiText, Pairs;
      PairsShown(rest);
      OneShown(a, b, Pairs(rest));
      PairsCons(halves);
      assert Chars(halves) == [0x30 + a, 0x30 + b] + Chars(rest);
    }
  }

  lemma PairsCons(halves: seq<nat>)
    requires halves != [] && |halves| % 2 == 0 && AllBelow(halves, 16)
    ensures AllBelow(halves[2..], 16) && Pairs(halves) == [halves[0] + 16 * halves[1]] + Pairs(halves[2..])
  {
  }

  lemma OneShown(a: nat, b: nat, rest: Bytes)
    requires a < 16 && b < 10
    ensures SemiText([a + 16 * b] + rest) == [0x30 + a, 0x30 + b] + SemiText(rest)
  {
    var octet := a + 16 * b;
    BothHalves(a, b);
    OctetShown(octet, rest);
    hide SemiText;
  }

  lemma BothHalves(a: nat, b: nat)
    requires a < 16 && b < 16
    ensures (a + 16 * b) % 16 == a && (a + 16 * b) / 16 == b
  {
  }

  lemma OctetShown(octet: byte, rest: Bytes)
    ensures SemiText([octet] + rest)
         == if octet / 16 == 15 then [0x30 + octet % 16] else [0x30 + octet % 16, 0x30 + octet / 16] + SemiText(rest)
  {
    assert ([octet] + rest)[1..] == rest;
  }

  lemma ZoneOf(m: Moment)
    requires IsMoment(m)
    ensures
      var h := Halves(m);
      ZoneRead([0x30 + h[12], 0x30 + h[13]])
      == if m.west && m.quarters >= 20 then None
         else Some(16 * (m.quarters / 10) + m.quarters % 10 + if m.west then 128 else 0)
  {
  }

  lemma ShownIs(m: Moment)
    requires IsMoment(m)
    ensures
      var zone := ZoneRead([0x30 + Halves(m)[12], 0x30 + Halves(m)[13]]);
      TimestampText(Written(m))
      == if zone.None? then None else Some(LaidOut(Chars(Halves(m))) + ZoneText(zone.value))
  {
    var h := Halves(m);
    PairsShown(h);
    assert Chars(h)[12..14] == [0x30 + h[12], 0x30 + h[13]];
    hide SemiText, Pairs, LaidOut, ZoneText, ZoneRead, Halves;
  }

  /** Two zone texts of one sign differ if their minutes do. */
  lemma ZoneDiffers(front: Bytes, sign: byte, a: nat, b: nat)
    requires front + ([SPACE, sign] + Decimal(a) + MIN) == front + ([SPACE, sign] + Decimal(b) + MIN)
    ensures a == b
  {
    var x, y := [SPACE, sign] + Decimal(a) + MIN, [SPACE, sign] + Decimal(b) + MIN;
    assert (front + x)[|front|..] == x && (front + y)[|front|..] == y;
    assert x[2..|x| - 3] == Decimal(a) && y[2..|y| - 3] == Decimal(b);
    DecimalInjective(a, b);
  }

  lemma QuartersExactly(q: nat)
    requires q < 80
    ensures 16 * (q / 10) + q % 10 == q <==> q < 10
  {
  }

  /** The quarters are read in base 16 though they are written in base 10: a time is shown with its own
      zone exactly if that is less than ten quarters of an hour away; and a zone of five hours or more to
      the west, whose sign makes its first half octet no digit, is refused. */
  lemma ZoneShownExactly(m: Moment)
    requires IsMoment(m)
    ensures TimestampText(Written(m)) == Some(Right(m)) <==> m.quarters < 10
    ensures TimestampText(Written(m)).None? <==> m.west && m.quarters >= 20
  {
    hide SemiText, Written, LaidOut, ZoneText, ZoneRead, Halves, Chars, Decimal, TimestampText, Right;
    ShownIs(m);
    ZoneOf(m);
    QuartersExactly(m.quarters);
    if !(m.west && m.quarters >= 20) {
      var front := LaidOut(Chars(Halves(m)));
      var read := 16 * (m.quarters / 10) + m.quarters % 10;
      var sign := if m.west then MINUS else PLUS;
      ZoneTextIs(m, read);
      if m.quarters >= 10 && front + ([SPACE, sign] + Decimal(read * 15) + MIN) == Right(m) {
        ZoneDiffers(front, sign, read * 15, m.quarters * 15);
      }
    }
  }

  lemma ZoneTextIs(m: Moment, read: nat)
    requires IsMoment(m) && read == 16 * (m.quarters / 10) + m.quarters % 10 && !(m.west && m.quarters >= 20)
    ensures ZoneText(read + if m.west then 128 else 0)
         == [SPACE, if m.west then MINUS else PLUS] + Decimal(read * 15) + MIN
    ensures Right(m) == LaidOut(Chars(Halves(m))) + ([SPACE, if m.west then MINUS else PLUS] + Decimal(m.quarters * 15) + MIN)
  {
    hide Decimal, LaidOut, Chars, Halves;
  }

  /** The time as it should be shown, character by character: year/month/day hour:minute:second, and the
      minutes that the zone lies east or west. */
  lemma RightIs(m: Moment)
    requires IsMoment(m)
    ensures
      var d := m.digits;
      Right(m) == [0x30 + d[0], 0x30 + d[1], 0x2F, 0x30 + d[2], 0x30 + d[3], 0x2F, 0x30 + d[4], 0x30 + d[5], 0x20,
                   0x30 + d[6], 0x30 + d[7], 0x3A, 0x30 + d[8], 0x30 + d[9], 0x3A, 0x30 + d[10], 0x30 + d[11]]
                  + ([0x20, if m.west then 0x2D else 0x2B] + Decimal(15 * m.quarters) + [0x6D, 0x69, 0x6E])
  {
    var d, c := m.digits, Chars(Halves(m));
    assert forall i :: 0 <= i < 12 ==> c[i] == 0x30 + d[i];
    hide Decimal, Halves, Chars;
    CharactersOf(c);
  }

  lemma CharactersOf(c: Bytes)
    requires |c| >= 12
    ensures LaidOut(c) == [c[0], c[1], 0x2F, c[2], c[3], 0x2F, c[4], c[5], 0x20, c[6], c[7], 0x3A, c[8], c[9], 0x3A, c[10], c[11]]
  {
    assert c[0..2] == [c[0], c[1]] && c[2..4] == [c[2], c[3]] && c[4..6] == [c[4], c[5]];
    assert c[6..8] == [c[6], c[7]] && c[8..10] == [c[8], c[9]] && c[10..12] == [c[10], c[11]];
  }
}
