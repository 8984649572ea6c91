/** Text written as UCS-2 and read as septets never comes back. */
module Ucs2Loss {
  import opened Bits
  import opened Utf8
  import opened Gsm7
  import opened Septets

  // ---------------------------------------------------------------- shown text by code points

  /** The code points that the decoder shows. */
  function ShownPoints(s: seq<byte>): seq<nat> {
    if s == [] then []
    else if s[0] == ESC && |s| > 1 then
      (if EscapedText(s[1]) == [] then [] else [EscapedText(s[1])[0] as nat]) + ShownPoints(s[2..])
    else (if s[0] < 128 then [ShownCodePoint(s[0])] else []) + ShownPoints(s[1..])
  }

  lemma TextCons(u: nat, points: seq<nat>)
    requires u < 0x800 && AllBelow(points, 0x800)
    ensures AllBelow([u] + points, 0x800) && Utf8Text([u] + points) == Utf8Of(u) + Utf8Text(points)
  {
    hide Utf8Of;
    assert ([u] + points)[0] == u && ([u] + points)[1..] == points;
  }

  lemma {:induction false} ShownIsText(s: seq<byte>)
    ensures AllBelow(ShownPoints(s), 0x800) && Decoded(s) == Utf8Text(ShownPoints(s))
    decreases |s|
  {
    if s != [] {
      if s[0] == ESC && |s| > 1 {
        ShownEscaped(s);
      } else {
        ShownPlain(s);
      }
    }
  }

  lemma {:induction false} ShownEscaped(s: seq<byte>)
    requires |s| > 1 && s[0] == ESC
    ensures AllBelow(ShownPoints(s), 0x800) && Decoded(s) == Utf8Text(ShownPoints(s))
    decreases |s|, 0
  {
    var shown, rest := EscapedText(s[1]), ShownPoints(s[2..]);
    assert Decoded(s) == shown + Decoded(s[2..]);
    assert ShownPoints(s) == (if shown == [] then [] else [shown[0] as nat]) + rest;
    hide Decoded, ShownPoints, Utf8Of, Utf8Text, ExtensionText;
    ShownIsText(s[2..]);
    if shown != [] {
      ExtensionTextIsUtf8(s[1]);
      TextCons(shown[0], rest);
    } else {
      assert [] + rest == rest && shown + Decoded(s[2..]) == Decoded(s[2..]);
    }
  }

  lemma {:induction false} ShownPlain(s: seq<byte>)
    requires s != [] && (s[0] != ESC || |s| == 1)
    ensures AllBelow(ShownPoints(s), 0x800) && Decoded(s) == Utf8Text(ShownPoints(s))
    decreases |s|, 0
  {
    var shown, rest := PlainText(s[0]), ShownPoints(s[1..]);
    assert Decoded(s) == shown + Decoded(s[1..]);
    assert ShownPoints(s) == (if s[0] < 128 then [ShownCodePoint(s[0])] else []) + rest;
    hide Decoded, ShownPoints, Utf8Of, Utf8Text, CharAt, ShownCodePoint;
    ShownIsText(s[1..]);
    if s[0] < 128 {
      CharAtIsUtf8(s[0]);
      TextCons(ShownCodePoint(s[0]), rest);
    } else {
      assert [] + rest == rest && shown + Decoded(s[1..]) == Decoded(s[1..]);
    }
  }

  /** Two octets for each code point, the high one first. */
  function Units(points: seq<nat>): (s: Bytes)
    ensures |s| == 2 * |points|
  {
    if points == [] then [] else BigEndian16(points[0]) + Units(points[1..])
  }

  lemma {:induction false} TextToUnits(points: seq<nat>)
    requires AllBelow(points, 0x800)
    ensures Ucs2Encoded(Utf8Text(points)) == Units(points)
  {
    if points != [] {
      hide Utf8Of, BigEndian16, Ucs2Encoded;
      TextToUnits(points[1..]);
      EncodeChar(points[0], Utf8Text(points[1..]));
    }
  }

  lemma {:induction false} UnitAt(points: seq<nat>, i: nat)
    requires AllBelow(points, 0x800) && i < |points|
    ensures Units(points)[2 * i] == points[i] / 256 && Units(points)[2 * i + 1] == points[i] % 256
  {
    var rest := Units(points[1..]);
    assert Units(points) == BigEndian16(points[0]) + rest;
    if i > 0 {
      hide BigEndian16, Units;
      UnitAt(points[1..], i - 1);
      assert Units(points)[2 * i] == rest[2 * (i - 1)] && Units(points)[2 * i + 1] == rest[2 * (i - 1) + 1];
    }
  }

  lemma {:induction false} TextIsLonger(points: seq<nat>)
    requires AllBelow(points, 0x800)
    ensures |Utf8Text(points)| >= |points|
  {
    if points != [] {
      hide Utf8Of;
      TextIsLonger(points[1..]);
    }
  }

  // ---------------------------------------------------------------- septets in front

  predicate NoEscape(s: seq<byte>) { forall i :: 0 <= i < |s| ==> s[i] < 128 && s[i] != ESC }

  /** Septets without an escape show one code point each, whatever follows. */
  lemma {:induction false} ShownInFront(s: seq<byte>, rest: seq<byte>)
    requires NoEscape(s)
    ensures |s| <= |ShownPoints(s + rest)|
    ensures forall i :: 0 <= i < |s| ==> ShownPoints(s + rest)[i] == ShownCodePoint(s[i])
  {
    if s != [] {
      var all := s + rest;
      assert all[0] == s[0] && all[1..] == s[1..] + rest;
      assert ShownPoints(all) == [ShownCodePoint(s[0])] + ShownPoints(all[1..]);
      hide ShownPoints, ShownCodePoint;
      ShownInFront(s[1..], rest);
    }
  }

  lemma {:induction false} KeptInFront(t: seq<septet>, k: nat, n: nat)
    requires k <= n <= |t|
    ensures KeptTo(t, k) <= KeptTo(t, n)
  {
    if k < n {
      hide Dropped;
      KeptInFront(t, k, n - 1);
      assert KeptTo(t, n - 1) <= KeptTo(t, n);
    }
  }

  // ---------------------------------------------------------------- the only text that could come back

  /** The octet that septet j ends in, or for the septet on top of a full group, stands in. */
  function OctetOf(j: nat): nat { j - j / 8 - (if j % 8 == 7 then 1 else 0) }

  /** x << r */
  function Up(x: nat, r: nat): nat {
    match r
    case 0 => x case 1 => 2 * x case 2 => 4 * x case 3 => 8 * x
    case 4 => 16 * x case 5 => 32 * x case _ => 64 * x
  }

  /** x >> (8 - r) */
  function Down(x: byte, r: nat): nat {
    match r
    case 0 => 0 case 1 => x / 128 case 2 => x / 64 case 3 => x / 32
    case 4 => x / 16 case 5 => x / 8 case _ => x / 4
  }

  /** Septet r of a group, from the octet it ends in and the one before. */
  function SeptetFrom(octet: byte, previous: byte, r: nat): nat {
    if r == 7 then octet / 2 else Up(octet, r) % 128 + Down(previous, r)
  }

  lemma ShiftedRight(x: byte, k: nat)
    requires 2 <= k <= 7
    ensures Shr(x, k) == if k <= 4 then (if k == 2 then x / 4 else if k == 3 then x / 8 else x / 16)
                         else if k == 5 then x / 32 else if k == 6 then x / 64 else x / 128
  {
    assert Shr(x, 2) == x / 2 / 2;
    ShrShr(x, 2, k - 2);
    var y := x / 4;
    assert Shr(x, 2) == y;
    if k == 3 {
      assert Shr(y, 1) == y / 2;
    } else if k > 3 {
      ShrShr(y, 2, k - 4);
      var z := y / 4;
      assert Shr(y, 2) == z;
      if k == 5 {
        assert Shr(z, 1) == z / 2;
      } else if k > 5 {
        ShrShr(z, 2, k - 6);
        assert Shr(z, 2) == z / 4;
        if k == 7 { assert Shr(z / 4, 1) == z / 8; }
      }
    }
  }

  lemma UpIs(x: byte, r: nat)
    requires 1 <= r <= 6
    ensures Up(x, r) == Shl(x, r)
  {
    SmallShifts(x);
    hide Shl;
  }

  lemma DownIs(x: byte, r: nat)
    requires 1 <= r <= 6
    ensures Down(x, r) == Shr(x, 8 - r)
  {
    ShiftedRight(x, 8 - r);
    hide Shr;
  }

  lemma SpanningIs(octet: byte, previous: byte, r: nat)
    requires 1 <= r <= 6
    ensures Spanning(octet, previous, r) == SeptetFrom(octet, previous, r)
  {
    hide Or, Spanning, Shl, Shr, Up, Down;
    SpanningValue(octet, previous, r);
    UpIs(octet, r);
    DownIs(previous, r);
  }

  function Before(o: Bytes, j: nat): byte
    requires OctetOf(j) < |o|
  {
    if j % 8 == 0 then 0 else o[OctetOf(j) - 1]
  }

  lemma SeptetAt(o: Bytes, j: nat)
    requires OctetOf(j) < |o|
    ensures j < SeptetCount(|o|)
    ensures SeptetsIn(o)[j] == SeptetFrom(o[OctetOf(j)], Before(o, j), j % 8)
  {
    hide *;
    var g, r := j / 8, j % 8;
    assert j == 8 * g + r;
    InGroup(g, r);
    BeforeIs(o, g, r);
    if r == 0 {
      SeptetAligned(o, g);
      FromOne(o[7 * g], 0);
    } else if r == 7 {
      SeptetOnTop(o, g);
      FromOne(o[7 * g + 6], o[7 * g + 5]);
    } else {
      SeptetSpanning(o, g, r);
      SpanningIs(o[7 * g + r], o[7 * g + r - 1], r);
    }
  }

  lemma BeforeIs(o: Bytes, g: nat, r: nat)
    requires r < 8 && OctetOf(8 * g + r) < |o|
    ensures OctetOf(8 * g + r) == 7 * g + if r == 7 then 6 else r
    ensures Before(o, 8 * g + r) == if r == 0 then 0 else o[7 * g + if r == 7 then 5 else r - 1]
  {
    InGroup(g, r);
    hide OctetOf;
  }

  lemma FromOne(octet: byte, previous: byte)
    ensures SeptetFrom(octet, 0, 0) == octet % 128 && SeptetFrom(octet, previous, 7) == octet / 2
  {
  }

  /** The first octets that a text must be written as to come back, in groups of seven: each septet of
      them depends on earlier characters only, and shows the next one. */
  function GroupOctets(g: nat): (octets: Bytes)
    ensures |octets| == 7
  {
    match g
    case 0 => [0x00, 0x40, 0x00, 0x40, 0x00, 0xA3, 0x00]
    case 1 => [0x40, 0x00, 0xE8, 0x00, 0x60, 0x00, 0x28]
    case 2 => [0x00, 0x40, 0x00, 0x40, 0x00, 0x20, 0x00]
    case 3 => [0xEC, 0x00, 0x40, 0x00, 0xF8, 0x00, 0x40]
    case 4 => [0x03, 0x9B, 0x00, 0x40, 0x00, 0x40, 0x00]
    case 5 => [0xA3, 0x00, 0x40, 0x00, 0xE8, 0x00, 0x40]
    case 6 => [0x00, 0xF2, 0x00, 0x6C, 0x00, 0xA3, 0x00]
    case 7 => [0x40, 0x00, 0x24, 0x00, 0x40, 0x00, 0xC9]
    case 8 => [0x00, 0x40, 0x00, 0x20, 0x00, 0xA5, 0x00]
    case _ => [0x36, 0x00, 0x24, 0x00, 0x40, 0x00, 0xE8]
  }

  /** The septets of a group. */
  function GroupSeptets(g: nat): (septets: seq<septet>)
    ensures |septets| == 8
  {
    match g
    case 0 => [0, 0, 1, 0, 4, 96, 40, 0]
    case 1 => [64, 0, 32, 7, 0, 12, 0, 20]
    case 2 => [0, 0, 1, 0, 4, 0, 8, 0]
    case 3 => [108, 1, 0, 2, 0, 31, 0, 32]
    case 4 => [3, 54, 2, 0, 4, 0, 16, 0]
    case 5 => [35, 1, 0, 2, 0, 29, 0, 32]
    case 6 => [0, 100, 3, 96, 6, 96, 40, 0]
    case 7 => [64, 0, 16, 1, 0, 8, 64, 100]
    case 8 => [0, 0, 1, 0, 2, 32, 41, 0]
    case _ => [54, 0, 16, 1, 0, 8, 0, 116]
  }

  /** Characters that these octets hold. */
  const KNOWN: nat := 35

  function ForcedOctet(a: nat): byte { GroupOctets(a / 7)[a % 7] }

  function ForcedSeptet(j: nat): septet { GroupSeptets(j / 8)[j % 8] }

  function Forced(i: nat): nat { 256 * ForcedOctet(2 * i) as int + ForcedOctet(2 * i + 1) }

  /** Characters shown by j septets: of every sixteen, one is dropped. */
  function CountShown(j: nat): nat { j - (j + 8) / 16 }

  /** Eight septets follow from seven octets. */
  predicate GroupFollows(o: Bytes, s: seq<septet>)
    requires |o| == 7 && |s| == 8
  {
    && s[0] == SeptetFrom(o[0], 0, 0) && s[1] == SeptetFrom(o[1], o[0], 1)
    && s[2] == SeptetFrom(o[2], o[1], 2) && s[3] == SeptetFrom(o[3], o[2], 3)
    && s[4] == SeptetFrom(o[4], o[3], 4) && s[5] == SeptetFrom(o[5], o[4], 5)
    && s[6] == SeptetFrom(o[6], o[5], 6) && s[7] == SeptetFrom(o[6], o[5], 7)
  }

  predicate ShowsNext(s: septet, i: nat) {
    s != ESC && (i < KNOWN ==> ShownCodePoint(s) == Forced(i))
  }

  /** The septets of a group show the next characters from i on, but for the last one of every other group,
      which is dropped. */
  predicate FirstShow(s: seq<septet>, i: nat)
    requires |s| == 8
  {
    && ShowsNext(s[0], i) && ShowsNext(s[1], i + 1) && ShowsNext(s[2], i + 2) && ShowsNext(s[3], i + 3)
  }

  predicate LastShow(s: seq<septet>, i: nat, drops: bool)
    requires |s| == 8
  {
    && ShowsNext(s[4], i + 4) && ShowsNext(s[5], i + 5) && ShowsNext(s[6], i + 6)
    && if drops then s[7] == 0 && s[6] < 64 else s[7] != 0 && ShowsNext(s[7], i + 7)
  }

  lemma Follow0()
    ensures GroupFollows(GroupOctets(0), GroupSeptets(0))
  {
  }

  lemma First0()
    ensures FirstShow(GroupSeptets(0), 0)
  {
  }

  lemma Last0()
    ensures LastShow(GroupSeptets(0), 0, true)
  {
  }

  lemma Follow1()
    ensures GroupFollows(GroupOctets(1), GroupSeptets(1))
  {
  }

  lemma First1()
    ensures FirstShow(GroupSeptets(1), 7)
  {
  }

  lemma Last1()
    ensures LastShow(GroupSeptets(1), 7, false)
  {
  }

  lemma Follow2()
    ensures GroupFollows(GroupOctets(2), GroupSeptets(2))
  {
  }

  lemma First2()
    ensures FirstShow(GroupSeptets(2), 15)
  {
  }

  lemma Last2()
    ensures LastShow(GroupSeptets(2), 15, true)
  {
  }

  lemma Follow3()
    ensures GroupFollows(GroupOctets(3), GroupSeptets(3))
  {
  }

  lemma First3()
    ensures FirstShow(GroupSeptets(3), 22)
  {
  }

  lemma Last3()
    ensures LastShow(GroupSeptets(3), 22, false)
  {
  }

  lemma Follow4()
    ensures GroupFollows(GroupOctets(4), GroupSeptets(4))
  {
  }

  lemma First4()
    ensures FirstShow(GroupSeptets(4), 30)
  {
  }

  lemma Last4()
    ensures LastShow(GroupSeptets(4), 30, true)
  {
  }

  predicate GroupFits(g: nat) {
    && GroupFollows(GroupOctets(g), GroupSeptets(g))
    && FirstShow(GroupSeptets(g), CountShown(8 * g))
    && LastShow(GroupSeptets(g), CountShown(8 * g), g % 2 == 0)
  }

  lemma Group0()
    ensures GroupFits(0)
  {
    assert CountShown(0) == 0;
    hide GroupFollows, FirstShow, LastShow, GroupOctets, GroupSeptets, CountShown;
    Follow0();
    First0();
    Last0();
  }

  lemma Group1()
    ensures GroupFits(1)
  {
    assert CountShown(8) == 7;
    hide GroupFollows, FirstShow, LastShow, GroupOctets, GroupSeptets, CountShown;
    Follow1();
    First1();
    Last1();
  }

  lemma Group2()
    ensures GroupFits(2)
  {
    assert CountShown(16) == 15;
    hide GroupFollows, FirstShow, LastShow, GroupOctets, GroupSeptets, CountShown;
    Follow2();
    First2();
    Last2();
  }

  lemma Group3()
    ensures GroupFits(3)
  {
    assert CountShown(24) == 22;
    hide GroupFollows, FirstShow, LastShow, GroupOctets, GroupSeptets, CountShown;
    Follow3();
    First3();
    Last3();
  }

  lemma Group4()
    ensures GroupFits(4)
  {
    assert CountShown(32) == 30;
    hide GroupFollows, FirstShow, LastShow, GroupOctets, GroupSeptets, CountShown;
    Follow4();
    First4();
    Last4();
  }

  lemma Group5()
    ensures GroupFits(5)
  {
    assert CountShown(40) == 37;
  }

  lemma Group6()
    ensures GroupFits(6)
  {
    assert CountShown(48) == 45;
  }

  lemma Group7()
    ensures GroupFits(7)
  {
    assert CountShown(56) == 52;
  }

  lemma Group8()
    ensures GroupFits(8)
  {
    assert CountShown(64) == 60;
  }

  lemma Group9()
    ensures GroupFits(9)
  {
    assert CountShown(72) == 67;
  }

  lemma GroupsFit(g: nat)
    requires g < 10
    ensures GroupFollows(GroupOctets(g), GroupSeptets(g))
    ensures FirstShow(GroupSeptets(g), CountShown(8 * g)) && LastShow(GroupSeptets(g), CountShown(8 * g), g % 2 == 0)
  {
    AnyGroup(g);
    hide GroupFollows, FirstShow, LastShow, GroupOctets, GroupSeptets, CountShown;
  }

  lemma AnyGroup(g: nat)
    requires g < 10
    ensures GroupFits(g)
  {
    hide *;
    match g {
      case 0 => Group0();
      case 1 => Group1();
      case 2 => Group2();
      case 3 => Group3();
      case 4 => Group4();
      case 5 => Group5();
      case 6 => Group6();
      case 7 => Group7();
      case 8 => Group8();
      case _ => Group9();
    }
  }

  function ForcedBefore(j: nat): byte { if j % 8 == 0 then 0 else ForcedOctet(OctetOf(j) - 1) }

  /** Septet j shows character i, unless it is dropped. */
  predicate ForcedShows(j: nat, i: nat, drops: bool) {
    if j % 8 == 7 && drops then ForcedSeptet(j) == 0 && ForcedSeptet(j - 1) < 64
    else ShowsNext(ForcedSeptet(j), i) && (j % 8 == 7 ==> ForcedSeptet(j) != 0)
  }

  /** Septet j is made of the forced octets, and shows the next forced character or is dropped. */
  predicate Fits(j: nat) {
    && ForcedSeptet(j) == SeptetFrom(ForcedOctet(OctetOf(j)), ForcedBefore(j), j % 8)
    && ForcedShows(j, CountShown(j), j / 8 % 2 == 0)
  }

  lemma ByEight(g: nat, r: nat)
    requires r < 8
    ensures (8 * g + r) / 8 == g && (8 * g + r) % 8 == r
  {
  }

  lemma BySixteen(h: nat, r: nat)
    requires r < 16
    ensures (16 * h + r) / 16 == h
  {
  }

  lemma CountInGroup(g: nat, r: nat)
    requires r < 8
    ensures CountShown(8 * g + r) == CountShown(8 * g) + r
  {
    var h, n := g / 2, g % 2;
    if n == 0 {
      BySixteen(h, 8);
      BySixteen(h, 8 + r);
      assert 8 * g + 8 == 16 * h + 8;
    } else {
      BySixteen(h + 1, 0);
      BySixteen(h + 1, r);
      assert 8 * g + 8 == 16 * (h + 1);
    }
  }

  lemma InGroup(g: nat, r: nat)
    requires r < 8
    ensures (8 * g + r) / 8 == g && (8 * g + r) % 8 == r
    ensures OctetOf(8 * g + r) == 7 * g + if r == 7 then 6 else r
    ensures CountShown(8 * g + r) == CountShown(8 * g) + r
  {
    ByEight(g, r);
    CountInGroup(g, r);
    hide CountShown;
  }

  lemma OctetInGroup(g: nat, r: nat)
    requires r < 7
    ensures ForcedOctet(7 * g + r) == GroupOctets(g)[r]
  {
    assert (7 * g + r) / 7 == g && (7 * g + r) % 7 == r;
    hide GroupOctets;
  }

  lemma SeptetInGroup(g: nat, r: nat)
    requires r < 8
    ensures ForcedSeptet(8 * g + r) == GroupSeptets(g)[r]
  {
    hide GroupSeptets;
  }

  lemma FollowsInGroup(g: nat, r: nat)
    requires r < 8 && GroupFollows(GroupOctets(g), GroupSeptets(g))
    ensures GroupSeptets(g)[r] == SeptetFrom(GroupOctets(g)[if r == 7 then 6 else r],
                                             if r == 0 then 0 else GroupOctets(g)[if r == 7 then 5 else r - 1], r)
  {
    hide GroupOctets, GroupSeptets, SeptetFrom;
  }

  lemma ShowsInGroup(s: seq<septet>, i: nat, drops: bool, r: nat)
    requires |s| == 8 && r < 8 && FirstShow(s, i) && LastShow(s, i, drops)
    ensures if r == 7 && drops then s[7] == 0 && s[6] < 64 else ShowsNext(s[r], i + r) && (r == 7 ==> s[7] != 0)
  {
    hide ShowsNext;
  }

  lemma BeforeInGroup(g: nat, r: nat)
    requires r < 8
    ensures ForcedBefore(8 * g + r) == if r == 0 then 0 else GroupOctets(g)[if r == 7 then 5 else r - 1]
  {
    hide GroupOctets, ForcedOctet, OctetOf;
    InGroup(g, r);
    if r > 0 { OctetInGroup(g, if r == 7 then 5 else r - 1); }
  }

  lemma FollowsAt(g: nat, r: nat)
    requires g < 10 && r < 8
    ensures ForcedSeptet(8 * g + r) == SeptetFrom(ForcedOctet(OctetOf(8 * g + r)), ForcedBefore(8 * g + r), r)
  {
    hide *;
    GroupsFit(g);
    InGroup(g, r);
    FollowsInGroup(g, r);
    OctetInGroup(g, if r == 7 then 6 else r);
    BeforeInGroup(g, r);
    SeptetInGroup(g, r);
  }

  lemma ShowsAt(g: nat, r: nat)
    requires g < 10 && r < 8
    ensures ForcedShows(8 * g + r, CountShown(8 * g) + r, g % 2 == 0)
  {
    hide GroupSeptets, GroupOctets, ForcedSeptet, ShowsNext, FirstShow, LastShow, GroupFollows, CountShown;
    GroupsFit(g);
    ByEight(g, r);
    SeptetInGroup(g, r);
    if r > 0 { SeptetInGroup(g, r - 1); }
    ShowsInGroup(GroupSeptets(g), CountShown(8 * g), g % 2 == 0, r);
  }

  lemma AllFit(j: nat)
    requires j < 80
    ensures Fits(j)
  {
    hide *;
    var g, r := j / 8, j % 8;
    assert j == 8 * g + r;
    FitsInGroup(g, r);
  }

  lemma FitsInGroup(g: nat, r: nat)
    requires g < 10 && r < 8
    ensures Fits(8 * g + r)
  {
    hide ForcedOctet, ForcedSeptet, ForcedBefore, ForcedShows, SeptetFrom, OctetOf, CountShown;
    InGroup(g, r);
    FollowsAt(g, r);
    ShowsAt(g, r);
  }

  // ---------------------------------------------------------------- no text comes back

  /** The first i characters are the forced ones, as far as these are known. */
  predicate Follows(points: seq<nat>, i: nat) {
    i <= |points| && forall k :: 0 <= k < i && k < KNOWN ==> points[k] == Forced(k)
  }

  lemma OctetFollows(points: seq<nat>, i: nat, a: nat)
    requires AllBelow(points, 0x800) && Follows(points, i) && a / 2 < i && a / 2 < KNOWN
    ensures a < |Units(points)| && Units(points)[a] == ForcedOctet(a)
  {
    var k := a / 2;
    assert points[k] == Forced(k);
    UnitAt(points, k);
    ForcedUnit(k);
    hide *;
    assert a == 2 * k || a == 2 * k + 1;
  }

  lemma ForcedUnit(k: nat)
    ensures Forced(k) / 256 == ForcedOctet(2 * k) && Forced(k) % 256 == ForcedOctet(2 * k + 1)
  {
    hide ForcedOctet;
  }

  /** Enough characters are known to read the next septet. */
  lemma OctetIsKnown(j: nat)
    requires 1 <= j < 80
    ensures OctetOf(j) / 2 < CountShown(j) && OctetOf(j) / 2 < KNOWN
  {
  }

  lemma NextSeptet(points: seq<nat>, j: nat)
    requires 1 <= j < 80 && AllBelow(points, 0x800) && Follows(points, CountShown(j))
    ensures j < SeptetCount(|Units(points)|) && SeptetsIn(Units(points))[j] == ForcedSeptet(j)
  {
    var a := OctetOf(j);
    hide Units, Follows, OctetOf, CountShown, ForcedOctet, ForcedSeptet, SeptetsIn, SeptetCount, SeptetFrom,
         ForcedShows;
    OctetIsKnown(j);
    OctetFollows(points, CountShown(j), a);
    SeptetAt(Units(points), j);
    AllFit(j);
    BeforeFollows(points, CountShown(j), j);
  }

  lemma BeforeFollows(points: seq<nat>, i: nat, j: nat)
    requires AllBelow(points, 0x800) && Follows(points, i) && OctetOf(j) / 2 < i && OctetOf(j) / 2 < KNOWN
    ensures OctetOf(j) < |Units(points)| && Before(Units(points), j) == ForcedBefore(j)
  {
    var a := OctetOf(j);
    hide Units, Follows, ForcedOctet;
    OctetFollows(points, i, a);
    if j % 8 > 0 {
      OctetFollows(points, i, a - 1);
    }
  }

  /** Septets without an escape that show forced characters. */
  predicate AllForced(s: seq<septet>) {
    NoEscape(s) && forall k :: 0 <= k < |s| && k < KNOWN ==> ShownCodePoint(s[k]) == Forced(k)
  }

  /** Those of the first j septets that are kept show the forced characters. */
  ghost predicate Reached(t: seq<septet>, j: nat) {
    && j <= |t| && AllForced(KeptTo(t, j)) && |KeptTo(t, j)| == CountShown(j)
    && (j > 0 ==> t[j - 1] == ForcedSeptet(j - 1))
  }

  lemma ReachedFollows(points: seq<nat>, t: seq<septet>, j: nat)
    requires points == ShownPoints(Kept(t)) && Reached(t, j)
    ensures Follows(points, CountShown(j))
  {
    hide *;
    ReachedShows(t, j);
    var kept := KeptTo(t, j);
    KeptWhole(t);
    KeptInFront(t, j, |t|);
    var rest := Kept(t)[|kept|..];
    assert Kept(t) == kept + rest;
    ShowsForced(kept, rest);
  }

  lemma ReachedShows(t: seq<septet>, j: nat)
    requires Reached(t, j)
    ensures j <= |t| && AllForced(KeptTo(t, j)) && |KeptTo(t, j)| == CountShown(j)
  {
    hide KeptTo, CountShown, AllForced;
  }

  lemma KeptWhole(t: seq<septet>)
    ensures Kept(t) == KeptTo(t, |t|)
  {
    hide KeptTo;
  }

  lemma ShowsForced(kept: seq<septet>, rest: seq<byte>)
    requires AllForced(kept)
    ensures Follows(ShownPoints(kept + rest), |kept|)
  {
    hide ShownPoints, NoEscape, ShownCodePoint, Forced;
    ShownInFront(kept, rest);
  }

  lemma CountSteps(j: nat)
    ensures CountShown(j + 1) == CountShown(j) + if j % 8 == 7 && j / 8 % 2 == 0 then 0 else 1
  {
    hide CountShown;
    var g, r := j / 8, j % 8;
    assert j == 8 * g + r;
    CountInGroup(g, r);
    if r < 7 {
      CountInGroup(g, r + 1);
      assert j + 1 == 8 * g + (r + 1);
    } else {
      GroupSteps(g);
      assert j + 1 == 8 * (g + 1);
    }
  }

  lemma GroupSteps(g: nat)
    ensures CountShown(8 * (g + 1)) == CountShown(8 * g) + if g % 2 == 0 then 7 else 8
  {
    var h, n := g / 2, g % 2;
    if n == 0 {
      assert 8 * g + 8 == 16 * h + 8 && 8 * (g + 1) + 8 == 16 * (h + 1);
      BySixteen(h, 8);
      BySixteen(h + 1, 0);
    } else {
      assert 8 * g + 8 == 16 * (h + 1) && 8 * (g + 1) + 8 == 16 * (h + 1) + 8;
      BySixteen(h + 1, 0);
      BySixteen(h + 1, 8);
    }
  }

  lemma ReachStep(t: seq<septet>, j: nat)
    requires 1 <= j < 80 && j < |t| && Reached(t, j) && t[j] == ForcedSeptet(j)
    ensures Reached(t, j + 1)
  {
    hide CountShown, ForcedSeptet, ForcedOctet, Forced, ShownCodePoint, SeptetFrom, OctetOf, KeptTo;
    AllFit(j);
    CountSteps(j);
    KeptStep(t, j);
  }

  lemma KeptStep(t: seq<septet>, j: nat)
    requires j < |t|
    ensures KeptTo(t, j + 1) == KeptTo(t, j) + if Dropped(t, j) then [] else [t[j]]
  {
  }

  lemma {:induction false} ReachedAll(points: seq<nat>, t: seq<septet>, j: nat)
    requires AllBelow(points, 0x800) && points == ShownPoints(Kept(t)) && t == SeptetsIn(Units(points))
    requires 1 <= j <= 80 && Reached(t, 1)
    ensures Reached(t, j)
  {
    hide *;
    if j > 1 {
      ReachedAll(points, t, j - 1);
      ReachedFollows(points, t, j - 1);
      NextSeptet(points, j - 1);
      ReachStep(t, j - 1);
    }
  }

  /** The one first character that shows itself: the high octet of its unit is the first septet. */
  lemma FirstCharacter(c: nat)
    requires c < 0x800 && ShownCodePoint(c / 256) == c
    ensures c == 0x40
  {
  }

  lemma FirstSeptet(points: seq<nat>, t: seq<septet>)
    requires AllBelow(points, 0x800) && points != [] && t == SeptetsIn(Units(points))
    ensures t != [] && t[0] == points[0] / 256 < 8
  {
    hide Units, SeptetsIn;
    UnitAt(points, 0);
    SeptetAligned(Units(points), 0);
  }

  lemma FirstShown(points: seq<nat>, t: seq<septet>)
    requires t != [] && t[0] < 8 && points == ShownPoints(Kept(t))
    ensures KeptTo(t, 1) == [t[0]] && points != [] && points[0] == ShownCodePoint(t[0])
  {
    hide ShownPoints, KeptTo, ShownCodePoint;
    KeptStart(t);
    KeptInFront(t, 1, |t|);
    var rest := Kept(t)[1..];
    assert Kept(t) == [t[0]] + rest;
    ShownInFront([t[0]], rest);
  }

  lemma KeptStart(t: seq<septet>)
    requires t != []
    ensures KeptTo(t, 1) == [t[0]]
  {
    assert KeptTo(t, 0) == [];
  }

  lemma FirstForced()
    ensures Forced(0) == 0x40 && ForcedSeptet(0) == 0 && CountShown(1) == 1
  {
  }

  lemma FirstReached(points: seq<nat>, t: seq<septet>)
    requires AllBelow(points, 0x800) && points == ShownPoints(Kept(t)) && t == SeptetsIn(Units(points))
    requires points != []
    ensures Reached(t, 1)
  {
    hide ShownPoints, KeptTo, ShownCodePoint, Units, SeptetsIn, Forced, ForcedSeptet, CountShown;
    FirstSeptet(points, t);
    FirstShown(points, t);
    FirstCharacter(points[0]);
    FirstForced();
  }

  /** Octets that all fit the length octet are all read. */
  lemma AllRead(u: Bytes)
    requires 0 < |u| <= 140
    ensures Unpacked(u, |u| % 256) == Kept(SeptetsIn(u))
  {
    hide Kept, SeptetsIn;
    var n := |u|;
    assert n % 256 == n && OctetsRead(n, n) == n && u[..n] == u;
  }

  lemma Ucs2NeverComesBack(text: Bytes)
    requires text != [] && |text| <= 70
    ensures Decoded(Unpacked(Ucs2Encoded(text), |Ucs2Encoded(text)| % 256)) != text
  {
    var u := Ucs2Encoded(text);
    hide *;
    if Decoded(Unpacked(u, |u| % 256)) == text {
      var points := ShownPoints(Unpacked(u, |u| % 256));
      ShownIsText(Unpacked(u, |u| % 256));
      TextToUnits(points);
      TextIsLonger(points);
      NoPoints(points);
      AllRead(u);
      var t := SeptetsIn(u);
      FirstReached(points, t);
      ReachedAll(points, t, 80);
      ReachedFollows(points, t, 80);
      TooMany(points);
    }
  }

  lemma NoPoints(points: seq<nat>)
    requires AllBelow(points, 0x800) && Utf8Text(points) != []
    ensures points != []
  {
  }

  lemma TooMany(points: seq<nat>)
    requires Follows(points, CountShown(80))
    ensures |points| >= 75
  {
  }

  /** The Cyrillic letter U+044F needs UCS-2, and is read as the two letters U+00E8 and U+00DF. */
  lemma LetterIsMisread(text: Bytes)
    requires text == [0xD1, 0x8F]
    ensures Encoded(text, false).None?
    ensures Ucs2Encoded(text) == [0x04, 0x4F]
    ensures Decoded(Unpacked(Ucs2Encoded(text), 2)) == [0xC3, 0xA8, 0xC3, 0x9F]
  {
    hide *;
    LetterUnits(text);
    LetterHasNoSeptet(text);
    var u: Bytes := [0x04, 0x4F];
    var t := SeptetsIn(u);
    AllRead(u);
    LetterSeptets(u);
    assert t == [0x04, 0x1E];
    LetterShown(t);
  }

  lemma LetterUnits(text: Bytes)
    requires text == [0xD1, 0x8F]
    ensures Ucs2Encoded(text) == [0x04, 0x4F]
  {
    hide Utf8Of, Ucs2Encoded;
    var none: Bytes := [];
    Utf8Pair(17, 15);
    assert text == Utf8Of(0x44F) + none;
    EncodeChar(0x44F, none);
    NoUnits(none);
  }

  lemma NoUnits(none: Bytes)
    requires none == []
    ensures Ucs2Encoded(none) == none
  {
  }

  lemma LetterHasNoSeptet(text: Bytes)
    requires text == [0xD1, 0x8F]
    ensures Encoded(text, false).None?
  {
    hide CharSeptets, Utf8Of, CodePointAt;
    NoPosition();
    Utf8Pair(17, 15);
    ReadBack(0x44F, text);
  }

  lemma NoPosition()
    ensures CharSeptets(0x44F).None?
  {
    hide PositionFrom;
    PositionFromFinds(0x44F, 0);
  }

  lemma LetterSeptets(u: Bytes)
    requires u == [0x04, 0x4F]
    ensures |SeptetsIn(u)| == 2 && SeptetsIn(u)[0] == 0x04 && SeptetsIn(u)[1] == 0x1E
  {
    hide SeptetsIn;
    SeptetAt(u, 0);
    SeptetAt(u, 1);
  }

  lemma LetterShown(t: seq<septet>)
    requires t == [0x04, 0x1E]
    ensures Decoded(Kept(t)) == [0xC3, 0xA8, 0xC3, 0x9F]
  {
    KeptStart(t);
    KeptStep(t, 1);
    var none: seq<byte> := [];
    assert Decoded(none) == [];
    assert t[1..] == [0x1E] && t[1..][1..] == none;
    assert Decoded(t[1..]) == [0xC3, 0x9F];
    assert Decoded(t) == [0xC3, 0xA8] + Decoded(t[1..]);
  }
}
