/** Packing of 7-bit characters into octets and back (section 6.1.2.1 of 3GPP TS 23.038). */
module Septets {
  import opened Bits

  /** Bits of the first octet that lie below the first septet, for a given header padding. */
  function FillBits(padBits: nat): (f: nat)
    requires padBits <= 6
  {
    (7 - padBits) % 7
  }

  /** Octets needed for n septets after the fill bits, the last octet filled up with zeros. */
  function OctetCount(n: nat, fill: nat): nat {
    (7 * n + fill + 7) / 8
  }

  /** The octets of the integer whose base-128 digits are the septets, moved up by the fill bits. */
  function Packed(septets: seq<septet>, padBits: nat): Bytes
    requires padBits <= 6
  {
    var fill := FillBits(padBits);
    if septets == [] then []
    else Octets(Shl(Little(7, septets), fill), OctetCount(|septets|, fill))
  }

  function Octets(v: int, n: nat): (r: Bytes)
    ensures r == Digits(8, v, n)
  {
    DigitsBelow(8, v, n);
    SmallShifts(1);
    Digits(8, v, n)
  }

  function SeptetsOf(v: int, n: nat): (r: seq<septet>)
    ensures r == Digits(7, v, n)
  {
    DigitsBelow(7, v, n);
    SmallShifts(1);
    Digits(7, v, n)
  }

  // ---------------------------------------------------------------- packing

  /** The octet that leaves the shift register when `next` enters it. */
  function OctetOut(next: septet, prev: septet, shift: nat): (b: byte)
    requires shift <= 6
  {
    RegisterBound(prev, shift);
    ShiftStep(prev, next, shift);
    Or(Shl(next, 7 - shift) % 256, Shr(prev, shift))
  }

  /** What the shift register still holds. */
  function Register(prev: septet, shift: nat): (r: byte)
    requires shift <= 7
  {
    RegisterBound(prev, shift);
    Shr(prev, shift)
  }

  lemma RegisterBound(prev: septet, shift: nat)
    requires shift <= 7
    ensures 0 <= Shr(prev, shift) < Shl(1, 7 - shift) <= 128
  {
    SmallShifts(1);
    ShrBound(prev, shift, 7 - shift);
    ShlShl(1, 7 - shift, shift);
    ShlMonotone(1, Shl(1, 7 - shift), shift);
    GrowsBy(Shl(1, 7 - shift), shift);
  }

  lemma {:induction false} GrowsBy(x: nat, k: nat)
    ensures x <= Shl(x, k)
  {
    if k > 0 { GrowsBy(x, k - 1); }
  }

  /** Nothing is lost between what was in the register, what leaves and what stays. */
  lemma ShiftStep(prev: septet, next: septet, shift: nat)
    requires shift <= 6
    ensures 0 <= Shl(next, 7 - shift) % 256 && 0 <= Shr(prev, shift)
    ensures
      var b := Or(Shl(next, 7 - shift) % 256, Shr(prev, shift));
      b < 256 && b + 256 * Shr(next, shift + 1) == Shr(prev, shift) + Shl(next, 7 - shift)
  {
    RegisterBound(prev, shift);
    var l := SplitShifted(next, shift);
    OrDisjoint(l, Shr(prev, shift), 7 - shift);
    hide *;
  }

  lemma SplitShifted(next: septet, shift: nat) returns (l: nat)
    requires shift <= 6
    ensures Shl(next, 7 - shift) % 256 == Shl(l, 7 - shift) <= 256 - Shl(1, 7 - shift)
    ensures Shl(next, 7 - shift) == 256 * Shr(next, shift + 1) + Shl(l, 7 - shift)
  {
    var h, k := Shr(next, shift + 1), 7 - shift;
    LowBound(next, shift + 1);
    l := Low(next, shift + 1);
    assert next == Shl(h, shift + 1) + l;
    hide *;
    ShlSum(Shl(h, shift + 1), l, k);
    ShlShl(h, shift + 1, k);
    SmallShifts(h);
    BelowTop(l, shift + 1, k);
    SmallShifts(1);
    assert shift + 1 + k == 8;
    Remainder(Shl(next, k), 256, h, Shl(l, k));
  }

  lemma Remainder(v: int, d: nat, h: int, l: int)
    requires (d == 128 || d == 256) && v == d * h + l && 0 <= l < d
    ensures v % d == l && v / d == h
  {
  }

  /** A number of m bits moved up by k still leaves room for the k bits below. */
  lemma BelowTop(l: nat, m: nat, k: nat)
    requires l < Shl(1, m)
    ensures 0 <= Shl(l, k) && Shl(l, k) + Shl(1, k) <= Shl(1, m + k)
  {
    ShlMonotone(0, l, k);
    ShlMonotone(l + 1, Shl(1, m), k);
    ShlSum(l, 1, k);
    ShlShl(1, m, k);
  }

  /** Octets out plus register content are the value read so far. */
  ghost predicate Conserved(out: Bytes, register: int, fill: nat, read: seq<septet>) {
    Little(8, out) + Shl(register, 8 * |out|) == Shl(Little(7, read), fill)
  }

  lemma ReadOne(read: seq<septet>, next: septet, fill: nat)
    ensures Shl(Little(7, read + [next]), fill)
         == Shl(Little(7, read), fill) + Shl(next, 7 * |read| + fill)
  {
    LittleSnoc(7, read, next);
    ShlSum(Little(7, read), Shl(next, 7 * |read|), fill);
    ShlShl(next, 7 * |read|, fill);
  }

  lemma ConserveShift(out: Bytes, register: int, fill: nat, read: seq<septet>, next: septet,
                      shift: nat, b: byte, register': int)
    requires shift <= 7 && 8 * |out| + 7 - shift == 7 * |read| + fill
    requires Conserved(out, register, fill, read)
    requires b + 256 * register' == register + Shl(next, 7 - shift)
    ensures Conserved(out + [b], register', fill, read + [next])
  {
    var w := 8 * |out|;
    LittleSnoc(8, out, b);
    ReadOne(read, next, fill);
    SmallShifts(register');
    ShlShl(register', 8, w);
    ShlSum(b, 256 * register', w);
    ShlSum(register, Shl(next, 7 - shift), w);
    ShlShl(next, 7 - shift, w);
  }

  /** What holds before each round of SeptetsPack. */
  ghost predicate Packing(out: Bytes, prev: septet, shift: nat, fill: nat, read: seq<septet>) {
    && shift <= 7
    && 8 * |out| + 7 - shift == 7 * |read| + fill
    && Conserved(out, Register(prev, shift), fill, read)
  }

  lemma PackingStarts(septets: seq<septet>, padBits: nat)
    requires padBits <= 6 && septets != []
    ensures padBits == 0 ==> Packing([], septets[0], 0, FillBits(0), septets[..1])
    ensures padBits > 0 ==> Packing([], 0, padBits, FillBits(padBits), septets[..0])
  {
    assert septets[..1] == [] + [septets[0]];
    ReadOne([], septets[0], 0);
    RegisterBound(0, padBits);
    assert Register(0, padBits) == 0 by { ZeroShr(padBits); }
    ShlMonotone(0, 0, FillBits(padBits));
  }

  lemma {:induction false} ZeroShr(k: nat)
    ensures Shr(0, k) == 0
  {
    if k > 0 { ZeroShr(k - 1); }
  }

  lemma PackingRefills(out: Bytes, prev: septet, fill: nat, read: seq<septet>, next: septet)
    requires Packing(out, prev, 7, fill, read)
    ensures Packing(out, next, 0, fill, read + [next])
  {
    SmallShifts(1);
    RegisterBound(prev, 7);
    ShlMonotone(0, 0, 8 * |out|);
    ReadOne(read, next, fill);
  }

  lemma PackingShifts(out: Bytes, prev: septet, shift: nat, fill: nat, read: seq<septet>, next: septet)
    requires shift <= 6 && Packing(out, prev, shift, fill, read)
    ensures Packing(out + [OctetOut(next, prev, shift)], next, shift + 1, fill, read + [next])
  {
    ShiftStep(prev, next, shift);
    ConserveShift(out, Register(prev, shift), fill, read, next, shift,
                  OctetOut(next, prev, shift), Register(next, shift + 1));
  }

  lemma PackedIsDigits(read: seq<septet>, padBits: nat)
    requires padBits <= 6 && read != []
    ensures
      var fill := FillBits(padBits);
      Packed(read, padBits) == Digits(8, Shl(Little(7, read), fill), OctetCount(|read|, fill))
  {
    hide Little, Shl, Digits, OctetCount, FillBits, Octets;
  }

  /** Nothing is left in the register. */
  lemma ConservedInOctets(out: Bytes, fill: nat, read: seq<septet>)
    requires Conserved(out, 0, fill, read)
    ensures Little(8, out) == Shl(Little(7, read), fill)
  {
    ShlMonotone(0, 0, 8 * |out|);
    hide Little, Shl;
  }

  lemma OctetsBelow(out: Bytes)
    ensures AllBelow(out, Shl(1, 8))
  {
    SmallShifts(1);
    hide Shl;
  }

  lemma PackedIsUnique(out: Bytes, padBits: nat, read: seq<septet>)
    requires padBits <= 6 && read != []
    requires Conserved(out, 0, FillBits(padBits), read)
    requires |out| == OctetCount(|read|, FillBits(padBits))
    ensures out == Packed(read, padBits)
  {
    hide *;
    PackedIsDigits(read, padBits);
    ConservedInOctets(out, FillBits(padBits), read);
    OctetsBelow(out);
    DigitsInvertLittle(8, out);
  }

  lemma PackingEnds(out: Bytes, prev: septet, shift: nat, padBits: nat, read: seq<septet>)
    requires padBits <= 6 && read != []
    requires Packing(out, prev, shift, FillBits(padBits), read)
    ensures (if shift != 7 then out + [Register(prev, shift)] else out) == Packed(read, padBits)
  {
    hide Little, Shl, Digits, Packed, FillBits;
    SmallShifts(1);
    ShlMonotone(0, 0, 8 * |out|);
    if shift != 7 {
      var r := Register(prev, shift);
      LittleSnoc(8, out, r);
      ShlMonotone(0, 0, 8 * |out + [r]|);
      PackedIsUnique(out + [r], padBits, read);
    } else {
      RegisterBound(prev, 7);
      PackedIsUnique(out, padBits, read);
    }
  }

  method SeptetsPack(septets: seq<septet>, padBits: nat := 0) returns (result: Bytes)
    requires padBits <= 6
    ensures result == Packed(septets, padBits)
  {
    if |septets| == 0 {
      return [];
    }
    PackingStarts(septets, padBits);
    hide Conserved, Packed, Register, OctetOut, FillBits;
    result := [];
    var shift: nat := padBits;
    var prevSeptet: septet := if padBits == 0 then septets[0] else 0;
    var i := if padBits == 0 then 1 else 0;
    while i < |septets|
      invariant 0 <= i <= |septets|
      invariant Packing(result, prevSeptet, shift, FillBits(padBits), septets[..i])
    {
      var septet := septets[i] % 128;
      assert septets[..i + 1] == septets[..i] + [septet];
      if shift == 7 {
        PackingRefills(result, prevSeptet, FillBits(padBits), septets[..i], septet);
        shift := 0;
        prevSeptet := septet;
      } else {
        PackingShifts(result, prevSeptet, shift, FillBits(padBits), septets[..i], septet);
        var b := OctetOut(septet, prevSeptet, shift);
        prevSeptet := septet;
        shift := shift + 1;
        result := result + [b];
      }
      i := i + 1;
    }
    assert septets[..i] == septets;
    PackingEnds(result, prevSeptet, shift, padBits, septets);
    if shift != 7 {
      result := result + [Register(prevSeptet, shift)];
    }
  }

  /** Packing conserves value: the octets read as a base-256 number are the septets read as a
      base-128 number, moved up by the fill bits. */
  lemma PackingConservesValue(septets: seq<septet>, padBits: nat)
    requires padBits <= 6 && septets != []
    ensures Little(8, Packed(septets, padBits)) == Shl(Little(7, septets), FillBits(padBits))
    ensures |Packed(septets, padBits)| == OctetCount(|septets|, FillBits(padBits))
  {
    var fill := FillBits(padBits);
    var v := Shl(Little(7, septets), fill);
    var n := OctetCount(|septets|, fill);
    assert Packed(septets, padBits) == Digits(8, v, n);
    hide *;
    EnoughOctets(|septets|, fill);
    ValueFits(septets, fill, n);
    LittleOfDigits(8, v, n);
  }

  lemma SeptetsBelow(s: seq<septet>)
    ensures AllBelow(s, Shl(1, 7))
  {
    SmallShifts(1);
  }

  lemma ValueFits(septets: seq<septet>, fill: nat, n: nat)
    requires 7 * |septets| + fill <= 8 * n
    ensures 0 <= Shl(Little(7, septets), fill) < Shl(1, 8 * n)
  {
    hide *;
    SeptetsBelow(septets);
    LittleBound(7, septets);
    BelowTop(Little(7, septets), 7 * |septets|, fill);
    ShlLonger(7 * |septets| + fill, 8 * n);
    ShlMonotone(0, 1, fill);
  }

  lemma EnoughOctets(n: nat, fill: nat)
    ensures 7 * n + fill <= 8 * OctetCount(n, fill) <= 7 * n + fill + 7
  {
  }

  lemma ShlLonger(m: nat, n: nat)
    requires m <= n
    ensures Shl(1, m) <= Shl(1, n)
  {
    ShlMonotone(0, 1, m);
    ShlShl(1, m, n - m);
    GrowsBy(Shl(1, m), n - m);
  }


  // ---------------------------------------------------------------- unpacking

  /** Octets that SeptetsUnpack reads; a request for 0 septets means all there may be. */
  function OctetsRead(available: nat, numSeptets: nat): (m: nat)
    ensures m <= available
  {
    Min(available, if numSeptets == 0 then available * 8 / 7 + 1 else numSeptets)
  }

  /** Septets that m octets hold: one for each, and one more for each seven. */
  function SeptetCount(m: nat): nat { m + m / 7 }

  /** The septets of an octet string, before any is dropped. */
  function SeptetsIn(octets: Bytes): (t: seq<septet>)
    ensures |t| == SeptetCount(|octets|)
  {
    SeptetsOf(Little(8, octets), SeptetCount(|octets|))
  }

  /** The septet at 8k+7 is left out when it is 0 and either ends the string or shares its octet with
      no set bit of its predecessor. */
  predicate Dropped(t: seq<septet>, k: nat)
    requires k < |t|
  {
    k % 8 == 7 && t[k] == 0 && (k + 1 == |t| || t[k - 1] < 64)
  }

  function KeptTo(t: seq<septet>, k: nat): seq<septet>
    requires k <= |t|
  {
    if k == 0 then [] else KeptTo(t, k - 1) + if Dropped(t, k - 1) then [] else [t[k - 1]]
  }

  function Kept(t: seq<septet>): seq<septet> { KeptTo(t, |t|) }

  function Unpacked(packed: Bytes, numSeptets: nat): seq<septet> {
    Kept(SeptetsIn(packed[..OctetsRead(|packed|, numSeptets)]))
  }

  /** The value above bit 8a + e of an octet string. */
  lemma ValueAbove(o: Bytes, a: nat, e: nat)
    requires a < |o|
    ensures Shr(Little(8, o), 8 * a + e) == Shr(o[a] + 256 * Little(8, o[a + 1..]), e)
  {
    var high := o[a..];
    SmallShifts(1);
    SmallShifts(Little(8, o[a + 1..]));
    assert high[1..] == o[a + 1..];
    assert Little(8, high) == o[a] + 256 * Little(8, o[a + 1..]);
    hide *;
    assert o == o[..a] + high;
    LittleDrop(8, o[..a], high);
    ShrShr(Little(8, o), 8 * a, e);
  }

  lemma LittleFrom(o: Bytes, j: nat)
    requires j < |o|
    ensures Little(8, o[j..]) == o[j] + 256 * Little(8, o[j + 1..])
  {
    assert o[j..][1..] == o[j + 1..];
    SmallShifts(Little(8, o[j + 1..]));
    hide Shl;
  }

  lemma CountAbove(g: nat, r: nat, m: nat)
    requires r <= 6 && 7 * g + r < m
    ensures 8 * g + r < SeptetCount(m)
  {
    assert m / 7 >= g;
  }

  lemma SeptetAbove(o: Bytes, k: nat, a: nat, e: nat)
    requires a < |o| && k < SeptetCount(|o|) && 7 * k == 8 * a + e
    ensures SeptetsIn(o)[k] == Low(Shr(o[a] + 256 * Little(8, o[a + 1..]), e), 7)
  {
    hide Little, Digits, Shr, Low;
    DigitAt(7, Little(8, o), SeptetCount(|o|), k);
    ValueAbove(o, a, e);
  }

  lemma LowSeven(v: int, l: int, h: int)
    requires v == l + 128 * h && 0 <= l < 128
    ensures Low(v, 7) == l
  {
    SmallShifts(1);
    SmallShifts(h);
    hide Shl, Shr;
    ShrOfShl(h, l, 7);
  }

  lemma ShrNone(v: int)
    ensures Shr(v, 0) == v
  {
  }

  /** A septet that starts on an octet boundary. */
  lemma SeptetAligned(o: Bytes, g: nat)
    requires 7 * g < |o|
    ensures 8 * g < SeptetCount(|o|) && SeptetsIn(o)[8 * g] == o[7 * g] % 128
  {
    hide *;
    CountAbove(g, 0, |o|);
    var x, rest := o[7 * g], Little(8, o[7 * g + 1..]);
    SeptetAbove(o, 8 * g, 7 * g, 0);
    ShrNone(x + 256 * rest);
    LowSeven(x + 256 * rest, x % 128, x / 128 + 2 * rest);
  }

  /** A septet that is the seven high bits of an octet. */
  lemma SeptetOnTop(o: Bytes, g: nat)
    requires 7 * g + 6 < |o|
    ensures 8 * g + 7 < SeptetCount(|o|) && SeptetsIn(o)[8 * g + 7] == o[7 * g + 6] / 2
  {
    hide *;
    CountOnTop(g, |o|);
    var x, rest := o[7 * g + 6], Little(8, o[7 * g + 7..]);
    SeptetAbove(o, 8 * g + 7, 7 * g + 6, 1);
    ShrOne(x, rest);
    LowSeven(x / 2 + 128 * rest, x / 2, rest);
  }

  lemma CountOnTop(g: nat, m: nat)
    requires 7 * g + 6 < m
    ensures 8 * g + 7 < SeptetCount(m)
  {
    assert m / 7 >= g + 1;
  }

  lemma ShrOne(x: byte, rest: int)
    ensures Shr(x + 256 * rest, 1) == x / 2 + 128 * rest
  {
    assert Shr(x + 256 * rest, 1) == Shr((x + 256 * rest) / 2, 0);
  }

  /** The septet SeptetsUnpack makes of an octet and its predecessor. */
  function Spanning(octet: byte, prevOctet: byte, shift: nat): (s: septet)
    requires 1 <= shift <= 6
  {
    SpanningIsSum(octet, prevOctet, shift);
    Or(Shl(octet, shift) % 128, Shr(prevOctet, 8 - shift))
  }

  lemma SpanningIsSum(octet: byte, prevOctet: byte, shift: nat)
    requires 1 <= shift <= 6
    ensures 0 <= Shl(octet, shift) % 128 && 0 <= Shr(prevOctet, 8 - shift)
    ensures Or(Shl(octet, shift) % 128, Shr(prevOctet, 8 - shift))
         == Shl(octet, shift) % 128 + Shr(prevOctet, 8 - shift) < 128
  {
    var l := MaskShifted(octet, shift);
    SmallShifts(1);
    hide Shl, Shr, Or;
    ShrBound(prevOctet, 8 - shift, shift);
    OrDisjoint(l, Shr(prevOctet, 8 - shift), shift);
  }

  lemma SpanningValue(octet: byte, prevOctet: byte, shift: nat)
    requires 1 <= shift <= 6
    ensures Spanning(octet, prevOctet, shift) == Shl(octet, shift) % 128 + Shr(prevOctet, 8 - shift)
  {
    hide Or, Shl, Shr;
    SpanningIsSum(octet, prevOctet, shift);
  }

  lemma MaskShifted(y: byte, k: nat) returns (l: nat)
    requires 1 <= k <= 6
    ensures Shl(y, k) % 128 == Shl(l, k) && Shl(l, k) + Shl(1, k) <= 128
  {
    var h := Shr(y, 7 - k);
    LowBound(y, 7 - k);
    l := Low(y, 7 - k);
    assert y == Shl(h, 7 - k) + l;
    hide *;
    ShlSum(Shl(h, 7 - k), l, k);
    ShlShl(h, 7 - k, k);
    SmallShifts(h);
    SmallShifts(1);
    BelowTop(l, 7 - k, k);
    ShlMonotone(0, 1, k);
    Remainder(Shl(y, k), 128, h, Shl(l, k));
  }

  /** A septet that spans two octets, as SeptetsUnpack computes it. */
  lemma SeptetSpanning(o: Bytes, g: nat, r: nat)
    requires 1 <= r <= 6 && 7 * g + r < |o|
    ensures 8 * g + r < SeptetCount(|o|)
    ensures SeptetsIn(o)[8 * g + r] == Spanning(o[7 * g + r], o[7 * g + r - 1], r)
  {
    hide *;
    CountAbove(g, r, |o|);
    SpanAt(o, 7 * g + r, 8 * g + r, r);
  }

  lemma SpanAt(o: Bytes, j: nat, k: nat, r: nat)
    requires 1 <= r <= 6 && 1 <= j < |o| && k < SeptetCount(|o|) && 7 * k == 8 * j - r
    ensures SeptetsIn(o)[k] == Spanning(o[j], o[j - 1], r)
  {
    hide *;
    var x, y := o[j - 1], o[j];
    SpanningValue(y, x, r);
    TwoOctetsAbove(o, j, k, 8 - r);
    SpanArithmetic(x, y, Little(8, o[j + 1..]), r);
  }

  /** A septet that starts in the octet before octet j. */
  lemma TwoOctetsAbove(o: Bytes, j: nat, k: nat, e: nat)
    requires 1 <= j < |o| && k < SeptetCount(|o|) && 7 * k == 8 * (j - 1) + e
    ensures SeptetsIn(o)[k] == Low(Shr(o[j - 1] + 256 * (o[j] + 256 * Little(8, o[j + 1..])), e), 7)
  {
    hide *;
    LittleFrom(o, j);
    SeptetAbove(o, k, j - 1, e);
  }

  lemma SpanArithmetic(x: byte, y: byte, rest: int, r: nat)
    requires 1 <= r <= 6
    ensures Low(Shr(x + 256 * (y + 256 * rest), 8 - r), 7) == Shl(y, r) % 128 + Shr(x, 8 - r)
  {
    hide *;
    SpanShift(x, y + 256 * rest, r);
    SmallShifts(1);
    ShrBound(x, 8 - r, r);
    SpanMask(y, rest, Shr(x, 8 - r), r);
  }

  lemma SpanShift(x: byte, h: int, r: nat)
    requires 1 <= r <= 6
    ensures Shr(x + 256 * h, 8 - r) == Shl(h, r) + Shr(x, 8 - r)
  {
    var d, l := Shr(x, 8 - r), Low(x, 8 - r);
    LowBound(x, 8 - r);
    assert x == Shl(d, 8 - r) + l;
    hide *;
    SmallShifts(h);
    ShlShl(h, r, 8 - r);
    ShlSum(Shl(h, r), d, 8 - r);
    ShrOfShl(Shl(h, r) + d, l, 8 - r);
  }

  lemma SpanMask(y: byte, rest: int, d: nat, r: nat)
    requires 1 <= r <= 6 && d < Shl(1, r)
    ensures Low(Shl(y + 256 * rest, r) + d, 7) == Shl(y, r) % 128 + d
  {
    hide *;
    var z := MaskShifted(y, r);
    ShlMonotone(0, z, r);
    ShlSum(y, 256 * rest, r);
    ShlOf256(rest, r);
    var c := Shl(y, r);
    LowSeven(c + 256 * Shl(rest, r) + d, c % 128 + d, c / 128 + 2 * Shl(rest, r));
  }

  lemma ShlOf256(x: int, k: nat)
    ensures Shl(256 * x, k) == 256 * Shl(x, k)
  {
    SmallShifts(x);
    SmallShifts(Shl(x, k));
    hide *;
    ShlShl(x, 8, k);
    ShlShl(x, k, 8);
  }

  /** Septets already decided after j octets: the one on top of a full group of seven waits. */
  function Settled(j: nat): nat { if j == 0 then 0 else j + (j - 1) / 7 }

  ghost predicate Unpacking(result: seq<septet>, octets: Bytes, j: nat, prevOctet: byte, shift: nat) {
    && j <= |octets|
    && prevOctet == (if j == 0 then 0 else octets[j - 1])
    && shift == (if j == 0 then 7 else (j - 1) % 7 + 1)
    && Settled(j) <= SeptetCount(|octets|)
    && result == KeptTo(SeptetsIn(octets), Settled(j))
  }

  lemma LowBitShifted(x: byte)
    ensures Shl(x, 6) % 128 == if x % 2 == 0 then 0 else 64
  {
    SmallShifts(x);
    var h := x / 2;
    Remainder(64 * x, 128, h, 64 * (x % 2));
  }

  lemma WaitingDropped(octets: Bytes, g: nat)
    requires 7 * g + 7 < |octets|
    ensures 8 * g + 8 < SeptetCount(|octets|)
    ensures SeptetsIn(octets)[8 * g + 7] == octets[7 * g + 6] / 2
    ensures Dropped(SeptetsIn(octets), 8 * g + 7) <==> octets[7 * g + 6] == 0
  {
    hide *;
    var x, w := octets[7 * g + 6], octets[7 * g + 5];
    CountAbove(g + 1, 0, |octets|);
    SeptetOnTop(octets, g);
    SeptetSpanning(octets, g, 6);
    SpanningSix(x, w);
    DroppedInside(SeptetsIn(octets), g);
  }

  lemma DroppedInside(t: seq<septet>, g: nat)
    requires 8 * g + 8 < |t|
    ensures Dropped(t, 8 * g + 7) <==> t[8 * g + 7] == 0 && t[8 * g + 6] < 64
  {
  }

  lemma SpanningSix(x: byte, w: byte)
    ensures Spanning(x, w, 6) < 64 <==> x % 2 == 0
  {
    SmallShifts(1);
    hide Shl, Shr, Or;
    SpanningIsSum(x, w, 6);
    ShrBound(w, 2, 6);
    LowBitShifted(x);
  }

  lemma KeepOne(t: seq<septet>, k: nat)
    requires k < |t| && k % 8 != 7
    ensures KeptTo(t, k + 1) == KeptTo(t, k) + [t[k]]
  {
  }

  lemma SettledAt(g: nat, r: nat, m: nat)
    requires r < 7 && 7 * g + r < m
    ensures Settled(7 * g + r + 1) == 8 * g + r + 1 <= SeptetCount(m)
    ensures r > 0 ==> Settled(7 * g + r) == 8 * g + r
    ensures r == 0 && g > 0 ==> Settled(7 * g + r) == 8 * g - 1
  {
    assert (7 * g + r) / 7 == g;
  }

  /** The waiting septet is dropped exactly when its octet is 0, once another octet follows. */
  lemma WaitingSeptet(octets: Bytes, g: nat)
    requires 7 * g + 7 < |octets|
    ensures 8 * g + 8 <= SeptetCount(|octets|)
    ensures KeptTo(SeptetsIn(octets), 8 * g + 8)
         == KeptTo(SeptetsIn(octets), 8 * g + 7)
            + if octets[7 * g + 6] == 0 then [] else [octets[7 * g + 6] / 2]
  {
    hide SeptetsIn, Dropped;
    WaitingDropped(octets, g);
  }

  lemma UnpackAligned(result: seq<septet>, octets: Bytes, j: nat, prevOctet: byte)
    requires Unpacking(result, octets, j, prevOctet, 7) && j < |octets|
    ensures Unpacking(result + (if prevOctet != 0 then [prevOctet / 2] else []) + [octets[j] % 128],
                      octets, j + 1, octets[j], 1)
  {
    hide SeptetsIn, KeptTo, SeptetCount, Settled;
    var g := j / 7;
    assert j == 7 * g;
    SettledAt(g, 0, |octets|);
    SeptetAligned(octets, g);
    var t := SeptetsIn(octets);
    KeepOne(t, 8 * g);
    if j > 0 {
      WaitingSeptet(octets, g - 1);
    } else {
      assert KeptTo(t, 0) == [] && Settled(0) == 0 by { StartsEmpty(t); }
    }
  }

  lemma StartsEmpty(t: seq<septet>)
    ensures KeptTo(t, 0) == [] && Settled(0) == 0
  {
  }

  lemma UnpackSpanning(result: seq<septet>, octets: Bytes, j: nat, prevOctet: byte, shift: nat)
    requires Unpacking(result, octets, j, prevOctet, shift) && shift != 7 && j < |octets|
    ensures 1 <= shift <= 6
    ensures Unpacking(result + [Spanning(octets[j], prevOctet, shift)], octets, j + 1, octets[j], shift + 1)
  {
    hide SeptetsIn, KeptTo, SeptetCount, Settled, Spanning;
    var g := j / 7;
    assert j == 7 * g + shift;
    SettledAt(g, shift, |octets|);
    SeptetSpanning(octets, g, shift);
    KeepOne(SeptetsIn(octets), 8 * g + shift);
  }

  lemma CountExactly(g: nat, r: nat)
    requires r <= 6
    ensures SeptetCount(7 * g + r + 1) == 8 * g + r + 1 + if r == 6 then 1 else 0
  {
  }

  lemma UnpackEnds(result: seq<septet>, octets: Bytes, prevOctet: byte, shift: nat)
    requires Unpacking(result, octets, |octets|, prevOctet, shift)
    ensures (if shift == 7 && prevOctet / 2 != 0 then result + [prevOctet / 2] else result)
         == Kept(SeptetsIn(octets))
  {
    var m, t := |octets|, SeptetsIn(octets);
    hide SeptetsIn, Settled, SeptetCount, KeptTo;
    if m == 0 {
      NothingSettled(t);
    } else {
      var g, r := (m - 1) / 7, (m - 1) % 7;
      assert m == 7 * g + r + 1;
      SettledAt(g, r, m);
      CountExactly(g, r);
      if shift == 7 {
        SeptetOnTop(octets, g);
        LastWaits(t, 8 * g + 7);
      }
    }
  }

  lemma NothingSettled(t: seq<septet>)
    ensures Settled(0) == SeptetCount(0) == 0 && KeptTo(t, 0) == []
  {
  }

  /** The last septet of a string that ends with a full group is dropped exactly when it is 0. */
  lemma LastWaits(t: seq<septet>, k: nat)
    requires |t| == k + 1 && k % 8 == 7
    ensures Kept(t) == KeptTo(t, k) + if t[k] == 0 then [] else [t[k]]
  {
  }

  lemma UnpackingStarts(octets: Bytes)
    ensures Unpacking([], octets, 0, 0, 7)
  {
    StartsEmpty(SeptetsIn(octets));
    hide SeptetsIn;
  }

  method SeptetsUnpack(packed: Bytes, numSeptets: nat := 0) returns (result: seq<septet>)
    ensures result == Unpacked(packed, numSeptets)
  {
    hide SeptetsIn, Spanning, Unpacking, Kept;
    result := [];
    var wanted := if numSeptets == 0 then |packed| * 8 / 7 + 1 else numSeptets;
    ghost var octets := packed[..OctetsRead(|packed|, numSeptets)];
    var count := 0;
    var prevOctet: byte := 0;
    var shift := 7;
    var i := 0;
    UnpackingStarts(octets);
    while i < |packed|
      invariant 0 <= i <= |packed| && count == i <= |octets|
      invariant Unpacking(result, octets, count, prevOctet, shift)
    {
      var octet := packed[i];
      i := i + 1;
      if count >= wanted {
        break;
      }
      count := count + 1;
      assert octet == octets[count - 1];
      if shift == 7 {
        UnpackAligned(result, octets, count - 1, prevOctet);
        assert result + [] == result;
        shift := 1;
        if prevOctet != 0 {
          result := result + [prevOctet / 2];
        }
        if count <= wanted {
          result := result + [octet % 128];
          prevOctet := octet;
        }
        if count == wanted {
          break;
        }
        continue;
      }
      UnpackSpanning(result, octets, count - 1, prevOctet, shift);
      var b := Spanning(octet, prevOctet, shift);
      prevOctet := octet;
      result := result + [b];
      shift := shift + 1;
      if count == wanted {
        break;
      }
    }
    assert count == |octets|;
    UnpackEnds(result, octets, prevOctet, shift);
    if shift == 7 && prevOctet != 0 {
      var b := prevOctet / 2;
      if b != 0 {
        result := result + [b];
      }
    }
  }

  // ---------------------------------------------------------------- unpacking after packing

  /** Padding that moves text behind a header of h octets to a septet boundary. */
  function HeaderPad(h: nat): (pad: nat)
    ensures pad <= 6
  {
    h * 8 % 7
  }

  /** Septets that a header of h octets and its fill bits take. */
  function HeaderSeptets(h: nat): nat { (h * 8 + 6) / 7 }

  /** The septets in which a header is seen when the user data are unpacked from their start. */
  function Lead(header: Bytes): (lead: seq<septet>)
    ensures |lead| == HeaderSeptets(|header|)
  {
    SeptetsOf(Little(8, header), HeaderSeptets(|header|))
  }

  lemma LeadValue(header: Bytes)
    ensures Little(7, Lead(header)) == Little(8, header)
  {
    SmallShifts(1);
    var u := HeaderSeptets(|header|);
    hide Little, Digits, Shl;
    LittleBound(8, header);
    ShlLonger(8 * |header|, 7 * u);
    LittleOfDigits(7, Little(8, header), u);
  }

  /** A zero septet that only fills the last octet is not seen. */
  lemma KeptIgnoresFiller(t: seq<septet>)
    requires |t| % 8 == 7
    ensures Kept(t + [0]) == Kept(t)
  {
    KeptToAgrees(t + [0], t, |t|);
    assert Dropped(t + [0], |t|);
  }

  lemma {:induction false} KeptToAgrees(t: seq<septet>, u: seq<septet>, k: nat)
    requires u <= t && k <= |u| && |u| % 8 == 7
    ensures KeptTo(t, k) == KeptTo(u, k)
  {
    if k > 0 {
      KeptToAgrees(t, u, k - 1);
      assert Dropped(t, k - 1) == Dropped(u, k - 1);
    }
  }

  lemma PackedShape(s: seq<septet>, pad: nat)
    requires pad <= 6 && (s == [] ==> pad == 0)
    ensures |Packed(s, pad)| == OctetCount(|s|, FillBits(pad))
    ensures Little(8, Packed(s, pad)) == Shl(Little(7, s), FillBits(pad))
  {
    if s != [] {
      hide *;
      PackingConservesValue(s, pad);
    } else {
      ShlMonotone(0, 0, FillBits(pad));
      hide Digits, Shl;
    }
  }

  lemma CountInPacked(h: nat, n: nat)
    ensures 8 * h + FillBits(HeaderPad(h)) == 7 * HeaderSeptets(h)
    ensures h + OctetCount(n, FillBits(HeaderPad(h))) == (7 * (HeaderSeptets(h) + n) + 7) / 8
  {
    PadFills(h);
    hide *;
    OctetsBehind(h, n, FillBits(HeaderPad(h)), HeaderSeptets(h));
  }

  lemma PadFills(h: nat)
    ensures 8 * h + FillBits(HeaderPad(h)) == 7 * HeaderSeptets(h)
  {
  }

  lemma OctetsBehind(h: nat, n: nat, fill: nat, lead: nat)
    requires 8 * h + fill == 7 * lead
    ensures h + OctetCount(n, fill) == (7 * (lead + n) + 7) / 8
  {
    assert 7 * (lead + n) + 7 == 8 * h + (7 * n + fill + 7);
  }

  /** Zero septets that show up behind N packed ones. */
  function Filler(n: nat): nat { if n % 8 == 7 then 1 else 0 }

  lemma SeptetCountOfPacked(n: nat)
    ensures (7 * n + 7) / 8 <= n
    ensures SeptetCount((7 * n + 7) / 8) == n + Filler(n)
  {
    var g, r := n / 8, n % 8;
    assert n == 8 * g + r;
    assert (7 * n + 7) / 8 == 7 * g + r;
  }

  lemma ValueInPacked(header: Bytes, s: seq<septet>)
    requires s == [] ==> HeaderPad(|header|) == 0
    ensures Little(8, header + Packed(s, HeaderPad(|header|)))
         == Little(7, Lead(header)) + Shl(Little(7, s), 7 * |Lead(header)|)
  {
    hide *;
    var h := |header|;
    var pad := HeaderPad(h);
    var packed, v := Packed(s, pad), Little(7, s);
    PackedShape(s, pad);
    CountInPacked(h, |s|);
    LeadValue(header);
    LittleAppend(8, header, packed);
    ShlShl(v, FillBits(pad), 8 * h);
  }

  lemma DigitsOfText(lead: seq<septet>, s: seq<septet>, extra: nat)
    requires extra <= 1
    ensures SeptetsOf(Little(7, lead) + Shl(Little(7, s), 7 * |lead|), |lead| + |s| + extra)
         == lead + s + if extra == 0 then [] else [0]
  {
    hide *;
    var zeros := if extra == 0 then [] else [0];
    SeptetsFit(lead);
    SeptetsFit(s);
    ZeroDigits(extra);
    ShlMonotone(0, 0, 7 * |s|);
    DigitsOfLittle(7, lead, Little(7, s), |s| + extra);
    DigitsOfLittle(7, s, 0, extra);
    assert lead + (s + zeros) == lead + s + zeros;
  }

  lemma SeptetsFit(s: seq<septet>)
    ensures AllBelow(s, Shl(1, 7))
  {
    SmallShifts(1);
    hide Shl;
  }

  lemma ZeroDigits(n: nat)
    requires n <= 1
    ensures Digits(7, 0, n) == if n == 0 then [] else [0]
  {
    ShlMonotone(0, 0, 7);
    ZeroShr(7);
  }

  /** The septets of a header followed by packed text are those of the header, the text, and at
      most one zero of filling. */
  lemma SeptetsInPacked(header: Bytes, s: seq<septet>)
    requires s == [] ==> HeaderPad(|header|) == 0
    ensures |header + Packed(s, HeaderPad(|header|))| <= |Lead(header) + s|
    ensures SeptetsIn(header + Packed(s, HeaderPad(|header|)))
         == Lead(header) + s + if |Lead(header) + s| % 8 == 7 then [0] else []
  {
    hide Digits, Little, Shl, Packed, SeptetsOf, HeaderPad, HeaderSeptets, OctetCount, FillBits;
    PackedShape(s, HeaderPad(|header|));
    ValueInPacked(header, s);
    CountInPacked(|header|, |s|);
    SeptetCountOfPacked(|Lead(header) + s|);
    DigitsOfText(Lead(header), s, Filler(|Lead(header) + s|));
  }

  /** Unpacking what was packed behind a header gives the header's septets and the text, except for
      the dropped zeros. */
  lemma UnpackAfterPack(header: Bytes, s: seq<septet>, numSeptets: nat)
    requires s == [] ==> HeaderPad(|header|) == 0
    requires numSeptets == 0 || numSeptets >= |header + Packed(s, HeaderPad(|header|))|
    ensures Unpacked(header + Packed(s, HeaderPad(|header|)), numSeptets) == Kept(Lead(header) + s)
  {
    hide Packed, SeptetsIn, Kept, Lead, HeaderPad;
    var octets := header + Packed(s, HeaderPad(|header|));
    SeptetsInPacked(header, s);
    assert OctetsRead(|octets|, numSeptets) == |octets|;
    assert octets[..|octets|] == octets;
    var t := Lead(header) + s;
    if |t| % 8 == 7 {
      KeptIgnoresFiller(t);
    } else {
      assert t + [] == t;
    }
  }

  /** Without a header: unpacking inverts packing exactly up to the dropped zeros. */
  lemma UnpackInvertsPack(s: seq<septet>, numSeptets: nat)
    requires numSeptets == 0 || numSeptets >= |Packed(s, 0)|
    ensures Unpacked(Packed(s, 0), numSeptets) == Kept(s)
  {
    hide Digits, Little, Shl, Packed, Unpacked, Kept, SeptetsOf;
    var header: Bytes := [];
    assert HeaderPad(|header|) == 0 && Lead(header) == [];
    assert header + Packed(s, 0) == Packed(s, 0);
    assert Lead(header) + s == s;
    UnpackAfterPack(header, s, numSeptets);
  }

  ghost predicate NothingDropped(t: seq<septet>) {
    forall k :: 0 <= k < |t| ==> !Dropped(t, k)
  }

  lemma {:induction false} KeptLength(t: seq<septet>, k: nat)
    requires k <= |t|
    ensures |KeptTo(t, k)| <= k
    ensures KeptTo(t, k) == t[..k] <==> forall i :: 0 <= i < k ==> !Dropped(t, i)
    ensures |KeptTo(t, k)| == k <==> KeptTo(t, k) == t[..k]
  {
    if k > 0 {
      KeptLength(t, k - 1);
      assert t[..k] == t[..k - 1] + [t[k - 1]];
    }
  }

  lemma PackedIsShorter(s: seq<septet>)
    ensures |Packed(s, 0)| == (7 * |s| + 7) / 8 <= |s|
  {
    PackedShape(s, 0);
    SeptetCountOfPacked(|s|);
    hide Packed, Little;
  }

  /** The round trip is exact if and only if no septet meets the dropping condition. */
  lemma RoundTripExactly(s: seq<septet>)
    ensures Unpacked(Packed(s, 0), |s|) == s <==> NothingDropped(s)
  {
    hide Packed, Unpacked, KeptTo, Dropped;
    PackedIsShorter(s);
    UnpackInvertsPack(s, |s|);
    KeptLength(s, |s|);
    assert s[..|s|] == s;
  }

  /** Eight `@` characters come back as seven. */
  lemma TrailingZeroIsLost()
    ensures Unpacked(Packed([0, 0, 0, 0, 0, 0, 0, 0], 0), 8) == [0, 0, 0, 0, 0, 0, 0]
  {
    hide Unpacked, Packed, KeptTo;
    var s: seq<septet> := [0, 0, 0, 0, 0, 0, 0, 0];
    PackedIsShorter(s);
    UnpackInvertsPack(s, 8);
    KeptLength(s, 7);
    assert forall i :: 0 <= i < 7 ==> !Dropped(s, i);
    assert s[..7] == [0, 0, 0, 0, 0, 0, 0];
    LastDropped(s);
  }

  lemma LastDropped(t: seq<septet>)
    requires t != [] && Dropped(t, |t| - 1)
    ensures Kept(t) == KeptTo(t, |t| - 1)
  {
  }
}
