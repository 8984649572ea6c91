/** Hexadecimal text, semi-octets and address fields (sections 9.1.2.3 and 9.1.2.5 of 3GPP TS 23.040). */
module Address {
  import opened Wrappers
  import opened Sequences
  import opened Bits
  import opened Gsm7
  import opened Gsm7Text
  import opened Septets

  const PLUS: byte := 0x2B
  const ZERO: byte := 0x30
  const LETTER_F: byte := 0x46

  predicate IsDigit(c: byte) { ZERO <= c <= 0x39 }

  predicate AllDigits(s: Bytes) { forall i :: 0 <= i < |s| ==> IsDigit(s[i]) }

  /** The value of a hexadecimal digit; any other character counts as 0. */
  function HexValue(c: byte): (v: nat)
    ensures v < 16
  {
    if ZERO <= c <= 0x39 then c - ZERO
    else if 0x41 <= c <= 0x46 then c - 0x41 + 10
    else if 0x61 <= c <= 0x66 then c - 0x61 + 10
    else 0
  }

  /** Digits and letters of both cases have their value, other characters have 0. */
  lemma HexValueExactly(c: byte)
    ensures 0x30 <= c <= 0x39 ==> HexValue(c) == c - 0x30
    ensures 0x41 <= c <= 0x46 ==> HexValue(c) == c - 0x37
    ensures 0x61 <= c <= 0x66 ==> HexValue(c) == c - 0x57
    ensures HexValue(c) != 0 ==> 0x31 <= c <= 0x39 || 0x41 <= c <= 0x46 || 0x61 <= c <= 0x66
  {
  }

  /** (high << 4) | low */
  function Nibbles(high: nat, low: nat): (b: byte)
    requires high < 16 && low < 16
    ensures b == 16 * high + low
  {
    SmallShifts(1);
    SmallShifts(high);
    OrDisjoint(high, low, 4);
    Or(Shl(high, 4), low)
  }

  // ---------------------------------------------------------------- hexadecimal text

  function HexDigit(n: nat): byte
    requires n < 16
  {
    if n < 10 then ZERO + n else 0x41 + (n - 10)
  }

  function HexOf(bytes: Bytes): Bytes {
    if bytes == [] then [] else [HexDigit(bytes[0] / 16), HexDigit(bytes[0] % 16)] + HexOf(bytes[1..])
  }

  function BytesOf(hex: Bytes): Bytes {
    if |hex| < 2 then [] else [Nibbles(HexValue(hex[0]), HexValue(hex[1]))] + BytesOf(hex[2..])
  }

  method BytesToHex(bytes: Bytes) returns (hex: Bytes)
    ensures hex == HexOf(bytes)
  {
    hex := [];
    for i := 0 to |bytes|
      invariant hex + HexOf(bytes[i..]) == HexOf(bytes)
    {
      assert bytes[i..][1..] == bytes[i + 1..];
      hex := hex + [HexDigit(bytes[i] / 16), HexDigit(bytes[i] % 16)];
    }
  }

  method HexToBytes(hex: Bytes) returns (result: Bytes)
    ensures result == BytesOf(hex)
  {
    hide Nibbles, HexValue;
    result := [];
    var i := 0;
    while i + 1 < |hex|
      invariant 0 <= i <= |hex|
      invariant result + BytesOf(hex[i..]) == BytesOf(hex)
    {
      assert hex[i..][2..] == hex[i + 2..];
      result := result + [Nibbles(HexValue(hex[i]), HexValue(hex[i + 1]))];
      i := i + 2;
    }
  }

  lemma {:induction false} HexInverts(bytes: Bytes)
    ensures BytesOf(HexOf(bytes)) == bytes
  {
    if bytes != [] {
      var h := HexOf(bytes);
      assert HexValue(h[0]) == bytes[0] / 16 && HexValue(h[1]) == bytes[0] % 16;
      assert h[2..] == HexOf(bytes[1..]);
      HexInverts(bytes[1..]);
    }
  }

  /** Octet k is written as two of the characters 0 to 9 and A to F, its high half first. */
  lemma {:induction false} HexAt(bytes: Bytes, k: nat)
    requires k < |bytes|
    ensures
      var characters: Bytes := [0x30, 0x31, 0x32, 0x33, 0x34, 0x35, 0x36, 0x37, 0x38, 0x39, 0x41, 0x42, 0x43, 0x44, 0x45, 0x46];
      && |HexOf(bytes)| == 2 * |bytes|
      && HexOf(bytes)[2 * k] == characters[bytes[k] / 16] && HexOf(bytes)[2 * k + 1] == characters[bytes[k] % 16]
  {
    HexLength(bytes);
    if k > 0 {
      hide HexDigit;
      HexAt(bytes[1..], k - 1);
    }
  }

  lemma {:induction false} HexLength(bytes: Bytes)
    ensures |HexOf(bytes)| == 2 * |bytes|
  {
    if bytes != [] { HexLength(bytes[1..]); }
  }

  // ---------------------------------------------------------------- semi-octets

  function Padded(number: Bytes): Bytes {
    if |number| % 2 == 1 then number + [LETTER_F] else number
  }

  /** Digit pairs, the first digit in the low half. */
  function SemiOctets(num: Bytes): Bytes
    requires |num| % 2 == 0
  {
    if num == [] then [] else [Nibbles(HexValue(num[1]), HexValue(num[0]))] + SemiOctets(num[2..])
  }

  /** The characters of a semi-octet string, up to a filler in a high half. */
  function SemiText(encoded: Bytes): Bytes {
    if encoded == [] then []
    else
      var low, high := encoded[0] % 16, encoded[0] / 16;
      if high == 15 then [ZERO + low] else [ZERO + low, ZERO + high] + SemiText(encoded[1..])
  }

  /** Of each pair of digits, the first one stands in the low half of the octet. */
  lemma {:induction false} SemiOctetAt(num: Bytes, k: nat)
    requires |num| % 2 == 0 && 2 * k < |num|
    ensures |SemiOctets(num)| == |num| / 2
    ensures SemiOctets(num)[k] == HexValue(num[2 * k]) + 16 * HexValue(num[2 * k + 1])
  {
    hide HexValue;
    if k > 0 {
      SemiOctetAt(num[2..], k - 1);
      assert num[2..][2 * (k - 1)] == num[2 * k] && num[2..][2 * (k - 1) + 1] == num[2 * k + 1];
    } else {
      SemiOctetsLength(num);
    }
  }

  lemma SemiOctetsStep(num: Bytes, i: nat, result: Bytes)
    requires |num| % 2 == 0 && i % 2 == 0 && i < |num|
    ensures result + SemiOctets(num[i..])
         == result + [Nibbles(HexValue(num[i + 1]), HexValue(num[i]))] + SemiOctets(num[i + 2..])
  {
    hide Nibbles, HexValue;
    assert num[i..][2..] == num[i + 2..];
  }

  method SemiOctetsEncode(number: Bytes) returns (result: Bytes)
    ensures result == SemiOctets(Padded(number))
  {
    hide Nibbles, HexValue, SemiOctets;
    var num := number;
    if |num| % 2 == 1 {
      num := num + [LETTER_F];
    }
    result := [];
    var i := 0;
    assert num[0..] == num;
    while i < |num|
      invariant 0 <= i <= |num| && i % 2 == 0 && |num| % 2 == 0
      invariant result + SemiOctets(num[i..]) == SemiOctets(num)
    {
      SemiOctetsStep(num, i, result);
      result := result + [Nibbles(HexValue(num[i + 1]), HexValue(num[i]))];
      i := i + 2;
    }
    assert num[i..] == [];
    NoSemiOctets();
  }

  lemma NoSemiOctets()
    ensures SemiOctets([]) == []
  {
  }

  lemma SemiTextStep(encoded: Bytes, i: nat, result: Bytes)
    requires i < |encoded|
    ensures
      var low, high := encoded[i] % 16, encoded[i] / 16;
      result + SemiText(encoded[i..])
      == if high == 15 then result + [ZERO + low]
         else result + [ZERO + low] + [ZERO + high] + SemiText(encoded[i + 1..])
  {
    assert encoded[i..][1..] == encoded[i + 1..];
    var low, high := encoded[i] % 16, encoded[i] / 16;
    if high != 15 {
      RegroupPair(result, ZERO + low, ZERO + high, SemiText(encoded[i + 1..]));
    }
  }

  lemma SemiTextEnds(encoded: Bytes, result: Bytes)
    ensures SemiText(encoded[0..]) == SemiText(encoded)
    ensures result + SemiText(encoded[|encoded|..]) == result
  {
    assert encoded[0..] == encoded;
  }

  method SemiOctetsDecode(encoded: Bytes, numOctets: nat := 0) returns (result: Bytes)
    ensures result == SemiText(if numOctets == 0 then encoded else encoded[..Min(numOctets, |encoded|)])
  {
    hide SemiText;
    ghost var taken := if numOctets == 0 then encoded else encoded[..Min(numOctets, |encoded|)];
    result := [];
    var limit := if numOctets == 0 then |encoded| else numOctets;
    var i := 0;
    SemiTextEnds(taken, []);
    while i < limit && i < |encoded|
      invariant 0 <= i <= |taken|
      invariant result + SemiText(taken[i..]) == SemiText(taken)
    {
      SemiTextStep(taken, i, result);
      var octet := encoded[i];
      var low, high := octet % 16, octet / 16 % 16;
      result := result + [ZERO + low];
      if high == 15 {
        return;
      }
      result := result + [ZERO + high];
      i := i + 1;
    }
    SemiTextEnds(taken, result);
  }

  lemma PairShown(a: nat, b: nat, rest: Bytes)
    requires a < 16 && b < 16
    ensures SemiText([Nibbles(b, a)] + rest)
         == if b == 15 then [ZERO + a] else [ZERO + a, ZERO + b] + SemiText(rest)
  {
    hide Nibbles;
    assert ([Nibbles(b, a)] + rest)[1..] == rest;
  }

  lemma PairExactly(x: byte, y: byte, shown: Bytes, rest: Bytes)
    ensures
      var a, b := HexValue(x), HexValue(y);
      (if b == 15 then [ZERO + a] else [ZERO + a, ZERO + b] + shown) == [x, y] + rest
      <==> IsDigit(x) && IsDigit(y) && shown == rest
  {
    var a, b := HexValue(x), HexValue(y);
    if b != 15 && [ZERO + a, ZERO + b] + shown == [x, y] + rest {
      assert ([ZERO + a, ZERO + b] + shown)[2..] == shown;
      assert ([x, y] + rest)[2..] == rest;
      assert ([ZERO + a, ZERO + b] + shown)[0] == x && ([ZERO + a, ZERO + b] + shown)[1] == y;
    }
  }

  lemma DigitsSplit(number: Bytes)
    requires |number| >= 2
    ensures AllDigits(number) <==> IsDigit(number[0]) && IsDigit(number[1]) && AllDigits(number[2..])
    ensures number == [number[0], number[1]] + number[2..]
  {
    if AllDigits(number[2..]) && IsDigit(number[0]) && IsDigit(number[1]) {
      assert forall i :: 2 <= i < |number| ==> number[i] == number[2..][i - 2];
    }
  }

  lemma SemiOctetsSplit(number: Bytes)
    requires |number| >= 2
    ensures SemiOctets(Padded(number))
         == [Nibbles(HexValue(number[1]), HexValue(number[0]))] + SemiOctets(Padded(number[2..]))
  {
    hide Nibbles, HexValue;
    assert Padded(number)[2..] == Padded(number[2..]);
  }

  lemma LoneDigit(number: Bytes)
    requires |number| == 1
    ensures SemiText(SemiOctets(Padded(number))) == number <==> AllDigits(number)
  {
    var p := Padded(number);
    assert p[2..] == [];
    assert SemiOctets(p) == [Nibbles(15, HexValue(number[0]))] + [];
    PairShown(HexValue(number[0]), 15, []);
    hide SemiOctets, SemiText;
    assert AllDigits(number) <==> IsDigit(number[0]);
  }

  /** Semi-octets bring a number back exactly if it consists of digits. */
  lemma {:induction false} SemiOctetsExactly(number: Bytes)
    ensures SemiText(SemiOctets(Padded(number))) == number <==> AllDigits(number)
  {
    if number == [] {
    } else if |number| == 1 {
      LoneDigit(number);
    } else {
      hide *;
      SemiOctetsExactly(number[2..]);
      SemiOctetsPair(number, SemiOctets(Padded(number[2..])));
      DigitsSplit(number);
    }
  }

  lemma SemiOctetsPair(number: Bytes, encoded: Bytes)
    requires |number| >= 2 && encoded == SemiOctets(Padded(number[2..]))
    ensures SemiText(SemiOctets(Padded(number))) == number
       <==> IsDigit(number[0]) && IsDigit(number[1]) && SemiText(encoded) == number[2..]
  {
    hide *;
    var x, y, rest := number[0], number[1], number[2..];
    SemiOctetsSplit(number);
    PairShown(HexValue(x), HexValue(y), encoded);
    PairExactly(x, y, SemiText(encoded), rest);
    assert number == [x, y] + rest;
  }

  // ---------------------------------------------------------------- address fields

  datatype AddressField = AddressField(number: Bytes, length: byte, kind: byte, encoded: Bytes)

  datatype Numbering = International | National | Alphanumeric | Unknown

  /** How build_address_field classifies an address. */
  function NumberingOf(address: Bytes): Numbering {
    if address == [] then Unknown
    else if address[0] == PLUS && |address| > 1 then International
    else if AllDigits(address) then National
    else Alphanumeric
  }

  /** The type-of-address octet: 0x81 with the numbering bits or-ed in. */
  function TypeOfAddress(n: Numbering): byte {
    match n
    case Unknown => 0x81
    case International => 0x91
    case National => 0xA1
    case Alphanumeric => 0xD1
  }

  /** The characters of an address that are encoded. */
  function AddressValue(address: Bytes): Bytes {
    if NumberingOf(address) == International then address[1..] else address
  }

  function AddressSeptets(address: Bytes): seq<septet> {
    var s := Encoded(address, true);
    if s.Some? then s.value else []
  }

  function AddressOctets(address: Bytes): Bytes {
    if NumberingOf(address) == Alphanumeric then Packed(AddressSeptets(address), 0)
    else SemiOctets(Padded(AddressValue(address)))
  }

  /** The length octet, in the SMSC or the TPDU convention, cut to 8 bits. */
  function AddressLength(address: Bytes, smsc: bool): byte {
    (if NumberingOf(address) == Alphanumeric then |AddressOctets(address)| * 2
     else if smsc then |AddressOctets(address)| + 1
     else |AddressValue(address)|) % 256
  }

  function Built(address: Bytes, smsc: bool): AddressField {
    AddressField(address, AddressLength(address, smsc), TypeOfAddress(NumberingOf(address)), AddressOctets(address))
  }

  lemma {:induction false} DiscardNeverFails(text: Bytes)
    ensures Encoded(text, true).Some?
  {
    if text != [] {
      DiscardNeverFails(text[Utf8.CodePointAt(text, 0).length..]);
    }
  }

  lemma TypeBits()
    ensures Or(0x81, 0x10) == 0x91 && Or(0x81, 0x20) == 0xA1 && Or(0x81, 0x50) == 0xD1
  {
    SmallShifts(1);
    SmallShifts(2);
    SmallShifts(4);
    OrDisjoint(4, 8, 4);
    OrDisjoint(2, 0x10, 5);
    OrDisjoint(1, 0x28, 6);
    hide Shl;
    OrOdd(0x40, 8);
    OrOdd(0x40, 0x10);
    OrOdd(0x40, 0x28);
  }

  lemma OrOdd(a: nat, b: nat)
    requires b > 0
    ensures Or(2 * a + 1, 2 * b) == 2 * Or(a, b) + 1
  {
  }

  method BuildAddressField(address: Bytes, smscField: bool) returns (result: AddressField)
    ensures result == Built(address, smscField)
  {
    hide Encoded, Packed, SemiOctets, Or, AllDigits, Padded;
    TypeBits();
    var toa: nat := 0x81;
    var addrValue := [];
    var isAlphanumeric := false;
    if address != [] {
      if address[0] == PLUS && |address| > 1 {
        toa := Or(toa, 0x10);
        addrValue := address[1..];
      } else if AllDigits(address) {
        toa := Or(toa, 0x20);
        addrValue := address;
      } else {
        toa := Or(toa, 0x50);
        isAlphanumeric := true;
        addrValue := address;
      }
    }
    assert toa == TypeOfAddress(NumberingOf(address));
    assert addrValue == AddressValue(address);
    assert isAlphanumeric <==> NumberingOf(address) == Alphanumeric;
    hide NumberingOf, AddressValue, TypeOfAddress;
    if isAlphanumeric {
      var gsm7 := Gsm7Encode(addrValue, true);
      DiscardNeverFails(addrValue);
      assert addrValue == address;
      var encoded := SeptetsPack(gsm7.value);
      result := AddressField(address, |encoded| * 2 % 256, toa, encoded);
    } else {
      var encoded := SemiOctetsEncode(addrValue);
      var length := if smscField then (|encoded| + 1) % 256 else |addrValue| % 256;
      result := AddressField(address, length, toa, encoded);
    }
  }

  /** A number read from a PDU, and where reading goes on. */
  datatype Parsed = Parsed(number: Bytes, next: nat)

  /** Octets that follow the type-of-address octet. */
  function AddressSpan(length: byte, ton: nat, smsc: bool): nat
    requires length > 0
  {
    if ton == 5 || !smsc then (length + 1) / 2 else length - 1
  }

  function NumberFrom(octets: Bytes, ton: nat): Bytes {
    if ton == 5 then Decoded(Unpacked(octets, |octets|))
    else if ton == 1 then [PLUS] + SemiText(octets)
    else SemiText(octets)
  }

  /** The address field at pos, or None where the source would read past the end of the PDU. */
  function ParsedAddress(data: Bytes, pos: nat, smsc: bool): (r: Option<Parsed>)
    ensures r.Some? ==> pos < r.value.next <= |data|
  {
    if pos >= |data| then None
    else if data[pos] == 0 then Some(Parsed([], pos + 1))
    else if pos + 1 >= |data| then None
    else
      var ton := data[pos + 1] / 16 % 8;
      var start, count := pos + 2, AddressSpan(data[pos], ton, smsc);
      if start + count > |data| then None
      else Some(Parsed(NumberFrom(data[start..start + count], ton), start + count))
  }

  method ParseAddressField(data: Bytes, pos: nat, smscField: bool) returns (r: Option<Parsed>)
    ensures r == ParsedAddress(data, pos, smscField)
  {
    hide Decoded, Unpacked, SemiText;
    if pos >= |data| {
      return None;
    }
    var length: nat := data[pos];
    if length == 0 {
      return Some(Parsed([], pos + 1));
    }
    if pos + 1 >= |data| {
      return None;
    }
    var ton := data[pos + 1] / 16 % 8;
    var it := pos + 2;
    if ton == 5 {
      var octetCount := (length + 1) / 2;
      if it + octetCount > |data| {
        return None;
      }
      var encoded := data[it..it + octetCount];
      var septets := SeptetsUnpack(encoded, octetCount);
      var number := Gsm7Decode(septets);
      return Some(Parsed(number, it + octetCount));
    }
    var octetCount := if smscField then length - 1 else (length + 1) / 2;
    if it + octetCount > |data| {
      return None;
    }
    var encoded := data[it..it + octetCount];
    var decoded := SemiOctetsDecode(encoded, octetCount);
    assert encoded[..|encoded|] == encoded;
    var number := if ton == 1 then [PLUS] + decoded else decoded;
    return Some(Parsed(number, it + octetCount));
  }

  // ---------------------------------------------------------------- round trip

  /** An address field as it stands in a PDU. */
  function FieldOctets(address: Bytes, smsc: bool): Bytes {
    var f := Built(address, smsc);
    [f.length, f.kind] + f.encoded
  }

  /** What a caller can check: something is encoded, and its length fits the length octet. */
  predicate LengthFits(address: Bytes, smsc: bool) {
    var octets := |AddressOctets(address)|;
    if NumberingOf(address) == Alphanumeric then 1 <= octets <= 127
    else if smsc then octets <= 254
    else 1 <= |AddressValue(address)| <= 255
  }

  /** The number that is read back from the field of an address. */
  function NumberBack(address: Bytes): Bytes {
    match NumberingOf(address)
    case Alphanumeric => Decoded(Kept(AddressSeptets(address)))
    case International => [PLUS] + SemiText(SemiOctets(Padded(AddressValue(address))))
    case _ => SemiText(SemiOctets(Padded(AddressValue(address))))
  }

  lemma {:induction false} SemiOctetsLength(num: Bytes)
    requires |num| % 2 == 0
    ensures |SemiOctets(num)| == |num| / 2
  {
    if num != [] { SemiOctetsLength(num[2..]); }
  }

  lemma SpanIsWritten(address: Bytes, smsc: bool)
    requires LengthFits(address, smsc)
    ensures
      var f := Built(address, smsc);
      && f.length > 0
      && AddressSpan(f.length, f.kind / 16 % 8, smsc) == |f.encoded|
  {
    hide NumberingOf, Packed, SemiOctets, AddressValue, AddressSeptets;
    if NumberingOf(address) != Alphanumeric {
      SemiOctetsLength(Padded(AddressValue(address)));
    }
  }

  lemma NumberComesBack(address: Bytes, smsc: bool)
    ensures
      var f := Built(address, smsc);
      NumberFrom(f.encoded, f.kind / 16 % 8) == NumberBack(address)
  {
    hide NumberingOf, Packed, SemiOctets, AddressValue, AddressSeptets, Decoded, SemiText, Kept, Unpacked;
    if NumberingOf(address) == Alphanumeric {
      UnpackInvertsPack(AddressSeptets(address), |AddressOctets(address)|);
    }
  }

  /** Where the octets of a field stand in a PDU. */
  lemma FieldAt(before: Bytes, length: byte, kind: byte, encoded: Bytes, after: Bytes, data: Bytes)
    requires data == before + ([length, kind] + encoded) + after
    ensures
      var pos := |before|;
      && pos + 2 + |encoded| <= |data|
      && data[pos] == length && data[pos + 1] == kind
      && data[pos + 2..pos + 2 + |encoded|] == encoded
  {
    var pos := |before|;
    var field := [length, kind] + encoded;
    assert data[pos..pos + |field|] == field;
    assert data[pos] == field[0] && data[pos + 1] == field[1];
  }

  lemma ParsedAt(data: Bytes, pos: nat, smsc: bool, count: nat)
    requires pos + 2 + count <= |data| && data[pos] > 0
    requires AddressSpan(data[pos], data[pos + 1] / 16 % 8, smsc) == count
    ensures ParsedAddress(data, pos, smsc)
         == Some(Parsed(NumberFrom(data[pos + 2..pos + 2 + count], data[pos + 1] / 16 % 8), pos + 2 + count))
  {
    hide NumberFrom, AddressSpan;
  }

  lemma FieldIs(address: Bytes, smsc: bool)
    ensures
      var f := Built(address, smsc);
      FieldOctets(address, smsc) == [f.length, f.kind] + f.encoded
  {
    hide Built;
  }

  /** Reading an address field consumes exactly its octets, in both length conventions. */
  lemma FieldRoundTrip(address: Bytes, smsc: bool, before: Bytes, after: Bytes)
    requires LengthFits(address, smsc)
    ensures ParsedAddress(before + FieldOctets(address, smsc) + after, |before|, smsc)
         == Some(Parsed(NumberBack(address), |before| + |FieldOctets(address, smsc)|))
  {
    hide *;
    var f := Built(address, smsc);
    var data := before + FieldOctets(address, smsc) + after;
    FieldIs(address, smsc);
    FieldAt(before, f.length, f.kind, f.encoded, after, data);
    SpanIsWritten(address, smsc);
    NumberComesBack(address, smsc);
    ParsedAt(data, |before|, smsc, |f.encoded|);
  }

  lemma SpanIsMissed(address: Bytes, smsc: bool)
    requires !LengthFits(address, smsc)
    ensures
      var f := Built(address, smsc);
      f.length == 0 || AddressSpan(f.length, f.kind / 16 % 8, smsc) != |f.encoded|
  {
    hide NumberingOf, Packed, SemiOctets, AddressValue, AddressSeptets;
    if NumberingOf(address) != Alphanumeric {
      SemiOctetsLength(Padded(AddressValue(address)));
    }
  }

  /** The cursor ends behind the field if and only if the length fits its octet. */
  lemma CursorExactly(address: Bytes, smsc: bool, before: Bytes, after: Bytes)
    ensures
      var r := ParsedAddress(before + FieldOctets(address, smsc) + after, |before|, smsc);
      LengthFits(address, smsc) <==> r.Some? && r.value.next == |before| + |FieldOctets(address, smsc)|
  {
    var f := Built(address, smsc);
    var data := before + FieldOctets(address, smsc) + after;
    FieldIs(address, smsc);
    FieldAt(before, f.length, f.kind, f.encoded, after, data);
    hide Built, NumberFrom, AddressSpan, LengthFits, FieldOctets;
    if LengthFits(address, smsc) {
      FieldRoundTrip(address, smsc, before, after);
    } else {
      SpanIsMissed(address, smsc);
    }
  }

  lemma {:induction false} DiscardChangesNothing(text: Bytes)
    requires Encoded(text, false).Some?
    ensures Encoded(text, true) == Encoded(text, false)
  {
    if text != [] {
      EncodedCons(text, Encoded(text, false).value);
      hide CharSeptets;
      DiscardChangesNothing(text[Utf8.CodePointAt(text, 0).length..]);
    }
  }

  /** When the number read back is the address: exactly for digits, with or without a `+`, and for
      alphanumeric text of which no character is discarded, none is changed and no septet is dropped. */
  lemma NumberBackExactly(address: Bytes)
    requires address != []
    ensures NumberingOf(address) != Alphanumeric ==>
              (NumberBack(address) == address <==> AllDigits(AddressValue(address)))
    ensures NumberingOf(address) == Alphanumeric ==>
              (NumberBack(address) == address <==>
               && Encoded(address, false).Some?
               && Survives(address) && NothingDropped(Encoded(address, false).value))
  {
    if NumberingOf(address) == Alphanumeric {
      hide *;
      AlphanumericBackExactly(address);
    } else {
      assert NumberingOf(address) == International ==> address == [PLUS] + AddressValue(address);
      assert NumberingOf(address) == National ==> address == AddressValue(address);
      hide SemiText, SemiOctets, Padded, AllDigits;
      SemiOctetsExactly(AddressValue(address));
    }
  }

  lemma AlphanumericBackExactly(address: Bytes)
    requires NumberingOf(address) == Alphanumeric
    ensures NumberBack(address) == address
       <==> Encoded(address, false).Some? && Survives(address) && NothingDropped(Encoded(address, false).value)
  {
    hide *;
    if Encoded(address, false).Some? {
      DiscardChangesNothing(address);
      AlphanumericBack(address, Encoded(address, false).value);
    } else {
      DiscardedIsLost(address);
      NumberBackOfText(address);
    }
  }

  lemma NumberBackOfText(address: Bytes)
    requires NumberingOf(address) == Alphanumeric
    ensures Encoded(address, true).Some? && NumberBack(address) == Decoded(Kept(Encoded(address, true).value))
  {
    DiscardNeverFails(address);
    hide Encoded, Decoded, Kept, NumberingOf;
  }

  lemma TextBack(text: Bytes, s: seq<septet>)
    requires Encoded(text, false) == Some(s)
    ensures Decoded(Kept(s)) == text <==> Survives(text) && NothingDropped(s)
  {
    var none: seq<septet> := [];
    assert none + s == s;
    PackedTextExactly(text, s, none);
    hide Decoded, Kept, Survives, Dropped, Encoded;
    if Kept(s) != [] {
      assert Kept(s)[0..] == Kept(s);
    }
  }

  lemma AlphanumericBack(address: Bytes, s: seq<septet>)
    requires NumberingOf(address) == Alphanumeric
    requires Encoded(address, false) == Some(s) == Encoded(address, true)
    ensures NumberBack(address) == address <==> Survives(address) && NothingDropped(s)
  {
    TextBack(address, s);
    hide Decoded, Kept, Survives, NothingDropped, NumberingOf, Encoded;
  }

  /** An alphanumeric address with nothing to encode writes two octets of which one is read. */
  lemma EmptyFieldMisplacesTheCursor(address: Bytes, smsc: bool, before: Bytes, after: Bytes)
    requires NumberingOf(address) == Alphanumeric && AddressSeptets(address) == []
    ensures |FieldOctets(address, smsc)| == 2
    ensures ParsedAddress(before + FieldOctets(address, smsc) + after, |before|, smsc)
         == Some(Parsed([], |before| + 1))
  {
    hide Encoded, NumberingOf, AddressSeptets;
    assert AddressOctets(address) == [];
    assert (before + FieldOctets(address, smsc) + after)[|before|] == 0;
  }

  // ---------------------------------------------------------------- fields of any type

  /** Octets that are one address field: a length octet of zero, or length, type and as many octets as the
      length says. */
  predicate IsField(f: Bytes, smsc: bool) {
    f == [0x00] || (|f| >= 2 && f[0] > 0 && |f| == 2 + AddressSpan(f[0], f[1] / 16 % 8, smsc))
  }

  /** The number that a field holds. */
  function FieldNumber(f: Bytes): Bytes { if |f| < 2 then [] else NumberFrom(f[2..], f[1] / 16 % 8) }

  /** Any field is read to its end and no further, wherever it stands. */
  lemma FieldRead(f: Bytes, smsc: bool, before: Bytes, after: Bytes)
    requires IsField(f, smsc)
    ensures ParsedAddress(before + f + after, |before|, smsc) == Some(Parsed(FieldNumber(f), |before| + |f|))
  {
    var data := before + f + after;
    hide NumberFrom, AddressSpan;
    if |f| < 2 {
      assert data[|before|] == f[0];
    } else {
      assert f == [f[0], f[1]] + f[2..];
      FieldAt(before, f[0], f[1], f[2..], after, data);
      ParsedAt(data, |before|, smsc, |f| - 2);
    }
  }

  /** The fields that are built are such fields, if their length fits its octet. */
  lemma BuiltIsField(address: Bytes, smsc: bool)
    requires LengthFits(address, smsc)
    ensures IsField(FieldOctets(address, smsc), smsc) && FieldNumber(FieldOctets(address, smsc)) == NumberBack(address)
  {
    var f := Built(address, smsc);
    FieldIs(address, smsc);
    SpanIsWritten(address, smsc);
    NumberComesBack(address, smsc);
    assert FieldOctets(address, smsc)[2..] == f.encoded;
    hide Built, NumberFrom, AddressSpan, LengthFits, FieldOctets, NumberBack;
  }

  lemma DigitsAre(address: Bytes)
    ensures AllDigits(address) <==> forall i :: 0 <= i < |address| ==> 0x30 <= address[i] <= 0x39
  {
  }

  /** Digits come back from a field of any type but text, behind a plus sign exactly if it is international. */
  lemma DigitsRead(number: Bytes, kind: byte, smsc: bool)
    requires 1 <= |number| <= 255 && (forall i :: 0 <= i < |number| ==> 0x30 <= number[i] <= 0x39) && kind / 16 % 8 != 5
    ensures
      var octets := SemiOctets(if |number| % 2 == 1 then number + [0x46] else number);
      var f := [if smsc then (|number| + 1) / 2 + 1 else |number|, kind] + octets;
      && IsField(f, smsc)
      && FieldNumber(f) == if kind / 16 % 8 == 1 then [0x2B] + number else number
  {
    hide *;
    DigitsAre(number);
    PaddedIs(number);
    SemiOctetsExactly(number);
    SemiOctetsLength(Padded(number));
    DigitsField(number, SemiOctets(Padded(number)), kind, smsc);
  }

  lemma PaddedIs(number: Bytes)
    ensures Padded(number) == if |number| % 2 == 1 then number + [0x46] else number
    ensures |Padded(number)| == (|number| + 1) / 2 * 2
  {
  }

  lemma DigitsField(number: Bytes, octets: Bytes, kind: byte, smsc: bool)
    requires 1 <= |number| <= 255 && |octets| == (|number| + 1) / 2 && SemiText(octets) == number && kind / 16 % 8 != 5
    ensures
      var f := [if smsc then (|number| + 1) / 2 + 1 else |number|, kind] + octets;
      && IsField(f, smsc)
      && FieldNumber(f) == if kind / 16 % 8 == 1 then [0x2B] + number else number
  {
    hide SemiText;
    var f := [if smsc then (|number| + 1) / 2 + 1 else |number|, kind] + octets;
    assert f[2..] == octets;
  }

  /** Text comes back from a field of the text type, with any length octet that spans its octets, if and only
      if it survives coding and loses no zero septet. */
  lemma TextRead(text: Bytes, s: seq<septet>, kind: byte, length: byte, smsc: bool)
    requires kind / 16 % 8 == 5 && Encoded(text, false) == Some(s)
    requires length > 0 && (length + 1) / 2 == |Packed(s, 0)|
    ensures IsField([length, kind] + Packed(s, 0), smsc)
    ensures FieldNumber([length, kind] + Packed(s, 0)) == text <==> Survives(text) && NothingDropped(s)
  {
    var f := [length, kind] + Packed(s, 0);
    hide *;
    assert f[2..] == Packed(s, 0) && f[1] == kind && f[0] == length;
    TextField(f, smsc);
    UnpackInvertsPack(s, |Packed(s, 0)|);
    TextBack(text, s);
  }

  lemma TextField(f: Bytes, smsc: bool)
    requires |f| > 2 && f[1] / 16 % 8 == 5
    ensures f[0] > 0 && |f| - 2 == (f[0] as int + 1) / 2 ==> IsField(f, smsc)
    ensures FieldNumber(f) == Decoded(Unpacked(f[2..], |f[2..]|))
  {
    hide Decoded, Unpacked;
  }
}
