/** Shifts, octets, septets, and the integers that strings of digits denote.

    All arithmetic is on unbounded integers: a mask of low bits is a remainder, and a cast to
    an unsigned type of n bits is a remainder by its range. Shifts are by repeated doubling and
    halving, which keeps every proof here linear. */
module Bits {

  type byte = x: int | 0 <= x < 256
  type septet = x: int | 0 <= x < 128
  type Bytes = seq<byte>

  function Min(a: int, b: int): int { if a <= b then a else b }

  /** x << k */
  function Shl(x: int, k: nat): int { if k == 0 then x else 2 * Shl(x, k - 1) }

  /** x >> k */
  function Shr(x: int, k: nat): int
    decreases k
  {
    if k == 0 then x else Shr(x / 2, k - 1)
  }

  /** The k low bits of x. */
  function Low(x: int, k: nat): int { x - Shl(Shr(x, k), k) }

  lemma SmallShifts(x: int)
    ensures Shl(x, 0) == x && Shl(x, 1) == 2 * x && Shl(x, 2) == 4 * x && Shl(x, 3) == 8 * x
    ensures Shl(x, 4) == 16 * x && Shl(x, 5) == 32 * x && Shl(x, 6) == 64 * x && Shl(x, 7) == 128 * x
    ensures Shl(x, 8) == 256 * x
  {
    assert Shl(x, 1) == 2 * x;
    assert Shl(x, 2) == 4 * x;
    assert Shl(x, 3) == 8 * x;
    assert Shl(x, 4) == 16 * x;
    assert Shl(x, 5) == 32 * x;
    assert Shl(x, 6) == 64 * x;
    assert Shl(x, 7) == 128 * x;
  }

  lemma {:induction false} ShlSum(x: int, y: int, k: nat)
    ensures Shl(x + y, k) == Shl(x, k) + Shl(y, k)
  {
    if k > 0 { ShlSum(x, y, k - 1); }
  }

  lemma {:induction false} ShlShl(x: int, a: nat, b: nat)
    ensures Shl(Shl(x, a), b) == Shl(x, a + b)
  {
    if b > 0 { ShlShl(x, a, b - 1); }
  }

  lemma {:induction false} ShlMonotone(x: int, y: int, k: nat)
    ensures x <= y ==> Shl(x, k) <= Shl(y, k)
    ensures x < y ==> Shl(x, k) < Shl(y, k)
    ensures Shl(0, k) == 0
  {
    if k > 0 { ShlMonotone(x, y, k - 1); }
  }

  lemma {:induction false} ShrShr(x: int, a: nat, b: nat)
    ensures Shr(Shr(x, a), b) == Shr(x, a + b)
    decreases a
  {
    if a > 0 { ShrShr(x / 2, a - 1, b); }
  }

  /** Shifting right undoes shifting left, whatever the vacated bits hold. */
  lemma {:induction false} ShrOfShl(x: int, r: int, k: nat)
    requires 0 <= r < Shl(1, k)
    ensures Shr(Shl(x, k) + r, k) == x
    decreases k
  {
    if k > 0 {
      assert (Shl(x, k) + r) / 2 == Shl(x, k - 1) + r / 2;
      ShrOfShl(x, r / 2, k - 1);
    }
  }

  lemma {:induction false} LowBound(x: int, k: nat)
    ensures 0 <= Low(x, k) < Shl(1, k)
    decreases k
  {
    if k > 0 { LowBound(x / 2, k - 1); }
  }

  lemma {:induction false} ShrBound(x: int, k: nat, n: nat)
    requires 0 <= x < Shl(1, n + k)
    ensures 0 <= Shr(x, k) < Shl(1, n)
    decreases k
  {
    if k > 0 { ShrBound(x / 2, k - 1, n); }
  }

  /** Bitwise or of two non-negative integers. */
  function Or(a: nat, b: nat): nat {
    if a == 0 then b
    else if b == 0 then a
    else 2 * Or(a / 2, b / 2) + Min(1, a % 2 + b % 2)
  }

  /** Operands with no bit in common: the or is the sum. */
  lemma {:induction false} OrDisjoint(a: nat, b: nat, k: nat)
    requires b < Shl(1, k)
    ensures Shl(a, k) >= 0 && Or(Shl(a, k), b) == Shl(a, k) + b
    decreases k
  {
    ShlMonotone(0, a, k);
    if k > 0 {
      ShlMonotone(0, a, k - 1);
      OrDisjoint(a, b / 2, k - 1);
    }
  }

  ghost predicate AllBelow(s: seq<int>, bound: int) {
    forall i :: 0 <= i < |s| ==> 0 <= s[i] < bound
  }

  /** The number of bits in n digits of w bits. */
  function Span(w: nat, n: nat): (b: nat)
    ensures w == 7 ==> b == 7 * n
    ensures w == 8 ==> b == 8 * n
    decreases n
  {
    if n == 0 then 0 else w + Span(w, n - 1)
  }

  /** The integer whose digits of w bits are s, least significant first. */
  function Little(w: nat, s: seq<int>): int {
    if s == [] then 0 else s[0] + Shl(Little(w, s[1..]), w)
  }

  /** The n least significant digits of w bits of v, least significant first. */
  function Digits(w: nat, v: int, n: nat): (s: seq<int>)
    ensures |s| == n
    decreases n
  {
    if n == 0 then [] else [Low(v, w)] + Digits(w, Shr(v, w), n - 1)
  }

  lemma {:induction false} DigitsBelow(w: nat, v: int, n: nat)
    ensures AllBelow(Digits(w, v, n), Shl(1, w))
    decreases n
  {
    if n > 0 {
      LowBound(v, w);
      DigitsBelow(w, Shr(v, w), n - 1);
    }
  }

  lemma {:induction false} LittleAppend(w: nat, a: seq<int>, b: seq<int>)
    ensures Little(w, a + b) == Little(w, a) + Shl(Little(w, b), Span(w, |a|))
  {
    if a == [] {
      assert a + b == b;
    } else {
      var tail := a[1..];
      assert (a + b)[1..] == tail + b;
      LittleAppend(w, tail, b);
      ShlSum(Little(w, tail), Shl(Little(w, b), Span(w, |tail|)), w);
      ShlShl(Little(w, b), Span(w, |tail|), w);
      assert Span(w, |tail|) + w == Span(w, |a|);
    }
  }

  lemma LittleSnoc(w: nat, a: seq<int>, d: int)
    ensures Little(w, a + [d]) == Little(w, a) + Shl(d, Span(w, |a|))
  {
    LittleAppend(w, a, [d]);
    ShlMonotone(0, 0, w);
    assert Little(w, [d]) == d;
  }

  lemma {:induction false} LittleBound(w: nat, s: seq<int>)
    requires AllBelow(s, Shl(1, w))
    ensures 0 <= Little(w, s) < Shl(1, Span(w, |s|))
  {
    if s != [] {
      var tail := s[1..];
      var t := Little(w, tail);
      LittleBound(w, tail);
      assert Span(w, |tail|) + w == Span(w, |s|);
      ShlShl(1, Span(w, |tail|), w);
      ShlMonotone(0, t, w);
      ShlMonotone(t + 1, Shl(1, Span(w, |tail|)), w);
      ShlSum(t, 1, w);
    }
  }

  /** Digits inverts Little, and goes on with the digits of whatever is added above. */
  lemma {:induction false} DigitsOfLittle(w: nat, s: seq<int>, v: int, n: nat)
    requires AllBelow(s, Shl(1, w))
    ensures Digits(w, Little(w, s) + Shl(v, Span(w, |s|)), |s| + n) == s + Digits(w, v, n)
  {
    if s == [] {
      assert s + Digits(w, v, n) == Digits(w, v, n);
    } else {
      var tail := s[1..];
      var rest := Little(w, tail) + Shl(v, Span(w, |tail|));
      assert Span(w, |tail|) + w == Span(w, |s|);
      ShlShl(v, Span(w, |tail|), w);
      ShlSum(Little(w, tail), Shl(v, Span(w, |tail|)), w);
      ShrOfShl(rest, s[0], w);
      DigitsOfLittle(w, tail, v, n);
      assert s + Digits(w, v, n) == [s[0]] + (tail + Digits(w, v, n));
    }
  }

  lemma {:induction false} DigitsInvertLittle(w: nat, s: seq<int>)
    requires AllBelow(s, Shl(1, w))
    ensures Digits(w, Little(w, s), |s|) == s
  {
    if s != [] {
      ShrOfShl(Little(w, s[1..]), s[0], w);
      DigitsInvertLittle(w, s[1..]);
    }
  }

  /** Little inverts Digits when the digits are enough for the number. */
  lemma {:induction false} LittleOfDigits(w: nat, v: int, n: nat)
    requires 0 <= v < Shl(1, Span(w, n))
    ensures Little(w, Digits(w, v, n)) == v
    decreases n
  {
    if n > 0 {
      assert Span(w, n - 1) + w == Span(w, n);
      ShrBound(v, w, Span(w, n - 1));
      LittleOfDigits(w, Shr(v, w), n - 1);
      assert Digits(w, v, n)[1..] == Digits(w, Shr(v, w), n - 1);
    }
  }

  lemma {:induction false} DigitAt(w: nat, v: int, n: nat, k: nat)
    requires k < n
    ensures Digits(w, v, n)[k] == Low(Shr(v, Span(w, k)), w)
    decreases k
  {
    if k > 0 {
      DigitAt(w, Shr(v, w), n - 1, k - 1);
      assert w + Span(w, k - 1) == Span(w, k);
      ShrShr(v, w, Span(w, k - 1));
    }
  }

  /** Dropping low digits shifts their bits out. */
  lemma LittleDrop(w: nat, low: seq<int>, high: seq<int>)
    requires AllBelow(low, Shl(1, w))
    ensures Shr(Little(w, low + high), Span(w, |low|)) == Little(w, high)
  {
    LittleAppend(w, low, high);
    LittleBound(w, low);
    ShrOfShl(Little(w, high), Little(w, low), Span(w, |low|));
  }
}
