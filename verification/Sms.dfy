/** Incoming messages, and the key under which the parts of a message are collected. */
module Sms {
  import opened Bits
  import opened Decimals
  import opened PduDecode

  datatype IncomingSms = IncomingSms(
    index: byte, storage: Bytes, decoded: PduMessage, pduHex: Bytes, success: bool, isComplete: bool,
    status: byte, originalIndices: seq<byte>)

  /** Whether a message is one part of several. */
  predicate IsPart(m: IncomingSms) { m.decoded.hasUdh && m.decoded.concat.concatTotal > 1 }

  // ---------------------------------------------------------------- the key of a group

  const UNDERSCORE: byte := 0x5F

  function CacheKey(sender: Bytes, reference: nat): Bytes {
    sender + [UNDERSCORE] + Decimal(reference)
  }

  function KeyOf(m: IncomingSms): Bytes { CacheKey(m.decoded.number, m.decoded.concat.concatRef) }

  lemma LastUnderscore(s: Bytes, n: nat)
    ensures |s| < |CacheKey(s, n)| && CacheKey(s, n)[|s|] == UNDERSCORE
    ensures forall i :: |s| < i < |CacheKey(s, n)| ==> CacheKey(s, n)[i] != UNDERSCORE
    ensures CacheKey(s, n)[..|s|] == s && CacheKey(s, n)[|s| + 1..] == Decimal(n)
  {
    DecimalDigits(n);
    hide Decimal;
    var key := CacheKey(s, n);
    forall i | |s| < i < |key| ensures key[i] != UNDERSCORE { assert key[i] == Decimal(n)[i - |s| - 1]; }
  }

  /** Groups never mix: sender and reference can be told from the key, even if the sender holds an
      underscore. */
  lemma CacheKeyInjective(s: Bytes, m: nat, t: Bytes, n: nat)
    requires CacheKey(s, m) == CacheKey(t, n)
    ensures s == t && m == n
  {
    LastUnderscore(s, m);
    LastUnderscore(t, n);
    hide Decimal, CacheKey;
    var key := CacheKey(s, m);
    assert |s| == |t|;
    DecimalInjective(m, n);
  }
}
