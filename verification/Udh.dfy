/** The user data header: a list of information elements (section 9.2.3.24 of 3GPP TS 23.040). */
module Udh {
  import opened Wrappers
  import opened Sequences
  import opened Bits
  import opened Utf8

  /** The concatenation fields of a header, zeros where it has none. */
  datatype UdhInfo = UdhInfo(concatRef: nat, concatTotal: byte, concatSeq: byte)

  const NO_CONCAT := UdhInfo(0, 0, 0)

  datatype Walked = Walked(info: UdhInfo, next: nat)

  /** The fields after an element whose octets start at pos. Of a 16-bit reference, the octet on the
      left is taken as the high one. */
  function Updated(info: UdhInfo, iei: byte, body: Bytes): UdhInfo {
    if iei == 0 && |body| >= 3 then UdhInfo(body[0], body[1], body[2])
    else if iei == 8 && |body| >= 4 then UdhInfo(Join8(body[0], body[1]), body[2], body[3])
    else info
  }

  /** The walk from pos after `read` octets of the header, or None where it leaves the data. */
  function Walk(data: Bytes, pos: nat, udhLen: nat, read: nat, info: UdhInfo): (r: Option<Walked>)
    ensures r.Some? && pos <= |data| ==> pos <= r.value.next <= |data|
    decreases udhLen - read
  {
    if read >= udhLen then Some(Walked(info, pos))
    else if pos + 1 >= |data| || pos + 2 + data[pos + 1] > |data| then None
    else
      var body := data[pos + 2..pos + 2 + data[pos + 1]];
      Walk(data, pos + 2 + |body|, udhLen, read + |body| + 2, Updated(info, data[pos], body))
  }

  lemma WalkStep(data: Bytes, pos: nat, udhLen: nat, read: nat, info: UdhInfo)
    ensures
      Walk(data, pos, udhLen, read, info)
      == if read >= udhLen then Some(Walked(info, pos))
         else if pos + 1 >= |data| || pos + 2 + data[pos + 1] > |data| then None
         else
           var body := data[pos + 2..pos + 2 + data[pos + 1]];
           Walk(data, pos + 2 + |body|, udhLen, read + |body| + 2, Updated(info, data[pos], body))
  {
    hide Updated;
  }

  method ParseUdh(data: Bytes, pos: nat, udhLen: byte) returns (r: Option<Walked>)
    ensures r == Walk(data, pos, udhLen, 0, NO_CONCAT)
  {
    hide Walk, Join8;
    var info := NO_CONCAT;
    var it := pos;
    var read: nat := 0;
    while read < udhLen
      invariant pos <= it
      invariant Walk(data, pos, udhLen, 0, NO_CONCAT) == Walk(data, it, udhLen, read, info)
    {
      WalkStep(data, it, udhLen, read, info);
      if it + 1 >= |data| || it + 2 + data[it + 1] as int > |data| {
        return None;
      }
      var iei := data[it];
      var length: nat := data[it + 1];
      it := it + 2;
      if iei == 0 && length >= 3 {
        info := UdhInfo(data[it], data[it + 1], data[it + 2]);
      } else if iei == 8 && length >= 4 {
        info := UdhInfo(Join8(data[it], data[it + 1]), data[it + 2], data[it + 3]);
      }
      it := it + length;
      read := read + length + 2;
    }
    WalkStep(data, it, udhLen, read, info);
    r := Some(Walked(info, it));
  }

  // ---------------------------------------------------------------- what the walk reports

  datatype Element = Element(iei: byte, body: Bytes)

  predicate WellSized(es: seq<Element>) { forall i :: 0 <= i < |es| ==> |es[i].body| < 256 }

  function ElementOctets(e: Element): Bytes
    requires |e.body| < 256
  {
    [e.iei, |e.body|] + e.body
  }

  function HeaderOctets(es: seq<Element>): Bytes
    requires WellSized(es)
  {
    if es == [] then [] else ElementOctets(es[0]) + HeaderOctets(es[1..])
  }

  predicate IsConcat(e: Element) {
    (e.iei == 0 && |e.body| >= 3) || (e.iei == 8 && |e.body| >= 4)
  }

  function ConcatFields(e: Element): UdhInfo
    requires IsConcat(e)
  {
    if e.iei == 0 then UdhInfo(e.body[0], e.body[1], e.body[2])
    else UdhInfo(256 * e.body[0] as int + e.body[1], e.body[2], e.body[3])
  }

  /** The fields of the last concatenation element, zeros if there is none. */
  function LastConcat(es: seq<Element>): UdhInfo {
    if es == [] then NO_CONCAT
    else if IsConcat(es[|es| - 1]) then ConcatFields(es[|es| - 1])
    else LastConcat(es[..|es| - 1])
  }

  lemma WalkElement(data: Bytes, pos: nat, udhLen: nat, read: nat, info: UdhInfo, e: Element)
    requires |e.body| < 256 && pos + 2 + |e.body| <= |data| && read < udhLen
    requires data[pos..pos + 2 + |e.body|] == ElementOctets(e)
    ensures Walk(data, pos, udhLen, read, info)
         == Walk(data, pos + 2 + |e.body|, udhLen, read + |e.body| + 2, Updated(info, e.iei, e.body))
  {
    var octets := data[pos..pos + 2 + |e.body|];
    assert octets[0] == e.iei && octets[1] == |e.body|;
    assert data[pos + 2..pos + 2 + |e.body|] == octets[2..] == e.body;
  }

  /** Walking on over `left`, after `done`, reports the last concatenation element of both. */
  lemma {:induction false} WalkFrom(data: Bytes, pos: nat, done: seq<Element>, left: seq<Element>, udhLen: nat)
    requires WellSized(done) && WellSized(left) && pos + |HeaderOctets(left)| <= |data|
    requires data[pos..pos + |HeaderOctets(left)|] == HeaderOctets(left)
    requires udhLen == |HeaderOctets(done)| + |HeaderOctets(left)|
    ensures Walk(data, pos, udhLen, |HeaderOctets(done)|, LastConcat(done))
         == Some(Walked(LastConcat(done + left), pos + |HeaderOctets(left)|))
    decreases |left|
  {
    hide *;
    if left == [] {
      WalkStops(data, pos, done);
      assert done + left == done;
    } else {
      var e, rest := left[0], left[1..];
      HeaderCons(done, left);
      SplitSlice(data, pos, ElementOctets(e), HeaderOctets(rest));
      HeaderSnoc(done, e);
      UpdatedIsLast(done, e);
      WalkElement(data, pos, udhLen, |HeaderOctets(done)|, LastConcat(done), e);
      WalkFrom(data, pos + 2 + |e.body|, done + [e], rest, udhLen);
      assert left == [e] + rest;
      Regroup(done, [e], rest);
    }
  }

  lemma WalkStops(data: Bytes, pos: nat, done: seq<Element>)
    requires WellSized(done)
    ensures HeaderOctets([]) == []
    ensures Walk(data, pos, |HeaderOctets(done)|, |HeaderOctets(done)|, LastConcat(done))
         == Some(Walked(LastConcat(done), pos))
  {
  }

  lemma HeaderCons(done: seq<Element>, left: seq<Element>)
    requires WellSized(done) && WellSized(left) && left != []
    ensures |left[0].body| < 256 && WellSized(done + [left[0]]) && WellSized(left[1..])
    ensures HeaderOctets(left) == ElementOctets(left[0]) + HeaderOctets(left[1..])
    ensures |ElementOctets(left[0])| == 2 + |left[0].body|
  {
  }

  lemma SplitSlice(data: Bytes, pos: nat, a: Bytes, b: Bytes)
    requires pos + |a| + |b| <= |data| && data[pos..pos + |a| + |b|] == a + b
    ensures data[pos..pos + |a|] == a
    ensures data[pos + |a|..pos + |a| + |b|] == b
  {
    var all := data[pos..pos + |a| + |b|];
    assert data[pos..pos + |a|] == all[..|a|];
    assert data[pos + |a|..pos + |a| + |b|] == all[|a|..];
  }

  lemma {:induction false} HeaderSnoc(es: seq<Element>, e: Element)
    requires WellSized(es) && |e.body| < 256
    ensures |HeaderOctets(es + [e])| == |HeaderOctets(es)| + 2 + |e.body|
  {
    if es == [] {
      assert es + [e] == [e] && [e][1..] == [];
    } else {
      assert (es + [e])[1..] == es[1..] + [e];
      HeaderSnoc(es[1..], e);
    }
  }

  lemma UpdatedIsLast(es: seq<Element>, e: Element)
    ensures Updated(LastConcat(es), e.iei, e.body) == LastConcat(es + [e])
  {
    assert (es + [e])[..|es|] == es;
  }

  /** The walk over a header consumes exactly its octets and reports its last concatenation element. */
  lemma WalkReportsLastConcat(before: Bytes, es: seq<Element>, after: Bytes)
    requires WellSized(es)
    ensures Walk(before + HeaderOctets(es) + after, |before|, |HeaderOctets(es)|, 0, NO_CONCAT)
         == Some(Walked(LastConcat(es), |before| + |HeaderOctets(es)|))
  {
    hide *;
    var none: seq<Element> := [];
    NoElements(none);
    Middle(before, HeaderOctets(es), after);
    Regroup(none, none, es);
    WalkFrom(before + HeaderOctets(es) + after, |before|, none, es, |HeaderOctets(es)|);
  }

  lemma NoElements(none: seq<Element>)
    requires none == []
    ensures HeaderOctets(none) == [] && LastConcat(none) == NO_CONCAT && WellSized(none)
  {
  }

  lemma Middle(before: Bytes, middle: Bytes, after: Bytes)
    ensures (before + middle + after)[|before|..|before| + |middle|] == middle
  {
  }
}
