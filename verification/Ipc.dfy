/** Self-delimiting records: how requests and messages are laid out in octets between the relay and its
    clients. */
module Ipc {
  import opened Wrappers
  import opened Bits

  /** A value read, and the offset behind it. */
  datatype Read<T> = Read(value: T, next: nat)

  const WORD_LIMIT: nat := 0x1_0000_0000

  // ---------------------------------------------------------------- primitive codecs

  /** The four octets of a number, high octet first; a number of 2^32 or more is cut. */
  function Word(v: nat): (s: Bytes)
    ensures |s| == 4
  {
    var w := v / 256;
    var x := w / 256;
    var y := x / 256;
    [y % 256, x % 256, w % 256, v % 256]
  }

  function WordAt(data: Bytes, offset: nat): (r: Option<Read<nat>>)
    ensures r.Some? ==> r.value.next == offset + 4 <= |data|
  {
    if offset + 4 > |data| then None
    else
      var high: nat := data[offset];
      var value: nat := 256 * (256 * (256 * high + data[offset + 1]) + data[offset + 2]) + data[offset + 3];
      Some(Read(value, offset + 4))
  }

  function OctetAt(data: Bytes, offset: nat): Option<Read<byte>> {
    if offset >= |data| then None else Some(Read(data[offset], offset + 1))
  }

  /** A string or an octet vector: its length, then its octets. */
  function Str(s: Bytes): Bytes { Word(|s|) + s }

  function StrAt(data: Bytes, offset: nat): (r: Option<Read<Bytes>>)
    ensures r.Some? ==> offset < r.value.next <= |data|
  {
    match WordAt(data, offset)
    case None => None
    case Some(len) =>
      if len.next + len.value > |data| then None
      else Some(Read(data[len.next..len.next + len.value], len.next + len.value))
  }

  lemma WordValue(v: nat)
    requires v < WORD_LIMIT
    ensures var s := Word(v); 256 * (256 * (256 * s[0] as int + s[1]) + s[2]) + s[3] == v
  {
    var w := v / 256;
    var x := w / 256;
    var y := x / 256;
    assert y < 256;
  }

  /** The octets from an offset on. */
  predicate At(data: Bytes, offset: nat, octets: Bytes) {
    offset + |octets| <= |data| && data[offset..offset + |octets|] == octets
  }

  lemma AtSplit(data: Bytes, offset: nat, a: Bytes, b: Bytes)
    ensures At(data, offset, a + b) <==> At(data, offset, a) && At(data, offset + |a|, b)
  {
    if At(data, offset, a + b) {
      assert data[offset..offset + |a|] == (data[offset..offset + |a + b|])[..|a|] == (a + b)[..|a|];
      assert data[offset + |a|..offset + |a| + |b|] == (data[offset..offset + |a + b|])[|a|..] == (a + b)[|a|..];
    }
    if At(data, offset, a) && At(data, offset + |a|, b) {
      assert data[offset..offset + |a + b|] == data[offset..offset + |a|] + data[offset + |a|..offset + |a| + |b|];
    }
  }

  lemma AtByte(data: Bytes, offset: nat, octets: Bytes, i: nat)
    requires At(data, offset, octets) && i < |octets|
    ensures offset + i < |data| && data[offset + i] == octets[i]
  {
    assert data[offset + i] == data[offset..offset + |octets|][i];
  }

  lemma WordBack(data: Bytes, offset: nat, v: nat)
    requires v < WORD_LIMIT && At(data, offset, Word(v))
    ensures WordAt(data, offset) == Some(Read(v, offset + 4))
  {
    var s := Word(v);
    WordValue(v);
    hide Word;
    AtByte(data, offset, s, 0);
    AtByte(data, offset, s, 1);
    AtByte(data, offset, s, 2);
    AtByte(data, offset, s, 3);
    hide At;
  }

  lemma OctetBack(data: Bytes, offset: nat, b: byte)
    requires At(data, offset, [b])
    ensures OctetAt(data, offset) == Some(Read(b, offset + 1))
  {
    AtByte(data, offset, [b], 0);
  }

  lemma StrBack(data: Bytes, offset: nat, s: Bytes)
    requires |s| < WORD_LIMIT && At(data, offset, Str(s))
    ensures StrAt(data, offset) == Some(Read(s, offset + |Str(s)|))
  {
    AtSplit(data, offset, Word(|s|), s);
    WordBack(data, offset, |s|);
    hide Word, WordAt;
  }

  // ---------------------------------------------------------------- message records

  datatype SmsPartInfo = SmsPartInfo(index: byte, seqNo: byte, total: byte)

  datatype SmsInfo = SmsInfo(
    index: byte, sender: Bytes, text: Bytes, timestamp: Bytes, hasUdh: bool, concatSeq: byte, concatTotal: byte,
    status: byte, isCombined: bool, parts: seq<SmsPartInfo>)

  function Flag(b: bool): byte { if b then 1 else 0 }

  function PartOctets(parts: seq<SmsPartInfo>): Bytes {
    if parts == [] then [] else [parts[0].index, parts[0].seqNo, parts[0].total] + PartOctets(parts[1..])
  }

  function FlagOctets(info: SmsInfo): Bytes {
    [Flag(info.hasUdh), info.concatSeq, info.concatTotal, info.status, Flag(info.isCombined)]
  }

  /** Parts are written only of combined messages. */
  function TailOctets(info: SmsInfo): Bytes {
    FlagOctets(info) + if info.isCombined then Word(|info.parts|) + PartOctets(info.parts) else []
  }

  function InfoOctets(info: SmsInfo): Bytes {
    [info.index] + (Str(info.sender) + (Str(info.text) + (Str(info.timestamp) + TailOctets(info))))
  }

  function PartsAt(data: Bytes, offset: nat, count: nat): Option<Read<seq<SmsPartInfo>>>
    decreases count
  {
    if count == 0 then Some(Read([], offset))
    else if offset + 3 > |data| then None
    else
      match PartsAt(data, offset + 3, count - 1)
      case None => None
      case Some(rest) =>
        Some(Read([SmsPartInfo(data[offset], data[offset + 1], data[offset + 2])] + rest.value, rest.next))
  }

  /** The fields behind the strings. */
  function TailAt(data: Bytes, offset: nat, head: SmsInfo): Option<Read<SmsInfo>> {
    if offset + 5 > |data| then None
    else
      var info := head.(hasUdh := data[offset] != 0, concatSeq := data[offset + 1], concatTotal := data[offset + 2],
                        status := data[offset + 3], isCombined := data[offset + 4] != 0);
      if !info.isCombined then Some(Read(info, offset + 5))
      else
        match WordAt(data, offset + 5)
        case None => None
        case Some(count) =>
          match PartsAt(data, count.next, count.value)
          case None => None
          case Some(parts) => Some(Read(info.(parts := parts.value), parts.next))
  }

  const BLANK_INFO := SmsInfo(0, [], [], [], false, 0, 0, 0, false, [])

  function InfoAt(data: Bytes, offset: nat): Option<Read<SmsInfo>> {
    match OctetAt(data, offset)
    case None => None
    case Some(index) =>
      match StrAt(data, index.next)
      case None => None
      case Some(sender) =>
        match StrAt(data, sender.next)
        case None => None
        case Some(text) =>
          match StrAt(data, text.next)
          case None => None
          case Some(timestamp) =>
            TailAt(data, timestamp.next,
                   BLANK_INFO.(index := index.value, sender := sender.value, text := text.value, timestamp := timestamp.value))
  }

  method SerializeStr(str: Bytes) returns (result: Bytes)
    ensures result == Str(str)
  {
    result := [];
    result := result + Word(|str|);
    result := result + str;
  }

  lemma PartOctetsStep(parts: seq<SmsPartInfo>, i: nat, result: Bytes)
    requires i < |parts|
    ensures result + PartOctets(parts[i..])
         == result + [parts[i].index, parts[i].seqNo, parts[i].total] + PartOctets(parts[i + 1..])
  {
    assert parts[i..][1..] == parts[i + 1..];
    var p := [parts[i].index, parts[i].seqNo, parts[i].total];
    assert result + (p + PartOctets(parts[i + 1..])) == result + p + PartOctets(parts[i + 1..]);
  }

  lemma PartOctetsEnds(parts: seq<SmsPartInfo>, result: Bytes)
    ensures parts[0..] == parts && result + PartOctets(parts[|parts|..]) == result
  {
  }

  method SerializeParts(parts: seq<SmsPartInfo>) returns (result: Bytes)
    ensures result == PartOctets(parts)
  {
    hide PartOctets;
    result := [];
    PartOctetsEnds(parts, result);
    for i := 0 to |parts|
      invariant result + PartOctets(parts[i..]) == PartOctets(parts)
    {
      PartOctetsStep(parts, i, result);
      result := result + [parts[i].index, parts[i].seqNo, parts[i].total];
    }
    PartOctetsEnds(parts, result);
  }

  method SerializeSmsInfo(info: SmsInfo) returns (result: Bytes)
    ensures result == InfoOctets(info)
  {
    hide Word, PartOctets;
    result := [info.index];
    var sender := SerializeStr(info.sender);
    var text := SerializeStr(info.text);
    var timestamp := SerializeStr(info.timestamp);
    var tail := FlagOctets(info);
    if info.isCombined {
      var parts := SerializeParts(info.parts);
      tail := tail + (Word(|info.parts|) + parts);
    } else {
      assert tail == tail + [];
    }
    result := result + (sender + (text + (timestamp + tail)));
  }

  lemma PartsAtStep(data: Bytes, offset: nat, count: nat)
    requires count > 0
    ensures PartsAt(data, offset, count)
         == if offset + 3 > |data| || PartsAt(data, offset + 3, count - 1).None? then None
            else Some(Read([SmsPartInfo(data[offset], data[offset + 1], data[offset + 2])]
                             + PartsAt(data, offset + 3, count - 1).value.value,
                           PartsAt(data, offset + 3, count - 1).value.next))
  {
  }

  function AfterParts(parts: seq<SmsPartInfo>, rest: Option<Read<seq<SmsPartInfo>>>): Option<Read<seq<SmsPartInfo>>> {
    if rest.None? then None else Some(Read(parts + rest.value.value, rest.value.next))
  }

  lemma AfterNoParts(rest: Option<Read<seq<SmsPartInfo>>>)
    ensures AfterParts([], rest) == rest
  {
    if rest.Some? { assert [] + rest.value.value == rest.value.value; }
  }

  lemma AfterPartsStep(parts: seq<SmsPartInfo>, data: Bytes, offset: nat, count: nat)
    requires count > 0
    ensures AfterParts(parts, PartsAt(data, offset, count))
         == if offset + 3 > |data| then None
            else AfterParts(parts + [SmsPartInfo(data[offset], data[offset + 1], data[offset + 2])],
                            PartsAt(data, offset + 3, count - 1))
  {
    PartsAtStep(data, offset, count);
    hide PartsAt;
    if offset + 3 <= |data| && PartsAt(data, offset + 3, count - 1).Some? {
      var p := [SmsPartInfo(data[offset], data[offset + 1], data[offset + 2])];
      var tail := PartsAt(data, offset + 3, count - 1).value.value;
      assert parts + (p + tail) == parts + p + tail;
    }
  }

  lemma AfterPartsEnds(parts: seq<SmsPartInfo>, data: Bytes, offset: nat)
    ensures AfterParts(parts, PartsAt(data, offset, 0)) == Some(Read(parts, offset))
  {
    assert parts + [] == parts;
  }

  method DeserializeParts(data: Bytes, offset: nat, count: nat) returns (r: Option<Read<seq<SmsPartInfo>>>)
    ensures r == PartsAt(data, offset, count)
  {
    hide PartsAt, AfterParts;
    var parts := [];
    var at: nat := offset;
    AfterNoParts(PartsAt(data, offset, count));
    for i := 0 to count
      invariant AfterParts(parts, PartsAt(data, at, count - i)) == PartsAt(data, offset, count)
    {
      AfterPartsStep(parts, data, at, count - i);
      if at + 3 > |data| {
        return None;
      }
      parts := parts + [SmsPartInfo(data[at], data[at + 1], data[at + 2])];
      at := at + 3;
    }
    AfterPartsEnds(parts, data, at);
    return Some(Read(parts, at));
  }

  method DeserializeSmsInfo(data: Bytes, offset: nat) returns (r: Option<Read<SmsInfo>>)
    ensures r == InfoAt(data, offset)
  {
    hide WordAt, PartsAt;
    var index := OctetAt(data, offset);
    if index.None? {
      return None;
    }
    var sender := StrAt(data, index.value.next);
    if sender.None? {
      return None;
    }
    var text := StrAt(data, sender.value.next);
    if text.None? {
      return None;
    }
    var timestamp := StrAt(data, text.value.next);
    if timestamp.None? || timestamp.value.next + 5 > |data| {
      return None;
    }
    var at := timestamp.value.next;
    var info := SmsInfo(index.value.value, sender.value.value, text.value.value, timestamp.value.value,
                        data[at] != 0, data[at + 1], data[at + 2], data[at + 3], data[at + 4] != 0, []);
    at := at + 5;
    if info.isCombined {
      var count := WordAt(data, at);
      if count.None? {
        return None;
      }
      var parts := DeserializeParts(data, count.value.next, count.value.value);
      if parts.None? {
        return None;
      }
      info := info.(parts := parts.value.value);
      at := parts.value.next;
    }
    return Some(Read(info, at));
  }

  // ---------------------------------------------------------------- round trips

  /** All lengths fit their four octets. */
  predicate LengthsFit(info: SmsInfo) {
    && |info.sender| < WORD_LIMIT && |info.text| < WORD_LIMIT && |info.timestamp| < WORD_LIMIT
    && |info.parts| < WORD_LIMIT
  }

  lemma {:induction false} PartsBack(data: Bytes, offset: nat, parts: seq<SmsPartInfo>)
    requires At(data, offset, PartOctets(parts))
    ensures PartsAt(data, offset, |parts|) == Some(Read(parts, offset + |PartOctets(parts)|))
    decreases |parts|
  {
    if parts != [] {
      var p := [parts[0].index, parts[0].seqNo, parts[0].total];
      AtSplit(data, offset, p, PartOctets(parts[1..]));
      PartsBack(data, offset + 3, parts[1..]);
      AtByte(data, offset, p, 0);
      AtByte(data, offset, p, 1);
      AtByte(data, offset, p, 2);
      hide At;
      assert [parts[0]] + parts[1..] == parts;
    }
  }

  lemma FlagsBack(data: Bytes, offset: nat, info: SmsInfo)
    requires At(data, offset, FlagOctets(info))
    ensures offset + 5 <= |data| && data[offset] == Flag(info.hasUdh) && data[offset + 1] == info.concatSeq
    ensures data[offset + 2] == info.concatTotal && data[offset + 3] == info.status && data[offset + 4] == Flag(info.isCombined)
  {
    var flags := FlagOctets(info);
    AtByte(data, offset, flags, 0);
    AtByte(data, offset, flags, 1);
    AtByte(data, offset, flags, 2);
    AtByte(data, offset, flags, 3);
    AtByte(data, offset, flags, 4);
    hide At;
  }

  /** What is read back: a message that is not combined has lost its parts. */
  function InfoBack(info: SmsInfo): SmsInfo { info.(parts := if info.isCombined then info.parts else []) }

  lemma TailBack(data: Bytes, offset: nat, info: SmsInfo, head: SmsInfo)
    requires |info.parts| < WORD_LIMIT && At(data, offset, TailOctets(info))
    requires head == BLANK_INFO.(index := info.index, sender := info.sender, text := info.text, timestamp := info.timestamp)
    ensures TailAt(data, offset, head) == Some(Read(InfoBack(info), offset + |TailOctets(info)|))
  {
    var more := if info.isCombined then Word(|info.parts|) + PartOctets(info.parts) else [];
    AtSplit(data, offset, FlagOctets(info), more);
    FlagsBack(data, offset, info);
    if info.isCombined {
      AtSplit(data, offset + 5, Word(|info.parts|), PartOctets(info.parts));
      WordBack(data, offset + 5, |info.parts|);
      PartsBack(data, offset + 9, info.parts);
    }
    hide At, Word, WordAt, PartOctets, PartsAt;
  }

  /** A record is read back where it was written, whatever stands before and behind it, and reading
      stops exactly at its end. */
  lemma InfoReadBack(data: Bytes, offset: nat, info: SmsInfo)
    requires LengthsFit(info) && At(data, offset, InfoOctets(info))
    ensures InfoAt(data, offset) == Some(Read(InfoBack(info), offset + |InfoOctets(info)|))
  {
    hide At, Str, StrAt, TailOctets, TailAt, OctetAt;
    var tail := TailOctets(info);
    var o1 := offset + 1;
    AtSplit(data, offset, [info.index], Str(info.sender) + (Str(info.text) + (Str(info.timestamp) + tail)));
    OctetBack(data, offset, info.index);
    AtSplit(data, o1, Str(info.sender), Str(info.text) + (Str(info.timestamp) + tail));
    StrBack(data, o1, info.sender);
    var o2 := o1 + |Str(info.sender)|;
    AtSplit(data, o2, Str(info.text), Str(info.timestamp) + tail);
    StrBack(data, o2, info.text);
    var o3 := o2 + |Str(info.text)|;
    AtSplit(data, o3, Str(info.timestamp), tail);
    StrBack(data, o3, info.timestamp);
    TailBack(data, o3 + |Str(info.timestamp)|, info,
             BLANK_INFO.(index := info.index, sender := info.sender, text := info.text, timestamp := info.timestamp));
  }

  function ListOctets(infos: seq<SmsInfo>): Bytes {
    if infos == [] then [] else InfoOctets(infos[0]) + ListOctets(infos[1..])
  }

  function ListAt(data: Bytes, offset: nat, count: nat): Option<Read<seq<SmsInfo>>>
    decreases count
  {
    if count == 0 then Some(Read([], offset))
    else
      match InfoAt(data, offset)
      case None => None
      case Some(info) =>
        match ListAt(data, info.next, count - 1)
        case None => None
        case Some(rest) => Some(Read([info.value] + rest.value, rest.next))
  }

  /** The records are read back as they were, each. */
  predicate Faithful(infos: seq<SmsInfo>) {
    forall i :: 0 <= i < |infos| ==> LengthsFit(infos[i]) && (infos[i].isCombined || infos[i].parts == [])
  }

  lemma FaithfulCons(infos: seq<SmsInfo>)
    requires infos != [] && Faithful(infos)
    ensures LengthsFit(infos[0]) && InfoBack(infos[0]) == infos[0] && Faithful(infos[1..])
  {
    hide LengthsFit;
  }

  lemma ListOctetsCons(infos: seq<SmsInfo>)
    requires infos != []
    ensures ListOctets(infos) == InfoOctets(infos[0]) + ListOctets(infos[1..])
  {
    hide InfoOctets;
  }

  lemma ListAtCons(data: Bytes, offset: nat, count: nat, info: Read<SmsInfo>, rest: Read<seq<SmsInfo>>)
    requires InfoAt(data, offset) == Some(info) && ListAt(data, info.next, count) == Some(rest)
    ensures ListAt(data, offset, count + 1) == Some(Read([info.value] + rest.value, rest.next))
  {
    hide InfoAt;
  }

  lemma NoList(data: Bytes, offset: nat)
    ensures ListOctets([]) == [] && ListAt(data, offset, 0) == Some(Read([], offset))
  {
  }

  /** A list that follows its count is read back identically, and every octet of it is consumed. */
  lemma {:induction false} ListReadBack(data: Bytes, offset: nat, infos: seq<SmsInfo>)
    requires Faithful(infos) && At(data, offset, ListOctets(infos))
    ensures ListAt(data, offset, |infos|) == Some(Read(infos, offset + |ListOctets(infos)|))
    decreases |infos|
  {
    hide *;
    if infos == [] {
      NoList(data, offset);
    } else {
      var first, rest := infos[0], infos[1..];
      var next := offset + |InfoOctets(first)|;
      assert [first] + rest == infos;
      FaithfulCons(infos);
      ListOctetsCons(infos);
      AtSplit(data, offset, InfoOctets(first), ListOctets(rest));
      InfoReadBack(data, offset, first);
      ListReadBack(data, next, rest);
      ListAtCons(data, offset, |rest|, Read(first, next), Read(rest, next + |ListOctets(rest)|));
    }
  }

  // ---------------------------------------------------------------- as they are sent

  /** The octets between the time of a record and its parts: a truth value is 0 or 1. */
  lemma FlagsAre(info: SmsInfo)
    ensures FlagOctets(info)
         == [if info.hasUdh then 1 else 0, info.concatSeq, info.concatTotal, info.status, if info.isCombined then 1 else 0]
  {
  }

  /** The octets of a record: its strings behind their lengths, and the parts only of a combined message. */
  lemma RecordIs(info: SmsInfo)
    ensures InfoOctets(info)
         == [info.index]
            + (Word(|info.sender|) + info.sender) + (Word(|info.text|) + info.text) + (Word(|info.timestamp|) + info.timestamp)
            + [if info.hasUdh then 1 else 0, info.concatSeq, info.concatTotal, info.status, if info.isCombined then 1 else 0]
            + if info.isCombined then Word(|info.parts|) + PartOctets(info.parts) else []
  {
    FlagsAre(info);
    hide Word, PartOctets, FlagOctets;
  }

  /** Each part is three octets: index, position and total. */
  lemma {:induction false} PartAt(parts: seq<SmsPartInfo>, k: nat)
    requires k < |parts|
    ensures |PartOctets(parts)| == 3 * |parts|
    ensures PartOctets(parts)[3 * k..3 * k + 3] == [parts[k].index, parts[k].seqNo, parts[k].total]
  {
    var first, rest := [parts[0].index, parts[0].seqNo, parts[0].total], PartOctets(parts[1..]);
    assert PartOctets(parts) == first + rest;
    if |parts| == 1 {
      assert rest == [];
    } else {
      hide PartOctets;
      PartAt(parts[1..], if k == 0 then 0 else k - 1);
      if k > 0 { assert (first + rest)[3 * k..3 * k + 3] == rest[3 * (k - 1)..3 * (k - 1) + 3]; }
    }
  }

  /** The octets of a number, highest first. */
  lemma WordOctets(a: byte, b: byte, c: byte, d: byte)
    ensures Word(0x1000000 * a as nat + 0x10000 * b as nat + 0x100 * c as nat + d as nat) == [a, b, c, d]
  {
    var v: nat := 0x1000000 * a as nat + 0x10000 * b as nat + 0x100 * c as nat + d as nat;
    assert v / 256 == 0x10000 * a as nat + 0x100 * b as nat + c as nat;
    assert v / 256 / 256 == 0x100 * a as nat + b as nat;
  }
}
