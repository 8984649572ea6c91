/** What is shown of stored messages: of a whole group as one message, and of each message to a client. */
module Listing {
  import opened Wrappers
  import opened Bits
  import opened Udh
  import opened PduDecode
  import opened Sms
  import opened Reassembly
  import opened Combine
  import opened Conservation
  import opened DeleteCommutes
  import opened DeleteRequest
  import opened Ipc
  import opened IpcServer
  import opened EndToEnd

  // ---------------------------------------------------------------- one message for a group

  /** The first message of a group says who sent it, and when. */
  lemma {:induction false} OriginOfEntry(group: seq<IncomingSms>)
    requires group != []
    ensures EntryFrom(group).sender == group[0].decoded.number
    ensures EntryFrom(group).timestamp == group[0].decoded.timestamp
  {
    var rest, last := group[..|group| - 1], group[|group| - 1];
    assert group == rest + [last];
    EntryGrows(rest, last);
    if rest != [] {
      OriginOfEntry(rest);
      FirstOfEntry(rest);
    } else {
      assert EntryFrom(rest) == NEW_ENTRY;
    }
    hide EntryFrom;
  }

  /** All messages of a group have the number of its first one. */
  lemma OneSender(raw: seq<IncomingSms>, key: Bytes, m: IncomingSms)
    requires m in GroupIn(raw, key)
    ensures m.decoded.number == GroupIn(raw, key)[0].decoded.number && m in raw
  {
    var first := GroupIn(raw, key)[0];
    InGroup(raw, key, m);
    InGroup(raw, key, first);
    hide GroupIn, CacheKey, IsPart;
    CacheKeyInjective(m.decoded.number, m.decoded.concat.concatRef, first.decoded.number, first.decoded.concat.concatRef);
  }

  /** The status of the first stored message with an index, if there is one. */
  lemma {:induction false} StatusOfFirst(raw: seq<IncomingSms>, m: IncomingSms) returns (i: nat)
    requires m in raw
    ensures i < |raw| && raw[i].index == m.index && StatusAt(raw, m.index) == raw[i].status
    ensures forall j :: 0 <= j < i ==> raw[j].index != m.index
  {
    if raw[0].index == m.index {
      i := 0;
    } else {
      assert raw == [raw[0]] + raw[1..];
      var k := StatusOfFirst(raw[1..], m);
      i := k + 1;
      assert forall j :: 0 <= j < i ==> raw[j].index != m.index by {
        forall j | 0 <= j < i ensures raw[j].index != m.index { if j > 0 { assert raw[j] == raw[1..][j - 1]; } }
      }
    }
  }

  /** A complete group is shown as one message: its sender is that of every part, its time and index are
      those of the first part, its status that of the first stored message with that index; it is stored in
      `ME`, complete, and no longer marked as a part. */
  lemma CombinedShown(raw: seq<IncomingSms>, key: Bytes)
    requires GroupIn(raw, key) != [] && IsWhole(raw, key)
    ensures
      var group, output := GroupIn(raw, key), Output(raw, key);
      && |output| == 1
      && var c := output[0];
      && c == IncomingSms(group[0].index, [0x4D, 0x45],
                          PduMessage([], group[0].decoded.number, c.decoded.text, 0, 0, group[0].decoded.timestamp,
                                     false, UdhInfo(0, 1, 0)),
                          [], true, true, c.status, c.originalIndices)
      && (forall m :: m in group ==> m.decoded.number == c.decoded.number)
      && exists i :: 0 <= i < |raw| && raw[i].index == c.index && raw[i].status == c.status
                     && forall j :: 0 <= j < i ==> raw[j].index != c.index
  {
    var group := GroupIn(raw, key);
    var e := EntryFrom(group);
    OutputIs(raw, key);
    hide GroupIn, EntryFrom, Output, IsWhole, Combined, AllIndices, StatusAt;
    OriginOfEntry(group);
    FirstOfEntry(group);
    assert group[0] in group;
    OneSender(raw, key, group[0]);
    forall m | m in group ensures m.decoded.number == group[0].decoded.number { OneSender(raw, key, m); }
    var i := StatusOfFirst(raw, group[0]);
  }

  lemma OutputIs(raw: seq<IncomingSms>, key: Bytes)
    requires IsWhole(raw, key)
    ensures
      var e := EntryFrom(GroupIn(raw, key));
      Output(raw, key)
      == [IncomingSms(e.firstIndex, [0x4D, 0x45],
                      PduMessage([], e.sender, Combined(e.parts), 0, 0, e.timestamp, false, UdhInfo(0, 1, 0)),
                      [], true, true, StatusAt(raw, e.firstIndex), AllIndices(e))]
  {
    hide GroupIn, EntryFrom, Combined, AllIndices, StatusAt;
  }

  /** Which stored messages belong together: those with a header that announces more than one part, by
      number and reference. All others stand alone, and are shown first and unchanged. */
  lemma GroupsAre(raw: seq<IncomingSms>, number: Bytes, reference: nat, m: IncomingSms)
    ensures m in GroupIn(raw, CacheKey(number, reference))
       <==> m in raw && m.decoded.hasUdh && m.decoded.concat.concatTotal > 1
            && m.decoded.number == number && m.decoded.concat.concatRef == reference
    ensures
      var alone := Select(raw, Alone);
      && alone <= Batch(raw)
      && (m in alone <==> m in raw && !(m.decoded.hasUdh && m.decoded.concat.concatTotal > 1))
  {
    assert IsPart(m) <==> m.decoded.hasUdh && m.decoded.concat.concatTotal > 1;
    assert Batch(raw) == Select(raw, Alone) + Outputs(raw, KeysOf(raw));
    hide GroupIn, CacheKey, IsPart, Select, Batch, Outputs, KeysOf;
    InGroup(raw, CacheKey(number, reference), m);
    SelectedIs(raw, Alone, m);
    if KeyOf(m) == CacheKey(number, reference) {
      CacheKeyInjective(m.decoded.number, m.decoded.concat.concatRef, number, reference);
    }
  }

  /** A stored message is itself shown exactly if it stands alone or its group misses a part. */
  lemma ShownAsItIs(raw: seq<IncomingSms>, m: IncomingSms)
    requires AsRead(raw) && PartsDiffer(raw) && m.originalIndices == []
    ensures m in Batch(raw)
       <==> m in raw && (!(m.decoded.hasUdh && m.decoded.concat.concatTotal > 1) || !IsWhole(raw, KeyOf(m)))
  {
    assert IsPart(m) <==> m.decoded.hasUdh && m.decoded.concat.concatTotal > 1;
    assert Batch(raw) == Select(raw, Alone) + Outputs(raw, KeysOf(raw));
    hide Batch, Select, Outputs, Output, KeysOf, KeyOf, IsPart, IsWhole, AsRead, PartsDiffer;
    SelectedIs(raw, Alone, m);
    OutputAmong(raw, KeysOf(raw), m);
    if m in Outputs(raw, KeysOf(raw)) {
      var k :| k in KeysOf(raw) && m in Output(raw, k);
      OutputAsRead(raw, k, m);
    }
    if m in raw && IsPart(m) && !IsWhole(raw, KeyOf(m)) {
      PartHasKey(raw, m);
      OutputAsRead(raw, KeyOf(m), m);
    }
  }

  lemma OutputAsRead(raw: seq<IncomingSms>, key: Bytes, m: IncomingSms)
    requires AsRead(raw) && PartsDiffer(raw) && m.originalIndices == [] && key in KeysOf(raw)
    ensures m in Output(raw, key) <==> m in raw && KeyOf(m) == key && !IsWhole(raw, key)
  {
    hide AllIndices, EntryFrom, GroupIn, KeysOf, KeyOf, Select, AsRead, PartsDiffer, StatusAt;
    KeysAre(raw, key);
    SelectedIs(raw, Under(key), m);
    if IsWhole(raw, key) {
      FirstOfEntry(GroupIn(raw, key));
      GroupIndices(raw, key, GroupIn(raw, key)[0].index);
      assert HasIndex(GroupIn(raw, key), GroupIn(raw, key)[0].index);
    }
  }

  // ---------------------------------------------------------------- what a client is told

  /** Messages whose texts have lengths that four octets can say. */
  predicate Sendable(messages: seq<IncomingSms>) {
    |messages| < 0x1_0000_0000
    && forall i :: 0 <= i < |messages| ==>
         && |messages[i].decoded.number| < 0x1_0000_0000
         && |messages[i].decoded.text| < 0x1_0000_0000
         && |messages[i].decoded.timestamp| < 0x1_0000_0000
  }

  /** A record tells a message. */
  predicate Tells(info: SmsInfo, m: IncomingSms) {
    && info.index == m.index && info.sender == m.decoded.number && info.text == m.decoded.text
    && info.timestamp == m.decoded.timestamp && info.hasUdh == m.decoded.hasUdh
    && info.concatSeq == m.decoded.concat.concatSeq && info.concatTotal == m.decoded.concat.concatTotal
    && info.status == m.status && !info.isCombined && info.parts == []
  }

  predicate WordIs(data: Bytes, offset: nat, value: nat) {
    WordAt(data, offset).Some? && WordAt(data, offset).value.value == value && WordAt(data, offset).value.next == offset + 4
  }

  /** The answer to a list request says success, how many messages there are, and for each of them, in
      order, a record that tells its index, sender, text, time, header flag, position, total and status;
      nothing is left over. */
  lemma ListTells(messages: seq<IncomingSms>) returns (infos: seq<SmsInfo>)
    requires Sendable(messages)
    ensures
      var answer := Response(SUCCESS, ListPayload(messages));
      && WordIs(answer, 8, 0)
      && WordIs(answer, 16, |messages|)
      && ListAt(answer, 20, |messages|) == Some(Read(infos, |answer|))
    ensures |infos| == |messages| && forall i :: 0 <= i < |infos| ==> Tells(infos[i], messages[i])
  {
    infos := InfosOf(messages);
    forall i | 0 <= i < |infos| ensures Tells(infos[i], messages[i]) { assert infos[i] == InfoOf(messages[i]); }
    RecordsFit(messages);
    NumbersAre();
    hide ListPayload, InfosOf, ListAt, WordAt, Response, Tells, InfoOf, Faithful;
    ListAnswerReadBack(messages);
    StatusTold(SUCCESS, ListPayload(messages));
    CountTold(Response(SUCCESS, ListPayload(messages)), HEADER_SIZE);
  }

  lemma RecordsFit(messages: seq<IncomingSms>)
    requires Sendable(messages)
    ensures |messages| < WORD_LIMIT && Faithful(InfosOf(messages))
  {
    var infos := InfosOf(messages);
    forall i | 0 <= i < |infos| ensures LengthsFit(infos[i]) && infos[i].parts == [] {
      assert infos[i] == InfoOf(messages[i]);
    }
  }

  lemma NumbersAre()
    ensures HEADER_SIZE == 16 && SUCCESS == 0
  {
  }

  /** The header of an answer: magic number, length of the payload, status, and sequence number 0. */
  lemma AnswerHeader(status: nat, payload: Bytes)
    requires status < WORD_LIMIT && |payload| < WORD_LIMIT
    ensures
      var answer := Response(status, payload);
      && WordIs(answer, 0, 0x534D534D) && WordIs(answer, 4, |payload|) && WordIs(answer, 8, status) && WordIs(answer, 12, 0)
  {
    var answer := Response(status, payload);
    assert answer[0..4] == Word(IPC_MAGIC) && answer[4..8] == Word(|payload|);
    assert answer[8..12] == Word(status) && answer[12..16] == Word(0);
    hide Word, WordAt, Response;
    WordBack(answer, 0, IPC_MAGIC);
    WordBack(answer, 4, |payload|);
    WordBack(answer, 8, status);
    WordBack(answer, 12, 0);
  }

  lemma StatusTold(status: nat, payload: Bytes)
    requires status < WORD_LIMIT
    ensures WordIs(Response(status, payload), 8, status)
  {
    var answer := Response(status, payload);
    assert answer[8..12] == Word(status);
    hide Word, WordAt, Response;
    WordBack(answer, 8, status);
  }

  /** The header of a request, the same with its command and sequence number. */
  lemma RequestHeaderTold(r: Request)
    requires |r.payload| < WORD_LIMIT && r.command < WORD_LIMIT && r.sequence < WORD_LIMIT
    ensures
      var octets := RequestOctets(r);
      && WordIs(octets, 0, 0x534D534D) && WordIs(octets, 4, |r.payload|) && WordIs(octets, 8, r.command)
      && WordIs(octets, 12, r.sequence) && octets[16..] == r.payload
  {
    var octets := RequestOctets(r);
    assert octets[0..4] == Word(IPC_MAGIC) && octets[4..8] == Word(|r.payload|);
    assert octets[8..12] == Word(r.command) && octets[12..16] == Word(r.sequence) && octets[16..] == r.payload;
    hide Word, WordAt, RequestOctets;
    WordBack(octets, 0, IPC_MAGIC);
    WordBack(octets, 4, |r.payload|);
    WordBack(octets, 8, r.command);
    WordBack(octets, 12, r.sequence);
  }

  lemma CountTold(data: Bytes, offset: nat)
    requires WordAt(data, offset).Some?
    ensures WordAt(data, offset).value.next == offset + 4
  {
  }

  /** A malformed request is answered by a status other than success, and nothing else. */
  lemma RefusalTold()
    ensures
      var answer := Response(INVALID_ARGS, []);
      WordIs(answer, 8, 4) && |answer| == 16
  {
    StatusTold(INVALID_ARGS, []);
    PayloadAt(INVALID_ARGS, []);
    NumbersAre();
    hide WordAt, Response;
  }

  // ---------------------------------------------------------------- from storage to the client

  /** A stored message all of whose parts are there, in any order, is told to a client by one record, with
      the number of its parts, the whole text, and the time and index of the part stored first. */
  lemma StoredMessageTold(raw: seq<IncomingSms>, key: Bytes, texts: seq<Bytes>, infos: seq<SmsInfo>) returns (k: nat)
    requires 2 <= |texts| <= 255 && |GroupIn(raw, key)| == |texts| && Arranges(AsArrivals(GroupIn(raw, key)), texts)
    requires |infos| == |Batch(raw)| && forall i :: 0 <= i < |infos| ==> Tells(infos[i], Batch(raw)[i])
    ensures k < |infos|
    ensures forall m :: m in GroupIn(raw, key) ==> infos[k].sender == m.decoded.number
    ensures infos[k].text == Joined(texts)
    ensures infos[k].index == GroupIn(raw, key)[0].index && infos[k].timestamp == GroupIn(raw, key)[0].decoded.timestamp
    ensures !infos[k].hasUdh && infos[k].concatTotal == 1
  {
    var batch, group, output := Batch(raw), GroupIn(raw, key), Output(raw, key);
    hide Batch, GroupIn, Output, Joined, Arranges, AsArrivals, IsWhole, KeysOf;
    StoredMessageCombined(raw, key, texts);
    ArrangedIsWhole(raw, key, texts);
    CombinedShown(raw, key);
    KeysAre(raw, key);
    k := OutputAt(raw, key);
    assert Tells(infos[k], batch[k]);
  }

  lemma ArrangedIsWhole(raw: seq<IncomingSms>, key: Bytes, texts: seq<Bytes>)
    requires 2 <= |texts| <= 255 && |GroupIn(raw, key)| == |texts| && Arranges(AsArrivals(GroupIn(raw, key)), texts)
    ensures IsWhole(raw, key)
  {
    var group := GroupIn(raw, key);
    hide GroupIn, EntryFrom, Arranges, AsArrivals, PartsOf;
    StoredParts(group);
    PartsOfArranged(AsArrivals(group), texts);
    FirstOfEntry(group);
    FirstPart(AsArrivals(group), texts);
  }

  /** The output of a group stands in the list. */
  lemma OutputAt(raw: seq<IncomingSms>, key: Bytes) returns (k: nat)
    requires key in KeysOf(raw) && |Output(raw, key)| == 1
    ensures k < |Batch(raw)| && Batch(raw)[k] == Output(raw, key)[0]
  {
    var c := Output(raw, key)[0];
    assert Batch(raw) == Select(raw, Alone) + Outputs(raw, KeysOf(raw));
    hide Batch, Output, KeysOf, Select, Outputs;
    OutputsHold(raw, KeysOf(raw), key);
    assert c in Batch(raw);
    k :| 0 <= k < |Batch(raw)| && Batch(raw)[k] == c;
  }

  lemma {:induction false} OutputsHold(raw: seq<IncomingSms>, keys: seq<Bytes>, key: Bytes)
    requires key in keys && Output(raw, key) != []
    ensures Output(raw, key)[0] in Outputs(raw, keys)
  {
    hide Output;
    if keys[0] != key {
      assert keys == [keys[0]] + keys[1..];
      OutputsHold(raw, keys[1..], key);
    }
  }
}
