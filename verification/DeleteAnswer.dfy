/** What a client is told of a delete request. */
module DeleteAnswer {
  import opened Wrappers
  import opened Bits
  import opened Sms
  import opened Combine
  import opened Conservation
  import opened MessageCache
  import opened DeleteCommutes
  import opened DeleteRequest
  import opened Ipc
  import opened IpcServer
  import opened Listing

  /** The modem is asked to delete x for an index: the index itself, and all parts of the whole group whose
      first stored part has it. */
  ghost predicate IsAsked(raw: seq<IncomingSms>, index: byte, x: byte) {
    x == index || exists m :: m in raw && m.index == x && IsPart(m) && StartsAt(raw, KeyOf(m), index)
  }

  lemma AskedExactly(raw: seq<IncomingSms>, index: byte, x: byte)
    requires AsRead(raw) && IndicesDiffer(raw) && PartsDiffer(raw)
    ensures x in ToDelete(Batch(raw), index) <==> IsAsked(raw, index, x)
  {
    hide ToDelete, Batch, StartsAt, AllIndices, EntryFrom, KeyOf, IsPart, KeysOf, GroupIn, AsRead, IndicesDiffer, PartsDiffer;
    BatchNames(raw, index);
    if x != index {
      if x in ToDelete(Batch(raw), index) {
        var m := AskedIsStored(raw, index, x);
        GoneExactly(raw, index, m);
      } else if IsAsked(raw, index, x) {
        var m :| m in raw && m.index == x && IsPart(m) && StartsAt(raw, KeyOf(m), index);
        GoneExactly(raw, index, m);
      }
    }
  }

  lemma AskedIsStored(raw: seq<IncomingSms>, index: byte, x: byte) returns (m: IncomingSms)
    requires AsRead(raw) && IndicesDiffer(raw) && PartsDiffer(raw)
    requires x != index && x in ToDelete(Batch(raw), index)
    ensures m in raw && m.index == x
  {
    hide ToDelete, Batch, AllIndices, EntryFrom, KeysOf, GroupIn, AsRead, IndicesDiffer, PartsDiffer, IsWhole;
    ToDeleteInBatch(raw, index);
    var k :| k in KeysOf(raw) && StartsAt(raw, k, index) && ToDelete(Batch(raw), index) == AllIndices(EntryFrom(GroupIn(raw, k)));
    GroupIndices(raw, k, x);
    var i :| 0 <= i < |GroupIn(raw, k)| && GroupIn(raw, k)[i].index == x;
    m := GroupIn(raw, k)[i];
    InGroup(raw, k, m);
  }

  /** Of a request, in order, the indices that are in a set, or that are not. */
  function Those(indices: seq<byte>, s: set<byte>, wanted: bool): seq<byte> {
    if indices == [] then []
    else (if (indices[0] in s) == wanted then [indices[0]] else []) + Those(indices[1..], s, wanted)
  }

  lemma {:induction false} SucceedingThose(cache: seq<IncomingSms>, indices: seq<byte>, refused: set<byte>, s: set<byte>, wanted: bool)
    requires forall i :: i in indices ==> (i in s <==> Succeeds(cache, i, refused))
    ensures Succeeding(cache, indices, refused, wanted) == Those(indices, s, wanted)
  {
    hide Succeeds;
    if indices != [] {
      assert indices[0] in indices && forall i :: i in indices[1..] ==> i in indices;
      SucceedingThose(cache, indices[1..], refused, s, wanted);
    }
  }

  lemma SucceedsExactly(raw: seq<IncomingSms>, index: byte, refused: set<byte>)
    requires AsRead(raw) && IndicesDiffer(raw) && PartsDiffer(raw)
    ensures Succeeds(Batch(raw), index, refused) <==> forall x :: x in refused ==> !IsAsked(raw, index, x)
  {
    hide ToDelete, Batch, IsAsked, AsRead, IndicesDiffer, PartsDiffer;
    forall x: byte ensures x in ToDelete(Batch(raw), index) <==> IsAsked(raw, index, x) { AskedExactly(raw, index, x); }
  }

  lemma ThoseShorter(indices: seq<byte>, s: set<byte>, wanted: bool)
    ensures |Those(indices, s, wanted)| <= |indices|
  {
  }

  /** A client that asks for indices to be deleted reads success, then the indices deleted, then those that
      failed, each in the order of the request, and nothing else: an index is deleted exactly if the modem
      refuses none of the messages that it is asked to delete for it. */
  lemma DeleteTold(raw: seq<IncomingSms>, indices: seq<byte>, refused: set<byte>, answer: Bytes) returns (gone: set<byte>)
    requires AsRead(raw) && IndicesDiffer(raw) && PartsDiffer(raw) && |indices| < 0x1_0000_0000
    requires
      var s := Store(Batch(raw), raw);
      answer == Response(SUCCESS, Str(Answered(s, indices, refused, true)) + Str(Answered(s, indices, refused, false)))
    ensures forall i :: i in indices ==> (i in gone <==> forall x :: x in refused ==> !IsAsked(raw, i, x))
    ensures
      var deleted, failed := Those(indices, gone, true), Those(indices, gone, false);
      && WordIs(answer, 8, 0)
      && StrAt(answer, 16) == Some(Read(deleted, 20 + |deleted|))
      && StrAt(answer, 20 + |deleted|) == Some(Read(failed, |answer|))
  {
    gone := set i | i in indices && Succeeds(Batch(raw), i, refused);
    hide *;
    forall i | i in indices
      ensures Succeeds(Batch(raw), i, refused) <==> forall x :: x in refused ==> !IsAsked(raw, i, x)
    {
      SucceedsExactly(raw, i, refused);
    }
    BatchNamesItself(raw);
    AnswersThose(raw, indices, refused, gone, true);
    AnswersThose(raw, indices, refused, gone, false);
    ThoseShorter(indices, gone, true);
    ThoseShorter(indices, gone, false);
    TwoRead(Those(indices, gone, true), Those(indices, gone, false), answer);
  }

  lemma AnswersThose(raw: seq<IncomingSms>, indices: seq<byte>, refused: set<byte>, gone: set<byte>, wanted: bool)
    requires NamesItself(Batch(raw)) && forall i :: i in indices ==> (i in gone <==> Succeeds(Batch(raw), i, refused))
    ensures Answered(Store(Batch(raw), raw), indices, refused, wanted) == Those(indices, gone, wanted)
  {
    hide *;
    AnsweredOneByOne(Store(Batch(raw), raw), indices, refused, wanted);
    SucceedingThose(Batch(raw), indices, refused, gone, wanted);
  }

  lemma TwoRead(a: Bytes, b: Bytes, answer: Bytes)
    requires |a| < 0x1_0000_0000 && |b| < 0x1_0000_0000 && answer == Response(SUCCESS, Str(a) + Str(b))
    ensures WordIs(answer, 8, 0)
    ensures StrAt(answer, 16) == Some(Read(a, 20 + |a|)) && StrAt(answer, 20 + |a|) == Some(Read(b, |answer|))
  {
    NumbersAre();
    StrLength(a);
    StrLength(b);
    hide Str, StrAt, WordIs, Response, At;
    StatusTold(SUCCESS, Str(a) + Str(b));
    PayloadAt(SUCCESS, Str(a) + Str(b));
    AtSplit(answer, 16, Str(a), Str(b));
    StrBack(answer, 16, a);
    StrBack(answer, 16 + |Str(a)|, b);
  }

  lemma StrLength(s: Bytes)
    ensures |Str(s)| == 4 + |s|
  {
  }

  /** What the request leaves: of the storage, what the modem refuses to delete or is not asked to; of the
      cache, what has none of the indices deleted. */
  lemma LeftExactly(raw: seq<IncomingSms>, indices: seq<byte>, refused: set<byte>, m: IncomingSms)
    requires AsRead(raw) && IndicesDiffer(raw) && PartsDiffer(raw)
    ensures
      var left := DeletedAll(Store(Batch(raw), raw), indices, refused);
      && (m in left.raw <==> m in raw && (m.index in refused || forall i :: i in indices ==> !IsAsked(raw, i, m.index)))
      && (m in left.cache <==>
            m in Batch(raw) && !(m.index in indices && forall x :: x in refused ==> !IsAsked(raw, m.index, x)))
  {
    hide *;
    BatchNamesItself(raw);
    RequestLeaves(Store(Batch(raw), raw), indices, refused);
    StillStored(raw, indices, refused, m);
    StillCached(raw, indices, refused, m);
  }

  lemma StillStored(raw: seq<IncomingSms>, indices: seq<byte>, refused: set<byte>, m: IncomingSms)
    requires AsRead(raw) && IndicesDiffer(raw) && PartsDiffer(raw)
    ensures m in Select(raw, Spared(Wiped(Batch(raw), indices) - refused))
       <==> m in raw && (m.index in refused || forall i :: i in indices ==> !IsAsked(raw, i, m.index))
  {
    hide Select, Wiped, ToDelete, Batch, IsAsked, AsRead, IndicesDiffer, PartsDiffer;
    SelectedIs(raw, Spared(Wiped(Batch(raw), indices) - refused), m);
    WipedMember(Batch(raw), indices, m.index);
    forall i: byte ensures m.index in ToDelete(Batch(raw), i) <==> IsAsked(raw, i, m.index) { AskedExactly(raw, i, m.index); }
  }

  lemma StillCached(raw: seq<IncomingSms>, indices: seq<byte>, refused: set<byte>, m: IncomingSms)
    requires AsRead(raw) && IndicesDiffer(raw) && PartsDiffer(raw)
    ensures m in Select(Batch(raw), Spared(Forgotten(Batch(raw), indices, refused)))
       <==> m in Batch(raw) && !(m.index in indices && forall x :: x in refused ==> !IsAsked(raw, m.index, x))
  {
    hide Select, Succeeds, Batch, IsAsked, AsRead, IndicesDiffer, PartsDiffer;
    SelectedIs(Batch(raw), Spared(Forgotten(Batch(raw), indices, refused)), m);
    SucceedsExactly(raw, m.index, refused);
  }
}
