/** A whole delete request, with what the modem refuses: when the cache is still that of a fresh look. */
module DeleteRequest {
  import opened Bits
  import opened Sequences
  import opened Sms
  import opened Reassembly
  import opened Combine
  import opened Conservation
  import opened MessageCache
  import opened DeleteCommutes

  // ---------------------------------------------------------------- a request, all at once

  /** Deleting an index deletes that index, among others. */
  ghost predicate NamesItself(cache: seq<IncomingSms>) { forall i: byte :: i in ToDelete(cache, i) }

  /** The modem deletes everything that is asked for an index. */
  predicate Succeeds(cache: seq<IncomingSms>, index: byte, refused: set<byte>) {
    IndexSet(ToDelete(cache, index)) !! refused
  }

  /** The indices that the cache forgets. */
  function Forgotten(cache: seq<IncomingSms>, indices: seq<byte>, refused: set<byte>): set<byte> {
    set i | i in indices && Succeeds(cache, i, refused)
  }

  /** The indices that the modem is asked to delete. */
  function Wiped(cache: seq<IncomingSms>, indices: seq<byte>): set<byte> {
    if indices == [] then {} else IndexSet(ToDelete(cache, indices[0])) + Wiped(cache, indices[1..])
  }

  /** The indices of a request whose own deletion succeeds, or fails. */
  function Succeeding(cache: seq<IncomingSms>, indices: seq<byte>, refused: set<byte>, success: bool): seq<byte> {
    if indices == [] then []
    else
      (if Succeeds(cache, indices[0], refused) == success then [indices[0]] else [])
      + Succeeding(cache, indices[1..], refused, success)
  }

  lemma ToDeleteCons(c: IncomingSms, rest: seq<IncomingSms>, index: byte)
    ensures ToDelete([c] + rest, index) == if Matches(c, index) then c.originalIndices else ToDelete(rest, index)
  {
    assert ([c] + rest)[0] == c && ([c] + rest)[1..] == rest;
  }

  lemma WithoutCons(c: IncomingSms, rest: seq<IncomingSms>, index: byte)
    ensures CacheWithout([c] + rest, index)
         == if c.index == index then CacheWithout(rest, index) else [c] + CacheWithout(rest, index)
  {
    SelectAppend([c], rest, Spared({index}));
    SelectSnoc([], c, Spared({index}));
    NothingSelected(Spared({index}));
    hide Select;
    assert [] + [c] == [c];
    Regroup([], [], CacheWithout(rest, index));
  }

  /** Forgetting one index leaves the others as they were. */
  lemma {:induction false} ToDeleteWithout(cache: seq<IncomingSms>, gone: byte, index: byte)
    ensures ToDelete(CacheWithout(cache, gone), index) == if index == gone then [index] else ToDelete(cache, index)
  {
    hide *;
    if cache == [] {
      NothingSelected(Spared({gone}));
      EmptyCache(gone);
      NoneToDelete(index);
    } else {
      var c, rest := cache[0], cache[1..];
      assert cache == [c] + rest;
      ToDeleteWithout(rest, gone, index);
      WithoutCons(c, rest, gone);
      ToDeleteCons(c, rest, index);
      ToDeleteCons(c, CacheWithout(rest, gone), index);
      MatchesIndex(c, index);
    }
  }

  lemma EmptyCache(gone: byte)
    ensures CacheWithout([], gone) == []
  {
  }

  lemma MatchesIndex(c: IncomingSms, index: byte)
    ensures Matches(c, index) ==> c.index == index
  {
  }

  lemma OnlyItself(index: byte)
    ensures IndexSet([index]) == {index}
  {
  }

  lemma StillNamesItself(cache: seq<IncomingSms>, gone: byte)
    requires NamesItself(cache)
    ensures NamesItself(CacheWithout(cache, gone))
  {
    hide CacheWithout, ToDelete;
    forall i: byte ensures i in ToDelete(CacheWithout(cache, gone), i) {
      ToDeleteWithout(cache, gone, i);
    }
  }

  /** Whether an index can be deleted does not depend on what was deleted before. */
  lemma SameVerdict(cache: seq<IncomingSms>, gone: byte, index: byte, refused: set<byte>)
    requires NamesItself(cache) && Succeeds(cache, gone, refused)
    ensures Succeeds(CacheWithout(cache, gone), index, refused) <==> Succeeds(cache, index, refused)
  {
    hide CacheWithout, ToDelete;
    ToDeleteWithout(cache, gone, index);
    OnlyItself(index);
  }

  lemma {:induction false} SameAnswers(cache: seq<IncomingSms>, gone: byte, indices: seq<byte>, refused: set<byte>, success: bool)
    requires NamesItself(cache) && Succeeds(cache, gone, refused)
    ensures Succeeding(CacheWithout(cache, gone), indices, refused, success) == Succeeding(cache, indices, refused, success)
  {
    if indices != [] {
      hide CacheWithout, NamesItself, Succeeds;
      SameVerdict(cache, gone, indices[0], refused);
      SameAnswers(cache, gone, indices[1..], refused, success);
    }
  }

  lemma {:induction false} SameWiped(cache: seq<IncomingSms>, gone: byte, indices: seq<byte>)
    requires NamesItself(cache)
    ensures IndexSet(ToDelete(cache, gone)) + Wiped(CacheWithout(cache, gone), indices)
         == IndexSet(ToDelete(cache, gone)) + Wiped(cache, indices)
  {
    if indices != [] {
      hide CacheWithout, ToDelete;
      ToDeleteWithout(cache, gone, indices[0]);
      OnlyItself(gone);
      SameWiped(cache, gone, indices[1..]);
    }
  }

  lemma AfterOneDeleted(s: Store, index: byte, refused: set<byte>)
    ensures Deleted(s, index, refused)
         == Store(if Succeeds(s.cache, index, refused) then CacheWithout(s.cache, index) else s.cache,
                  Select(s.raw, Spared(IndexSet(ToDelete(s.cache, index)) - refused)))
  {
    hide ToDelete, Select, IndexSet;
  }

  lemma DeletedAllCons(s: Store, indices: seq<byte>, refused: set<byte>)
    requires indices != []
    ensures DeletedAll(s, indices, refused) == DeletedAll(Deleted(s, indices[0], refused), indices[1..], refused)
  {
    hide Deleted;
  }

  lemma AnsweredCons(s: Store, indices: seq<byte>, refused: set<byte>, success: bool)
    requires indices != []
    ensures Answered(s, indices, refused, success)
         == (if Succeeds(s.cache, indices[0], refused) == success then [indices[0]] else [])
            + Answered(Deleted(s, indices[0], refused), indices[1..], refused, success)
  {
    hide Deleted, ToDelete, IndexSet;
  }

  lemma StepNamesItself(s: Store, index: byte, refused: set<byte>)
    requires NamesItself(s.cache)
    ensures NamesItself(Deleted(s, index, refused).cache)
  {
    hide *;
    AfterOneDeleted(s, index, refused);
    StillNamesItself(s.cache, index);
  }

  /** Each index of a request is deleted, or fails, as it would by itself. */
  lemma {:induction false} AnsweredOneByOne(s: Store, indices: seq<byte>, refused: set<byte>, success: bool)
    requires NamesItself(s.cache)
    ensures Answered(s, indices, refused, success) == Succeeding(s.cache, indices, refused, success)
    decreases |indices|
  {
    if indices != [] {
      var index, rest := indices[0], indices[1..];
      hide Deleted, Answered, NamesItself, Succeeds, ToDelete, CacheWithout, Select;
      AnsweredCons(s, indices, refused, success);
      StepNamesItself(s, index, refused);
      AnsweredOneByOne(Deleted(s, index, refused), rest, refused, success);
      AfterOneDeleted(s, index, refused);
      if Succeeds(s.cache, index, refused) { SameAnswers(s.cache, index, rest, refused, success); }
    } else {
      NothingAnswered(s, refused, [], []);
    }
  }

  lemma ForgottenCons(cache: seq<IncomingSms>, indices: seq<byte>, refused: set<byte>)
    requires indices != []
    ensures Forgotten(cache, indices, refused)
         == (if Succeeds(cache, indices[0], refused) then {indices[0]} else {}) + Forgotten(cache, indices[1..], refused)
  {
    hide Succeeds;
    assert indices == [indices[0]] + indices[1..];
  }

  lemma SameForgotten(cache: seq<IncomingSms>, gone: byte, indices: seq<byte>, refused: set<byte>)
    requires NamesItself(cache) && Succeeds(cache, gone, refused)
    ensures Forgotten(CacheWithout(cache, gone), indices, refused) == Forgotten(cache, indices, refused)
  {
    hide Succeeds, CacheWithout, NamesItself;
    forall i | i in indices
      ensures Succeeds(CacheWithout(cache, gone), i, refused) <==> Succeeds(cache, i, refused)
    {
      SameVerdict(cache, gone, i, refused);
    }
  }

  /** What a request leaves: of the cache, what is not forgotten; of the storage, what the modem was not
      asked to delete or refused to. */
  lemma {:induction false} RequestLeaves(s: Store, indices: seq<byte>, refused: set<byte>)
    requires NamesItself(s.cache)
    ensures DeletedAll(s, indices, refused)
         == Store(Select(s.cache, Spared(Forgotten(s.cache, indices, refused))),
                  Select(s.raw, Spared(Wiped(s.cache, indices) - refused)))
    decreases |indices|
  {
    hide *;
    if indices == [] {
      NothingLeaves(s, refused);
    } else {
      var index, rest := indices[0], indices[1..];
      var next := Deleted(s, index, refused);
      DeletedAllCons(s, indices, refused);
      StepNamesItself(s, index, refused);
      RequestLeaves(next, rest, refused);
      AfterOneDeleted(s, index, refused);
      CacheLeft(s, indices, refused);
      StorageLeft(s, indices, refused);
    }
  }

  lemma NothingLeaves(s: Store, refused: set<byte>)
    ensures DeletedAll(s, [], refused) == s
    ensures Select(s.cache, Spared(Forgotten(s.cache, [], refused))) == s.cache
    ensures Select(s.raw, Spared(Wiped(s.cache, []) - refused)) == s.raw
  {
    SelectAll(s.cache, Spared(Forgotten(s.cache, [], refused)));
    SelectAll(s.raw, Spared(Wiped(s.cache, []) - refused));
    hide Select;
  }

  lemma CacheLeft(s: Store, indices: seq<byte>, refused: set<byte>)
    requires indices != [] && NamesItself(s.cache)
    ensures
      var next := Deleted(s, indices[0], refused).cache;
      Select(next, Spared(Forgotten(next, indices[1..], refused)))
      == Select(s.cache, Spared(Forgotten(s.cache, indices, refused)))
  {
    var index, rest := indices[0], indices[1..];
    assert CacheWithout(s.cache, index) == Select(s.cache, Spared({index}));
    hide *;
    AfterOneDeleted(s, index, refused);
    ForgottenCons(s.cache, indices, refused);
    if Succeeds(s.cache, index, refused) {
      SameForgotten(s.cache, index, rest, refused);
      SelectTwice(s.cache, {index}, Forgotten(s.cache, rest, refused));
    } else {
      assert {} + Forgotten(s.cache, rest, refused) == Forgotten(s.cache, rest, refused);
    }
  }

  lemma StorageLeft(s: Store, indices: seq<byte>, refused: set<byte>)
    requires indices != [] && NamesItself(s.cache)
    ensures
      var next := Deleted(s, indices[0], refused);
      Select(next.raw, Spared(Wiped(next.cache, indices[1..]) - refused))
      == Select(s.raw, Spared(Wiped(s.cache, indices) - refused))
  {
    var index, rest := indices[0], indices[1..];
    var next := Deleted(s, index, refused);
    var asked := IndexSet(ToDelete(s.cache, index));
    assert Wiped(s.cache, indices) == asked + Wiped(s.cache, rest);
    hide *;
    AfterOneDeleted(s, index, refused);
    SameWiped(s.cache, index, rest);
    assert asked + Wiped(next.cache, rest) == asked + Wiped(s.cache, rest);
    SelectTwice(s.raw, asked - refused, Wiped(next.cache, rest) - refused);
    assert (asked - refused) + (Wiped(next.cache, rest) - refused) == (asked + Wiped(next.cache, rest)) - refused;
  }

  // ---------------------------------------------------------------- the cache of a fresh look

  lemma {:induction false} OutputAmong(raw: seq<IncomingSms>, keys: seq<Bytes>, c: IncomingSms)
    ensures c in Outputs(raw, keys) <==> exists k :: k in keys && c in Output(raw, k)
  {
    if keys != [] {
      assert keys == [keys[0]] + keys[1..];
      hide Output;
      OutputAmong(raw, keys[1..], c);
    }
  }

  /** An entry that stands for others stands for a whole group, whose first message it is filed under. */
  lemma EntryStarts(raw: seq<IncomingSms>, c: IncomingSms) returns (key: Bytes)
    requires AsRead(raw) && PartsDiffer(raw) && c in Batch(raw) && c.originalIndices != []
    ensures key in KeysOf(raw) && StartsAt(raw, key, c.index)
    ensures c.originalIndices == AllIndices(EntryFrom(GroupIn(raw, key)))
  {
    hide *;
    BatchIs(raw);
    SelectedIs(raw, Alone, c);
    if c in raw { ReadAlone(raw, c); }
    OutputAmong(raw, KeysOf(raw), c);
    key :| key in KeysOf(raw) && c in Output(raw, key);
    KeysAre(raw, key);
    EntryOfWhole(raw, key, c);
  }

  lemma ReadAlone(raw: seq<IncomingSms>, c: IncomingSms)
    requires AsRead(raw) && c in raw
    ensures c.originalIndices == []
  {
  }

  lemma EntryOfWhole(raw: seq<IncomingSms>, key: Bytes, c: IncomingSms)
    requires AsRead(raw) && PartsDiffer(raw) && GroupIn(raw, key) != [] && c in Output(raw, key)
    requires c.originalIndices != []
    ensures StartsAt(raw, key, c.index) && c.originalIndices == AllIndices(EntryFrom(GroupIn(raw, key)))
  {
    hide *;
    var e := EntryFrom(GroupIn(raw, key));
    OutputIfWhole(raw, key);
    if IsWhole(raw, key) {
      FirstOfEntry(GroupIn(raw, key));
      CombinedIndex(e, StatusAt(raw, e.firstIndex));
      CombinedFrom(e, StatusAt(raw, e.firstIndex));
      StartsAtIs(raw, key, c.index);
    } else {
      SelectedIs(raw, Under(key), c);
      ReadAlone(raw, c);
    }
  }

  lemma CombinedFrom(e: Entry, status: byte)
    ensures CombinedSms(e, status).originalIndices == AllIndices(e)
  {
    hide AllIndices, Combined;
  }

  /** Deleting the index of such an entry deletes all that it stands for. */
  lemma EntryDeletes(raw: seq<IncomingSms>, c: IncomingSms)
    requires AsRead(raw) && PartsDiffer(raw) && IndicesDiffer(raw) && c in Batch(raw) && c.originalIndices != []
    ensures ToDelete(Batch(raw), c.index) == c.originalIndices
  {
    hide StartsAt, AllIndices, EntryFrom, GroupIn, KeysOf, Batch, ToDelete, AsRead, PartsDiffer, IndicesDiffer;
    var key := EntryStarts(raw, c);
    ToDeleteInBatch(raw, c.index);
    if ToDelete(Batch(raw), c.index) != c.originalIndices {
      var k :| k in KeysOf(raw) && StartsAt(raw, k, c.index)
               && ToDelete(Batch(raw), c.index) == AllIndices(EntryFrom(GroupIn(raw, k)));
      StartsAtOneKey(raw, key, k, c.index);
    }
  }

  /** What is deleted is the index alone, or all that some entry with this index stands for. */
  lemma {:induction false} ToDeleteFrom(cache: seq<IncomingSms>, index: byte)
    ensures ToDelete(cache, index) == [index]
         || exists c :: c in cache && Matches(c, index) && ToDelete(cache, index) == c.originalIndices
  {
    if cache != [] {
      if Matches(cache[0], index) {
        FirstMatches(cache, index);
        assert cache[0] in cache;
      } else {
        ToDeleteFrom(cache[1..], index);
      }
    }
  }

  lemma BatchNamesItself(raw: seq<IncomingSms>)
    requires AsRead(raw) && PartsDiffer(raw)
    ensures NamesItself(Batch(raw))
  {
    hide Batch, ToDelete, AsRead, PartsDiffer;
    forall i: byte ensures i in ToDelete(Batch(raw), i) {
      BatchNames(raw, i);
    }
  }

  lemma BatchNames(raw: seq<IncomingSms>, index: byte)
    requires AsRead(raw) && PartsDiffer(raw)
    ensures index in ToDelete(Batch(raw), index)
  {
    hide Batch, ToDelete, AsRead, PartsDiffer, Output, EntryFrom, GroupIn, AllIndices;
    ToDeleteFrom(Batch(raw), index);
    if ToDelete(Batch(raw), index) != [index] {
      var c :| c in Batch(raw) && Matches(c, index) && ToDelete(Batch(raw), index) == c.originalIndices;
      var key := EntryStarts(raw, c);
      GroupIndices(raw, key, index);
      assert GroupIn(raw, key)[0] in GroupIn(raw, key);
    }
  }

  /** A hidden part is one of those that some entry stands for; deleting it by its own index takes it alone. */
  lemma HiddenInEntry(raw: seq<IncomingSms>, index: byte) returns (c: IncomingSms)
    requires AsRead(raw) && PartsDiffer(raw) && IndicesDiffer(raw) && Hidden(raw, index)
    ensures c in Batch(raw) && c.originalIndices != [] && index in c.originalIndices
    ensures !HasIndex(Batch(raw), index) && ToDelete(Batch(raw), index) == [index]
  {
    hide *;
    HiddenExactly(raw, index);
    NothingToTake(Batch(raw), index);
    var key, first := HiddenGroup(raw, index);
    OutputMatches(raw, key, first);
    GroupIndices(raw, key, index);
    c := Output(raw, key)[0];
    MatchesIs(c, first);
    OutputAmong(raw, KeysOf(raw), c);
    BatchIs(raw);
  }

  lemma MatchesIs(c: IncomingSms, index: byte)
    requires Matches(c, index)
    ensures c.index == index && c.originalIndices != []
  {
  }

  lemma HiddenGroup(raw: seq<IncomingSms>, index: byte) returns (key: Bytes, first: byte)
    requires IndicesDiffer(raw) && Hidden(raw, index)
    ensures key in KeysOf(raw) && GroupIn(raw, key) != [] && StartsAt(raw, key, first)
    ensures HasIndex(GroupIn(raw, key), index)
  {
    hide IsWhole, GroupIn, KeyOf, KeysOf, IsPart, HasIndex, IndicesDiffer;
    var i :| 0 <= i < |raw| && raw[i].index == index && IsHidden(raw, raw[i]);
    key := KeyOf(raw[i]);
    first := GroupIn(raw, key)[0].index;
    KeysAre(raw, key);
    GroupIndexIsPart(raw, key, raw[i]);
  }

  // ---------------------------------------------------------------- the condition

  /** What a caller can check of an entry of the cache that stands for several messages: if its index is
      requested, the modem refuses all of them or none; if not, it refuses those that are requested. */
  predicate EntryKeeps(c: IncomingSms, indices: seq<byte>, refused: set<byte>) {
    var parts := IndexSet(c.originalIndices);
    if c.index in indices then parts !! refused || parts <= refused else parts * IndexSet(indices) <= refused
  }

  ghost predicate RequestKeeps(cache: seq<IncomingSms>, indices: seq<byte>, refused: set<byte>) {
    forall c :: c in cache && c.originalIndices != [] ==> EntryKeeps(c, indices, refused)
  }

  /** An entry that meets it not stays in the cache, though one of its messages goes. */
  lemma EntryBreaks(c: IncomingSms, indices: seq<byte>, refused: set<byte>) returns (x: byte)
    requires !EntryKeeps(c, indices, refused)
    ensures x in c.originalIndices && x !in refused && (c.index in indices || x in indices)
    ensures c.index in indices ==> !(IndexSet(c.originalIndices) !! refused)
  {
    var parts := IndexSet(c.originalIndices);
    if c.index in indices {
      x :| x in parts && x !in refused;
    } else {
      x :| x in parts && x in IndexSet(indices) && x !in refused;
    }
  }

  lemma {:induction false} WipedMember(cache: seq<IncomingSms>, indices: seq<byte>, x: byte)
    ensures x in Wiped(cache, indices) <==> exists i :: i in indices && x in ToDelete(cache, i)
  {
    if indices != [] {
      var first, rest := indices[0], indices[1..];
      assert indices == [first] + rest;
      assert Wiped(cache, indices) == IndexSet(ToDelete(cache, first)) + Wiped(cache, rest);
      hide ToDelete, Wiped;
      WipedMember(cache, rest, x);
      if x in Wiped(cache, rest) {
        var i :| i in rest && x in ToDelete(cache, i);
        assert i in indices;
      }
    }
  }

  lemma {:induction false} ShowsMember(list: seq<IncomingSms>, c: IncomingSms, x: byte)
    requires c in list && x in IndicesShown(c)
    ensures x in Shown(list)
  {
    var rest, last := list[..|list| - 1], list[|list| - 1];
    assert list == rest + [last];
    hide Shown, IndicesShown;
    ShownSnoc(rest, last);
    if c != last {
      ShowsMember(rest, c, x);
    }
  }

  /** Out of step: the cache shows a message that the storage no longer holds. */
  lemma BrokenFallsOut(raw: seq<IncomingSms>, indices: seq<byte>, refused: set<byte>, c: IncomingSms)
    requires WellFormed(raw) && c in Batch(raw) && c.originalIndices != [] && !EntryKeeps(c, indices, refused)
    ensures Select(Batch(raw), Spared(Forgotten(Batch(raw), indices, refused)))
         != Batch(Select(raw, Spared(Wiped(Batch(raw), indices) - refused)))
  {
    hide *;
    WellFormedIs(raw);
    var cache := Batch(raw);
    var gone := Wiped(cache, indices) - refused;
    var left := Select(raw, Spared(gone));
    var x := EntryBreaks(c, indices, refused);
    EntryDeletes(raw, c);
    BatchNames(raw, x);
    WipedMember(cache, indices, x);
    NotForgotten(cache, c, indices, refused);
    SelectedIs(cache, Spared(Forgotten(cache, indices, refused)), c);
    ShowsParts(c, x);
    ShowsMember(Select(cache, Spared(Forgotten(cache, indices, refused))), c, x);
    SelectKeepsForm(raw, Spared(gone));
    BatchShowsIndex(left, x);
    NoneWith(raw, gone, x);
  }

  lemma ShowsParts(c: IncomingSms, x: byte)
    requires x in c.originalIndices
    ensures x in IndicesShown(c)
  {
    assert x in multiset(c.originalIndices);
  }

  lemma NoneWith(raw: seq<IncomingSms>, gone: set<byte>, x: byte)
    requires x in gone
    ensures !HasIndex(Select(raw, Spared(gone)), x)
  {
    hide Select;
    var left := Select(raw, Spared(gone));
    forall i | 0 <= i < |left| ensures left[i].index != x {
      SelectedIs(raw, Spared(gone), left[i]);
    }
  }

  lemma NotForgotten(cache: seq<IncomingSms>, c: IncomingSms, indices: seq<byte>, refused: set<byte>)
    requires ToDelete(cache, c.index) == c.originalIndices
    requires c.index in indices ==> !(IndexSet(c.originalIndices) !! refused)
    ensures Chosen(Spared(Forgotten(cache, indices, refused)), c)
  {
    hide ToDelete, IndexSet;
  }

  // ---------------------------------------------------------------- in step

  /** The indices of a request that name an entry or an empty slot, and of which nothing is refused. */
  function Plain(raw: seq<IncomingSms>, indices: seq<byte>, refused: set<byte>): seq<byte> {
    if indices == [] then []
    else
      (if !Hidden(raw, indices[0]) && Succeeds(Batch(raw), indices[0], refused) then [indices[0]] else [])
      + Plain(raw, indices[1..], refused)
  }

  lemma {:induction false} PlainMember(raw: seq<IncomingSms>, indices: seq<byte>, refused: set<byte>, i: byte)
    ensures i in Plain(raw, indices, refused)
       <==> i in indices && !Hidden(raw, i) && Succeeds(Batch(raw), i, refused)
  {
    if indices != [] {
      assert indices == [indices[0]] + indices[1..];
      hide Hidden, Succeeds, Batch;
      PlainMember(raw, indices[1..], refused, i);
    }
  }

  /** The request is as good as one for these indices alone, of the cache ... */
  lemma ForgetsPlain(raw: seq<IncomingSms>, indices: seq<byte>, refused: set<byte>, c: IncomingSms)
    requires IndicesDiffer(raw) && c in Batch(raw)
    ensures c.index in Forgotten(Batch(raw), indices, refused)
       <==> c.index in Forgotten(Batch(raw), Plain(raw, indices, refused), {})
  {
    hide Batch, Plain, Hidden, ToDelete, IndicesDiffer;
    PlainMember(raw, indices, refused, c.index);
    HiddenExactly(raw, c.index);
    HasIndexMember(Batch(raw), c);
  }

  /** ... and of the storage. */
  lemma WipesPlain(raw: seq<IncomingSms>, indices: seq<byte>, refused: set<byte>, x: byte)
    requires WellFormed(raw) && RequestKeeps(Batch(raw), indices, refused)
    ensures x in Wiped(Batch(raw), indices) - refused <==> x in Wiped(Batch(raw), Plain(raw, indices, refused))
  {
    hide *;
    var cache, plain := Batch(raw), Plain(raw, indices, refused);
    WipedMember(cache, indices, x);
    WipedMember(cache, plain, x);
    if x in Wiped(cache, plain) {
      var i :| i in plain && x in ToDelete(cache, i);
      PlainMember(raw, indices, refused, i);
      SucceedsFor(cache, i, refused, x);
    }
    if x in Wiped(cache, indices) - refused {
      var i :| i in indices && x in ToDelete(cache, i);
      WipedByPlain(raw, indices, refused, i, x);
    }
  }

  lemma SucceedsFor(cache: seq<IncomingSms>, index: byte, refused: set<byte>, x: byte)
    requires Succeeds(cache, index, refused) && x in ToDelete(cache, index)
    ensures x !in refused
  {
    hide ToDelete;
    assert x in IndexSet(ToDelete(cache, index));
  }

  lemma WipedByPlain(raw: seq<IncomingSms>, indices: seq<byte>, refused: set<byte>, i: byte, x: byte)
    requires WellFormed(raw) && RequestKeeps(Batch(raw), indices, refused)
    requires i in indices && x in ToDelete(Batch(raw), i) && x !in refused
    ensures exists j :: j in Plain(raw, indices, refused) && x in ToDelete(Batch(raw), j)
  {
    hide *;
    WellFormedIs(raw);
    var cache := Batch(raw);
    if Hidden(raw, i) {
      var c := HiddenInEntry(raw, i);
      EntryHolds(cache, indices, refused, c);
      EntryDeletes(raw, c);
      EntryGoesWhole(cache, c, indices, refused, x);
      EntryUnhidden(raw, c);
      PlainMember(raw, indices, refused, c.index);
    } else {
      PlainMember(raw, indices, refused, i);
      ToDeleteFrom(cache, i);
      if ToDelete(cache, i) == [i] {
        SucceedsAlone(cache, i, refused);
      } else {
        var c :| c in cache && Matches(c, i) && ToDelete(cache, i) == c.originalIndices;
        MatchesIs(c, i);
        EntryHolds(cache, indices, refused, c);
        EntryGoesWhole(cache, c, indices, refused, x);
      }
    }
  }

  lemma EntryHolds(cache: seq<IncomingSms>, indices: seq<byte>, refused: set<byte>, c: IncomingSms)
    requires RequestKeeps(cache, indices, refused) && c in cache && c.originalIndices != []
    ensures EntryKeeps(c, indices, refused)
  {
    hide EntryKeeps;
  }

  /** One of its messages goes and is requested, or its index is: so all of it goes. */
  lemma EntryGoesWhole(cache: seq<IncomingSms>, c: IncomingSms, indices: seq<byte>, refused: set<byte>, x: byte)
    requires EntryKeeps(c, indices, refused) && ToDelete(cache, c.index) == c.originalIndices
    requires x in c.originalIndices && x !in refused && (c.index in indices || x in indices)
    ensures c.index in indices && Succeeds(cache, c.index, refused)
  {
    hide ToDelete;
    var parts := IndexSet(c.originalIndices);
    assert x in parts;
    assert x in indices ==> x in parts * IndexSet(indices);
  }

  lemma SucceedsAlone(cache: seq<IncomingSms>, index: byte, refused: set<byte>)
    requires ToDelete(cache, index) == [index] && index !in refused
    ensures Succeeds(cache, index, refused)
  {
    hide ToDelete;
    OnlyItself(index);
  }

  lemma EntryUnhidden(raw: seq<IncomingSms>, c: IncomingSms)
    requires IndicesDiffer(raw) && c in Batch(raw)
    ensures !Hidden(raw, c.index)
  {
    hide *;
    HiddenExactly(raw, c.index);
    HasIndexMember(Batch(raw), c);
  }

  lemma PlainCommutes(raw: seq<IncomingSms>, indices: seq<byte>, refused: set<byte>)
    requires WellFormed(raw)
    ensures
      var plain := Plain(raw, indices, refused);
      var left := Select(raw, Spared(Wiped(Batch(raw), plain)));
      Select(Batch(raw), Spared(Forgotten(Batch(raw), plain, {}))) == Batch(left) && WellFormed(left)
  {
    hide *;
    WellFormedIs(raw);
    var plain := Plain(raw, indices, refused);
    forall i | i in plain ensures HasIndex(Batch(raw), i) || !HasIndex(raw, i) {
      PlainMember(raw, indices, refused, i);
      HiddenExactly(raw, i);
    }
    DeleteRequestCommutes(raw, plain);
    BatchNamesItself(raw);
    RequestLeaves(Store(Batch(raw), raw), plain, {});
    assert Wiped(Batch(raw), plain) - {} == Wiped(Batch(raw), plain);
  }

  lemma KeptInStep(raw: seq<IncomingSms>, indices: seq<byte>, refused: set<byte>)
    requires WellFormed(raw) && RequestKeeps(Batch(raw), indices, refused)
    ensures
      var left := Select(raw, Spared(Wiped(Batch(raw), indices) - refused));
      Select(Batch(raw), Spared(Forgotten(Batch(raw), indices, refused))) == Batch(left) && WellFormed(left)
  {
    hide *;
    WellFormedIs(raw);
    var cache, plain := Batch(raw), Plain(raw, indices, refused);
    PlainCommutes(raw, indices, refused);
    var a, b := Forgotten(cache, indices, refused), Forgotten(cache, plain, {});
    forall c | c in cache ensures Chosen(Spared(a), c) <==> Chosen(Spared(b), c) {
      ForgetsPlain(raw, indices, refused, c);
      ChosenSpared(a, c);
      ChosenSpared(b, c);
    }
    SelectAgrees(cache, Spared(a), Spared(b));
    forall x ensures x in Wiped(cache, indices) - refused <==> x in Wiped(cache, plain) {
      WipesPlain(raw, indices, refused, x);
    }
    assert Wiped(cache, indices) - refused == Wiped(cache, plain);
  }

  /** A delete request leaves the cache that reading the storage anew would give if and only if of each
      entry that stands for several messages it deletes all or none. */
  lemma DeleteRequestExactly(raw: seq<IncomingSms>, indices: seq<byte>, refused: set<byte>)
    requires WellFormed(raw)
    ensures
      var end := DeletedAll(Store(Batch(raw), raw), indices, refused);
      && (end.cache == Batch(end.raw) <==> RequestKeeps(Batch(raw), indices, refused))
      && (RequestKeeps(Batch(raw), indices, refused) ==> WellFormed(end.raw))
  {
    hide *;
    WellFormedIs(raw);
    var cache := Batch(raw);
    BatchNamesItself(raw);
    RequestLeaves(Store(cache, raw), indices, refused);
    if RequestKeeps(cache, indices, refused) {
      KeptInStep(raw, indices, refused);
    } else {
      var c := BrokenEntry(cache, indices, refused);
      BrokenFallsOut(raw, indices, refused, c);
    }
  }

  lemma BrokenEntry(cache: seq<IncomingSms>, indices: seq<byte>, refused: set<byte>) returns (c: IncomingSms)
    requires !RequestKeeps(cache, indices, refused)
    ensures c in cache && c.originalIndices != [] && !EntryKeeps(c, indices, refused)
  {
    hide EntryKeeps;
    c :| c in cache && c.originalIndices != [] && !EntryKeeps(c, indices, refused);
  }
}
