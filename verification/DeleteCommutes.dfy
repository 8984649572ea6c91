/** Deleting from the cache against reading the storage anew. */
module DeleteCommutes {
  import opened Bits
  import opened Sms
  import opened Reassembly
  import opened Combine
  import opened Conservation
  import opened MessageCache

  // ---------------------------------------------------------------- well-formed storage

  predicate IndicesDiffer(raw: seq<IncomingSms>) {
    forall i, j :: 0 <= i < j < |raw| ==> raw[i].index != raw[j].index
  }

  predicate NumbersInRange(raw: seq<IncomingSms>) {
    forall i :: 0 <= i < |raw| && IsPart(raw[i]) ==> 1 <= SeqNo(raw[i]) <= raw[i].decoded.concat.concatTotal
  }

  predicate WellFormed(raw: seq<IncomingSms>) {
    AsRead(raw) && IndicesDiffer(raw) && PartsDiffer(raw) && NumbersInRange(raw) && NoKeyShared(raw)
  }

  lemma SameMessage(raw: seq<IncomingSms>, m: IncomingSms, n: IncomingSms)
    requires IndicesDiffer(raw) && m in raw && n in raw && m.index == n.index
    ensures m == n
  {
    var i :| 0 <= i < |raw| && raw[i] == m;
    var j :| 0 <= j < |raw| && raw[j] == n;
  }

  /** A part behind the first of a whole group: the cache shows it only inside a combined message. */
  predicate IsHidden(raw: seq<IncomingSms>, m: IncomingSms) {
    IsPart(m) && IsWhole(raw, KeyOf(m)) && GroupIn(raw, KeyOf(m)) != [] && GroupIn(raw, KeyOf(m))[0].index != m.index
  }

  predicate Hidden(raw: seq<IncomingSms>, index: byte) {
    exists i :: 0 <= i < |raw| && raw[i].index == index && IsHidden(raw, raw[i])
  }

  // ---------------------------------------------------------------- what is deleted

  predicate Matches(m: IncomingSms, index: byte) { m.index == index && m.originalIndices != [] }

  lemma {:induction false} ToDeleteBehind(a: seq<IncomingSms>, b: seq<IncomingSms>, index: byte)
    requires forall i :: 0 <= i < |a| ==> !Matches(a[i], index)
    ensures ToDelete(a + b, index) == ToDelete(b, index)
  {
    if a == [] {
      assert a + b == b;
    } else {
      assert (a + b)[1..] == a[1..] + b && (a + b)[0] == a[0];
      assert !Matches(a[0], index);
      ToDeleteBehind(a[1..], b, index);
    }
  }

  /** The group under the key is whole, and its first message has this index. */
  predicate StartsAt(raw: seq<IncomingSms>, key: Bytes, index: byte) {
    IsWhole(raw, key) && GroupIn(raw, key) != [] && GroupIn(raw, key)[0].index == index
  }

  lemma OutputMatches(raw: seq<IncomingSms>, key: Bytes, index: byte)
    requires AsRead(raw) && PartsDiffer(raw) && GroupIn(raw, key) != []
    ensures StartsAt(raw, key, index) ==>
              Output(raw, key) != [] && Matches(Output(raw, key)[0], index)
              && Output(raw, key)[0].originalIndices == AllIndices(EntryFrom(GroupIn(raw, key)))
    ensures !StartsAt(raw, key, index) ==> forall i :: 0 <= i < |Output(raw, key)| ==> !Matches(Output(raw, key)[i], index)
  {
    FirstOfEntry(GroupIn(raw, key));
    if IsWhole(raw, key) {
      WholeShows(raw, key);
      hide EntryFrom, GroupIn, AllIndices, StatusAt, Combined;
    } else {
      var output := Output(raw, key);
      hide Select, KeyOf, EntryFrom, IsComplete;
      forall i | 0 <= i < |output| ensures !Matches(output[i], index) {
        SelectedIs(raw, Under(key), output[i]);
      }
    }
  }

  lemma FirstMatches(cache: seq<IncomingSms>, index: byte)
    requires cache != [] && Matches(cache[0], index)
    ensures ToDelete(cache, index) == cache[0].originalIndices
  {
  }

  lemma NoneToDelete(index: byte)
    ensures ToDelete([], index) == [index]
  {
  }

  lemma FirstOfBoth(a: seq<IncomingSms>, b: seq<IncomingSms>)
    requires a != []
    ensures a + b != [] && (a + b)[0] == a[0]
  {
  }

  /** Either the index alone, or the whole group that starts at it. */
  predicate Deletes(raw: seq<IncomingSms>, keys: seq<Bytes>, index: byte, indices: seq<byte>) {
    || (indices == [index] && forall k :: k in keys ==> !StartsAt(raw, k, index))
    || (exists k :: k in keys && StartsAt(raw, k, index) && indices == AllIndices(EntryFrom(GroupIn(raw, k))))
  }

  lemma DeletesCons(raw: seq<IncomingSms>, keys: seq<Bytes>, index: byte, indices: seq<byte>)
    requires keys != []
    ensures StartsAt(raw, keys[0], index) && indices == AllIndices(EntryFrom(GroupIn(raw, keys[0]))) ==>
              Deletes(raw, keys, index, indices)
    ensures !StartsAt(raw, keys[0], index) && Deletes(raw, keys[1..], index, indices) ==> Deletes(raw, keys, index, indices)
  {
    hide StartsAt, AllIndices, EntryFrom, GroupIn;
    assert keys == [keys[0]] + keys[1..];
  }

  lemma {:induction false} ToDeleteInOutputs(raw: seq<IncomingSms>, keys: seq<Bytes>, index: byte)
    requires AsRead(raw) && PartsDiffer(raw) && forall k :: k in keys ==> GroupIn(raw, k) != []
    ensures Deletes(raw, keys, index, ToDelete(Outputs(raw, keys), index))
  {
    if keys == [] {
      NoneToDelete(index);
      hide StartsAt, ToDelete;
    } else {
      var first, rest := Output(raw, keys[0]), Outputs(raw, keys[1..]);
      assert Outputs(raw, keys) == first + rest;
      assert keys == [keys[0]] + keys[1..];
      hide *;
      DeletesCons(raw, keys, index, ToDelete(first + rest, index));
      OutputMatches(raw, keys[0], index);
      if StartsAt(raw, keys[0], index) {
        FirstOfBoth(first, rest);
        FirstMatches(first + rest, index);
      } else {
        ToDeleteBehind(first, rest, index);
        ToDeleteInOutputs(raw, keys[1..], index);
      }
    }
  }

  lemma ToDeleteInBatch(raw: seq<IncomingSms>, index: byte)
    requires AsRead(raw) && PartsDiffer(raw)
    ensures Deletes(raw, KeysOf(raw), index, ToDelete(Batch(raw), index))
  {
    var singles := Select(raw, Alone);
    forall i | 0 <= i < |singles| ensures !Matches(singles[i], index) {
      SelectedIs(raw, Alone, singles[i]);
    }
    assert Batch(raw) == singles + Outputs(raw, KeysOf(raw));
    forall k | k in KeysOf(raw) ensures GroupIn(raw, k) != [] { KeysAre(raw, k); }
    hide *;
    ToDeleteBehind(singles, Outputs(raw, KeysOf(raw)), index);
    ToDeleteInOutputs(raw, KeysOf(raw), index);
  }

  // ---------------------------------------------------------------- which messages go

  predicate HasIndex(list: seq<IncomingSms>, index: byte) { exists i :: 0 <= i < |list| && list[i].index == index }

  lemma HasIndexSnoc(list: seq<IncomingSms>, m: IncomingSms, index: byte)
    ensures HasIndex(list + [m], index) <==> HasIndex(list, index) || m.index == index
  {
    var all := list + [m];
    if HasIndex(list, index) {
      var i :| 0 <= i < |list| && list[i].index == index;
      assert all[i].index == index;
    }
    assert all[|list|] == m;
  }

  lemma {:induction false} ShownMember(list: seq<IncomingSms>, index: byte)
    requires AsRead(list)
    ensures index in Shown(list) <==> HasIndex(list, index)
  {
    if list != [] {
      var rest, last := list[..|list| - 1], list[|list| - 1];
      assert list == rest + [last];
      assert last.originalIndices == [];
      ShownMember(rest, index);
      hide Shown, HasIndex;
      ShownSnoc(rest, last);
      HasIndexSnoc(rest, last, index);
    }
  }

  lemma GroupIndices(raw: seq<IncomingSms>, key: Bytes, index: byte)
    requires AsRead(raw) && PartsDiffer(raw) && GroupIn(raw, key) != []
    ensures index in AllIndices(EntryFrom(GroupIn(raw, key))) <==> HasIndex(GroupIn(raw, key), index)
  {
    WholeShows(raw, key);
    GroupIsOne(raw, key);
    hide GroupIn, EntryFrom, AllIndices, HasIndex, Shown, PartsDiffer;
    ShownMember(GroupIn(raw, key), index);
    var indices := AllIndices(EntryFrom(GroupIn(raw, key)));
    assert index in indices <==> index in multiset(indices);
  }

  lemma GroupIndexIsPart(raw: seq<IncomingSms>, key: Bytes, m: IncomingSms)
    requires IndicesDiffer(raw) && m in raw
    ensures HasIndex(GroupIn(raw, key), m.index) <==> IsPart(m) && KeyOf(m) == key
  {
    hide Select, KeyOf, IsPart, IndicesDiffer, GroupIn;
    InGroup(raw, key, m);
    var group := GroupIn(raw, key);
    if HasIndex(group, m.index) {
      var i :| 0 <= i < |group| && group[i].index == m.index;
      InGroup(raw, key, group[i]);
      SameMessage(raw, m, group[i]);
    }
    if m in group {
      var i :| 0 <= i < |group| && group[i] == m;
    }
  }

  lemma StartIsMember(raw: seq<IncomingSms>, key: Bytes, m: IncomingSms)
    requires IndicesDiffer(raw) && m in raw && StartsAt(raw, key, m.index)
    ensures IsPart(m) && KeyOf(m) == key && GroupIn(raw, key)[0] == m
  {
    var first := GroupIn(raw, key)[0];
    InGroup(raw, key, first);
    SameMessage(raw, m, first);
    hide *;
  }

  lemma StartsAtOneKey(raw: seq<IncomingSms>, j: Bytes, k: Bytes, index: byte)
    requires IndicesDiffer(raw) && StartsAt(raw, j, index) && StartsAt(raw, k, index)
    ensures j == k
  {
    var first := GroupIn(raw, j)[0];
    InGroup(raw, j, first);
    StartIsMember(raw, k, first);
    hide *;
  }

  /** What goes for an index: the message with it, and all parts of the whole group that starts at it. */
  predicate Goes(raw: seq<IncomingSms>, index: byte, m: IncomingSms) {
    m.index == index || (IsPart(m) && StartsAt(raw, KeyOf(m), index))
  }

  lemma GoneExactly(raw: seq<IncomingSms>, index: byte, m: IncomingSms)
    requires AsRead(raw) && IndicesDiffer(raw) && PartsDiffer(raw) && m in raw
    ensures m.index in ToDelete(Batch(raw), index) <==> Goes(raw, index, m)
  {
    var indices := ToDelete(Batch(raw), index);
    hide ToDelete, Batch, StartsAt, AllIndices, EntryFrom, KeyOf, IsPart, HasIndex, KeysOf, GroupIn;
    ToDeleteInBatch(raw, index);
    if exists k :: k in KeysOf(raw) && StartsAt(raw, k, index) && indices == AllIndices(EntryFrom(GroupIn(raw, k))) {
      var k :| k in KeysOf(raw) && StartsAt(raw, k, index) && indices == AllIndices(EntryFrom(GroupIn(raw, k)));
      KeysAre(raw, k);
      GroupIndices(raw, k, m.index);
      GroupIndexIsPart(raw, k, m);
      if m.index == index { StartIsMember(raw, k, m); }
      if IsPart(m) && StartsAt(raw, KeyOf(m), index) { StartsAtOneKey(raw, KeyOf(m), k, index); }
    } else if IsPart(m) {
      PartHasKey(raw, m);
    }
  }

  // ---------------------------------------------------------------- one group

  /** What a group contributes if it has any part at all. */
  function Present(raw: seq<IncomingSms>, key: Bytes): seq<IncomingSms> {
    if GroupIn(raw, key) == [] then [] else Output(raw, key)
  }

  function Left(raw: seq<IncomingSms>, index: byte): seq<IncomingSms> {
    StorageAfter(raw, ToDelete(Batch(raw), index), {})
  }

  lemma LeftSelect(raw: seq<IncomingSms>, index: byte, c: Choice)
    ensures Select(Left(raw, index), c) == Select(Select(raw, c), Spared(IndexSet(ToDelete(Batch(raw), index))))
  {
    var gone := IndexSet(ToDelete(Batch(raw), index));
    assert gone - {} == gone;
    hide Select, ToDelete, Batch;
    SelectCommutes(raw, Spared(gone), c);
  }

  /** Deletion spares exactly what does not go. */
  lemma SparedExactly(raw: seq<IncomingSms>, index: byte, m: IncomingSms)
    requires AsRead(raw) && IndicesDiffer(raw) && PartsDiffer(raw) && m in raw
    ensures Chosen(Spared(IndexSet(ToDelete(Batch(raw), index))), m) <==> !Goes(raw, index, m)
  {
    hide ToDelete, Batch, Goes;
    GoneExactly(raw, index, m);
  }

  lemma {:induction false} StatusSpared(raw: seq<IncomingSms>, gone: set<byte>, index: byte)
    requires index !in gone
    ensures StatusAt(Select(raw, Spared(gone)), index) == StatusAt(raw, index)
  {
    if raw != [] {
      var rest, last := raw[..|raw| - 1], raw[|raw| - 1];
      assert raw == rest + [last];
      hide Select;
      StatusSpared(rest, gone, index);
      SelectSnoc(rest, last, Spared(gone));
      hide StatusAt, HasIndex;
      StatusSnoc(rest, last, index);
      StatusSnoc(Select(rest, Spared(gone)), last, index);
      SameIndices(rest, gone, index);
      if !HasIndex(rest, index) { NoStatus(rest, index); }
    } else {
      NothingSelected(Spared(gone));
    }
  }

  lemma SameIndices(raw: seq<IncomingSms>, gone: set<byte>, index: byte)
    requires index !in gone
    ensures HasIndex(Select(raw, Spared(gone)), index) <==> HasIndex(raw, index)
  {
    hide Select;
    var spared := Select(raw, Spared(gone));
    if HasIndex(raw, index) {
      var i :| 0 <= i < |raw| && raw[i].index == index;
      SelectedIs(raw, Spared(gone), raw[i]);
      var j :| 0 <= j < |spared| && spared[j] == raw[i];
    }
    if HasIndex(spared, index) {
      var i :| 0 <= i < |spared| && spared[i].index == index;
      SelectedIs(raw, Spared(gone), spared[i]);
    }
  }

  lemma {:induction false} NoStatus(raw: seq<IncomingSms>, index: byte)
    requires !HasIndex(raw, index)
    ensures StatusAt(raw, index) == DEFAULT_STATUS
  {
    if raw != [] {
      assert raw[0].index != index;
      assert forall i :: 0 <= i < |raw[1..]| ==> raw[1..][i] == raw[i + 1];
      NoStatus(raw[1..], index);
    }
  }

  lemma {:induction false} StatusSnoc(raw: seq<IncomingSms>, m: IncomingSms, index: byte)
    ensures StatusAt(raw + [m], index)
         == if HasIndex(raw, index) then StatusAt(raw, index) else if m.index == index then m.status else DEFAULT_STATUS
  {
    if raw == [] {
      assert raw + [m] == [m] && [m][1..] == [];
    } else {
      assert (raw + [m])[1..] == raw[1..] + [m] && (raw + [m])[0] == raw[0];
      StatusSnoc(raw[1..], m, index);
      if HasIndex(raw[1..], index) {
        var i :| 0 <= i < |raw[1..]| && raw[1..][i].index == index;
        assert raw[i + 1].index == index;
      }
      if HasIndex(raw, index) && raw[0].index != index {
        var i :| 0 <= i < |raw| && raw[i].index == index;
        assert raw[1..][i - 1].index == index;
      }
    }
  }

  lemma CacheWithoutOne(m: IncomingSms, index: byte)
    ensures CacheWithout([m], index) == if m.index == index then [] else [m]
  {
    var none: seq<IncomingSms> := [];
    assert none + [m] == [m];
    NothingSelected(Spared({index}));
    SelectSnoc(none, m, Spared({index}));
    hide Select;
  }

  lemma GoneGroup(raw: seq<IncomingSms>, index: byte, key: Bytes)
    requires AsRead(raw) && IndicesDiffer(raw) && PartsDiffer(raw) && StartsAt(raw, key, index)
    ensures GroupIn(Left(raw, index), key) == []
  {
    var spared := Spared(IndexSet(ToDelete(Batch(raw), index)));
    LeftSelect(raw, index, PartsUnder(key));
    forall m | m in GroupIn(raw, key) ensures !Chosen(spared, m) {
      InGroup(raw, key, m);
      SparedExactly(raw, index, m);
    }
    hide *;
    SelectNone(GroupIn(raw, key), spared);
    GroupSelects(raw, key);
    GroupSelects(Left(raw, index), key);
  }

  lemma GroupSelects(raw: seq<IncomingSms>, key: Bytes)
    ensures GroupIn(raw, key) == Select(raw, PartsUnder(key))
  {
    hide Select;
  }

  lemma OutputIfWhole(raw: seq<IncomingSms>, key: Bytes)
    ensures
      var e := EntryFrom(GroupIn(raw, key));
      IsWhole(raw, key) ==> Output(raw, key) == [CombinedSms(e, StatusAt(raw, e.firstIndex))]
    ensures !IsWhole(raw, key) ==> Output(raw, key) == Select(raw, Under(key))
    ensures IsWhole(raw, key) <==> IsComplete(EntryFrom(GroupIn(raw, key)))
  {
    hide EntryFrom, GroupIn, Select, IsComplete, CombinedSms, StatusAt;
  }

  lemma CombinedIndex(e: Entry, status: byte)
    ensures CombinedSms(e, status).index == e.firstIndex
  {
    hide AllIndices, Combined;
  }

  lemma StartsAtIs(raw: seq<IncomingSms>, key: Bytes, index: byte)
    ensures StartsAt(raw, key, index) <==> IsWhole(raw, key) && GroupIn(raw, key) != [] && GroupIn(raw, key)[0].index == index
  {
    hide IsWhole, GroupIn;
  }

  lemma AfterWholeGoes(raw: seq<IncomingSms>, index: byte, key: Bytes)
    requires AsRead(raw) && IndicesDiffer(raw) && PartsDiffer(raw) && StartsAt(raw, key, index)
    ensures CacheWithout(Output(raw, key), index) == Present(Left(raw, index), key)
  {
    GoneGroup(raw, index, key);
    assert Present(Left(raw, index), key) == [];
    hide *;
    var e := EntryFrom(GroupIn(raw, key));
    StartsAtIs(raw, key, index);
    OutputIfWhole(raw, key);
    FirstOfEntry(GroupIn(raw, key));
    CombinedIndex(e, StatusAt(raw, e.firstIndex));
    CacheWithoutOne(CombinedSms(e, StatusAt(raw, e.firstIndex)), index);
  }

  lemma StaysUnlessHidden(raw: seq<IncomingSms>, index: byte, key: Bytes, m: IncomingSms)
    requires !Hidden(raw, index) && IsWhole(raw, key) && !StartsAt(raw, key, index)
    requires m in GroupIn(raw, key)
    ensures !Goes(raw, index, m)
  {
    StartsAtIs(raw, key, index);
    InGroup(raw, key, m);
    var i :| 0 <= i < |raw| && raw[i] == m;
    hide IsWhole, GroupIn, IsPart, KeyOf, StartsAt;
  }

  lemma KeptGroup(raw: seq<IncomingSms>, index: byte, key: Bytes)
    requires AsRead(raw) && IndicesDiffer(raw) && PartsDiffer(raw) && !Hidden(raw, index)
    requires IsWhole(raw, key) && !StartsAt(raw, key, index)
    ensures GroupIn(Left(raw, index), key) == GroupIn(raw, key)
    ensures forall m :: m in GroupIn(raw, key) ==> m.index !in IndexSet(ToDelete(Batch(raw), index))
  {
    hide *;
    var spared := Spared(IndexSet(ToDelete(Batch(raw), index)));
    LeftSelect(raw, index, PartsUnder(key));
    forall m | m in GroupIn(raw, key) ensures Chosen(spared, m) {
      InGroup(raw, key, m);
      StaysUnlessHidden(raw, index, key, m);
      SparedExactly(raw, index, m);
    }
    SelectAll(GroupIn(raw, key), spared);
    GroupSelects(raw, key);
    GroupSelects(Left(raw, index), key);
    forall m | m in GroupIn(raw, key) ensures m.index !in IndexSet(ToDelete(Batch(raw), index)) {
      ChosenSpared(IndexSet(ToDelete(Batch(raw), index)), m);
    }
  }

  lemma ChosenSpared(gone: set<byte>, m: IncomingSms)
    ensures Chosen(Spared(gone), m) <==> m.index !in gone
  {
  }

  lemma LeftIs(raw: seq<IncomingSms>, index: byte)
    ensures Left(raw, index) == Select(raw, Spared(IndexSet(ToDelete(Batch(raw), index))))
  {
    hide Select, ToDelete, Batch;
    var gone := IndexSet(ToDelete(Batch(raw), index));
    assert gone - {} == gone;
  }

  lemma PresentIs(raw: seq<IncomingSms>, key: Bytes)
    ensures Present(raw, key) == if GroupIn(raw, key) == [] then [] else Output(raw, key)
  {
    hide Output, GroupIn;
  }

  lemma AfterWholeStays(raw: seq<IncomingSms>, index: byte, key: Bytes)
    requires AsRead(raw) && IndicesDiffer(raw) && PartsDiffer(raw) && !Hidden(raw, index)
    requires IsWhole(raw, key) && !StartsAt(raw, key, index) && GroupIn(raw, key) != []
    ensures CacheWithout(Output(raw, key), index) == Present(Left(raw, index), key)
  {
    hide *;
    var group, left := GroupIn(raw, key), Left(raw, index);
    var e := EntryFrom(group);
    var gone := IndexSet(ToDelete(Batch(raw), index));
    KeptGroup(raw, index, key);
    FirstOfEntry(group);
    StartsAtIs(raw, key, index);
    assert group[0] in group;
    StatusSpared(raw, gone, e.firstIndex);
    LeftIs(raw, index);
    OutputIfWhole(raw, key);
    OutputIfWhole(left, key);
    CombinedIndex(e, StatusAt(raw, e.firstIndex));
    CacheWithoutOne(CombinedSms(e, StatusAt(raw, e.firstIndex)), index);
    PresentIs(left, key);
  }

  // ---------------------------------------------------------------- an incomplete group

  /** All parts have numbers up to the total they announce, so there are no more of them. */
  lemma GroupBound(raw: seq<IncomingSms>, key: Bytes)
    requires AsRead(raw) && PartsDiffer(raw) && NumbersInRange(raw) && GroupIn(raw, key) != []
    ensures
      var group := GroupIn(raw, key);
      && |group| <= group[0].decoded.concat.concatTotal
      && (IsWhole(raw, key) <==> |group| == group[0].decoded.concat.concatTotal)
  {
    hide *;
    var group := GroupIn(raw, key);
    var keys, numbers := EntryFrom(group).parts.Keys, Numbers(group[0].decoded.concat.concatTotal);
    GroupIsOne(raw, key);
    EntryOfGroup(group);
    FirstOfEntry(group);
    WholeExactly(raw, key);
    forall k | k in keys ensures k in numbers {
      NumberInTotal(raw, key, k);
    }
    assert |keys| == |group|;
    SmallerSet(keys, numbers);
  }

  lemma WholeExactly(raw: seq<IncomingSms>, key: Bytes)
    requires GroupIn(raw, key) != [] && |EntryFrom(GroupIn(raw, key)).parts| == |GroupIn(raw, key)|
    ensures
      var group := GroupIn(raw, key);
      IsWhole(raw, key) <==> |group| == group[0].decoded.concat.concatTotal
  {
    FirstOfEntry(GroupIn(raw, key));
    hide GroupIn, EntryFrom;
  }

  lemma TotalOfAll(group: seq<IncomingSms>, i: nat)
    requires OneGroup(group) && i < |group|
    ensures group[i].decoded.concat.concatTotal == group[0].decoded.concat.concatTotal
  {
  }

  lemma RangeOf(raw: seq<IncomingSms>, m: IncomingSms)
    requires NumbersInRange(raw) && m in raw && IsPart(m)
    ensures 1 <= SeqNo(m) <= m.decoded.concat.concatTotal
  {
    hide IsPart;
  }

  lemma NumberedBy(group: seq<IncomingSms>, k: byte) returns (i: nat)
    requires HasNumber(group, k)
    ensures i < |group| && SeqNo(group[i]) == k
  {
    i :| 0 <= i < |group| && SeqNo(group[i]) == k;
  }

  lemma NumberInTotal(raw: seq<IncomingSms>, key: Bytes, k: byte)
    requires NumbersInRange(raw) && GroupIn(raw, key) != [] && OneGroup(GroupIn(raw, key))
    requires k in EntryFrom(GroupIn(raw, key)).parts.Keys
    ensures 1 <= k <= GroupIn(raw, key)[0].decoded.concat.concatTotal
  {
    hide *;
    var group := GroupIn(raw, key);
    NumbersOfEntry(group, k);
    var i := NumberedBy(group, k);
    InGroup(raw, key, group[i]);
    RangeOf(raw, group[i]);
    TotalOfAll(group, i);
  }

  lemma {:induction false} SelectShortens(raw: seq<IncomingSms>, c: Choice)
    ensures |Select(raw, c)| <= |raw|
  {
    if raw != [] {
      hide Chosen;
      SelectShortens(raw[..|raw| - 1], c);
    }
  }

  lemma GoesFromIncomplete(raw: seq<IncomingSms>, index: byte, m: IncomingSms)
    requires !IsWhole(raw, KeyOf(m))
    ensures Goes(raw, index, m) <==> m.index == index
  {
    hide IsWhole, GroupIn, KeyOf;
  }

  lemma UnderAfter(raw: seq<IncomingSms>, index: byte, key: Bytes)
    requires AsRead(raw) && IndicesDiffer(raw) && PartsDiffer(raw) && !IsWhole(raw, key)
    ensures CacheWithout(Select(raw, Under(key)), index) == Select(Left(raw, index), Under(key))
  {
    hide ToDelete, Batch, Select, IsWhole, KeyOf, StartsAt, Left, IsPart;
    var under := Select(raw, Under(key));
    var gone := IndexSet(ToDelete(Batch(raw), index));
    LeftSelect(raw, index, Under(key));
    forall m | m in under ensures Chosen(Spared(gone), m) <==> Chosen(Spared({index}), m) {
      SelectedIs(raw, Under(key), m);
      SparedExactly(raw, index, m);
      GoesFromIncomplete(raw, index, m);
    }
    SelectAgrees(under, Spared(gone), Spared({index}));
  }

  lemma NothingUnder(raw: seq<IncomingSms>, index: byte, key: Bytes)
    requires NoKeyShared(raw) && key in KeysOf(raw) && !IsWhole(raw, key) && GroupIn(Left(raw, index), key) == []
    ensures Select(Left(raw, index), Under(key)) == []
  {
    hide ToDelete, Batch, Select, IsWhole, KeyOf, GroupIn, KeysOf, Left, IsPart;
    LeftIs(raw, index);
    var left, gone := Left(raw, index), IndexSet(ToDelete(Batch(raw), index));
    forall m | m in left ensures !Chosen(Under(key), m) {
      SelectedIs(raw, Spared(gone), m);
      InGroup(left, key, m);
      var i :| 0 <= i < |raw| && raw[i] == m;
    }
    SelectNone(left, Under(key));
  }

  lemma FormPrefix(rest: seq<IncomingSms>, last: IncomingSms)
    requires AsRead(rest + [last]) && PartsDiffer(rest + [last]) && IndicesDiffer(rest + [last]) && NumbersInRange(rest + [last])
    ensures AsRead(rest) && PartsDiffer(rest) && IndicesDiffer(rest) && NumbersInRange(rest)
    ensures last.originalIndices == []
    ensures IsPart(last) ==> 1 <= SeqNo(last) <= last.decoded.concat.concatTotal
    ensures forall m :: m in rest ==> m.index != last.index
  {
    hide KeyOf, IsPart;
    var all := rest + [last];
    assert all[|rest|] == last;
    assert forall i :: 0 <= i < |rest| ==> all[i] == rest[i];
  }

  lemma FormSnoc(rest: seq<IncomingSms>, last: IncomingSms, kept: seq<IncomingSms>)
    requires PartsDiffer(rest + [last]) && forall m :: m in kept ==> m in rest
    requires AsRead(kept) && PartsDiffer(kept) && IndicesDiffer(kept) && NumbersInRange(kept)
    requires last.originalIndices == []
    requires IsPart(last) ==> 1 <= SeqNo(last) <= last.decoded.concat.concatTotal
    requires forall m :: m in rest ==> m.index != last.index
    ensures
      var s := kept + [last];
      AsRead(s) && PartsDiffer(s) && IndicesDiffer(s) && NumbersInRange(s)
  {
    hide KeyOf, IsPart;
    var s := kept + [last];
    assert s[|kept|] == last;
    forall i | 0 <= i < |kept| && IsPart(kept[i]) && IsPart(last) && KeyOf(kept[i]) == KeyOf(last)
      ensures kept[i].decoded.concat.concatTotal == last.decoded.concat.concatTotal
      ensures kept[i].decoded.concat.concatSeq != last.decoded.concat.concatSeq
    {
      assert kept[i] in kept;
      LastDiffers(rest, last, kept[i]);
    }
    assert forall i :: 0 <= i < |kept| ==> s[i] == kept[i] && kept[i] in rest;
  }

  lemma {:induction false} SelectKeepsForm(raw: seq<IncomingSms>, c: Choice)
    requires AsRead(raw) && PartsDiffer(raw) && IndicesDiffer(raw) && NumbersInRange(raw)
    ensures
      var s := Select(raw, c);
      AsRead(s) && PartsDiffer(s) && IndicesDiffer(s) && NumbersInRange(s)
  {
    if raw != [] {
      var rest, last := raw[..|raw| - 1], raw[|raw| - 1];
      assert raw == rest + [last];
      hide *;
      FormPrefix(rest, last);
      SelectKeepsForm(rest, c);
      SelectSnoc(rest, last, c);
      var kept := Select(rest, c);
      forall m | m in kept ensures m in rest { SelectedIs(rest, c, m); }
      FormSnoc(rest, last, kept);
    } else {
      NothingSelected(c);
    }
  }

  lemma IncompleteAfter(raw: seq<IncomingSms>, index: byte, key: Bytes)
    requires AsRead(raw) && PartsDiffer(raw) && IndicesDiffer(raw) && NumbersInRange(raw)
    requires GroupIn(raw, key) != [] && !IsWhole(raw, key) && GroupIn(Left(raw, index), key) != []
    ensures !IsWhole(Left(raw, index), key)
  {
    hide *;
    var left, gone := Left(raw, index), IndexSet(ToDelete(Batch(raw), index));
    LeftIs(raw, index);
    SelectKeepsForm(raw, Spared(gone));
    GroupBound(raw, key);
    GroupBound(left, key);
    LeftSelect(raw, index, PartsUnder(key));
    GroupSelects(raw, key);
    GroupSelects(left, key);
    var group, group' := GroupIn(raw, key), GroupIn(left, key);
    SelectShortens(group, Spared(gone));
    SelectedIs(group, Spared(gone), group'[0]);
    assert group'[0] in group';
    SameTotal(raw, key, group'[0]);
  }

  lemma SameTotal(raw: seq<IncomingSms>, key: Bytes, m: IncomingSms)
    requires AsRead(raw) && PartsDiffer(raw) && m in GroupIn(raw, key)
    ensures m.decoded.concat.concatTotal == GroupIn(raw, key)[0].decoded.concat.concatTotal
  {
    GroupIsOne(raw, key);
    hide GroupIn, AsRead, PartsDiffer;
    var group := GroupIn(raw, key);
    var i :| 0 <= i < |group| && group[i] == m;
  }

  lemma AfterIncomplete(raw: seq<IncomingSms>, index: byte, key: Bytes)
    requires WellFormed(raw) && key in KeysOf(raw) && !IsWhole(raw, key)
    ensures CacheWithout(Output(raw, key), index) == Present(Left(raw, index), key)
  {
    hide KeysOf, IsWhole, AsRead, PartsDiffer, IndicesDiffer, NumbersInRange, NoKeyShared, Output, Select, Left, GroupIn;
    var left := Left(raw, index);
    KeysAre(raw, key);
    OutputIfWhole(raw, key);
    UnderAfter(raw, index, key);
    if GroupIn(left, key) == [] {
      NothingUnder(raw, index, key);
    } else {
      IncompleteAfter(raw, index, key);
      OutputIfWhole(left, key);
    }
  }

  /** For each group: what the cache keeps of it is what the storage left would give. */
  lemma OutputAfter(raw: seq<IncomingSms>, index: byte, key: Bytes)
    requires WellFormed(raw) && !Hidden(raw, index) && key in KeysOf(raw)
    ensures CacheWithout(Output(raw, key), index) == Present(Left(raw, index), key)
  {
    hide KeysOf, IsWhole, AsRead, PartsDiffer, IndicesDiffer, NumbersInRange, NoKeyShared, Output, Select, Left, GroupIn,
         CacheWithout, Present, StartsAt, Hidden;
    KeysAre(raw, key);
    if StartsAt(raw, key, index) {
      AfterWholeGoes(raw, index, key);
    } else if IsWhole(raw, key) {
      AfterWholeStays(raw, index, key);
    } else {
      AfterIncomplete(raw, index, key);
    }
  }

  // ---------------------------------------------------------------- all groups

  function Presents(raw: seq<IncomingSms>, keys: seq<Bytes>): seq<IncomingSms> {
    if keys == [] then [] else Present(raw, keys[0]) + Presents(raw, keys[1..])
  }

  lemma {:induction false} OutputsAfter(raw: seq<IncomingSms>, index: byte, keys: seq<Bytes>)
    requires WellFormed(raw) && !Hidden(raw, index) && forall k :: k in keys ==> k in KeysOf(raw)
    ensures CacheWithout(Outputs(raw, keys), index) == Presents(Left(raw, index), keys)
  {
    if keys == [] {
      NothingSelected(Spared({index}));
      hide Left;
    } else {
      assert keys == [keys[0]] + keys[1..];
      hide WellFormed, Hidden, KeysOf, Output, Select, Left, Present;
      OutputAfter(raw, index, keys[0]);
      OutputsAfter(raw, index, keys[1..]);
      SelectAppend(Output(raw, keys[0]), Outputs(raw, keys[1..]), Spared({index}));
    }
  }

  /** The keys under which there is any part. */
  function KeysPresent(raw: seq<IncomingSms>, keys: seq<Bytes>): seq<Bytes> {
    if keys == [] then []
    else (if GroupIn(raw, keys[0]) == [] then [] else [keys[0]]) + KeysPresent(raw, keys[1..])
  }

  lemma {:induction false} PresentsAreOutputs(raw: seq<IncomingSms>, keys: seq<Bytes>)
    ensures Presents(raw, keys) == Outputs(raw, KeysPresent(raw, keys))
  {
    if keys != [] {
      hide Output, GroupIn;
      PresentsAreOutputs(raw, keys[1..]);
      var rest := KeysPresent(raw, keys[1..]);
      if GroupIn(raw, keys[0]) != [] {
        assert ([keys[0]] + rest)[1..] == rest;
      } else {
        assert [] + rest == rest;
        assert [] + Outputs(raw, rest) == Outputs(raw, rest);
      }
    }
  }

  lemma {:induction false} KeysPresentAre(raw: seq<IncomingSms>, keys: seq<Bytes>, k: Bytes)
    ensures k in KeysPresent(raw, keys) <==> k in keys && GroupIn(raw, k) != []
  {
    if keys != [] {
      hide GroupIn;
      KeysPresentAre(raw, keys[1..], k);
      assert keys == [keys[0]] + keys[1..];
    }
  }

  lemma {:induction false} KeysPresentAscend(raw: seq<IncomingSms>, keys: seq<Bytes>)
    requires Ascending(keys)
    ensures Ascending(KeysPresent(raw, keys))
  {
    if keys != [] {
      assert keys == [keys[0]] + keys[1..];
      AscendingCons(keys[0], keys[1..]);
      KeysPresentAscend(raw, keys[1..]);
      var rest := KeysPresent(raw, keys[1..]);
      hide GroupIn, Less, Ascending, KeysPresent;
      forall i | 0 <= i < |rest| ensures Less(keys[0], rest[i]) {
        KeysPresentAre(raw, keys[1..], rest[i]);
        assert rest[i] in rest;
        var j :| 0 <= j < |keys[1..]| && keys[1..][j] == rest[i];
      }
      AscendingCons(keys[0], rest);
      KeysPresentCons(raw, keys);
    }
  }

  lemma KeysPresentCons(raw: seq<IncomingSms>, keys: seq<Bytes>)
    requires keys != []
    ensures KeysPresent(raw, keys)
         == if GroupIn(raw, keys[0]) == [] then KeysPresent(raw, keys[1..]) else [keys[0]] + KeysPresent(raw, keys[1..])
  {
    hide GroupIn;
    assert [] + KeysPresent(raw, keys[1..]) == KeysPresent(raw, keys[1..]);
  }

  /** The keys of the storage left are those of the storage under which a part is left. */
  lemma KeysAfter(raw: seq<IncomingSms>, index: byte)
    ensures KeysOf(Left(raw, index)) == KeysPresent(Left(raw, index), KeysOf(raw))
  {
    hide *;
    var left, gone := Left(raw, index), IndexSet(ToDelete(Batch(raw), index));
    KeysAscend(raw);
    KeysAscend(left);
    KeysPresentAscend(left, KeysOf(raw));
    forall k ensures k in KeysOf(left) <==> k in KeysPresent(left, KeysOf(raw)) {
      KeysAre(left, k);
      KeysAre(raw, k);
      KeysPresentAre(left, KeysOf(raw), k);
      GroupSelects(raw, k);
      GroupSelects(left, k);
      LeftSelect(raw, index, PartsUnder(k));
      NothingSelected(Spared(gone));
    }
    AscendingUnique(KeysOf(left), KeysPresent(left, KeysOf(raw)));
  }

  lemma SinglesAfter(raw: seq<IncomingSms>, index: byte)
    requires AsRead(raw) && IndicesDiffer(raw) && PartsDiffer(raw)
    ensures CacheWithout(Select(raw, Alone), index) == Select(Left(raw, index), Alone)
  {
    hide ToDelete, Batch, Select, StartsAt, Left, IsPart, AsRead, PartsDiffer, IndicesDiffer;
    var singles := Select(raw, Alone);
    var gone := IndexSet(ToDelete(Batch(raw), index));
    LeftSelect(raw, index, Alone);
    forall m | m in singles ensures Chosen(Spared(gone), m) <==> Chosen(Spared({index}), m) {
      SelectedIs(raw, Alone, m);
      SparedExactly(raw, index, m);
    }
    SelectAgrees(singles, Spared(gone), Spared({index}));
  }

  lemma BatchIs(raw: seq<IncomingSms>)
    ensures Batch(raw) == Select(raw, Alone) + Outputs(raw, KeysOf(raw))
  {
    hide Select, Outputs, KeysOf;
  }

  lemma WellFormedIs(raw: seq<IncomingSms>)
    ensures WellFormed(raw) <==> AsRead(raw) && IndicesDiffer(raw) && PartsDiffer(raw) && NumbersInRange(raw) && NoKeyShared(raw)
  {
    hide AsRead, IndicesDiffer, PartsDiffer, NumbersInRange, NoKeyShared;
  }

  /** If the index is not a hidden part, deleting it from the cache gives the cache that a fresh look at
      the storage left would give. */
  lemma DeleteCommutes(raw: seq<IncomingSms>, index: byte)
    requires WellFormed(raw) && !Hidden(raw, index)
    ensures CacheWithout(Batch(raw), index) == Batch(Left(raw, index))
  {
    hide *;
    var left, keys := Left(raw, index), KeysOf(raw);
    WellFormedIs(raw);
    BatchIs(raw);
    BatchIs(left);
    SelectAppendIs(Select(raw, Alone), Outputs(raw, keys), index);
    SinglesAfter(raw, index);
    OutputsAfter(raw, index, keys);
    PresentsAreOutputs(left, keys);
    KeysAfter(raw, index);
  }

  lemma SelectAppendIs(a: seq<IncomingSms>, b: seq<IncomingSms>, index: byte)
    ensures CacheWithout(a + b, index) == CacheWithout(a, index) + CacheWithout(b, index)
  {
    hide Select;
    SelectAppend(a, b, Spared({index}));
  }

  // ---------------------------------------------------------------- what is left is well-formed

  lemma WholeLeftWasWhole(raw: seq<IncomingSms>, index: byte, key: Bytes)
    requires WellFormed(raw) && !Hidden(raw, index) && GroupIn(Left(raw, index), key) != []
    ensures GroupIn(raw, key) != [] && !StartsAt(raw, key, index)
    ensures IsWhole(Left(raw, index), key) <==> IsWhole(raw, key)
    ensures IsWhole(raw, key) ==> GroupIn(Left(raw, index), key) == GroupIn(raw, key)
  {
    hide *;
    var left := Left(raw, index);
    WellFormedIs(raw);
    LeftSelect(raw, index, PartsUnder(key));
    GroupSelects(raw, key);
    GroupSelects(left, key);
    NothingSelected(Spared(IndexSet(ToDelete(Batch(raw), index))));
    if StartsAt(raw, key, index) {
      GoneGroup(raw, index, key);
    } else if IsWhole(raw, key) {
      KeptGroup(raw, index, key);
      OutputIfWhole(raw, key);
      OutputIfWhole(left, key);
    } else {
      IncompleteAfter(raw, index, key);
    }
  }

  lemma LeftInRaw(raw: seq<IncomingSms>, index: byte, m: IncomingSms)
    requires m in Left(raw, index)
    ensures m in raw
  {
    hide *;
    LeftIs(raw, index);
    SelectedIs(raw, Spared(IndexSet(ToDelete(Batch(raw), index))), m);
  }

  lemma NoKeySharedAfter(raw: seq<IncomingSms>, index: byte)
    requires WellFormed(raw) && !Hidden(raw, index)
    ensures NoKeyShared(Left(raw, index))
  {
    hide WellFormed, Hidden, Left, IsPart, KeyOf, IsWhole, KeysOf, GroupIn, StartsAt;
    WellFormedIs(raw);
    var left := Left(raw, index);
    forall i | 0 <= i < |left| && !IsPart(left[i]) && KeyOf(left[i]) in KeysOf(left)
      ensures IsWhole(left, KeyOf(left[i]))
    {
      var m := left[i];
      KeysAre(left, KeyOf(m));
      WholeLeftWasWhole(raw, index, KeyOf(m));
      KeysAre(raw, KeyOf(m));
      LeftInRaw(raw, index, m);
      var j :| 0 <= j < |raw| && raw[j] == m;
    }
  }

  lemma StaysWellFormed(raw: seq<IncomingSms>, index: byte)
    requires WellFormed(raw) && !Hidden(raw, index)
    ensures WellFormed(Left(raw, index))
  {
    hide *;
    WellFormedIs(raw);
    LeftIs(raw, index);
    SelectKeepsForm(raw, Spared(IndexSet(ToDelete(Batch(raw), index))));
    NoKeySharedAfter(raw, index);
    WellFormedIs(Left(raw, index));
  }

  /** Deleting one index hides no other. */
  lemma StaysUnhidden(raw: seq<IncomingSms>, index: byte, other: byte)
    requires WellFormed(raw) && !Hidden(raw, index) && !Hidden(raw, other)
    ensures !Hidden(Left(raw, index), other)
  {
    hide WellFormed, Left, IsPart, KeyOf, IsWhole, GroupIn, StartsAt;
    var left := Left(raw, index);
    forall i | 0 <= i < |left| && left[i].index == other ensures !IsHidden(left, left[i]) {
      var m := left[i];
      LeftInRaw(raw, index, m);
      var j :| 0 <= j < |raw| && raw[j] == m;
      assert !IsHidden(raw, raw[j]);
      if IsPart(m) {
        InGroup(left, KeyOf(m), m);
        WholeLeftWasWhole(raw, index, KeyOf(m));
      }
    }
  }

  // ---------------------------------------------------------------- the cache tells what is hidden

  lemma {:induction false} InOutputs(raw: seq<IncomingSms>, keys: seq<Bytes>, index: byte)
    ensures HasIndex(Outputs(raw, keys), index) <==> exists k :: k in keys && HasIndex(Output(raw, k), index)
  {
    if keys != [] {
      assert keys == [keys[0]] + keys[1..];
      hide Output, HasIndex;
      InOutputs(raw, keys[1..], index);
      HasIndexAppend(Output(raw, keys[0]), Outputs(raw, keys[1..]), index);
    }
  }

  lemma HasIndexAppend(a: seq<IncomingSms>, b: seq<IncomingSms>, index: byte)
    ensures HasIndex(a + b, index) <==> HasIndex(a, index) || HasIndex(b, index)
  {
    var all := a + b;
    if HasIndex(a, index) {
      var i :| 0 <= i < |a| && a[i].index == index;
      assert all[i].index == index;
    }
    if HasIndex(b, index) {
      var i :| 0 <= i < |b| && b[i].index == index;
      assert all[|a| + i].index == index;
    }
  }

  lemma HasIndexOne(m: IncomingSms, index: byte)
    ensures HasIndex([m], index) <==> m.index == index
  {
    assert [m][0] == m;
  }

  lemma HasIndexMember(list: seq<IncomingSms>, m: IncomingSms)
    requires m in list
    ensures HasIndex(list, m.index)
  {
    var i :| 0 <= i < |list| && list[i] == m;
  }

  lemma HasIndexWitness(list: seq<IncomingSms>, index: byte) returns (m: IncomingSms)
    requires HasIndex(list, index)
    ensures m in list && m.index == index
  {
    var i :| 0 <= i < |list| && list[i].index == index;
    m := list[i];
  }

  /** What a group shows of a message: the first of a whole group, anything of another. */
  lemma ShownByGroup(raw: seq<IncomingSms>, key: Bytes, m: IncomingSms)
    requires IndicesDiffer(raw) && m in raw && GroupIn(raw, key) != []
    ensures HasIndex(Output(raw, key), m.index)
       <==> if IsWhole(raw, key) then GroupIn(raw, key)[0] == m else KeyOf(m) == key
  {
    hide IndicesDiffer, Output, EntryFrom, IsWhole, KeyOf, GroupIn, HasIndex, Select, IsComplete, IsPart;
    OutputIfWhole(raw, key);
    var group := GroupIn(raw, key);
    var e := EntryFrom(group);
    if IsWhole(raw, key) {
      FirstOfEntry(group);
      CombinedIndex(e, StatusAt(raw, e.firstIndex));
      HasIndexOne(CombinedSms(e, StatusAt(raw, e.firstIndex)), m.index);
      InGroup(raw, key, group[0]);
      if group[0].index == m.index { SameMessage(raw, group[0], m); }
    } else {
      SelectedIs(raw, Under(key), m);
      if KeyOf(m) == key { HasIndexMember(Select(raw, Under(key)), m); }
      if HasIndex(Select(raw, Under(key)), m.index) {
        var n := HasIndexWitness(Select(raw, Under(key)), m.index);
        SelectedIs(raw, Under(key), n);
        SameMessage(raw, m, n);
      }
    }
  }

  lemma ShownAlone(raw: seq<IncomingSms>, m: IncomingSms)
    requires IndicesDiffer(raw) && m in raw
    ensures HasIndex(Select(raw, Alone), m.index) <==> !IsPart(m)
  {
    hide IndicesDiffer, HasIndex, Select, IsPart;
    SelectedIs(raw, Alone, m);
    if !IsPart(m) { HasIndexMember(Select(raw, Alone), m); }
    if HasIndex(Select(raw, Alone), m.index) {
      var n := HasIndexWitness(Select(raw, Alone), m.index);
      SelectedIs(raw, Alone, n);
      SameMessage(raw, m, n);
    }
  }

  lemma InBatch(raw: seq<IncomingSms>, index: byte)
    ensures HasIndex(Batch(raw), index)
       <==> HasIndex(Select(raw, Alone), index) || exists k :: k in KeysOf(raw) && HasIndex(Output(raw, k), index)
  {
    hide *;
    BatchIs(raw);
    HasIndexAppend(Select(raw, Alone), Outputs(raw, KeysOf(raw)), index);
    InOutputs(raw, KeysOf(raw), index);
  }

  /** A stored message has no entry in the cache exactly if it is hidden. */
  lemma HiddenIsNotShown(raw: seq<IncomingSms>, m: IncomingSms)
    requires IndicesDiffer(raw) && m in raw
    ensures IsHidden(raw, m) <==> !HasIndex(Batch(raw), m.index)
  {
    hide IndicesDiffer, Output, IsWhole, KeyOf, GroupIn, HasIndex, Select, IsPart, KeysOf, Batch;
    InBatch(raw, m.index);
    ShownAlone(raw, m);
    InGroup(raw, KeyOf(m), m);
    KeysAre(raw, KeyOf(m));
    if IsPart(m) {
      ShownByGroup(raw, KeyOf(m), m);
      var first := GroupIn(raw, KeyOf(m))[0];
      InGroup(raw, KeyOf(m), first);
      if first.index == m.index { SameMessage(raw, first, m); }
      forall k | k in KeysOf(raw) && HasIndex(Output(raw, k), m.index) ensures k == KeyOf(m) {
        KeysAre(raw, k);
        ShownByGroup(raw, k, m);
        InGroup(raw, k, GroupIn(raw, k)[0]);
      }
    }
  }

  /** What a caller can check: the index names an entry of the cache, or an empty slot. */
  lemma HiddenExactly(raw: seq<IncomingSms>, index: byte)
    requires IndicesDiffer(raw)
    ensures Hidden(raw, index) <==> HasIndex(raw, index) && !HasIndex(Batch(raw), index)
  {
    hide IndicesDiffer, Batch, IsHidden;
    if Hidden(raw, index) {
      var i :| 0 <= i < |raw| && raw[i].index == index && IsHidden(raw, raw[i]);
      HiddenIsNotShown(raw, raw[i]);
    }
    if HasIndex(raw, index) && !HasIndex(Batch(raw), index) {
      var i :| 0 <= i < |raw| && raw[i].index == index;
      HiddenIsNotShown(raw, raw[i]);
    }
  }

  // ---------------------------------------------------------------- hidden parts fall out of step

  lemma {:induction false} NothingToTake(list: seq<IncomingSms>, index: byte)
    requires !HasIndex(list, index)
    ensures CacheWithout(list, index) == list && ToDelete(list, index) == [index]
  {
    forall m | m in list ensures m.index != index {
      if m.index == index { HasIndexMember(list, m); }
    }
    SelectAll(list, Spared({index}));
    hide Select;
    ToDeleteNone(list, index);
  }

  lemma {:induction false} ToDeleteNone(list: seq<IncomingSms>, index: byte)
    requires forall m :: m in list ==> m.index != index
    ensures ToDelete(list, index) == [index]
  {
    if list != [] {
      assert list[0] in list;
      ToDeleteNone(list[1..], index);
    }
  }

  lemma {:induction false} NotInExtra(raw: seq<IncomingSms>, keys: seq<Bytes>, index: byte)
    requires AsRead(raw) && !HasIndex(raw, index)
    ensures index !in Extra(raw, keys)
  {
    if keys != [] {
      hide Select, HasIndex, IsWhole, Shown, AsRead;
      NotInExtra(raw, keys[1..], index);
      NotInSelection(raw, AloneUnder(keys[0]), index);
    }
  }

  lemma NotInSelection(raw: seq<IncomingSms>, c: Choice, index: byte)
    requires AsRead(raw) && !HasIndex(raw, index)
    ensures index !in Shown(Select(raw, c))
  {
    hide Select, Shown;
    var s := Select(raw, c);
    forall i | 0 <= i < |s| ensures s[i].originalIndices == [] && s[i].index != index {
      SelectedIs(raw, c, s[i]);
      var j :| 0 <= j < |raw| && raw[j] == s[i];
    }
    ShownMember(s, index);
  }

  /** The list shows an index at least as often as the storage holds it, and never one it does not hold. */
  lemma BatchShowsIndex(raw: seq<IncomingSms>, index: byte)
    requires AsRead(raw) && PartsDiffer(raw)
    ensures index in Shown(Batch(raw)) <==> HasIndex(raw, index)
  {
    hide Batch, Shown, HasIndex, AsRead, PartsDiffer, Extra, KeysOf;
    BatchShows(raw);
    ShownMember(raw, index);
    if !HasIndex(raw, index) { NotInExtra(raw, KeysOf(raw), index); }
  }

  lemma HiddenFallsOut(raw: seq<IncomingSms>, index: byte)
    requires WellFormed(raw) && Hidden(raw, index)
    ensures CacheWithout(Batch(raw), index) == Batch(raw) != Batch(Left(raw, index))
  {
    hide *;
    WellFormedIs(raw);
    HiddenExactly(raw, index);
    NothingToTake(Batch(raw), index);
    BatchShowsIndex(raw, index);
    var left := Left(raw, index);
    LeftIs(raw, index);
    var gone := IndexSet(ToDelete(Batch(raw), index));
    SelectKeepsForm(raw, Spared(gone));
    BatchShowsIndex(left, index);
    NoneLeft(raw, gone, index);
  }

  lemma NoneLeft(raw: seq<IncomingSms>, gone: set<byte>, index: byte)
    requires gone == IndexSet([index])
    ensures !HasIndex(Select(raw, Spared(gone)), index)
  {
    hide Select;
    var left := Select(raw, Spared(gone));
    forall i | 0 <= i < |left| ensures left[i].index != index {
      SelectedIs(raw, Spared(gone), left[i]);
      assert index in IndexSet([index]);
    }
  }

  /** Deleting one index keeps cache and storage in step if and only if the index names a cached entry
      or an empty slot. */
  lemma DeleteCommutesExactly(raw: seq<IncomingSms>, index: byte)
    requires WellFormed(raw)
    ensures CacheWithout(Batch(raw), index) == Batch(Left(raw, index))
       <==> HasIndex(Batch(raw), index) || !HasIndex(raw, index)
  {
    hide *;
    WellFormedIs(raw);
    HiddenExactly(raw, index);
    if Hidden(raw, index) {
      HiddenFallsOut(raw, index);
    } else {
      DeleteCommutes(raw, index);
    }
  }

  lemma DeletedIs(raw: seq<IncomingSms>, index: byte)
    ensures Deleted(Store(Batch(raw), raw), index, {}) == Store(CacheWithout(Batch(raw), index), Left(raw, index))
  {
    hide Batch, ToDelete, Select;
  }

  /** A whole delete request whose indices each name a cached entry or an empty slot, and none of whose
      deletions the modem refuses, leaves the cache that reading the storage anew would give. */
  lemma {:induction false} DeleteRequestCommutes(raw: seq<IncomingSms>, indices: seq<byte>)
    requires WellFormed(raw)
    requires forall index :: index in indices ==> HasIndex(Batch(raw), index) || !HasIndex(raw, index)
    ensures
      var end := DeletedAll(Store(Batch(raw), raw), indices, {});
      end.cache == Batch(end.raw) && WellFormed(end.raw)
    decreases |indices|
  {
    if indices != [] {
      var index, rest := indices[0], indices[1..];
      assert indices == [index] + rest;
      assert DeletedAll(Store(Batch(raw), raw), indices, {})
          == DeletedAll(Deleted(Store(Batch(raw), raw), index, {}), rest, {});
      hide *;
      WellFormedIs(raw);
      var left := Left(raw, index);
      DeletedIs(raw, index);
      HiddenExactly(raw, index);
      DeleteCommutes(raw, index);
      StaysWellFormed(raw, index);
      WellFormedIs(left);
      forall other | other in rest ensures HasIndex(Batch(left), other) || !HasIndex(left, other) {
        HiddenExactly(raw, other);
        StaysUnhidden(raw, index, other);
        HiddenExactly(left, other);
      }
      DeleteRequestCommutes(left, rest);
    }
  }
}
