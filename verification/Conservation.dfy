/** Which storage indices the combined list shows. */
module Conservation {
  import opened Sequences
  import opened Bits
  import opened Sms
  import opened Reassembly
  import opened Combine

  /** The storage indices one message stands for. */
  function IndicesShown(m: IncomingSms): multiset<byte> {
    if m.originalIndices == [] then multiset{m.index} else multiset(m.originalIndices)
  }

  function Shown(list: seq<IncomingSms>): multiset<byte> {
    if list == [] then multiset{} else Shown(list[..|list| - 1]) + IndicesShown(list[|list| - 1])
  }

  lemma ShownSnoc(list: seq<IncomingSms>, m: IncomingSms)
    ensures Shown(list + [m]) == Shown(list) + IndicesShown(m)
  {
    assert (list + [m])[..|list|] == list;
    hide IndicesShown;
  }

  lemma {:induction false} ShownAppend(a: seq<IncomingSms>, b: seq<IncomingSms>)
    ensures Shown(a + b) == Shown(a) + Shown(b)
  {
    if b == [] {
      assert a + b == a;
    } else {
      var rest, last := b[..|b| - 1], b[|b| - 1];
      assert b == rest + [last];
      hide Shown, IndicesShown;
      ShownAppend(a, rest);
      ShownSnoc(rest, last);
      ShownSnoc(a + rest, last);
      Regroup(a, rest, [last]);
    }
  }

  lemma ShownSelectSnoc(raw: seq<IncomingSms>, m: IncomingSms, c: Choice)
    ensures Shown(Select(raw + [m], c)) == Shown(Select(raw, c)) + if Chosen(c, m) then IndicesShown(m) else multiset{}
  {
    hide Chosen, Select, Shown, IndicesShown;
    SelectSnoc(raw, m, c);
    ShownSnoc(Select(raw, c), m);
  }

  lemma SharedOut(a: multiset<byte>, b: multiset<byte>, x: multiset<byte>)
    ensures (a + b) + x == (a + x) + b && (a + b) + x == a + (b + x) && a + multiset{} == a && (a + x) + (b + multiset{}) == (a + x) + b
  {
  }

  /** If what e picks is picked by exactly one of c and d, they share out what e shows. */
  lemma {:induction false} ShownShared(raw: seq<IncomingSms>, e: Choice, c: Choice, d: Choice)
    requires forall m :: m in raw ==> (Chosen(e, m) <==> Chosen(c, m) || Chosen(d, m)) && !(Chosen(c, m) && Chosen(d, m))
    ensures Shown(Select(raw, e)) == Shown(Select(raw, c)) + Shown(Select(raw, d))
  {
    hide *;
    if raw != [] {
      var rest, last := raw[..|raw| - 1], raw[|raw| - 1];
      assert raw == rest + [last];
      assert last in raw;
      ShownShared(rest, e, c, d);
      ShownSelectSnoc(rest, last, e);
      ShownSelectSnoc(rest, last, c);
      ShownSelectSnoc(rest, last, d);
      SharedOut(Shown(Select(rest, c)), Shown(Select(rest, d)), IndicesShown(last));
      SharedOut(Shown(Select(rest, d)), Shown(Select(rest, c)), multiset{});
      SharedOut(Shown(Select(rest, c)), Shown(Select(rest, d)), multiset{});
    } else {
      NothingShown(c);
      NothingShown(d);
      NothingShown(e);
    }
  }

  lemma NothingShown(c: Choice)
    ensures Shown(Select([], c)) == multiset{}
  {
    NothingSelected(c);
  }

  // ---------------------------------------------------------------- well-formed storage

  /** Messages as they are read: none stands for others. */
  predicate AsRead(raw: seq<IncomingSms>) { forall i :: 0 <= i < |raw| ==> raw[i].originalIndices == [] }

  /** Parts of one message announce the same total and have different numbers. */
  predicate PartsDiffer(raw: seq<IncomingSms>) {
    forall i, j :: 0 <= i < j < |raw| && IsPart(raw[i]) && IsPart(raw[j]) && KeyOf(raw[i]) == KeyOf(raw[j]) ==>
      && raw[i].decoded.concat.concatTotal == raw[j].decoded.concat.concatTotal
      && raw[i].decoded.concat.concatSeq != raw[j].decoded.concat.concatSeq
  }

  predicate IsWhole(raw: seq<IncomingSms>, key: Bytes) { IsComplete(EntryFrom(GroupIn(raw, key))) }

  /** No message in one part has the key of a group that misses a part. */
  predicate NoKeyShared(raw: seq<IncomingSms>) {
    forall i :: 0 <= i < |raw| && !IsPart(raw[i]) && KeyOf(raw[i]) in KeysOf(raw) ==> IsWhole(raw, KeyOf(raw[i]))
  }

  // ---------------------------------------------------------------- one group

  predicate OneGroup(group: seq<IncomingSms>) {
    && AsRead(group)
    && forall i, j :: 0 <= i < j < |group| ==>
         && group[i].decoded.concat.concatTotal == group[j].decoded.concat.concatTotal
         && group[i].decoded.concat.concatSeq != group[j].decoded.concat.concatSeq
  }

  lemma LastDiffers(rest: seq<IncomingSms>, last: IncomingSms, m: IncomingSms)
    requires PartsDiffer(rest + [last]) && m in rest && IsPart(m) && IsPart(last) && KeyOf(m) == KeyOf(last)
    ensures m.decoded.concat.concatTotal == last.decoded.concat.concatTotal
    ensures m.decoded.concat.concatSeq != last.decoded.concat.concatSeq
  {
    hide KeyOf, IsPart;
    var all := rest + [last];
    var j :| 0 <= j < |rest| && rest[j] == m;
    assert all[j] == m && all[|rest|] == last;
  }

  lemma OneGroupSnoc(group: seq<IncomingSms>, last: IncomingSms)
    requires OneGroup(group) && last.originalIndices == []
    requires forall m :: m in group ==>
               && m.decoded.concat.concatTotal == last.decoded.concat.concatTotal
               && m.decoded.concat.concatSeq != last.decoded.concat.concatSeq
    ensures OneGroup(group + [last])
  {
    assert forall i :: 0 <= i < |group| ==> group[i] in group;
  }

  lemma PrefixWellFormed(rest: seq<IncomingSms>, last: IncomingSms)
    requires AsRead(rest + [last]) && PartsDiffer(rest + [last])
    ensures AsRead(rest) && PartsDiffer(rest) && last.originalIndices == []
  {
    hide KeyOf, IsPart;
    var all := rest + [last];
    assert all[|rest|] == last;
    assert forall i :: 0 <= i < |rest| ==> all[i] == rest[i];
  }

  lemma {:induction false} GroupIsOne(raw: seq<IncomingSms>, key: Bytes)
    requires AsRead(raw) && PartsDiffer(raw)
    ensures OneGroup(GroupIn(raw, key))
  {
    if raw != [] {
      var rest, last := raw[..|raw| - 1], raw[|raw| - 1];
      assert raw == rest + [last];
      hide *;
      PrefixWellFormed(rest, last);
      GroupIsOne(rest, key);
      GroupGrows(rest, last, key);
      if IsPart(last) && KeyOf(last) == key {
        forall m | m in GroupIn(rest, key)
          ensures m.decoded.concat.concatTotal == last.decoded.concat.concatTotal
          ensures m.decoded.concat.concatSeq != last.decoded.concat.concatSeq
        {
          InGroup(rest, key, m);
          LastDiffers(rest, last, m);
        }
        OneGroupSnoc(GroupIn(rest, key), last);
      }
    } else {
      NothingSelected(PartsUnder(key));
    }
  }

  lemma InGroup(raw: seq<IncomingSms>, key: Bytes, m: IncomingSms)
    ensures m in GroupIn(raw, key) <==> m in raw && IsPart(m) && KeyOf(m) == key
  {
    SelectedIs(raw, PartsUnder(key), m);
    hide Select, KeyOf, IsPart;
  }

  function IndexAt(indices: map<byte, byte>, k: nat): seq<byte> {
    if k in indices then [indices[k]] else []
  }

  lemma IndicesHere(indices: map<byte, byte>, from: nat)
    requires from < 256
    ensures IndicesFrom(indices, from) == IndexAt(indices, from) + IndicesFrom(indices, from + 1)
  {
  }

  lemma IndexUpdated(indices: map<byte, byte>, k: byte, v: byte, at: nat)
    requires k !in indices
    ensures at != k ==> IndexAt(indices[k := v], at) == IndexAt(indices, at)
    ensures at == k ==> IndexAt(indices[k := v], at) == [v] && IndexAt(indices, at) == []
  {
  }

  lemma {:induction false} IndicesAbove(indices: map<byte, byte>, k: byte, v: byte, from: nat)
    requires k !in indices && k < from
    ensures IndicesFrom(indices[k := v], from) == IndicesFrom(indices, from)
    decreases 256 - from
  {
    if from < 256 {
      IndicesAbove(indices, k, v, from + 1);
      IndexUpdated(indices, k, v, from);
      IndicesHere(indices, from);
      IndicesHere(indices[k := v], from);
      hide IndicesFrom;
    }
  }

  lemma Prepended(here: seq<byte>, next: seq<byte>, next': seq<byte>, v: byte)
    ensures multiset(next') == multiset(next) + multiset{v} ==> multiset(here + next') == multiset(here + next) + multiset{v}
    ensures multiset([v] + next) == multiset([] + next) + multiset{v}
  {
    assert [] + next == next;
  }

  lemma {:induction false} IndicesUpdated(indices: map<byte, byte>, k: byte, v: byte, from: nat)
    requires k !in indices && from <= k
    ensures multiset(IndicesFrom(indices[k := v], from)) == multiset(IndicesFrom(indices, from)) + multiset{v}
    decreases 256 - from
  {
    hide *;
    var updated := indices[k := v];
    IndicesHere(indices, from);
    IndicesHere(updated, from);
    IndexUpdated(indices, k, v, from);
    Prepended(IndexAt(indices, from), IndicesFrom(indices, from + 1), IndicesFrom(updated, from + 1), v);
    if from == k {
      IndicesAbove(indices, k, v, from + 1);
    } else {
      IndicesUpdated(indices, k, v, from + 1);
    }
  }

  lemma {:induction false} InsertSortedKeeps(s: seq<byte>, x: byte)
    ensures multiset(InsertSorted(s, x)) == multiset(s) + multiset{x}
  {
    if s != [] && x > s[0] {
      InsertSortedKeeps(s[1..], x);
      assert s == [s[0]] + s[1..];
    }
  }

  lemma {:induction false} SortedKeeps(s: seq<byte>)
    ensures multiset(Sorted(s)) == multiset(s)
  {
    if s != [] {
      SortedKeeps(s[1..]);
      InsertSortedKeeps(Sorted(s[1..]), s[0]);
      assert s == [s[0]] + s[1..];
    }
  }

  ghost predicate NonDescending(s: seq<byte>) { forall i, j :: 0 <= i < j < |s| ==> s[i] <= s[j] }

  lemma {:induction false} InsertSortedOrders(s: seq<byte>, x: byte)
    requires NonDescending(s)
    ensures NonDescending(InsertSorted(s, x))
  {
    if s != [] && x > s[0] {
      InsertSortedOrders(s[1..], x);
      InsertSortedKeeps(s[1..], x);
      var rest := InsertSorted(s[1..], x);
      forall i | 0 <= i < |rest| ensures s[0] <= rest[i] {
        assert rest[i] in multiset(rest);
        if rest[i] != x { assert rest[i] in s[1..]; }
      }
    }
  }

  lemma {:induction false} SortedOrders(s: seq<byte>)
    ensures NonDescending(Sorted(s))
  {
    if s != [] {
      SortedOrders(s[1..]);
      InsertSortedOrders(Sorted(s[1..]), s[0]);
    }
  }

  function SeqNo(m: IncomingSms): byte { m.decoded.concat.concatSeq }

  predicate HasNumber(group: seq<IncomingSms>, k: byte) { exists i :: 0 <= i < |group| && SeqNo(group[i]) == k }

  lemma HasNumberSnoc(rest: seq<IncomingSms>, last: IncomingSms, k: byte)
    ensures HasNumber(rest + [last], k) <==> HasNumber(rest, k) || SeqNo(last) == k
  {
    var all := rest + [last];
    assert all[|rest|] == last;
    if HasNumber(rest, k) {
      var i :| 0 <= i < |rest| && SeqNo(rest[i]) == k;
      assert SeqNo(all[i]) == k;
    }
    if SeqNo(last) == k { assert SeqNo(all[|rest|]) == k; }
  }

  lemma {:induction false} NumbersOfEntry(group: seq<IncomingSms>, k: byte)
    ensures k in EntryFrom(group).parts <==> HasNumber(group, k)
    ensures k in EntryFrom(group).partIndices <==> HasNumber(group, k)
  {
    if group != [] {
      var rest, last := group[..|group| - 1], group[|group| - 1];
      assert group == rest + [last];
      NumbersOfEntry(rest, k);
      EntryGrows(rest, last);
      HasNumberSnoc(rest, last, k);
      hide EntryFrom, HasNumber;
    } else {
      assert EntryFrom(group) == NEW_ENTRY;
    }
  }

  /** The first message of a group gives the index and the total. */
  lemma {:induction false} FirstOfEntry(group: seq<IncomingSms>)
    requires group != []
    ensures EntryFrom(group).parts != map[]
    ensures EntryFrom(group).totalParts == group[0].decoded.concat.concatTotal
    ensures EntryFrom(group).firstIndex == group[0].index
  {
    var rest, last := group[..|group| - 1], group[|group| - 1];
    assert group == rest + [last];
    EntryGrows(rest, last);
    assert HasNumber(group, SeqNo(last)) by { assert group[|group| - 1] == last; }
    NumbersOfEntry(group, SeqNo(last));
    if rest != [] {
      FirstOfEntry(rest);
    } else {
      assert EntryFrom(rest) == NEW_ENTRY;
    }
    hide EntryFrom, HasNumber;
  }

  lemma NumberIsNew(rest: seq<IncomingSms>, last: IncomingSms)
    requires OneGroup(rest + [last])
    ensures OneGroup(rest) && last.originalIndices == [] && !HasNumber(rest, SeqNo(last))
    ensures forall i :: 0 <= i < |rest| ==> rest[i].decoded.concat.concatTotal == last.decoded.concat.concatTotal
  {
    var all := rest + [last];
    assert all[|rest|] == last;
    assert forall i :: 0 <= i < |rest| ==> all[i] == rest[i];
  }

  lemma OneMoreIndex(e: Entry, m: IncomingSms)
    requires SeqNo(m) !in e.parts && SeqNo(m) !in e.partIndices
    ensures |WithStoredPart(e, m).parts| == |e.parts| + 1
    ensures multiset(IndicesFrom(WithStoredPart(e, m).partIndices, 0)) == multiset(IndicesFrom(e.partIndices, 0)) + multiset{m.index}
  {
    IndicesUpdated(e.partIndices, SeqNo(m), m.index, 0);
    hide IndicesFrom;
  }

  /** The collected numbers are those of the group, and the indices those of its messages. */
  lemma {:induction false} EntryOfGroup(group: seq<IncomingSms>)
    requires OneGroup(group)
    ensures |EntryFrom(group).parts| == |group|
    ensures multiset(IndicesFrom(EntryFrom(group).partIndices, 0)) == Shown(group)
  {
    if group != [] {
      var rest, last := group[..|group| - 1], group[|group| - 1];
      assert group == rest + [last];
      hide EntryFrom, Shown, IndicesFrom, OneGroup, HasNumber, WithStoredPart;
      NumberIsNew(rest, last);
      EntryOfGroup(rest);
      EntryGrows(rest, last);
      ShownSnoc(rest, last);
      NumbersOfEntry(rest, SeqNo(last));
      OneMoreIndex(EntryFrom(rest), last);
    } else {
      assert EntryFrom(group) == NEW_ENTRY;
      NoIndices(0);
    }
  }

  lemma {:induction false} NoIndices(k: nat)
    ensures IndicesFrom(map[], k) == []
    decreases 256 - k
  {
    if k < 256 { NoIndices(k + 1); }
  }

  // ---------------------------------------------------------------- all groups

  function ShownOfGroups(raw: seq<IncomingSms>, keys: seq<Bytes>): multiset<byte> {
    if keys == [] then multiset{} else Shown(GroupIn(raw, keys[0])) + ShownOfGroups(raw, keys[1..])
  }

  function KeySet(keys: seq<Bytes>): set<Bytes> { set k | k in keys }

  lemma FirstIsNotAmongRest(keys: seq<Bytes>)
    requires keys != [] && Ascending(keys)
    ensures Ascending(keys[1..]) && keys[0] !in keys[1..]
    ensures KeySet(keys) == KeySet(keys[1..]) + {keys[0]}
  {
    assert keys == [keys[0]] + keys[1..];
    AscendingCons(keys[0], keys[1..]);
    LessExactlyOne(keys[0], keys[0]);
    hide Less, Ascending;
  }

  /** The groups under different keys share out the parts with these keys. */
  lemma {:induction false} GroupsShareParts(raw: seq<IncomingSms>, keys: seq<Bytes>)
    requires Ascending(keys)
    ensures ShownOfGroups(raw, keys) == Shown(Select(raw, PartsIn(KeySet(keys))))
  {
    if keys == [] {
      SelectNone(raw, PartsIn(KeySet(keys)));
    } else {
      FirstIsNotAmongRest(keys);
      hide Select, Shown, KeyOf, IsPart, Ascending, KeySet;
      GroupsShareParts(raw, keys[1..]);
      assert keys[0] !in KeySet(keys[1..]) by { NotMember(keys[1..], keys[0]); }
      ShownShared(raw, PartsIn(KeySet(keys)), PartsUnder(keys[0]), PartsIn(KeySet(keys[1..])));
    }
  }

  lemma NotMember(keys: seq<Bytes>, key: Bytes)
    ensures key in KeySet(keys) <==> key in keys
  {
  }

  /** What is shown once more: single messages under the keys of incomplete groups. */
  function Extra(raw: seq<IncomingSms>, keys: seq<Bytes>): multiset<byte> {
    if keys == [] then multiset{}
    else (if IsWhole(raw, keys[0]) then multiset{} else Shown(Select(raw, AloneUnder(keys[0])))) + Extra(raw, keys[1..])
  }

  lemma {:induction false} SomethingShown(list: seq<IncomingSms>)
    ensures list == [] <==> Shown(list) == multiset{}
  {
    if list != [] {
      var last := list[|list| - 1];
      if last.originalIndices == [] {
        assert last.index in IndicesShown(last);
      } else {
        assert last.originalIndices[0] in IndicesShown(last);
      }
      assert Shown(list)[if last.originalIndices == [] then last.index else last.originalIndices[0]] > 0;
    }
  }

  lemma WholeShows(raw: seq<IncomingSms>, key: Bytes)
    requires AsRead(raw) && PartsDiffer(raw) && GroupIn(raw, key) != []
    ensures
      var indices := AllIndices(EntryFrom(GroupIn(raw, key)));
      indices != [] && multiset(indices) == Shown(GroupIn(raw, key))
  {
    hide *;
    var group := GroupIn(raw, key);
    GroupIsOne(raw, key);
    EntryOfGroup(group);
    SomethingShown(group);
    AllIndicesKeep(EntryFrom(group));
  }

  lemma AllIndicesKeep(e: Entry)
    ensures multiset(AllIndices(e)) == multiset(IndicesFrom(e.partIndices, 0))
    ensures AllIndices(e) == [] ==> multiset(AllIndices(e)) == multiset{}
  {
    SortedKeeps(IndicesFrom(e.partIndices, 0));
    hide Sorted, IndicesFrom;
  }

  lemma ShownOne(m: IncomingSms)
    ensures Shown([m]) == IndicesShown(m)
  {
    assert [m][..0] == [];
    hide IndicesShown;
  }

  lemma OutputShows(raw: seq<IncomingSms>, key: Bytes)
    requires AsRead(raw) && PartsDiffer(raw) && GroupIn(raw, key) != []
    ensures Shown(Output(raw, key))
         == Shown(GroupIn(raw, key)) + if IsWhole(raw, key) then multiset{} else Shown(Select(raw, AloneUnder(key)))
  {
    var e := EntryFrom(GroupIn(raw, key));
    if IsComplete(e) {
      hide EntryFrom, GroupIn, Shown, AllIndices, StatusAt, Combined;
      WholeShows(raw, key);
      ShownOne(CombinedSms(e, StatusAt(raw, e.firstIndex)));
    } else {
      hide EntryFrom, Shown, Select, KeyOf, IsPart;
      ShownShared(raw, Under(key), PartsUnder(key), AloneUnder(key));
    }
  }

  lemma Interleave(a: multiset<byte>, x: multiset<byte>, b: multiset<byte>, y: multiset<byte>)
    ensures (a + x) + (b + y) == (a + b) + (x + y)
  {
  }

  lemma {:induction false} OutputsShow(raw: seq<IncomingSms>, keys: seq<Bytes>)
    requires AsRead(raw) && PartsDiffer(raw) && forall k :: k in keys ==> GroupIn(raw, k) != []
    ensures Shown(Outputs(raw, keys)) == ShownOfGroups(raw, keys) + Extra(raw, keys)
  {
    if keys != [] {
      hide Shown, Select, Output, AsRead, PartsDiffer, GroupIn, IsWhole;
      OutputShows(raw, keys[0]);
      OutputsShow(raw, keys[1..]);
      ShownAppend(Output(raw, keys[0]), Outputs(raw, keys[1..]));
      Interleave(Shown(GroupIn(raw, keys[0])),
                 if IsWhole(raw, keys[0]) then multiset{} else Shown(Select(raw, AloneUnder(keys[0]))),
                 ShownOfGroups(raw, keys[1..]), Extra(raw, keys[1..]));
    }
  }

  lemma {:induction false} KeysAscend(raw: seq<IncomingSms>)
    ensures Ascending(KeysOf(raw))
  {
    if raw != [] {
      hide Less, CacheKey, Inserted, Ascending;
      KeysAscend(raw[..|raw| - 1]);
      InsertedAscending(KeysOf(raw[..|raw| - 1]), KeyOf(raw[|raw| - 1]));
    }
  }

  lemma PartHasKey(raw: seq<IncomingSms>, m: IncomingSms)
    requires m in raw && IsPart(m)
    ensures KeyOf(m) in KeysOf(raw)
  {
    hide *;
    InGroup(raw, KeyOf(m), m);
    KeysAre(raw, KeyOf(m));
  }

  lemma SinglesAndParts(raw: seq<IncomingSms>)
    ensures Shown(raw) == Shown(Select(raw, Alone)) + Shown(Select(raw, PartsIn(KeySet(KeysOf(raw)))))
  {
    SelectAll(raw, Spared({}));
    forall m | m in raw ensures IsPart(m) ==> KeyOf(m) in KeySet(KeysOf(raw)) {
      if IsPart(m) {
        PartHasKey(raw, m);
        NotMember(KeysOf(raw), KeyOf(m));
      }
    }
    hide Select, Shown, KeyOf, IsPart, KeySet, KeysOf;
    ShownShared(raw, Spared({}), Alone, PartsIn(KeySet(KeysOf(raw))));
  }

  /** The combined list shows every index of the storage, and single messages under the key of an
      incomplete group once more. */
  lemma BatchShows(raw: seq<IncomingSms>)
    requires AsRead(raw) && PartsDiffer(raw)
    ensures Shown(Batch(raw)) == Shown(raw) + Extra(raw, KeysOf(raw))
  {
    var keys, singles := KeysOf(raw), Select(raw, Alone);
    assert Batch(raw) == singles + Outputs(raw, keys);
    forall k | k in keys ensures GroupIn(raw, k) != [] { KeysAre(raw, k); }
    hide *;
    KeysAscend(raw);
    SinglesAndParts(raw);
    GroupsShareParts(raw, keys);
    OutputsShow(raw, keys);
    ShownAppend(singles, Outputs(raw, keys));
    SharedOut(Shown(singles), ShownOfGroups(raw, keys), Extra(raw, keys));
  }

  lemma {:induction false} NoExtraExactly(raw: seq<IncomingSms>, keys: seq<Bytes>)
    ensures Extra(raw, keys) == multiset{} <==> forall k :: k in keys ==> IsWhole(raw, k) || Select(raw, AloneUnder(k)) == []
  {
    if keys != [] {
      hide Select, Shown, IsWhole;
      NoExtraExactly(raw, keys[1..]);
      SomethingShown(Select(raw, AloneUnder(keys[0])));
      NeitherExactly(if IsWhole(raw, keys[0]) then multiset{} else Shown(Select(raw, AloneUnder(keys[0]))), Extra(raw, keys[1..]));
      assert forall k :: k in keys <==> k == keys[0] || k in keys[1..];
    }
  }

  lemma NeitherExactly(a: multiset<byte>, b: multiset<byte>)
    ensures a + b == multiset{} <==> a == multiset{} && b == multiset{}
  {
    if a + b == multiset{} {
      forall x ensures a[x] == 0 && b[x] == 0 { assert (a + b)[x] == 0; }
    }
  }

  lemma SharedExactly(raw: seq<IncomingSms>)
    ensures NoKeyShared(raw) <==> forall k :: k in KeysOf(raw) ==> IsWhole(raw, k) || Select(raw, AloneUnder(k)) == []
  {
    hide Select, IsWhole, KeyOf, IsPart, KeysOf;
    if NoKeyShared(raw) {
      forall k | k in KeysOf(raw) && !IsWhole(raw, k) ensures Select(raw, AloneUnder(k)) == [] {
        forall m | m in raw ensures !Chosen(AloneUnder(k), m) {
          var i :| 0 <= i < |raw| && raw[i] == m;
        }
        SelectNone(raw, AloneUnder(k));
      }
    } else {
      var i :| 0 <= i < |raw| && !IsPart(raw[i]) && KeyOf(raw[i]) in KeysOf(raw) && !IsWhole(raw, KeyOf(raw[i]));
      SelectedIs(raw, AloneUnder(KeyOf(raw[i])), raw[i]);
    }
  }

  /** Conservation: each stored index is shown exactly once, by itself or as one of the original indices
      of a combined message, if and only if no single message has the key of an incomplete group. */
  lemma ConservesExactly(raw: seq<IncomingSms>)
    requires AsRead(raw) && PartsDiffer(raw)
    ensures Shown(Batch(raw)) == Shown(raw) <==> NoKeyShared(raw)
  {
    hide *;
    BatchShows(raw);
    NoExtraExactly(raw, KeysOf(raw));
    SharedExactly(raw);
    Unchanged(Shown(raw), Extra(raw, KeysOf(raw)));
  }

  lemma Unchanged(a: multiset<byte>, b: multiset<byte>)
    ensures a + b == a <==> b == multiset{}
  {
    if a + b == a {
      forall x ensures b[x] == 0 { assert (a + b)[x] == a[x]; }
    }
  }
}
