/** Combining the messages read from storage: single messages first, then group by group. */
module Combine {
  import opened Sequences
  import opened Bits
  import opened Udh
  import opened PduDecode
  import opened Sms
  import opened Reassembly

  // ---------------------------------------------------------------- the order of keys

  /** The order of std::string, by unsigned octets. */
  predicate Less(a: Bytes, b: Bytes) {
    b != [] && (a == [] || a[0] < b[0] || (a[0] == b[0] && Less(a[1..], b[1..])))
  }

  lemma {:induction false} LessTransitive(a: Bytes, b: Bytes, c: Bytes)
    requires Less(a, b) && Less(b, c)
    ensures Less(a, c)
  {
    if a != [] && a[0] == b[0] && b[0] == c[0] { LessTransitive(a[1..], b[1..], c[1..]); }
  }

  lemma {:induction false} LessExactlyOne(a: Bytes, b: Bytes)
    ensures a != b ==> Less(a, b) || Less(b, a)
    ensures Less(a, b) ==> a != b && !Less(b, a)
  {
    if a != [] && b != [] && a[0] == b[0] {
      LessExactlyOne(a[1..], b[1..]);
      assert a == [a[0]] + a[1..] && b == [b[0]] + b[1..];
    }
  }

  ghost predicate Ascending(keys: seq<Bytes>) {
    forall i, j :: 0 <= i < j < |keys| ==> Less(keys[i], keys[j])
  }

  /** The keys of an ordered map after an entry under `key` was looked up. */
  function Inserted(keys: seq<Bytes>, key: Bytes): seq<Bytes> {
    if keys == [] then [key]
    else if key == keys[0] then keys
    else if Less(key, keys[0]) then [key] + keys
    else [keys[0]] + Inserted(keys[1..], key)
  }

  lemma {:induction false} InsertedKeys(keys: seq<Bytes>, key: Bytes, k: Bytes)
    ensures k in Inserted(keys, key) <==> k == key || k in keys
  {
    if keys != [] && key != keys[0] && !Less(key, keys[0]) {
      hide Less;
      InsertedKeys(keys[1..], key, k);
      assert keys == [keys[0]] + keys[1..];
    }
  }

  lemma AscendingCons(key: Bytes, keys: seq<Bytes>)
    ensures Ascending([key] + keys) <==> Ascending(keys) && forall i :: 0 <= i < |keys| ==> Less(key, keys[i])
  {
    hide Less;
    var all := [key] + keys;
    assert forall i :: 0 <= i < |keys| ==> all[i + 1] == keys[i];
    if Ascending(all) {
      forall i | 0 <= i < |keys| ensures Less(key, keys[i]) { assert Less(all[0], all[i + 1]); }
      forall i, j | 0 <= i < j < |keys| ensures Less(keys[i], keys[j]) { assert Less(all[i + 1], all[j + 1]); }
    }
  }

  lemma {:induction false} InsertedAscending(keys: seq<Bytes>, key: Bytes)
    requires Ascending(keys)
    ensures Ascending(Inserted(keys, key))
  {
    if keys == [] {
    } else if key == keys[0] {
    } else {
      assert keys == [keys[0]] + keys[1..];
      AscendingCons(keys[0], keys[1..]);
      LessExactlyOne(key, keys[0]);
      if Less(key, keys[0]) {
        forall i | 0 <= i < |keys| ensures Less(key, keys[i]) {
          if i > 0 { LessTransitive(key, keys[0], keys[i]); }
        }
        AscendingCons(key, keys);
      } else {
        InsertedAscending(keys[1..], key);
        var rest := Inserted(keys[1..], key);
        hide Less, Inserted, Ascending;
        forall i | 0 <= i < |rest| ensures Less(keys[0], rest[i]) {
          InsertedKeys(keys[1..], key, rest[i]);
          assert rest[i] in rest;
        }
        AscendingCons(keys[0], rest);
        InsertedFarther(keys, key);
      }
    }
  }

  lemma InsertedFarther(keys: seq<Bytes>, key: Bytes)
    requires keys != [] && key != keys[0] && !Less(key, keys[0])
    ensures Inserted(keys, key) == [keys[0]] + Inserted(keys[1..], key)
  {
    hide Less;
  }

  /** An ascending list is determined by its members. */
  lemma {:induction false} AscendingUnique(a: seq<Bytes>, b: seq<Bytes>)
    requires Ascending(a) && Ascending(b) && forall k :: k in a <==> k in b
    ensures a == b
  {
    assert a != [] ==> a[0] in a;
    assert b != [] ==> b[0] in b;
    if a != [] && b != [] {
      assert a == [a[0]] + a[1..] && b == [b[0]] + b[1..];
      AscendingCons(a[0], a[1..]);
      AscendingCons(b[0], b[1..]);
      LessExactlyOne(a[0], b[0]);
      LessExactlyOne(a[0], a[0]);
      hide Less, Ascending;
      assert a[0] in b && b[0] in a;
      assert a[0] == b[0];
      forall k ensures k in a[1..] <==> k in b[1..] {
        if k in a[1..] { assert k in a && Less(a[0], k); }
        if k in b[1..] { assert k in b && Less(b[0], k); }
      }
      AscendingUnique(a[1..], b[1..]);
    }
  }

  // ---------------------------------------------------------------- selections

  /** The ways in which messages are picked out of a list, keeping their order. */
  datatype Choice =
    | Alone                      // not one part of several
    | PartsUnder(key: Bytes)     // parts with this key
    | Under(key: Bytes)          // anything with this key
    | AloneUnder(key: Bytes)
    | PartsIn(keys: set<Bytes>)
    | Spared(gone: set<byte>)    // index not among these

  predicate Chosen(c: Choice, m: IncomingSms) {
    match c
    case Alone => !IsPart(m)
    case PartsUnder(key) => IsPart(m) && KeyOf(m) == key
    case Under(key) => KeyOf(m) == key
    case AloneUnder(key) => !IsPart(m) && KeyOf(m) == key
    case PartsIn(keys) => IsPart(m) && KeyOf(m) in keys
    case Spared(gone) => m.index !in gone
  }

  function Select(raw: seq<IncomingSms>, c: Choice): seq<IncomingSms> {
    if raw == [] then []
    else Select(raw[..|raw| - 1], c) + if Chosen(c, raw[|raw| - 1]) then [raw[|raw| - 1]] else []
  }

  lemma SelectSnoc(raw: seq<IncomingSms>, m: IncomingSms, c: Choice)
    ensures Select(raw + [m], c) == if Chosen(c, m) then Select(raw, c) + [m] else Select(raw, c)
  {
    hide Chosen;
    assert (raw + [m])[..|raw|] == raw;
  }

  lemma {:induction false} SelectedIs(raw: seq<IncomingSms>, c: Choice, m: IncomingSms)
    ensures m in Select(raw, c) <==> m in raw && Chosen(c, m)
  {
    if raw != [] {
      var rest, last := raw[..|raw| - 1], raw[|raw| - 1];
      assert raw == rest + [last];
      hide Chosen, Select;
      SelectSnoc(rest, last, c);
      SelectedIs(rest, c, m);
    }
  }

  /** Selections commute. */
  lemma {:induction false} SelectCommutes(raw: seq<IncomingSms>, c: Choice, d: Choice)
    ensures Select(Select(raw, c), d) == Select(Select(raw, d), c)
  {
    if raw != [] {
      var rest, last := raw[..|raw| - 1], raw[|raw| - 1];
      assert raw == rest + [last];
      hide Chosen, Select;
      SelectCommutes(rest, c, d);
      SelectSnoc(rest, last, c);
      SelectSnoc(rest, last, d);
      SelectSnoc(Select(rest, c), last, d);
      SelectSnoc(Select(rest, d), last, c);
    }
  }

  /** Selections that agree on a list select the same. */
  lemma {:induction false} SelectAgrees(raw: seq<IncomingSms>, c: Choice, d: Choice)
    requires forall m :: m in raw ==> (Chosen(c, m) <==> Chosen(d, m))
    ensures Select(raw, c) == Select(raw, d)
  {
    if raw != [] {
      hide Chosen;
      SelectAgrees(raw[..|raw| - 1], c, d);
    }
  }

  lemma {:induction false} SelectAll(raw: seq<IncomingSms>, c: Choice)
    requires forall m :: m in raw ==> Chosen(c, m)
    ensures Select(raw, c) == raw
  {
    if raw != [] {
      var rest, last := raw[..|raw| - 1], raw[|raw| - 1];
      assert raw == rest + [last];
      hide Chosen, Select;
      assert last in raw;
      SelectAll(rest, c);
      SelectSnoc(rest, last, c);
    } else {
      NothingSelected(c);
    }
  }

  lemma {:induction false} SelectNone(raw: seq<IncomingSms>, c: Choice)
    requires forall m :: m in raw ==> !Chosen(c, m)
    ensures Select(raw, c) == []
  {
    if raw != [] {
      hide Chosen;
      SelectNone(raw[..|raw| - 1], c);
    }
  }

  lemma NothingSelected(c: Choice)
    ensures Select([], c) == []
  {
  }

  lemma {:induction false} SelectAppend(a: seq<IncomingSms>, b: seq<IncomingSms>, c: Choice)
    ensures Select(a + b, c) == Select(a, c) + Select(b, c)
  {
    hide *;
    if b == [] {
      NothingSelected(c);
      Regroup(a, b, b);
      Regroup(Select(a, c), [], []);
    } else {
      var rest, last := b[..|b| - 1], b[|b| - 1];
      assert b == rest + [last];
      SelectAppend(a, rest, c);
      SelectSnoc(rest, last, c);
      SelectSnoc(a + rest, last, c);
      Regroup(a, rest, [last]);
      Regroup(Select(a, c), Select(rest, c), [last]);
    }
  }

  // ---------------------------------------------------------------- groups

  /** The time of the first part is not looked at when stored messages are combined. */
  function WithStoredPart(e: Entry, m: IncomingSms): Entry {
    var d := m.decoded;
    var entry :=
      if e.parts == map[] then
        e.(sender := d.number, totalParts := d.concat.concatTotal, timestamp := d.timestamp, firstIndex := m.index)
      else e;
    entry.(parts := entry.parts[d.concat.concatSeq := d.text],
           partIndices := entry.partIndices[d.concat.concatSeq := m.index])
  }

  function EntryFrom(group: seq<IncomingSms>): Entry {
    if group == [] then NEW_ENTRY else WithStoredPart(EntryFrom(group[..|group| - 1]), group[|group| - 1])
  }

  function GroupIn(raw: seq<IncomingSms>, key: Bytes): seq<IncomingSms> { Select(raw, PartsUnder(key)) }

  /** The keys of the groups, in the order of the map. */
  function KeysOf(raw: seq<IncomingSms>): seq<Bytes> {
    if raw == [] then []
    else
      var keys, m := KeysOf(raw[..|raw| - 1]), raw[|raw| - 1];
      if IsPart(m) then Inserted(keys, KeyOf(m)) else keys
  }

  /** The indices in the order of the sequence numbers, from number k on. */
  function IndicesFrom(indices: map<byte, byte>, k: nat): seq<byte>
    decreases 256 - k
  {
    if k >= 256 then [] else (if k in indices then [indices[k]] else []) + IndicesFrom(indices, k + 1)
  }

  function InsertSorted(s: seq<byte>, x: byte): seq<byte> {
    if s == [] || x <= s[0] then [x] + s else [s[0]] + InsertSorted(s[1..], x)
  }

  /** What std::sort makes of octets. */
  function Sorted(s: seq<byte>): seq<byte> {
    if s == [] then [] else InsertSorted(Sorted(s[1..]), s[0])
  }

  function AllIndices(e: Entry): seq<byte> { Sorted(IndicesFrom(e.partIndices, 0)) }

  const MEMORY: Bytes := [0x4D, 0x45] // "ME"

  const DEFAULT_STATUS: byte := 1

  /** The status of the first message with this index. */
  function StatusAt(raw: seq<IncomingSms>, index: byte): byte {
    if raw == [] then DEFAULT_STATUS
    else if raw[0].index == index then raw[0].status
    else StatusAt(raw[1..], index)
  }

  function CombinedSms(e: Entry, status: byte): IncomingSms {
    IncomingSms(e.firstIndex, MEMORY,
                BLANK.(number := e.sender, text := Combined(e.parts), timestamp := e.timestamp,
                       hasUdh := false, concat := UdhInfo(0, 1, 0)),
                [], true, true, status, AllIndices(e))
  }

  /** What one group contributes: one combined message if it is complete, else whatever has its key. */
  function Output(raw: seq<IncomingSms>, key: Bytes): seq<IncomingSms> {
    var e := EntryFrom(GroupIn(raw, key));
    if IsComplete(e) then [CombinedSms(e, StatusAt(raw, e.firstIndex))] else Select(raw, Under(key))
  }

  function Outputs(raw: seq<IncomingSms>, keys: seq<Bytes>): seq<IncomingSms> {
    if keys == [] then [] else Output(raw, keys[0]) + Outputs(raw, keys[1..])
  }

  /** The list of messages as it is shown and cached. */
  function Batch(raw: seq<IncomingSms>): seq<IncomingSms> {
    Select(raw, Alone) + Outputs(raw, KeysOf(raw))
  }

  // ---------------------------------------------------------------- the loops

  lemma IndicesStep(indices: map<byte, byte>, k: nat, result: seq<byte>)
    requires k < 256
    ensures result + IndicesFrom(indices, k) == (if k in indices then result + [indices[k]] else result) + IndicesFrom(indices, k + 1)
    ensures result + IndicesFrom(indices, 256) == result && [] + IndicesFrom(indices, 0) == IndicesFrom(indices, 0)
  {
    hide *;
    var rest := IndicesFrom(indices, k + 1);
    IndicesAre(indices, k);
    if k in indices {
      assert result + ([indices[k]] + rest) == result + [indices[k]] + rest;
    } else {
      assert result + ([] + rest) == result + rest;
    }
    assert result + [] == result;
  }

  lemma IndicesAre(indices: map<byte, byte>, k: nat)
    requires k < 256
    ensures IndicesFrom(indices, k) == (if k in indices then [indices[k]] else []) + IndicesFrom(indices, k + 1)
    ensures IndicesFrom(indices, 256) == []
  {
  }

  method GetAllIndices(e: Entry) returns (indices: seq<byte>)
    ensures indices == AllIndices(e)
  {
    hide IndicesFrom, Sorted;
    indices := [];
    IndicesStep(e.partIndices, 0, indices);
    for number := 0 to 256
      invariant indices + IndicesFrom(e.partIndices, number) == IndicesFrom(e.partIndices, 0)
    {
      IndicesStep(e.partIndices, number, indices);
      if number in e.partIndices {
        indices := indices + [e.partIndices[number]];
      }
    }
    IndicesStep(e.partIndices, 0, indices);
    indices := Sorted(indices);
  }

  method FindStatus(raw: seq<IncomingSms>, index: byte) returns (status: byte)
    ensures status == StatusAt(raw, index)
  {
    status := DEFAULT_STATUS;
    var i := 0;
    assert raw[0..] == raw;
    while i < |raw|
      invariant 0 <= i <= |raw| && status == DEFAULT_STATUS
      invariant StatusAt(raw[i..], index) == StatusAt(raw, index)
    {
      if raw[i].index == index {
        return raw[i].status;
      }
      assert raw[i..][1..] == raw[i + 1..];
      i := i + 1;
    }
  }

  method CollectUnder(raw: seq<IncomingSms>, key: Bytes) returns (found: seq<IncomingSms>)
    ensures found == Select(raw, Under(key))
  {
    hide Select, CacheKey;
    found := [];
    assert Select([], Under(key)) == [] by { NothingSelected(Under(key)); }
    for i := 0 to |raw|
      invariant found == Select(raw[..i], Under(key))
    {
      SelectSnoc(raw[..i], raw[i], Under(key));
      assert raw[..i + 1] == raw[..i] + [raw[i]];
      if KeyOf(raw[i]) == key {
        found := found + [raw[i]];
      }
    }
    assert raw[..|raw|] == raw;
  }

  lemma {:induction false} KeysAre(raw: seq<IncomingSms>, key: Bytes)
    ensures key in KeysOf(raw) <==> GroupIn(raw, key) != []
  {
    if raw != [] {
      var rest, last := raw[..|raw| - 1], raw[|raw| - 1];
      assert raw == rest + [last];
      KeysAre(rest, key);
      SelectSnoc(rest, last, PartsUnder(key));
      if IsPart(last) { InsertedKeys(KeysOf(rest), KeyOf(last), key); }
      hide Select, Inserted, CacheKey;
    }
  }

  /** The map and the order of its keys, after some of the messages. */
  ghost predicate Collected(entries: map<Bytes, Entry>, order: seq<Bytes>, raw: seq<IncomingSms>) {
    && order == KeysOf(raw)
    && (forall key :: key in entries <==> key in order)
    && (forall key :: key in entries ==> entries[key] == EntryFrom(GroupIn(raw, key)))
  }

  lemma EntryGrows(group: seq<IncomingSms>, m: IncomingSms)
    ensures EntryFrom(group + [m]) == WithStoredPart(EntryFrom(group), m)
  {
    assert (group + [m])[..|group|] == group;
    hide WithStoredPart;
  }

  lemma KeysGrow(raw: seq<IncomingSms>, m: IncomingSms)
    ensures KeysOf(raw + [m]) == if IsPart(m) then Inserted(KeysOf(raw), KeyOf(m)) else KeysOf(raw)
  {
    assert (raw + [m])[..|raw|] == raw;
    hide Inserted;
  }

  lemma GroupGrows(raw: seq<IncomingSms>, m: IncomingSms, key: Bytes)
    ensures GroupIn(raw + [m], key) == if IsPart(m) && KeyOf(m) == key then GroupIn(raw, key) + [m] else GroupIn(raw, key)
  {
    SelectSnoc(raw, m, PartsUnder(key));
    hide Select, CacheKey;
  }

  lemma EntryUnder(entries: map<Bytes, Entry>, order: seq<Bytes>, raw: seq<IncomingSms>, key: Bytes)
    requires Collected(entries, order, raw)
    ensures (if key in entries then entries[key] else NEW_ENTRY) == EntryFrom(GroupIn(raw, key))
  {
    KeysAre(raw, key);
    assert EntryFrom([]) == NEW_ENTRY;
    hide GroupIn, KeysOf, EntryFrom;
  }

  lemma CollectsSingle(entries: map<Bytes, Entry>, order: seq<Bytes>, raw: seq<IncomingSms>, m: IncomingSms)
    requires Collected(entries, order, raw) && !IsPart(m)
    ensures Collected(entries, order, raw + [m])
  {
    hide GroupIn, KeysOf, EntryFrom, IsPart;
    KeysGrow(raw, m);
    forall key ensures GroupIn(raw + [m], key) == GroupIn(raw, key) { GroupGrows(raw, m, key); }
  }

  lemma CollectsPart(entries: map<Bytes, Entry>, order: seq<Bytes>, raw: seq<IncomingSms>, m: IncomingSms, entry: Entry)
    requires Collected(entries, order, raw) && IsPart(m)
    requires entry == WithStoredPart(if KeyOf(m) in entries then entries[KeyOf(m)] else NEW_ENTRY, m)
    ensures Collected(entries[KeyOf(m) := entry], Inserted(order, KeyOf(m)), raw + [m])
  {
    hide GroupIn, KeysOf, EntryFrom, IsPart, KeyOf, WithStoredPart, Inserted;
    var key := KeyOf(m);
    KeysGrow(raw, m);
    EntryUnder(entries, order, raw, key);
    EntryGrows(GroupIn(raw, key), m);
    forall k ensures GroupIn(raw + [m], k) == if k == key then GroupIn(raw, k) + [m] else GroupIn(raw, k) {
      GroupGrows(raw, m, k);
    }
    forall k ensures k in Inserted(order, key) <==> k == key || k in order { InsertedKeys(order, key, k); }
  }

  lemma OutputsStep(raw: seq<IncomingSms>, keys: seq<Bytes>, i: nat, done: seq<IncomingSms>)
    requires i < |keys|
    ensures done + Outputs(raw, keys[i..]) == done + Output(raw, keys[i]) + Outputs(raw, keys[i + 1..])
  {
    hide Output;
    assert keys[i..][1..] == keys[i + 1..];
    Regroup(done, Output(raw, keys[i]), Outputs(raw, keys[i + 1..]));
  }

  method CombineMultipartMessages(raw: seq<IncomingSms>) returns (combined: seq<IncomingSms>)
    ensures combined == Batch(raw)
  {
    hide Select, Inserted, EntryFrom, KeysOf, Output, Outputs, WithStoredPart, CacheKey;
    var entries: map<Bytes, Entry>, order: seq<Bytes>;
    entries, order, combined := SeparateMessages(raw);
    ghost var singles := combined;
    var i := 0;
    assert order[0..] == order;
    while i < |order|
      invariant 0 <= i <= |order|
      invariant combined + Outputs(raw, order[i..]) == singles + Outputs(raw, order)
    {
      OutputsStep(raw, order, i, combined);
      var key := order[i];
      assert key in order;
      var output := CombineGroup(raw, key, entries[key]);
      combined := combined + output;
      i := i + 1;
    }
    assert order[i..] == [];
    NoOutputs(raw, combined);
  }

  lemma NoOutputs(raw: seq<IncomingSms>, done: seq<IncomingSms>)
    ensures done + Outputs(raw, []) == done
  {
    Regroup(done, [], []);
  }

  method SeparateMessages(raw: seq<IncomingSms>)
    returns (entries: map<Bytes, Entry>, order: seq<Bytes>, singles: seq<IncomingSms>)
    ensures Collected(entries, order, raw) && singles == Select(raw, Alone)
  {
    hide Select, Inserted, EntryFrom, KeysOf, WithStoredPart, CacheKey, Collected;
    entries, order, singles := map[], [], [];
    NothingCollected(entries, order);
    NothingSelected(Alone);
    for i := 0 to |raw|
      invariant Collected(entries, order, raw[..i]) && singles == Select(raw[..i], Alone)
    {
      SelectSnoc(raw[..i], raw[i], Alone);
      assert raw[..i + 1] == raw[..i] + [raw[i]];
      if IsPart(raw[i]) {
        var key := KeyOf(raw[i]);
        var entry := WithStoredPart(if key in entries then entries[key] else NEW_ENTRY, raw[i]);
        CollectsPart(entries, order, raw[..i], raw[i], entry);
        entries := entries[key := entry];
        order := Inserted(order, key);
      } else {
        CollectsSingle(entries, order, raw[..i], raw[i]);
        singles := singles + [raw[i]];
      }
    }
    assert raw[..|raw|] == raw;
  }

  lemma NothingCollected(entries: map<Bytes, Entry>, order: seq<Bytes>)
    requires entries == map[] && order == []
    ensures Collected(entries, order, [])
  {
  }

  method CombineGroup(raw: seq<IncomingSms>, key: Bytes, entry: Entry) returns (output: seq<IncomingSms>)
    requires entry == EntryFrom(GroupIn(raw, key))
    ensures output == Output(raw, key)
  {
    hide Select, EntryFrom, StatusAt, Sorted, IndicesFrom, CombinedFrom;
    if IsComplete(entry) {
      var text := Combine(entry.parts);
      var indices := GetAllIndices(entry);
      var status := FindStatus(raw, entry.firstIndex);
      var decoded := BLANK.(number := entry.sender, text := text, timestamp := entry.timestamp,
                            hasUdh := false, concat := UdhInfo(0, 1, 0));
      return [IncomingSms(entry.firstIndex, MEMORY, decoded, [], true, true, status, indices)];
    }
    output := CollectUnder(raw, key);
  }
}
