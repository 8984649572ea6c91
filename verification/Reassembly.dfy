/** Collecting the parts of messages as they arrive, and notifying once a message is whole. */
module Reassembly {
  import opened Wrappers
  import opened Bits
  import opened Sms

  /** What is known of one message in parts. */
  datatype Entry = Entry(
    sender: Bytes, parts: map<byte, Bytes>, partIndices: map<byte, byte>, totalParts: byte,
    firstReceived: nat, timestamp: Bytes, firstIndex: byte)

  const NEW_ENTRY := Entry([], map[], map[], 0, 0, [], 0)

  /** In ticks of a clock that counts nanoseconds. */
  const TWO_MINUTES: nat := 120_000_000_000

  predicate IsComplete(e: Entry) { |e.parts| == e.totalParts && e.totalParts > 0 }

  predicate IsTimedOut(e: Entry, now: nat) { now - e.firstReceived > TWO_MINUTES }

  /** The texts in the order of their sequence numbers, from number k on. */
  function CombinedFrom(parts: map<byte, Bytes>, k: nat): Bytes
    decreases 256 - k
  {
    if k >= 256 then [] else (if k in parts then parts[k] else []) + CombinedFrom(parts, k + 1)
  }

  function Combined(parts: map<byte, Bytes>): Bytes { CombinedFrom(parts, 0) }

  lemma CombineStep(parts: map<byte, Bytes>, k: nat, result: Bytes)
    requires k < 256
    ensures result + CombinedFrom(parts, k) == (if k in parts then result + parts[k] else result) + CombinedFrom(parts, k + 1)
    ensures result + CombinedFrom(parts, 256) == result && [] + CombinedFrom(parts, 0) == CombinedFrom(parts, 0)
  {
    var rest := CombinedFrom(parts, k + 1);
    assert CombinedFrom(parts, k) == (if k in parts then parts[k] else []) + rest;
    hide CombinedFrom;
    if k in parts {
      assert result + (parts[k] + rest) == result + parts[k] + rest;
    } else {
      assert [] + rest == rest;
    }
  }

  method Combine(parts: map<byte, Bytes>) returns (result: Bytes)
    ensures result == Combined(parts)
  {
    hide CombinedFrom;
    result := [];
    CombineStep(parts, 0, result);
    for number := 0 to 256
      invariant result + CombinedFrom(parts, number) == Combined(parts)
    {
      CombineStep(parts, number, result);
      if number in parts {
        result := result + parts[number];
      }
    }
    CombineStep(parts, 0, result);
  }

  // ---------------------------------------------------------------- the cache

  type Cache = map<Bytes, Entry>

  /** The cache after a step, and the message that was notified, if any. */
  datatype Outcome = Outcome(cache: Cache, note: Option<IncomingSms>)

  function WithPart(e: Entry, m: IncomingSms, now: nat): Entry {
    var d := m.decoded;
    var entry :=
      if e.parts == map[] then
        e.(sender := d.number, totalParts := d.concat.concatTotal, firstReceived := now, timestamp := d.timestamp)
      else e;
    entry.(parts := entry.parts[d.concat.concatSeq := d.text])
  }

  function NoteFor(m: IncomingSms, text: Bytes): IncomingSms {
    IncomingSms(m.index, m.storage, m.decoded.(text := text), [], true, true, 1, [])
  }

  function Handled(cache: Cache, m: IncomingSms, now: nat): Outcome {
    var key := KeyOf(m);
    var entry := WithPart(if key in cache then cache[key] else NEW_ENTRY, m, now);
    if IsComplete(entry) then Outcome(cache - {key}, Some(NoteFor(m, Combined(entry.parts))))
    else Outcome(cache[key := entry], None)
  }

  function Cleaned(cache: Cache, now: nat): Cache {
    map key | key in cache && !IsTimedOut(cache[key], now) :: cache[key]
  }

  // ---------------------------------------------------------------- runs

  datatype Event = Arrives(sms: IncomingSms, at: nat) | Cleanup(at: nat)

  function Step(cache: Cache, e: Event): Outcome {
    match e
    case Arrives(sms, at) => Handled(cache, sms, at)
    case Cleanup(at) => Outcome(Cleaned(cache, at), None)
  }

  /** The cache after a run from the empty cache. */
  function After(events: seq<Event>): Cache {
    if events == [] then map[] else Step(After(events[..|events| - 1]), events[|events| - 1]).cache
  }

  lemma AfterGrows(before: seq<Event>, e: Event)
    ensures After(before + [e]) == Step(After(before), e).cache
  {
    assert (before + [e])[..|before|] == before;
    hide Step;
  }

  class MultipartCache {
    var cache: Cache
    ghost var events: seq<Event>   // all that happened to the cache so far

    ghost predicate Valid()
      reads this
    {
      cache == After(events)
    }

    constructor ()
      ensures Valid() && events == []
    {
      cache := map[];
      events := [];
    }

    method HandleMultipart(sms: IncomingSms, now: nat) returns (note: Option<IncomingSms>)
      requires Valid()
      modifies this
      ensures Valid() && events == old(events) + [Arrives(sms, now)]
      ensures Outcome(cache, note) == Handled(old(cache), sms, now)
    {
      hide CombinedFrom, After;
      AfterGrows(events, Arrives(sms, now));
      events := events + [Arrives(sms, now)];
      var decoded := sms.decoded;
      var cacheKey := CacheKey(decoded.number, decoded.concat.concatRef);
      var entry := if cacheKey in cache then cache[cacheKey] else NEW_ENTRY;
      if entry.parts == map[] {
        entry := entry.(sender := decoded.number);
        entry := entry.(totalParts := decoded.concat.concatTotal);
        entry := entry.(firstReceived := now);
        entry := entry.(timestamp := decoded.timestamp);
      }
      entry := entry.(parts := entry.parts[decoded.concat.concatSeq := decoded.text]);
      if |entry.parts| == entry.totalParts && entry.totalParts > 0 {
        var text := Combine(entry.parts);
        var combined := IncomingSms(sms.index, sms.storage, decoded.(text := text), [], true, true, 1, []);
        cache := cache - {cacheKey};
        return Some(combined);
      }
      cache := cache[cacheKey := entry];
      return None;
    }

    method CleanupCache(now: nat)
      requires Valid()
      modifies this
      ensures Valid() && events == old(events) + [Cleanup(now)]
      ensures cache == Cleaned(old(cache), now)
    {
      hide After;
      AfterGrows(events, Cleanup(now));
      events := events + [Cleanup(now)];
      ghost var before := cache;
      var left := cache.Keys;
      while left != {}
        invariant left <= before.Keys && events == old(events) + [Cleanup(now)]
        invariant forall key :: key in cache <==> key in before && (key in left || !IsTimedOut(before[key], now))
        invariant forall key :: key in cache ==> cache[key] == before[key]
        decreases |left|
      {
        var key :| key in left;
        left := left - {key};
        if IsTimedOut(cache[key], now) {
          cache := cache - {key};
        }
      }
    }

    /** What follows a +CMTI notification: expired entries go, and the message read is collected or
        notified at once. */
    method HandleCmti(sms: IncomingSms, cleanedAt: nat, now: nat) returns (note: Option<IncomingSms>)
      requires Valid()
      modifies this
      ensures Valid()
      ensures
        var part := sms.decoded.hasUdh && sms.decoded.concat.concatTotal > 1;
        && events == old(events) + [Cleanup(cleanedAt)] + (if sms.success && part then [Arrives(sms, now)] else [])
        && Outcome(cache, note)
           == (var kept := Cleaned(old(cache), cleanedAt);
               if !sms.success then Outcome(kept, None)
               else if part then Handled(kept, sms, now)
               else Outcome(kept, Some(sms)))
    {
      hide Handled, After;
      CleanupCache(cleanedAt);
      if !sms.success {
        return None;
      }
      if sms.decoded.hasUdh && sms.decoded.concat.concatTotal > 1 {
        note := HandleMultipart(sms, now);
      } else {
        note := Some(sms);
      }
    }
  }

  /** The two fields that the key is made of. */
  datatype Group = Group(sender: Bytes, reference: nat)

  function GroupOf(m: IncomingSms): Group { Group(m.decoded.number, m.decoded.concat.concatRef) }

  function GroupKey(g: Group): Bytes { CacheKey(g.sender, g.reference) }

  datatype Arrival = Arrival(sms: IncomingSms, at: nat)

  /** The latest text for each sequence number. */
  function PartsOf(w: seq<Arrival>): map<byte, Bytes> {
    if w == [] then map[]
    else
      var m := w[|w| - 1].sms.decoded;
      PartsOf(w[..|w| - 1])[m.concat.concatSeq := m.text]
  }

  /** As many different parts as the first one announced. */
  predicate Full(w: seq<Arrival>) {
    w != [] && |PartsOf(w)| == w[0].sms.decoded.concat.concatTotal
  }

  function Advanced(w: seq<Arrival>, e: Event, g: Group): seq<Arrival> {
    match e
    case Arrives(sms, at) =>
      if GroupOf(sms) != g then w
      else if Full(w + [Arrival(sms, at)]) then []
      else w + [Arrival(sms, at)]
    case Cleanup(at) => if w != [] && at - w[0].at > TWO_MINUTES then [] else w
  }

  /** What arrived of a group since it was last notified or expired. This looks at one group only, and
      knows nothing of keys or entries. */
  function Window(events: seq<Event>, g: Group): seq<Arrival> {
    if events == [] then [] else Advanced(Window(events[..|events| - 1], g), events[|events| - 1], g)
  }

  function EntryOf(w: seq<Arrival>): Entry
    requires w != []
  {
    var first := w[0].sms.decoded;
    Entry(first.number, PartsOf(w), map[], first.concat.concatTotal, w[0].at, first.timestamp, 0)
  }

  predicate Tracked(cache: Cache, w: seq<Arrival>, g: Group) {
    && (GroupKey(g) in cache <==> w != [])
    && (w != [] ==> cache[GroupKey(g)] == EntryOf(w))
  }

  lemma SomeParts(w: seq<Arrival>)
    requires w != []
    ensures w[|w| - 1].sms.decoded.concat.concatSeq in PartsOf(w) && PartsOf(w) != map[] && |PartsOf(w)| >= 1
  {
    var m := w[|w| - 1].sms.decoded;
    var before := PartsOf(w[..|w| - 1]);
    assert PartsOf(w) == before[m.concat.concatSeq := m.text];
    hide PartsOf;
    assert m.concat.concatSeq in PartsOf(w).Keys;
    assert PartsOf(w).Keys != {};
  }

  lemma PartsOfSnoc(w: seq<Arrival>, a: Arrival)
    ensures (w + [a])[..|w|] == w
    ensures PartsOf(w + [a]) == PartsOf(w)[a.sms.decoded.concat.concatSeq := a.sms.decoded.text]
    ensures w != [] ==> w[..|w| - 1] + [w[|w| - 1]] == w
  {
    assert (w + [a])[..|w|] == w;
  }

  lemma EntryOfSnoc(w: seq<Arrival>, a: Arrival)
    ensures EntryOf(w + [a]) == WithPart(if w == [] then NEW_ENTRY else EntryOf(w), a.sms, a.at)
    ensures IsComplete(EntryOf(w + [a])) <==> Full(w + [a])
  {
    PartsOfSnoc(w, a);
    SomeParts(w + [a]);
    if w != [] { SomeParts(w); }
    assert w == [] ==> PartsOf(w) == map[];
    hide PartsOf;
  }

  lemma ArrivalTracked(cache: Cache, w: seq<Arrival>, g: Group, sms: IncomingSms, at: nat)
    requires Tracked(cache, w, g)
    ensures
      var w' := w + [Arrival(sms, at)];
      GroupOf(sms) == g ==>
        && Tracked(Handled(cache, sms, at).cache, if Full(w') then [] else w', g)
        && Handled(cache, sms, at).note == if Full(w') then Some(NoteFor(sms, Combined(PartsOf(w')))) else None
    ensures GroupOf(sms) != g ==> Tracked(Handled(cache, sms, at).cache, w, g)
  {
    if GroupOf(sms) == g {
      EntryOfSnoc(w, Arrival(sms, at));
      hide PartsOf, CacheKey, CombinedFrom, Full, WithPart;
    } else {
      hide PartsOf, CacheKey, CombinedFrom, Full;
      if KeyOf(sms) == GroupKey(g) {
        CacheKeyInjective(sms.decoded.number, sms.decoded.concat.concatRef, g.sender, g.reference);
      }
    }
  }

  /** The cache is nothing but the windows of all groups: the entry under the key of a group is made of
      what arrived of that group since it was last notified or expired, and of nothing else. */
  lemma {:induction false} CacheIsWindows(events: seq<Event>, g: Group)
    ensures Tracked(After(events), Window(events, g), g)
  {
    if events != [] {
      var before := events[..|events| - 1];
      CacheIsWindows(before, g);
      match events[|events| - 1] {
        case Arrives(sms, at) => ArrivalTracked(After(before), Window(before, g), g, sms, at);
        case Cleanup(at) =>
      }
      hide Handled, PartsOf, CacheKey, Full;
    }
  }

  /** A notification tells exactly the window it closes. */
  lemma NoteIsOfWindow(events: seq<Event>, sms: IncomingSms, at: nat)
    ensures
      var w := Window(events, GroupOf(sms)) + [Arrival(sms, at)];
      Step(After(events), Arrives(sms, at)).note
      == if Full(w) then Some(NoteFor(sms, Combined(PartsOf(w)))) else None
  {
    CacheIsWindows(events, GroupOf(sms));
    ArrivalTracked(After(events), Window(events, GroupOf(sms)), GroupOf(sms), sms, at);
    hide Handled, PartsOf, CombinedFrom, Full, Window, After;
  }

  // ---------------------------------------------------------------- bounds

  /** Only parts are collected: a message in one part is notified without entering the cache. */
  predicate OnlyParts(events: seq<Event>) {
    forall i :: 0 <= i < |events| && events[i].Arrives? ==> IsPart(events[i].sms)
  }

  ghost predicate Bounded(cache: Cache) {
    forall key :: key in cache ==> 1 <= |cache[key].parts| < cache[key].totalParts
  }

  lemma OneMorePart(e: Entry, m: IncomingSms, at: nat)
    requires IsPart(m) && (e == NEW_ENTRY || 1 <= |e.parts| < e.totalParts)
    ensures
      var next := WithPart(e, m, at);
      1 <= |next.parts| <= next.totalParts && (IsComplete(next) <==> |next.parts| == next.totalParts)
  {
    assert |NEW_ENTRY.parts| == 0;
  }

  lemma StepBounded(cache: Cache, e: Event)
    requires Bounded(cache) && (e.Arrives? ==> IsPart(e.sms))
    ensures Bounded(Step(cache, e).cache)
  {
    hide CombinedFrom, CacheKey, WithPart;
    if e.Arrives? {
      var key := KeyOf(e.sms);
      OneMorePart(if key in cache then cache[key] else NEW_ENTRY, e.sms, e.at);
    }
  }

  /** Over every run, an entry holds at least one part and fewer than announced. */
  lemma {:induction false} AlwaysBounded(events: seq<Event>)
    requires OnlyParts(events)
    ensures Bounded(After(events))
  {
    if events != [] {
      hide Bounded, Step;
      AlwaysBounded(events[..|events| - 1]);
      StepBounded(After(events[..|events| - 1]), events[|events| - 1]);
    } else {
      assert After(events) == map[];
    }
  }

  // ---------------------------------------------------------------- a message whose parts all arrive

  function Joined(texts: seq<Bytes>): Bytes {
    if texts == [] then [] else texts[0] + Joined(texts[1..])
  }

  /** Part k of a message with the given texts, counted from 1. */
  predicate IsPartOf(m: IncomingSms, texts: seq<Bytes>) {
    var d := m.decoded;
    && d.concat.concatTotal == |texts|
    && 1 <= d.concat.concatSeq <= |texts|
    && d.text == texts[d.concat.concatSeq - 1]
  }

  function SeqOf(a: Arrival): byte { a.sms.decoded.concat.concatSeq }

  /** Parts of one message, each at most once, in any order. */
  ghost predicate Arranges(w: seq<Arrival>, texts: seq<Bytes>) {
    && (forall i :: 0 <= i < |w| ==> IsPartOf(w[i].sms, texts))
    && (forall i, j :: 0 <= i < j < |w| ==> SeqOf(w[i]) != SeqOf(w[j]))
  }

  /** Some of the texts, each under its number. */
  ghost predicate Holds(parts: map<byte, Bytes>, texts: seq<Bytes>) {
    forall k :: k in parts ==> 1 <= k <= |texts| && parts[k] == texts[k - 1]
  }

  lemma ArrangesPrefix(w: seq<Arrival>, a: Arrival, texts: seq<Bytes>)
    requires Arranges(w + [a], texts)
    ensures Arranges(w, texts) && IsPartOf(a.sms, texts)
    ensures forall i :: 0 <= i < |w| ==> SeqOf(w[i]) != SeqOf(a)
  {
    hide IsPartOf, SeqOf;
    var all := w + [a];
    assert all[|w|] == a;
    forall i | 0 <= i < |w| ensures IsPartOf(w[i].sms, texts) && SeqOf(w[i]) != SeqOf(a) {
      assert all[i] == w[i] && SeqOf(all[i]) != SeqOf(all[|w|]);
    }
    forall i, j | 0 <= i < j < |w| ensures SeqOf(w[i]) != SeqOf(w[j]) {
      assert all[i] == w[i] && all[j] == w[j];
    }
  }

  predicate OneOf(w: seq<Arrival>, k: byte) { exists i :: 0 <= i < |w| && SeqOf(w[i]) == k }

  lemma HoldsOneMore(parts: map<byte, Bytes>, a: Arrival, texts: seq<Bytes>)
    requires Holds(parts, texts) && IsPartOf(a.sms, texts)
    ensures Holds(parts[SeqOf(a) := a.sms.decoded.text], texts)
  {
  }

  lemma OneOfSnoc(w: seq<Arrival>, a: Arrival, k: byte)
    ensures OneOf(w + [a], k) <==> OneOf(w, k) || SeqOf(a) == k
  {
    var all := w + [a];
    assert all[|w|] == a;
    if OneOf(w, k) {
      var i :| 0 <= i < |w| && SeqOf(w[i]) == k;
      assert SeqOf(all[i]) == k;
    }
    if SeqOf(a) == k { assert SeqOf(all[|w|]) == k; }
  }

  lemma {:induction false} PartsAreThose(w: seq<Arrival>, k: byte)
    ensures k in PartsOf(w) <==> OneOf(w, k)
  {
    if w != [] {
      var rest, a := w[..|w| - 1], w[|w| - 1];
      assert rest + [a] == w;
      PartsAreThose(rest, k);
      PartsOfSnoc(rest, a);
      OneOfSnoc(rest, a, k);
      hide PartsOf, OneOf;
    }
  }

  /** Parts with different numbers are all kept. */
  lemma {:induction false} PartsOfArranged(w: seq<Arrival>, texts: seq<Bytes>)
    requires Arranges(w, texts)
    ensures |PartsOf(w)| == |w| && Holds(PartsOf(w), texts)
  {
    if w != [] {
      var rest, a := w[..|w| - 1], w[|w| - 1];
      assert rest + [a] == w;
      ArrangesPrefix(rest, a, texts);
      PartsOfArranged(rest, texts);
      PartsOfSnoc(rest, a);
      PartsAreThose(rest, SeqOf(a));
      HoldsOneMore(PartsOf(rest), a, texts);
      hide PartsOf, Arranges, Holds, IsPartOf;
    }
  }

  function Numbers(n: nat): (numbers: set<byte>)
    requires n <= 255
    ensures |numbers| == n && forall k: byte :: k in numbers <==> 1 <= k <= n
  {
    if n == 0 then {} else Numbers(n - 1) + {n}
  }

  lemma {:induction false} SmallerSet(a: set<byte>, b: set<byte>)
    requires a <= b
    ensures |a| <= |b| && (|a| == |b| ==> a == b)
    decreases a
  {
    if a != {} {
      var x :| x in a;
      SmallerSet(a - {x}, b - {x});
      assert a == a - {x} + {x} && b == b - {x} + {x};
    } else if b != {} {
      assert |b| > 0;
    }
  }

  /** Counting is enough: as many parts as texts means all numbers from 1 to the last. */
  lemma CountingSuffices(parts: map<byte, Bytes>, texts: seq<Bytes>)
    requires Holds(parts, texts) && |texts| <= 255
    ensures |parts| <= |texts|
    ensures |parts| == |texts| <==> forall k: byte :: 1 <= k <= |texts| ==> k in parts
  {
    var numbers := Numbers(|texts|);
    SmallerSet(parts.Keys, numbers);
    if forall k: byte :: 1 <= k <= |texts| ==> k in parts {
      assert numbers <= parts.Keys;
      SmallerSet(numbers, parts.Keys);
    }
  }

  lemma {:induction false} CombinedFromTexts(parts: map<byte, Bytes>, texts: seq<Bytes>, k: nat)
    requires Holds(parts, texts) && |texts| <= 255 && forall j: byte :: 1 <= j <= |texts| ==> j in parts
    requires 1 <= k <= 256
    ensures CombinedFrom(parts, k) == if k <= |texts| then Joined(texts[k - 1..]) else []
    decreases 256 - k
  {
    if k < 256 {
      CombinedFromTexts(parts, texts, k + 1);
      hide CombinedFrom, Joined;
      CombinedFromStep(parts, k);
      if k <= |texts| {
        JoinedFrom(texts, k - 1);
        assert k as byte in parts;
      } else {
        assert k !in parts;
      }
    }
  }

  lemma CombinedFromStep(parts: map<byte, Bytes>, k: nat)
    requires k < 256
    ensures CombinedFrom(parts, k) == if k in parts then parts[k] + CombinedFrom(parts, k + 1) else CombinedFrom(parts, k + 1)
  {
    assert [] + CombinedFrom(parts, k + 1) == CombinedFrom(parts, k + 1);
  }

  lemma JoinedFrom(texts: seq<Bytes>, k: nat)
    requires k < |texts|
    ensures Joined(texts[k..]) == texts[k] + if k + 1 < |texts| then Joined(texts[k + 1..]) else []
  {
    assert texts[k..][1..] == texts[k + 1..];
    assert Joined(texts[|texts|..]) == [];
  }

  /** All the parts in ascending order are the whole text. */
  lemma WholeText(parts: map<byte, Bytes>, texts: seq<Bytes>)
    requires Holds(parts, texts) && 1 <= |texts| <= 255 && |parts| == |texts|
    ensures Combined(parts) == Joined(texts)
  {
    hide CombinedFrom, Joined;
    CountingSuffices(parts, texts);
    CombinedFromTexts(parts, texts, 1);
    CombinedFromStep(parts, 0);
    assert texts[0..] == texts;
  }

  function ArrivalsOf(events: seq<Event>, g: Group): seq<Arrival> {
    if events == [] then []
    else
      var before := ArrivalsOf(events[..|events| - 1], g);
      match events[|events| - 1]
      case Arrives(sms, at) => if GroupOf(sms) == g then before + [Arrival(sms, at)] else before
      case Cleanup(_) => before
  }

  /** What is notified of a group in the course of a run. */
  function NotesOf(events: seq<Event>, g: Group): seq<IncomingSms> {
    if events == [] then []
    else
      var before := events[..|events| - 1];
      match Step(After(before), events[|events| - 1]).note
      case Some(n) => if GroupOf(n) == g then NotesOf(before, g) + [n] else NotesOf(before, g)
      case None => NotesOf(before, g)
  }

  /** No cleanup comes more than two minutes after the first part. */
  predicate NoneExpires(events: seq<Event>, g: Group) {
    ArrivalsOf(events, g) != [] ==>
      forall i :: 0 <= i < |events| && events[i].Cleanup? ==> events[i].at - ArrivalsOf(events, g)[0].at <= TWO_MINUTES
  }

  lemma ArrivalsGrow(before: seq<Event>, e: Event, g: Group)
    ensures (before + [e])[..|before|] == before
    ensures ArrivalsOf(before + [e], g)
         == if e.Arrives? && GroupOf(e.sms) == g then ArrivalsOf(before, g) + [Arrival(e.sms, e.at)] else ArrivalsOf(before, g)
  {
    assert (before + [e])[..|before|] == before;
  }

  lemma NoneExpiresBefore(before: seq<Event>, e: Event, g: Group)
    requires NoneExpires(before + [e], g)
    ensures NoneExpires(before, g)
    ensures e.Cleanup? && ArrivalsOf(before, g) != [] ==> e.at - ArrivalsOf(before, g)[0].at <= TWO_MINUTES
  {
    ArrivalsGrow(before, e, g);
    hide ArrivalsOf;
    var all := before + [e];
    if ArrivalsOf(before, g) != [] {
      assert ArrivalsOf(all, g)[0] == ArrivalsOf(before, g)[0];
      assert all[|before|] == e;
      forall i | 0 <= i < |before| && before[i].Cleanup?
        ensures before[i].at - ArrivalsOf(before, g)[0].at <= TWO_MINUTES
      {
        assert all[i] == before[i];
      }
    }
  }

  lemma NotesGrow(before: seq<Event>, e: Event, g: Group)
    ensures
      var w := Window(before, g);
      NotesOf(before + [e], g)
      == if e.Arrives? && GroupOf(e.sms) == g && Full(w + [Arrival(e.sms, e.at)])
         then NotesOf(before, g) + [NoteFor(e.sms, Combined(PartsOf(w + [Arrival(e.sms, e.at)])))]
         else NotesOf(before, g)
  {
    assert (before + [e])[..|before|] == before;
    if e.Arrives? {
      NoteIsOfWindow(before, e.sms, e.at);
    }
    hide Handled, PartsOf, CombinedFrom, Full, Window, After;
  }

  lemma WindowGrows(before: seq<Event>, e: Event, g: Group)
    ensures Window(before + [e], g) == Advanced(Window(before, g), e, g)
  {
    assert (before + [e])[..|before|] == before;
    hide Advanced;
  }

  /** How far a message has come whose parts arrive once each: collected while any is missing, notified
      once with the whole text when the last one is there. */
  ghost predicate Progress(events: seq<Event>, g: Group, texts: seq<Bytes>) {
    var w := ArrivalsOf(events, g);
    && |w| <= |texts|
    && if |w| < |texts| then Window(events, g) == w && NotesOf(events, g) == []
       else
         && Window(events, g) == [] && |NotesOf(events, g)| == 1
         && NotesOf(events, g)[0].decoded.text == Joined(texts)
  }

  lemma FullWhenAll(w: seq<Arrival>, texts: seq<Bytes>)
    requires Arranges(w, texts) && w != [] && 1 <= |texts| <= 255
    ensures |w| <= |texts| && (Full(w) <==> |w| == |texts|)
    ensures Full(w) ==> Combined(PartsOf(w)) == Joined(texts)
  {
    PartsOfArranged(w, texts);
    CountingSuffices(PartsOf(w), texts);
    assert IsPartOf(w[0].sms, texts);
    hide PartsOf, CombinedFrom, Joined, Holds, Arranges;
    if |w| == |texts| { WholeText(PartsOf(w), texts); }
  }

  lemma ProgressStep(before: seq<Event>, e: Event, g: Group, texts: seq<Bytes>)
    requires 2 <= |texts| <= 255 && Progress(before, g, texts)
    requires Arranges(ArrivalsOf(before + [e], g), texts) && NoneExpires(before + [e], g)
    ensures Progress(before + [e], g, texts)
  {
    hide Window, NotesOf, ArrivalsOf, Arranges, Full, Combined, PartsOf, Joined, NoneExpires, GroupOf;
    ArrivalsGrow(before, e, g);
    NoneExpiresBefore(before, e, g);
    NotesGrow(before, e, g);
    WindowGrows(before, e, g);
    if e.Arrives? && GroupOf(e.sms) == g {
      FullWhenAll(ArrivalsOf(before, g) + [Arrival(e.sms, e.at)], texts);
    }
  }

  /** A message of 2 to 255 parts, each arriving once, in any order, with anything of other messages in
      between and no cleanup too late: it is notified once, when its last missing part arrives, and the
      text is that of all parts in the order of their numbers. */
  lemma {:induction false} ReassembledOnce(events: seq<Event>, g: Group, texts: seq<Bytes>)
    requires 2 <= |texts| <= 255
    requires Arranges(ArrivalsOf(events, g), texts) && NoneExpires(events, g)
    ensures Progress(events, g, texts)
  {
    if events == [] {
    } else {
      var before, e := events[..|events| - 1], events[|events| - 1];
      assert before + [e] == events;
      ArrivalsGrow(before, e, g);
      NoneExpiresBefore(before, e, g);
      hide Progress, NoneExpires, ArrivalsOf;
      if e.Arrives? && GroupOf(e.sms) == g {
        ArrangesPrefix(ArrivalsOf(before, g), Arrival(e.sms, e.at), texts);
      }
      ReassembledOnce(before, g, texts);
      ProgressStep(before, e, g, texts);
    }
  }

  // ---------------------------------------------------------------- what is notified, and what expires

  /** A notification is the message that completed its group, with the text of all parts in place of its
      own: its index, its storage, and everything else that was decoded of it. */
  lemma NoteIsOfLast(events: seq<Event>, sms: IncomingSms, at: nat)
    ensures
      var note := Step(After(events), Arrives(sms, at)).note;
      note.Some? ==>
        && note.value.index == sms.index && note.value.storage == sms.storage
        && note.value.decoded == sms.decoded.(text := note.value.decoded.text)
        && note.value.pduHex == [] && note.value.success && note.value.isComplete && note.value.status == 1
        && note.value.originalIndices == []
  {
    hide Combined, WithPart, After;
  }

  /** A cleanup drops what began to arrive more than 120 seconds before, in nanoseconds, and nothing else;
      an arrival drops nothing but what it completes. */
  lemma WindowExpires(events: seq<Event>, e: Event, g: Group)
    ensures
      var w, next := Window(events, g), Window(events + [e], g);
      && (e.Cleanup? ==> next == if w != [] && e.at - w[0].at > 120 * 1_000_000_000 then [] else w)
      && (e.Arrives? && GroupOf(e.sms) != g ==> next == w)
      && (e.Arrives? && GroupOf(e.sms) == g ==> next == [] || next == w + [Arrival(e.sms, e.at)])
  {
    WindowGrows(events, e, g);
    hide Window, Full, GroupOf;
  }
}
