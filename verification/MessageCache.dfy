/** The cache of combined messages, and deleting from it and from the modem's storage together. */
module MessageCache {
  import opened Wrappers
  import opened Sequences
  import opened Bits
  import opened Sms
  import opened Combine

  // ---------------------------------------------------------------- deleting

  /** The indices deleted for one index: all original indices of the first cached message with that
      index that has any, else the index itself. */
  function ToDelete(cache: seq<IncomingSms>, index: byte): seq<byte> {
    if cache == [] then [index]
    else if cache[0].index == index && cache[0].originalIndices != [] then cache[0].originalIndices
    else ToDelete(cache[1..], index)
  }

  function IndexSet(s: seq<byte>): set<byte> { set x | x in s }

  /** What the modem still stores after it was asked to delete indices, of which it refuses some. */
  function StorageAfter(raw: seq<IncomingSms>, indices: seq<byte>, refused: set<byte>): seq<IncomingSms> {
    Select(raw, Spared(IndexSet(indices) - refused))
  }

  function CacheWithout(cache: seq<IncomingSms>, index: byte): seq<IncomingSms> {
    Select(cache, Spared({index}))
  }

  datatype Store = Store(cache: seq<IncomingSms>, raw: seq<IncomingSms>)

  /** Deleting one index: the cache forgets it only if the modem deleted everything asked. */
  function Deleted(s: Store, index: byte, refused: set<byte>): Store {
    var indices := ToDelete(s.cache, index);
    Store(if IndexSet(indices) !! refused then CacheWithout(s.cache, index) else s.cache,
          StorageAfter(s.raw, indices, refused))
  }

  function DeletedAll(s: Store, indices: seq<byte>, refused: set<byte>): Store
    decreases |indices|
  {
    if indices == [] then s
    else DeletedAll(Deleted(s, indices[0], refused), indices[1..], refused)
  }

  /** The indices of a request whose deletion succeeded, or failed. */
  function Answered(s: Store, indices: seq<byte>, refused: set<byte>, success: bool): seq<byte>
    decreases |indices|
  {
    if indices == [] then []
    else
      (if (IndexSet(ToDelete(s.cache, indices[0])) !! refused) == success then [indices[0]] else [])
      + Answered(Deleted(s, indices[0], refused), indices[1..], refused, success)
  }

  /** Each index of a request is answered once, as deleted or as failed. */
  lemma {:induction false} EachIndexAnswered(s: Store, indices: seq<byte>, refused: set<byte>)
    ensures multiset(Answered(s, indices, refused, true)) + multiset(Answered(s, indices, refused, false)) == multiset(indices)
    decreases |indices|
  {
    if indices != [] {
      var index, rest := indices[0], indices[1..];
      assert indices == [index] + rest;
      hide Deleted, ToDelete, IndexSet;
      EachIndexAnswered(Deleted(s, index, refused), rest, refused);
    }
  }

  /** The last index that the modem refuses to delete. */
  function LastRefused(indices: seq<byte>, refused: set<byte>): Option<byte> {
    if indices == [] then None
    else if indices[|indices| - 1] in refused then Some(indices[|indices| - 1])
    else LastRefused(indices[..|indices| - 1], refused)
  }

  lemma LastRefusedSnoc(indices: seq<byte>, index: byte, refused: set<byte>)
    ensures LastRefused(indices + [index], refused) == if index in refused then Some(index) else LastRefused(indices, refused)
  {
    assert (indices + [index])[..|indices|] == indices;
  }

  /** An error is told exactly if something is refused, and it names one of those. */
  lemma {:induction false} RefusedExactly(indices: seq<byte>, refused: set<byte>)
    ensures LastRefused(indices, refused).None? <==> IndexSet(indices) !! refused
    ensures LastRefused(indices, refused).Some? ==> LastRefused(indices, refused).value in IndexSet(indices) * refused
  {
    if indices != [] {
      var rest, last := indices[..|indices| - 1], indices[|indices| - 1];
      assert indices == rest + [last];
      RefusedExactly(rest, refused);
      assert IndexSet(indices) == IndexSet(rest) + {last};
    }
  }

  class Modem {
    var raw: seq<IncomingSms>

    constructor (raw: seq<IncomingSms>)
      ensures this.raw == raw
    {
      this.raw := raw;
    }

    /** A reply to AT+CMGD: either the slot is empty afterwards, or nothing changes. */
    method Delete(index: byte, refused: set<byte>) returns (success: bool)
      modifies this
      ensures success <==> index !in refused
      ensures raw == if success then Select(old(raw), Spared({index})) else old(raw)
    {
      success := index !in refused;
      if success {
        raw := Select(raw, Spared({index}));
      }
    }
  }

  class MessageCache {
    const modem: Modem
    var messages: seq<IncomingSms>

    function Contents(): Store
      reads this, modem
    {
      Store(messages, modem.raw)
    }

    constructor (modem: Modem)
      ensures this.modem == modem && messages == []
    {
      this.modem := modem;
      messages := [];
    }

    /** Reads all of the storage anew, if the modem answers to the listing. */
    method RefreshCache(listed: bool)
      modifies `messages
      ensures messages == if listed then Batch(modem.raw) else old(messages)
    {
      hide Batch;
      if !listed {
        return;
      }
      messages := CombineMultipartMessages(modem.raw);
    }

    method FindIndices(index: byte) returns (indices: seq<byte>)
      ensures indices == ToDelete(messages, index)
    {
      var i := 0;
      assert messages[0..] == messages;
      while i < |messages|
        invariant 0 <= i <= |messages|
        invariant ToDelete(messages[i..], index) == ToDelete(messages, index)
      {
        if messages[i].index == index && messages[i].originalIndices != [] {
          return messages[i].originalIndices;
        }
        assert messages[i..][1..] == messages[i + 1..];
        i := i + 1;
      }
      return [index];
    }

    /** The error names the last index that was refused. */
    method DeleteMessage(index: byte, refused: set<byte>) returns (error: Option<byte>)
      modifies modem
      ensures error == LastRefused(ToDelete(messages, index), refused)
      ensures error.None? <==> IndexSet(ToDelete(messages, index)) !! refused
      ensures modem.raw == StorageAfter(old(modem.raw), ToDelete(messages, index), refused)
    {
      hide ToDelete, Select;
      var indicesToDelete := FindIndices(index);
      error := None;
      SparesAll(modem.raw);
      for i := 0 to |indicesToDelete|
        invariant error == LastRefused(indicesToDelete[..i], refused)
        invariant modem.raw == StorageAfter(old(modem.raw), indicesToDelete[..i], refused)
      {
        var deleted := modem.Delete(indicesToDelete[i], refused);
        SparesOneMore(old(modem.raw), indicesToDelete[..i], indicesToDelete[i], refused);
        assert indicesToDelete[..i + 1] == indicesToDelete[..i] + [indicesToDelete[i]];
        LastRefusedSnoc(indicesToDelete[..i], indicesToDelete[i], refused);
        if !deleted {
          error := Some(indicesToDelete[i]);
        }
      }
      assert indicesToDelete[..|indicesToDelete|] == indicesToDelete;
      RefusedExactly(indicesToDelete, refused);
    }

    method RemoveFromCache(index: byte)
      modifies `messages
      ensures messages == CacheWithout(old(messages), index)
    {
      hide Select;
      var kept := [];
      NothingSelected(Spared({index}));
      for i := 0 to |messages|
        invariant messages == old(messages) && kept == Select(messages[..i], Spared({index}))
      {
        SelectSnoc(messages[..i], messages[i], Spared({index}));
        assert messages[..i + 1] == messages[..i] + [messages[i]];
        if messages[i].index != index {
          kept := kept + [messages[i]];
        }
      }
      assert messages[..|messages|] == messages;
      messages := kept;
    }

    /** The loop of the delete request: which indices were deleted, and which failed. */
    method HandleDelete(indices: seq<byte>, refused: set<byte>) returns (deleted: seq<byte>, failed: seq<byte>)
      modifies this, modem
      ensures Contents() == DeletedAll(old(Contents()), indices, refused)
      ensures deleted == Answered(old(Contents()), indices, refused, true)
      ensures failed == Answered(old(Contents()), indices, refused, false)
      ensures multiset(deleted) + multiset(failed) == multiset(indices)
    {
      hide ToDelete, Select, Deleted, DeletedAll, Answered;
      deleted, failed := [], [];
      var i := 0;
      assert indices[0..] == indices;
      while i < |indices|
        invariant 0 <= i <= |indices|
        invariant DeletedAll(Contents(), indices[i..], refused) == DeletedAll(old(Contents()), indices, refused)
        invariant deleted + Answered(Contents(), indices[i..], refused, true) == Answered(old(Contents()), indices, refused, true)
        invariant failed + Answered(Contents(), indices[i..], refused, false) == Answered(old(Contents()), indices, refused, false)
      {
        var index := indices[i];
        DeleteOne(Contents(), indices, i, refused);
        AnswerOne(Contents(), indices, i, refused, true, deleted);
        AnswerOne(Contents(), indices, i, refused, false, failed);
        var error := DeleteMessage(index, refused);
        if error.None? {
          deleted := deleted + [index];
          RemoveFromCache(index);
        } else {
          failed := failed + [index];
        }
        i := i + 1;
      }
      assert indices[i..] == [];
      EachIndexAnswered(old(Contents()), indices, refused);
      NothingAnswered(Contents(), refused, deleted, failed);
    }
  }

  lemma NothingAnswered(s: Store, refused: set<byte>, deleted: seq<byte>, failed: seq<byte>)
    ensures DeletedAll(s, [], refused) == s
    ensures deleted + Answered(s, [], refused, true) == deleted
    ensures failed + Answered(s, [], refused, false) == failed
  {
  }

  lemma AnswerOne(s: Store, indices: seq<byte>, i: nat, refused: set<byte>, success: bool, done: seq<byte>)
    requires i < |indices|
    ensures
      var now := if (IndexSet(ToDelete(s.cache, indices[i])) !! refused) == success then [indices[i]] else [];
      done + Answered(s, indices[i..], refused, success)
      == done + now + Answered(Deleted(s, indices[i], refused), indices[i + 1..], refused, success)
    ensures done + [] == done
  {
    hide ToDelete, Deleted, IndexSet;
    assert indices[i..][1..] == indices[i + 1..];
    var now := if (IndexSet(ToDelete(s.cache, indices[i])) !! refused) == success then [indices[i]] else [];
    Regroup(done, now, Answered(Deleted(s, indices[i], refused), indices[i + 1..], refused, success));
  }

  lemma SparesAll(raw: seq<IncomingSms>)
    ensures StorageAfter(raw, [], {}) == raw
    ensures forall refused :: StorageAfter(raw, [], refused) == raw
  {
    forall refused ensures StorageAfter(raw, [], refused) == raw {
      SelectAll(raw, Spared(IndexSet([]) - refused));
    }
    hide Select;
  }

  lemma {:induction false} SelectTwice(raw: seq<IncomingSms>, a: set<byte>, b: set<byte>)
    ensures Select(Select(raw, Spared(a)), Spared(b)) == Select(raw, Spared(a + b))
  {
    if raw != [] {
      var rest, last := raw[..|raw| - 1], raw[|raw| - 1];
      assert raw == rest + [last];
      hide Select;
      SelectTwice(rest, a, b);
      SelectSnoc(rest, last, Spared(a));
      SelectSnoc(rest, last, Spared(a + b));
      SelectSnoc(Select(rest, Spared(a)), last, Spared(b));
    }
  }

  lemma SparesOneMore(raw: seq<IncomingSms>, indices: seq<byte>, index: byte, refused: set<byte>)
    ensures IndexSet(indices + [index]) == IndexSet(indices) + {index}
    ensures StorageAfter(raw, indices + [index], refused)
         == if index in refused then StorageAfter(raw, indices, refused)
            else Select(StorageAfter(raw, indices, refused), Spared({index}))
  {
    hide Select;
    SelectTwice(raw, IndexSet(indices) - refused, {index});
    if index in refused {
      assert IndexSet(indices + [index]) - refused == IndexSet(indices) - refused;
    } else {
      assert IndexSet(indices + [index]) - refused == IndexSet(indices) - refused + {index};
    }
  }

  lemma DeleteOne(s: Store, indices: seq<byte>, i: nat, refused: set<byte>)
    requires i < |indices|
    ensures DeletedAll(s, indices[i..], refused) == DeletedAll(Deleted(s, indices[i], refused), indices[i + 1..], refused)
    ensures Deleted(s, indices[i], refused)
         == Store(if IndexSet(ToDelete(s.cache, indices[i])) !! refused then CacheWithout(s.cache, indices[i]) else s.cache,
                  StorageAfter(s.raw, ToDelete(s.cache, indices[i]), refused))
  {
    hide ToDelete, Select, IndexSet;
    assert indices[i..][1..] == indices[i + 1..];
  }
}
