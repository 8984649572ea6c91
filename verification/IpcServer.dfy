/** The server's end of a connection: requests out of a stream of octets, and the answers to list and
    delete requests. */
module IpcServer {
  import opened Wrappers
  import opened Sequences
  import opened Bits
  import opened Ipc
  import opened Sms
  import M = MessageCache

  const IPC_MAGIC: nat := 0x534D534D

  const MAX_PAYLOAD_SIZE: nat := 1024 * 1024

  const HEADER_SIZE: nat := 16

  datatype Request = Request(command: nat, sequence: nat, payload: Bytes)

  function RequestHeader(r: Request): Bytes {
    Word(IPC_MAGIC) + (Word(|r.payload|) + (Word(r.command) + Word(r.sequence)))
  }

  function RequestOctets(r: Request): Bytes { RequestHeader(r) + r.payload }

  method SerializeRequest(command: nat, sequence: nat, payload: Bytes) returns (result: Bytes)
    ensures result == RequestOctets(Request(command, sequence, payload))
  {
    hide Word;
    result := [];
    result := result + (Word(IPC_MAGIC) + (Word(|payload|) + (Word(command) + Word(sequence))));
    result := result + payload;
  }

  // ---------------------------------------------------------------- receiving

  /** The payload length in a header that the server accepts. */
  function Accepted(header: Bytes): Option<nat>
    requires |header| == HEADER_SIZE
  {
    var magic, length := WordAt(header, 0).value.value, WordAt(header, 4).value.value;
    if magic != IPC_MAGIC || length > MAX_PAYLOAD_SIZE then None else Some(length)
  }

  /** The requests that a stream of octets holds, up to where it ends or is refused. */
  function Frames(stream: Bytes): seq<Bytes>
    decreases |stream|
  {
    if |stream| < HEADER_SIZE then []
    else
      match Accepted(stream[..HEADER_SIZE])
      case None => []
      case Some(length) =>
        if |stream| < HEADER_SIZE + length then []
        else [stream[..HEADER_SIZE + length]] + Frames(stream[HEADER_SIZE + length..])
  }

  /** A connection, with the octets the client has yet to be heard of. */
  class Socket {
    var pending: Bytes

    constructor (pending: Bytes)
      ensures this.pending == pending
    {
      this.pending := pending;
    }

    /** Some of the next octets, at least one and at most so many; none when the client is gone. */
    method Recv(max: nat) returns (received: Bytes)
      requires max > 0
      modifies this
      ensures received + pending == old(pending) && |received| <= max
      ensures received == [] <==> old(pending) == []
    {
      if pending == [] {
        return [];
      }
      var n: nat :| 1 <= n <= max && n <= |pending|;
      received := pending[..n];
      pending := pending[n..];
    }
  }

  /** Receives until so many octets are there, or the client is gone. */
  method ReceiveAll(socket: Socket, size: nat) returns (buffer: Bytes)
    modifies socket
    ensures buffer + socket.pending == old(socket.pending)
    ensures |buffer| == Min(size, |old(socket.pending)|)
  {
    buffer := [];
    while |buffer| < size
      invariant buffer + socket.pending == old(socket.pending) && |buffer| <= size
      decreases size - |buffer|
    {
      ghost var before := socket.pending;
      var received := socket.Recv(size - |buffer|);
      Regroup(buffer, received, socket.pending);
      if received == [] {
        return;
      }
      buffer := buffer + received;
    }
  }

  lemma NextFrame(stream: Bytes, header: Bytes, payload: Bytes, rest: Bytes)
    requires stream == header + (payload + rest) && |header| == HEADER_SIZE && Accepted(header) == Some(|payload|)
    ensures Frames(stream) == [header + payload] + Frames(rest)
  {
    assert stream[..HEADER_SIZE] == header;
    assert stream[..HEADER_SIZE + |payload|] == header + payload;
    assert stream[HEADER_SIZE + |payload|..] == rest;
    hide Accepted;
  }

  lemma LastFrame(stream: Bytes, header: Bytes, rest: Bytes)
    requires stream == header + rest && |header| <= HEADER_SIZE
    ensures |header| < HEADER_SIZE && rest == [] ==> Frames(stream) == []
    ensures |header| == HEADER_SIZE && Accepted(header) == None ==> Frames(stream) == []
    ensures |header| == HEADER_SIZE && Accepted(header).Some? && |rest| < Accepted(header).value ==> Frames(stream) == []
  {
    if |header| == HEADER_SIZE { assert stream[..HEADER_SIZE] == header; }
    hide Accepted;
  }

  /** However the octets are received piece by piece, the requests handed on are those of the stream. */
  method HandleClient(socket: Socket) returns (requests: seq<Bytes>)
    modifies socket
    ensures requests == Frames(old(socket.pending))
  {
    hide Frames, Accepted;
    requests := [];
    var active := true;
    while active
      invariant requests + (if active then Frames(socket.pending) else []) == Frames(old(socket.pending))
      decreases |socket.pending|, active
    {
      ghost var stream := socket.pending;
      var header := ReceiveAll(socket, HEADER_SIZE);
      ghost var rest := socket.pending;
      LastFrame(stream, header, rest);
      if |header| < HEADER_SIZE {
        active := false;
      } else {
        var length := ParseHeader(header);
        if length.None? {
          active := false;
        } else {
          var payload := [];
          if length.value > 0 {
            payload := ReceiveAll(socket, length.value);
          }
          if |payload| < length.value {
            active := false;
          } else {
            NextFrame(stream, header, payload, socket.pending);
            Regroup(requests, [header + payload], Frames(socket.pending));
            requests := requests + [header + payload];
          }
        }
      }
    }
  }

  method ParseHeader(header: Bytes) returns (length: Option<nat>)
    requires |header| == HEADER_SIZE
    ensures length == Accepted(header)
  {
    var magic := WordAt(header, 0);
    var len := WordAt(header, 4);
    if magic.value.value != IPC_MAGIC {
      return None;
    }
    if len.value.value > MAX_PAYLOAD_SIZE {
      return None;
    }
    return Some(len.value.value);
  }

  // ---------------------------------------------------------------- what the server is handed

  function StreamOf(requests: seq<Request>): Bytes {
    if requests == [] then [] else RequestOctets(requests[0]) + StreamOf(requests[1..])
  }

  function AllOctets(requests: seq<Request>): (all: seq<Bytes>)
    ensures |all| == |requests| && forall i :: 0 <= i < |all| ==> all[i] == RequestOctets(requests[i])
  {
    seq(|requests|, i requires 0 <= i < |requests| => RequestOctets(requests[i]))
  }

  lemma HeaderAccepted(r: Request)
    requires |r.payload| < WORD_LIMIT
    ensures |RequestHeader(r)| == HEADER_SIZE
    ensures Accepted(RequestHeader(r)) == if |r.payload| <= MAX_PAYLOAD_SIZE then Some(|r.payload|) else None
  {
    var header := RequestHeader(r);
    assert header[0..4] == Word(IPC_MAGIC) && header[4..8] == Word(|r.payload|);
    hide Word, WordAt;
    WordBack(header, 0, IPC_MAGIC);
    WordBack(header, 4, |r.payload|);
  }

  /** A request at the front of a stream is handed on if and only if its payload is small enough; else
      the connection ends there. */
  lemma FirstRequest(r: Request, rest: Bytes)
    requires |r.payload| < WORD_LIMIT
    ensures Frames(RequestOctets(r) + rest) == if |r.payload| <= 0x100000 then [RequestOctets(r)] + Frames(rest) else []
  {
    hide Frames, Accepted, RequestHeader;
    HeaderAccepted(r);
    var stream, header := RequestOctets(r) + rest, RequestHeader(r);
    assert stream == header + (r.payload + rest);
    if |r.payload| <= MAX_PAYLOAD_SIZE {
      NextFrame(stream, header, r.payload, rest);
    } else {
      LastFrame(stream, header, r.payload + rest);
    }
  }

  lemma SmallRequest(r: Request, rest: Bytes)
    requires |r.payload| <= 0x100000
    ensures Frames(RequestOctets(r) + rest) == [RequestOctets(r)] + Frames(rest)
  {
    hide Frames, RequestOctets;
    FirstRequest(r, rest);
  }

  lemma StreamCons(requests: seq<Request>)
    requires requests != []
    ensures StreamOf(requests) == RequestOctets(requests[0]) + StreamOf(requests[1..])
  {
    hide RequestOctets;
  }

  lemma AllOctetsCons(requests: seq<Request>)
    requires requests != []
    ensures AllOctets(requests) == [RequestOctets(requests[0])] + AllOctets(requests[1..])
  {
    hide RequestOctets;
  }

  lemma NoRequests()
    ensures StreamOf([]) == [] && AllOctets([]) == []
  {
  }

  /** Any concatenation of requests with payloads of up to 1 MiB is handed on as the same requests in
      order, and reading goes on behind them. */
  lemma {:induction false} RequestsHandedOn(requests: seq<Request>, rest: Bytes)
    requires forall i :: 0 <= i < |requests| ==> |requests[i].payload| <= 0x100000
    ensures Frames(StreamOf(requests) + rest) == AllOctets(requests) + Frames(rest)
  {
    hide *;
    if requests == [] {
      NoRequests();
      assert [] + rest == rest && [] + Frames(rest) == Frames(rest);
    } else {
      var first, others := requests[0], requests[1..];
      StreamCons(requests);
      AllOctetsCons(requests);
      Regroup(RequestOctets(first), StreamOf(others), rest);
      SmallRequest(first, StreamOf(others) + rest);
      RequestsHandedOn(others, rest);
      Regroup([RequestOctets(first)], AllOctets(others), Frames(rest));
    }
  }

  /** How a request is taken apart before its command is carried out. */
  function ParsedRequest(octets: Bytes): Option<Request> {
    match WordAt(octets, 0)
    case None => None
    case Some(magic) =>
      match WordAt(octets, 4)
      case None => None
      case Some(length) =>
        match WordAt(octets, 8)
        case None => None
        case Some(command) =>
          match WordAt(octets, 12)
          case None => None
          case Some(sequence) => Some(Request(command.value, sequence.value, octets[16..]))
  }

  /** The command, the sequence number and the payload that the client sent are those that are carried out. */
  lemma RequestReadBack(r: Request)
    requires |r.payload| < WORD_LIMIT && r.command < WORD_LIMIT && r.sequence < WORD_LIMIT
    ensures ParsedRequest(RequestOctets(r)) == Some(r)
  {
    var octets := RequestOctets(r);
    assert octets[0..4] == Word(IPC_MAGIC) && octets[4..8] == Word(|r.payload|);
    assert octets[8..12] == Word(r.command) && octets[12..16] == Word(r.sequence) && octets[16..] == r.payload;
    hide Word, WordAt, RequestOctets;
    WordBack(octets, 0, IPC_MAGIC);
    WordBack(octets, 4, |r.payload|);
    WordBack(octets, 8, r.command);
    WordBack(octets, 12, r.sequence);
  }

  // ---------------------------------------------------------------- answers

  const SUCCESS: nat := 0

  const INVALID_ARGS: nat := 4

  function Response(status: nat, payload: Bytes): Bytes {
    Word(IPC_MAGIC) + (Word(|payload|) + (Word(status) + Word(0))) + payload
  }

  /** What a client is told of a message. Nothing says that it is combined. */
  function InfoOf(m: IncomingSms): SmsInfo {
    BLANK_INFO.(index := m.index, sender := m.decoded.number, text := m.decoded.text, timestamp := m.decoded.timestamp,
                hasUdh := m.decoded.hasUdh, concatSeq := m.decoded.concat.concatSeq,
                concatTotal := m.decoded.concat.concatTotal, status := m.status)
  }

  function InfosOf(messages: seq<IncomingSms>): (infos: seq<SmsInfo>)
    ensures |infos| == |messages| && forall i :: 0 <= i < |infos| ==> infos[i] == InfoOf(messages[i])
  {
    seq(|messages|, i requires 0 <= i < |messages| => InfoOf(messages[i]))
  }

  function ListPayload(messages: seq<IncomingSms>): Bytes { Word(|messages|) + ListOctets(InfosOf(messages)) }

  lemma ListOctetsStep(messages: seq<IncomingSms>, i: nat, done: Bytes)
    requires i < |messages|
    ensures done + ListOctets(InfosOf(messages[i..])) == done + InfoOctets(InfoOf(messages[i])) + ListOctets(InfosOf(messages[i + 1..]))
  {
    var infos := InfosOf(messages[i..]);
    assert infos[1..] == InfosOf(messages[i + 1..]);
    hide InfoOctets, InfosOf;
    Regroup(done, InfoOctets(infos[0]), ListOctets(infos[1..]));
  }

  lemma NoneListed(messages: seq<IncomingSms>, done: Bytes)
    ensures messages[0..] == messages && done + ListOctets(InfosOf(messages[|messages|..])) == done
  {
  }

  /** The answer to a list request, given what a fresh look at the storage shows. */
  method HandleList(payload: Bytes, messages: seq<IncomingSms>) returns (response: Bytes)
    ensures response == if StrAt(payload, 0).None? then Response(INVALID_ARGS, []) else Response(SUCCESS, ListPayload(messages))
  {
    hide Word, StrAt, ListOctets, InfoOctets, InfosOf;
    var status := StrAt(payload, 0);
    if status.None? {
      return Response(INVALID_ARGS, []);
    }
    var listed := Word(|messages|);
    NoneListed(messages, listed);
    for i := 0 to |messages|
      invariant listed + ListOctets(InfosOf(messages[i..])) == ListPayload(messages)
    {
      ListOctetsStep(messages, i, listed);
      var octets := SerializeSmsInfo(InfoOf(messages[i]));
      listed := listed + octets;
    }
    NoneListed(messages, listed);
    return Response(SUCCESS, listed);
  }

  /** A client reads from the answer exactly the fields of the listed messages, and nothing is left over. */
  lemma ListAnswerReadBack(messages: seq<IncomingSms>)
    requires |messages| < WORD_LIMIT && Faithful(InfosOf(messages))
    ensures
      var answer := Response(SUCCESS, ListPayload(messages));
      && WordAt(answer, HEADER_SIZE).Some? && WordAt(answer, HEADER_SIZE).value.value == |messages|
      && ListAt(answer, HEADER_SIZE + 4, |messages|) == Some(Read(InfosOf(messages), |answer|))
  {
    hide *;
    var infos, payload := InfosOf(messages), ListPayload(messages);
    var answer := Response(SUCCESS, payload);
    PayloadAt(SUCCESS, payload);
    ListPayloadIs(messages);
    AtSplit(answer, HEADER_SIZE, Word(|messages|), ListOctets(infos));
    WordBack(answer, HEADER_SIZE, |messages|);
    ListReadBack(answer, HEADER_SIZE + 4, infos);
  }

  lemma PayloadAt(status: nat, payload: Bytes)
    ensures At(Response(status, payload), HEADER_SIZE, payload) && |Response(status, payload)| == HEADER_SIZE + |payload|
  {
    hide Word;
  }

  lemma ListPayloadIs(messages: seq<IncomingSms>)
    ensures ListPayload(messages) == Word(|messages|) + ListOctets(InfosOf(messages))
    ensures |InfosOf(messages)| == |messages|
  {
    hide Word, ListOctets, InfosOf;
  }

  /** The answer to a delete request, and what it does to the cache and the storage: nothing unless the
      request names at least one index. */
  method HandleDelete(payload: Bytes, cache: M.MessageCache, refused: set<byte>) returns (response: Bytes)
    modifies cache, cache.modem
    ensures
      var indices := StrAt(payload, 0);
      if indices.None? || indices.value.value == [] then
        cache.Contents() == old(cache.Contents()) && response == Response(INVALID_ARGS, [])
      else
        && cache.Contents() == M.DeletedAll(old(cache.Contents()), indices.value.value, refused)
        && response == Response(SUCCESS, Str(M.Answered(old(cache.Contents()), indices.value.value, refused, true))
                                         + Str(M.Answered(old(cache.Contents()), indices.value.value, refused, false)))
  {
    hide Word, StrAt, M.DeletedAll, M.Answered;
    var indices := StrAt(payload, 0);
    if indices.None? {
      return Response(INVALID_ARGS, []);
    }
    if indices.value.value == [] {
      return Response(INVALID_ARGS, []);
    }
    var deleted, failed := cache.HandleDelete(indices.value.value, refused);
    var deletedOctets := SerializeStr(deleted);
    var failedOctets := SerializeStr(failed);
    return Response(SUCCESS, deletedOctets + failedOctets);
  }
}
