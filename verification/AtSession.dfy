/** The AT session: caller threads enqueue commands; handlers on the IO thread are its steps. */
module AtSession {
  import opened Wrappers
  import opened AtResponse

  /** A queued command, with the timeout its caller asks for. Its promise is known by the order of
      creation. The source keeps the timeout in the caller's wake-up only. */
  datatype Command = Command(promise: nat, text: string, timeout: nat)

  datatype Current = Current(command: Command, timeout: nat, timerArmed: bool)

  /** A promise that was set. */
  datatype Answer = Answer(command: Command, response: AtResponse)

  /** A handler posted to the IO thread that processes the queue: by a caller, with the timeout it asks
      for, or after a transport error. */
  datatype WakeUp = FromCaller(timeout: nat) | AfterError

  datatype Session = Session(
    queue: seq<Command>,
    current: Option<Current>,
    inProgress: bool,
    routed: Routed,
    pendingTimeout: nat,
    unposted: seq<nat>,      // timeouts of callers that have enqueued but not yet posted their wake-up
    posted: seq<WakeUp>,
    expired: nat,            // handlers of expired timers that have yet to run
    enqueued: seq<Command>,  // all promises ever created
    fulfilled: seq<Answer>,  // all promises set, in order
    written: seq<string>)

  const DEFAULT_TIMEOUT: nat := 5000

  const INITIAL := Session([], None, false, Routed(IDLE, []), DEFAULT_TIMEOUT, [], [], 0, [], [], [])

  const TIMEOUT := AtResponse(false, "TIMEOUT", "", [])

  /** What may happen next. An armed timer may expire, which queues its handler; the handler of a timer
      that was cancelled before reports `aborted`. A queued handler runs even if its command is gone. */
  datatype Event =
    | Enqueue(text: string, timeout: nat)
    | Post(caller: nat)
    | RunPosted(position: nat)
    | Line(line: string)
    | Expire
    | Timeout(aborted: bool)
    | TransportError(error: string)

  // ---------------------------------------------------------------- steps

  function ProcessedNext(s: Session): Session {
    if s.inProgress || s.queue == [] then s
    else
      s.(queue := s.queue[1..], current := Some(Current(s.queue[0], s.pendingTimeout, true)), inProgress := true,
         routed := s.routed.(builder := Started(s.queue[0].text)), written := s.written + [s.queue[0].text + "\r"])
  }

  /** The current command, if any, is answered, and the session is idle again. */
  function Settled(s: Session, response: AtResponse): Session {
    s.(fulfilled := if s.current.Some? then s.fulfilled + [Answer(s.current.value.command, response)] else s.fulfilled,
       current := None, inProgress := false, routed := s.routed.(builder := IDLE))
  }

  function TimerCancelled(s: Session): Session {
    if s.current.Some? then s.(current := Some(s.current.value.(timerArmed := false))) else s
  }

  function LineReceived(s: Session, line: string): Session {
    if line == [] then s
    else if !s.inProgress then s.(routed := s.routed.(urcs := s.routed.urcs + [line]))
    else
      var next := s.(routed := Dispatched(s.routed, line));
      if next.routed.builder.state == Complete then ProcessedNext(Settled(next, ResponseOf(next.routed.builder)))
      else if next.routed.builder.state == WaitingPrompt then TimerCancelled(next)
      else next
  }

  function TimerExpired(s: Session): Session {
    if s.current.Some? && s.current.value.timerArmed then TimerCancelled(s).(expired := s.expired + 1) else s
  }

  /** One queued handler of an expired timer, if any, has run. */
  function HandlerRun(s: Session): Session { s.(expired := if s.expired > 0 then s.expired - 1 else 0) }

  /** A handler that reports a timeout ends whatever command is in flight. That the handler of some timer
      is queued is not asked here, so what holds of all runs holds of the possible ones. */
  function TimedOut(s: Session, aborted: bool): Session {
    if aborted then s else ProcessedNext(Settled(HandlerRun(s), TIMEOUT))
  }

  function TransportFailed(s: Session, error: string): Session {
    if s.inProgress && s.current.Some? then
      var settled := Settled(s, AtResponse(false, "TRANSPORT_ERROR", "", [error]));
      settled.(posted := settled.posted + [AfterError])
    else s
  }

  function Without<T>(s: seq<T>, i: nat): seq<T>
    requires i < |s|
  {
    s[..i] + s[i + 1..]
  }

  function Woken(s: Session, i: nat): Session
    requires i < |s.posted|
  {
    var rest := s.(posted := Without(s.posted, i));
    match s.posted[i]
    case FromCaller(timeout) => ProcessedNext(rest.(pendingTimeout := timeout))
    case AfterError => ProcessedNext(rest)
  }

  function Enqueued(s: Session, text: string, timeout: nat): Session {
    var command := Command(|s.enqueued|, text, timeout);
    s.(queue := s.queue + [command], enqueued := s.enqueued + [command], unposted := s.unposted + [timeout])
  }

  /** One step. An event that finds nothing to act on changes nothing. */
  function Step(s: Session, e: Event): Session {
    match e
    case Enqueue(text, timeout) => Enqueued(s, text, timeout)
    case Post(i) =>
      if i < |s.unposted| then
        s.(unposted := Without(s.unposted, i), posted := s.posted + [FromCaller(s.unposted[i])])
      else s
    case RunPosted(i) => if i < |s.posted| then Woken(s, i) else s
    case Line(line) => LineReceived(s, line)
    case Expire => TimerExpired(s)
    case Timeout(aborted) => TimedOut(s, aborted)
    case TransportError(error) => TransportFailed(s, error)
  }

  function After(s: Session, events: seq<Event>): Session
    decreases |events|
  {
    if events == [] then s else After(Step(s, events[0]), events[1..])
  }

  // ---------------------------------------------------------------- invariants

  function InFlight(s: Session): seq<Command> { if s.current.Some? then [s.current.value.command] else [] }

  function CommandsOf(answers: seq<Answer>): (commands: seq<Command>)
    ensures |commands| == |answers|
  {
    seq(|answers|, i requires 0 <= i < |answers| => answers[i].command)
  }

  /** Every promise is set, in flight or queued, once and in the order of creation. */
  ghost predicate Fifo(s: Session) {
    && CommandsOf(s.fulfilled) + InFlight(s) + s.queue == s.enqueued
    && forall i :: 0 <= i < |s.enqueued| ==> s.enqueued[i].promise == i
  }

  /** The three ways in which the session knows of a command in flight agree. */
  predicate Coherent(s: Session) {
    var b := s.routed.builder;
    && (s.inProgress <==> s.current.Some?)
    && (s.inProgress <==> b.state != Idle && b.state != Complete)
    && (s.inProgress ==> b.command == s.current.value.command.text)
    && (b.state == WaitingPrompt || b.state == WaitingFinal ==> StartsWith(b.command, "AT+CMGS"))
  }

  /** Whoever waits will be served: an idle session with queued commands will be woken, and a command in
      flight has its timer armed, or the handler of an expired timer queued, unless it is one that sends a
      message. */
  predicate NoneStranded(s: Session) {
    && (s.queue != [] && !s.inProgress ==> s.posted != [] || s.unposted != [])
    && (s.current.Some? && !StartsWith(s.current.value.command.text, "AT+CMGS") ==>
          s.current.value.timerArmed || s.expired > 0)
  }

  ghost predicate Inv(s: Session) { Fifo(s) && Coherent(s) && NoneStranded(s) }

  lemma CommandsAppend(answers: seq<Answer>, a: Answer)
    ensures CommandsOf(answers + [a]) == CommandsOf(answers) + [a.command]
  {
  }

  lemma ProcessedNextKeeps(s: Session)
    requires Fifo(s) && Coherent(s)
    requires s.inProgress ==> NoneStranded(s)
    ensures Inv(ProcessedNext(s))
    ensures ProcessedNext(s).queue == [] || ProcessedNext(s).inProgress
  {
    var next := ProcessedNext(s);
    if !s.inProgress && s.queue != [] {
      assert CommandsOf(s.fulfilled) + [] + s.queue == CommandsOf(s.fulfilled) + [s.queue[0]] + s.queue[1..];
    }
    hide CommandsOf;
  }

  lemma SettledKeeps(s: Session, response: AtResponse)
    requires Fifo(s)
    ensures Fifo(Settled(s, response)) && Coherent(Settled(s, response)) && !Settled(s, response).inProgress
  {
    if s.current.Some? {
      CommandsAppend(s.fulfilled, Answer(s.current.value.command, response));
    }
    hide CommandsOf;
    var done := Settled(s, response);
    assert CommandsOf(done.fulfilled) + [] == CommandsOf(done.fulfilled);
  }

  lemma DispatchedKeeps(r: Routed, line: string)
    ensures Dispatched(r, line).builder.command == r.builder.command
    ensures r.builder.state != Idle ==> Dispatched(r, line).builder.state != Idle
    ensures
      var b := Dispatched(r, line).builder;
      b.state == WaitingPrompt || b.state == WaitingFinal ==>
        r.builder.state == WaitingPrompt || r.builder.state == WaitingFinal
  {
    hide CouldBeResponse;
  }

  lemma LineKeeps(s: Session, line: string)
    requires Inv(s)
    ensures Inv(LineReceived(s, line))
  {
    hide CommandsOf, Dispatched, ResponseOf;
    if s.inProgress && line != [] {
      var next := s.(routed := Dispatched(s.routed, line));
      DispatchedKeeps(s.routed, line);
      SettledKeeps(next, ResponseOf(next.routed.builder));
      ProcessedNextKeeps(Settled(next, ResponseOf(next.routed.builder)));
    }
  }

  lemma EnqueueKeeps(s: Session, text: string, timeout: nat)
    requires Inv(s)
    ensures Inv(Enqueued(s, text, timeout))
  {
    hide CommandsOf;
    var command := Command(|s.enqueued|, text, timeout);
    var before := CommandsOf(s.fulfilled) + InFlight(s);
    assert before + s.queue + [command] == before + (s.queue + [command]);
  }

  lemma StepKeeps(s: Session, e: Event)
    requires Inv(s)
    ensures Inv(Step(s, e))
  {
    hide CommandsOf, StartsWith, LineReceived, Enqueued;
    match e {
      case Enqueue(text, timeout) => EnqueueKeeps(s, text, timeout);
      case Post(i) =>
      case RunPosted(i) =>
        if i < |s.posted| {
          var rest := s.(posted := Without(s.posted, i));
          match s.posted[i] {
            case FromCaller(timeout) => ProcessedNextKeeps(rest.(pendingTimeout := timeout));
            case AfterError => ProcessedNextKeeps(rest);
          }
        }
      case Line(line) => LineKeeps(s, line);
      case Timeout(aborted) =>
        SettledKeeps(HandlerRun(s), TIMEOUT);
        ProcessedNextKeeps(Settled(HandlerRun(s), TIMEOUT));
      case Expire =>
      case TransportError(error) => SettledKeeps(s, AtResponse(false, "TRANSPORT_ERROR", "", [error]));
    }
  }

  /** The invariants survive every interleaving of events. */
  lemma {:induction false} RunKeeps(s: Session, events: seq<Event>)
    requires Inv(s)
    ensures Inv(After(s, events))
    decreases |events|
  {
    hide Step, Inv;
    if events != [] {
      StepKeeps(s, events[0]);
      RunKeeps(Step(s, events[0]), events[1..]);
    }
  }

  lemma InitialInv()
    ensures Inv(INITIAL)
  {
    assert CommandsOf(INITIAL.fulfilled) == [];
  }

  lemma AlwaysInv(events: seq<Event>)
    ensures Inv(After(INITIAL, events))
  {
    hide *;
    InitialInv();
    RunKeeps(INITIAL, events);
  }

  /** After any run, the promises set so far are the first ones created, each set once and in order; the
      next one is in flight, if any, and the others are queued. */
  lemma EachPromiseOnceInOrder(events: seq<Event>)
    ensures
      var s := After(INITIAL, events);
      var n := |s.fulfilled|;
      && n + |InFlight(s)| + |s.queue| == |s.enqueued|
      && (forall k :: 0 <= k < n ==> s.fulfilled[k].command == s.enqueued[k] && s.enqueued[k].promise == k)
      && (s.inProgress <==> s.current.Some?)
      && (s.inProgress ==> s.current.value.command == s.enqueued[n] && s.enqueued[n].promise == n)
      && s.queue == s.enqueued[n + |InFlight(s)|..]
  {
    AlwaysInv(events);
    hide After;
    var s := After(INITIAL, events);
    var n := |s.fulfilled|;
    var head := CommandsOf(s.fulfilled) + InFlight(s);
    assert head + s.queue == s.enqueued;
    forall k | 0 <= k < n
      ensures s.fulfilled[k].command == s.enqueued[k]
    {
      assert (head + s.queue)[k] == CommandsOf(s.fulfilled)[k];
    }
    if s.inProgress {
      assert (head + s.queue)[n] == head[n] == InFlight(s)[0];
    }
  }

  lemma StepOnlyAnswers(s: Session, e: Event)
    ensures s.fulfilled <= Step(s, e).fulfilled
  {
    hide Dispatched, ResponseOf, Started;
  }

  /** What was promised is never taken back or set again: later steps only add answers. */
  lemma {:induction false} AnswersStand(s: Session, events: seq<Event>)
    ensures s.fulfilled <= After(s, events).fulfilled
    decreases |events|
  {
    hide Step;
    if events != [] {
      StepOnlyAnswers(s, events[0]);
      AnswersStand(Step(s, events[0]), events[1..]);
    }
  }

  // ---------------------------------------------------------------- the prompt

  /** A line read while the prompt is awaited disarms the timer, unless it is the prompt itself. */
  lemma PromptDisarmsExactly(s: Session, line: string)
    requires Inv(s) && s.routed.builder.state == WaitingPrompt && line != []
    ensures
      var next := LineReceived(s, line);
      && next.current.Some? && next.current.value.command == s.current.value.command
      && (next.current.value.timerArmed <==> line == ">" && s.current.value.timerArmed)
  {
    hide Fifo;
  }

  function LineEvents(lines: seq<string>): seq<Event> { seq(|lines|, i requires 0 <= i < |lines| => Line(lines[i])) }

  lemma FirstLine(s: Session, lines: seq<string>)
    requires lines != []
    ensures After(s, LineEvents(lines)) == After(LineReceived(s, lines[0]), LineEvents(lines[1..]))
  {
    hide LineReceived;
    assert LineEvents(lines)[1..] == LineEvents(lines[1..]);
  }

  predicate AllEmpty(lines: seq<string>) { forall i :: 0 <= i < |lines| ==> lines[i] == [] }

  lemma NoPromptStep(s: Session, line: string)
    requires Inv(s) && s.routed.builder.state == WaitingPrompt && line != ">"
    ensures
      var next := LineReceived(s, line);
      && next.routed.builder.state == WaitingPrompt && next.fulfilled == s.fulfilled && next.queue == s.queue
      && next.current.Some? && next.current.value.command == s.current.value.command
      && (next.current.value.timerArmed <==> line == [] && s.current.value.timerArmed)
  {
    hide Fifo;
  }

  /** Until the prompt comes, a message command stays in flight whatever else the modem says, and with
      its timer cancelled if the modem says anything. */
  lemma {:induction false} NoPromptNoAnswer(s: Session, lines: seq<string>)
    requires Inv(s) && s.routed.builder.state == WaitingPrompt && ">" !in lines
    ensures
      var end := After(s, LineEvents(lines));
      && end.routed.builder.state == WaitingPrompt && end.fulfilled == s.fulfilled && end.queue == s.queue
      && end.current.Some? && end.current.value.command == s.current.value.command
      && (end.current.value.timerArmed <==> AllEmpty(lines) && s.current.value.timerArmed)
    decreases |lines|
  {
    if lines != [] {
      assert lines[0] in lines;
      FirstLine(s, lines);
      LineKeeps(s, lines[0]);
      NoPromptStep(s, lines[0]);
      hide LineReceived, LineEvents, After;
      NoPromptNoAnswer(LineReceived(s, lines[0]), lines[1..]);
      assert AllEmpty(lines) <==> lines[0] == [] && AllEmpty(lines[1..]) by {
        if AllEmpty(lines[1..]) && lines[0] == [] {
          forall i | 0 <= i < |lines| ensures lines[i] == [] { if i > 0 { assert lines[1..][i - 1] == []; } }
        }
      }
    }
  }

  // ---------------------------------------------------------------- the session object

  class CommandQueue {
    var queue: seq<Command>
    var created: seq<Command>

    constructor ()
      ensures queue == [] && created == []
    {
      queue, created := [], [];
    }

    method Enqueue(text: string, timeout: nat)
      modifies this
      ensures created == old(created) + [Command(|old(created)|, text, timeout)]
      ensures queue == old(queue) + [Command(|old(created)|, text, timeout)]
    {
      var command := Command(|created|, text, timeout);
      created := created + [command];
      queue := queue + [command];
    }

    method Dequeue() returns (command: Option<Command>)
      modifies this
      ensures created == old(created)
      ensures old(queue) == [] ==> command == None && queue == []
      ensures old(queue) != [] ==> command == Some(old(queue)[0]) && queue == old(queue)[1..]
    {
      if queue == [] {
        return None;
      }
      command := Some(queue[0]);
      queue := queue[1..];
    }
  }

  class AtSession {
    const responseBuilder: ResponseBuilder
    const urcDispatcher: UrcDispatcher
    const dispatcher: Dispatcher
    const commandQueue: CommandQueue
    var currentCommand: Option<Current>
    var commandInProgress: bool
    var pendingTimeout: nat
    var unposted: seq<nat>
    var posted: seq<WakeUp>
    var expired: nat
    var fulfilled: seq<Answer>
    var written: seq<string>

    ghost predicate Wired()
      reads this
    {
      dispatcher.responseBuilder == responseBuilder && dispatcher.urcDispatcher == urcDispatcher
    }

    ghost function Parts(): set<object> { {responseBuilder, urcDispatcher, commandQueue} }

    /** The state machine's state that the fields stand for. */
    ghost function State(): Session
      reads this, Parts()
    {
      Session(commandQueue.queue, currentCommand, commandInProgress,
              Routed(responseBuilder.Fields(), urcDispatcher.lines), pendingTimeout, unposted, posted, expired,
              commandQueue.created, fulfilled, written)
    }

    constructor ()
      ensures Wired() && fresh(Parts()) && State() == INITIAL
      ensures forall p :: p in urcDispatcher.prefixes <==> p == "+CMTI"
    {
      var builder := new ResponseBuilder();
      var urcs := new UrcDispatcher();
      responseBuilder := builder;
      urcDispatcher := urcs;
      dispatcher := new Dispatcher(builder, urcs);
      commandQueue := new CommandQueue();
      currentCommand, commandInProgress, pendingTimeout := None, false, DEFAULT_TIMEOUT;
      unposted, posted, expired, fulfilled, written := [], [], 0, [], [];
      new;
      urcDispatcher.RegisterHandler("+CMTI");
    }

    /** On a caller's thread: creates the promise. */
    method SendCommand(cmd: string, timeout: nat := DEFAULT_TIMEOUT)
      requires Wired()
      modifies this, Parts()
      ensures Wired() && State() == Step(old(State()), Enqueue(cmd, timeout))
    {
      commandQueue.Enqueue(cmd, timeout);
      unposted := unposted + [timeout];
    }

    /** On a caller's thread: posts the handler that wakes the session. */
    method PostWakeUp(caller: nat)
      requires Wired() && caller < |unposted|
      modifies this
      ensures Wired() && State() == Step(old(State()), Post(caller))
    {
      posted := posted + [FromCaller(unposted[caller])];
      unposted := unposted[..caller] + unposted[caller + 1..];
    }

    method RunWakeUp(position: nat)
      requires Wired() && position < |posted|
      modifies this, Parts()
      ensures Wired() && State() == Step(old(State()), RunPosted(position))
    {
      hide Started;
      var handler := posted[position];
      posted := posted[..position] + posted[position + 1..];
      match handler {
        case FromCaller(timeout) => pendingTimeout := timeout;
        case AfterError =>
      }
      ProcessNextCommand();
    }

    method ProcessNextCommand()
      requires Wired()
      modifies this, Parts()
      ensures Wired() && State() == ProcessedNext(old(State()))
    {
      hide Started;
      if commandInProgress {
        return;
      }
      if commandQueue.queue == [] {
        return;
      }
      var queued := commandQueue.Dequeue();
      currentCommand := Some(Current(queued.value, pendingTimeout, true));
      responseBuilder.StartCommand(queued.value.text);
      commandInProgress := true;
      written := written + [queued.value.text + "\r"];
    }

    /** Sets the promise in flight, if any, and resets the session. */
    method Settle(response: AtResponse)
      requires Wired()
      modifies this, Parts()
      ensures Wired() && State() == Settled(old(State()), response)
    {
      if currentCommand.Some? {
        fulfilled := fulfilled + [Answer(currentCommand.value.command, response)];
      }
      commandInProgress := false;
      currentCommand := None;
      responseBuilder.Reset();
    }

    method OnLineReceived(line: string)
      requires Wired()
      modifies this, Parts()
      ensures Wired() && State() == Step(old(State()), Line(line))
    {
      hide Dispatched, ResponseOf, Started;
      if line == [] {
        return;
      }
      if !commandInProgress {
        var handled := urcDispatcher.Dispatch(line);
        return;
      }
      var used := dispatcher.Dispatch(line);
      if responseBuilder.state == Complete {
        var response := responseBuilder.GetResponse();
        Settle(response);
        ProcessNextCommand();
      } else if responseBuilder.state == WaitingPrompt {
        if currentCommand.Some? {
          currentCommand := Some(currentCommand.value.(timerArmed := false));
        }
      }
    }

    /** The timer's expiry: its handler is queued, and cancelling the timer has no effect any more. */
    method ExpireTimer()
      requires Wired()
      modifies this
      ensures Wired() && State() == Step(old(State()), Expire)
    {
      if currentCommand.Some? && currentCommand.value.timerArmed {
        currentCommand := Some(currentCommand.value.(timerArmed := false));
        expired := expired + 1;
      }
    }

    method OnTimeout(aborted: bool)
      requires Wired()
      modifies this, Parts()
      ensures Wired() && State() == Step(old(State()), Timeout(aborted))
    {
      hide Started;
      if aborted {
        return;
      }
      expired := if expired > 0 then expired - 1 else 0;
      Settle(AtResponse(false, "TIMEOUT", "", []));
      ProcessNextCommand();
    }

    method OnTransportError(error: string)
      requires Wired()
      modifies this, Parts()
      ensures Wired() && State() == Step(old(State()), TransportError(error))
    {
      hide Started;
      if commandInProgress && currentCommand.Some? {
        Settle(AtResponse(false, "TRANSPORT_ERROR", "", [error]));
        posted := posted + [AfterError];
      }
    }
  }
}
