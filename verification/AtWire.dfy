/** What the AT session says: to the modem, and to its callers. */
module AtWire {
  import opened Sequences
  import opened AtResponse
  import opened AtSession
  import opened AtRuns
  import opened AtNames

  // ---------------------------------------------------------------- commands as they were asked for

  /** The commands that a run asks for, in order: what is asked, and within which time. */
  function Requests(events: seq<Event>): seq<(string, nat)> {
    if events == [] then []
    else (if events[0].Enqueue? then [(events[0].text, events[0].timeout)] else []) + Requests(events[1..])
  }

  /** The promises are those of the requests, in order. */
  predicate Holds(commands: seq<Command>, requests: seq<(string, nat)>) {
    |commands| == |requests|
    && forall i :: 0 <= i < |commands| ==> commands[i].text == requests[i].0 && commands[i].timeout == requests[i].1
  }

  lemma StepEnqueues(s: Session, e: Event)
    ensures e.Enqueue? ==> Step(s, e).enqueued == s.enqueued + [Command(|s.enqueued|, e.text, e.timeout)]
    ensures !e.Enqueue? ==> Step(s, e).enqueued == s.enqueued
  {
    hide Dispatched, ResponseOf, Started;
  }

  lemma {:induction false} RunHolds(s: Session, before: seq<(string, nat)>, events: seq<Event>)
    requires Holds(s.enqueued, before)
    ensures Holds(After(s, events).enqueued, before + Requests(events))
    decreases |events|
  {
    if events == [] {
      assert before + [] == before;
    } else {
      var e := events[0];
      var now := if e.Enqueue? then [(e.text, e.timeout)] else [];
      StepEnqueues(s, e);
      hide Step;
      assert Holds(Step(s, e).enqueued, before + now);
      RunHolds(Step(s, e), before + now, events[1..]);
      Regroup(before, now, Requests(events[1..]));
    }
  }

  // ---------------------------------------------------------------- what the modem is sent

  /** Of the promises created, those set and the one in flight have been sent, each once and in order. */
  predicate Sent(s: Session) {
    && |s.written| == |s.fulfilled| + |InFlight(s)| <= |s.enqueued|
    && forall k :: 0 <= k < |s.written| ==> s.written[k] == s.enqueued[k].text + "\r"
  }

  lemma ProcessedNextSends(s: Session)
    requires Fifo(s) && Coherent(s) && Sent(s)
    ensures Sent(ProcessedNext(s))
  {
    if !s.inProgress && s.queue != [] {
      var head := CommandsOf(s.fulfilled) + [];
      assert s.enqueued == head + s.queue;
      assert s.enqueued[|head|] == s.queue[0];
    }
    hide CommandsOf, Started;
  }

  lemma SettledSends(s: Session, response: AtResponse)
    requires Sent(s)
    ensures Sent(Settled(s, response))
  {
  }

  lemma LineSends(s: Session, line: string)
    requires Inv(s) && Sent(s)
    ensures Sent(LineReceived(s, line))
  {
    hide CommandsOf, Dispatched, ResponseOf, ProcessedNext, Settled;
    if s.inProgress && line != [] {
      var next := s.(routed := Dispatched(s.routed, line));
      assert Sent(next);
      SettledSends(next, ResponseOf(next.routed.builder));
      SettledKeeps(next, ResponseOf(next.routed.builder));
      ProcessedNextSends(Settled(next, ResponseOf(next.routed.builder)));
    }
  }

  lemma StepSends(s: Session, e: Event)
    requires Inv(s) && Sent(s)
    ensures Sent(Step(s, e))
  {
    hide CommandsOf, LineReceived, ProcessedNext, Settled;
    match e {
      case RunPosted(i) =>
        if i < |s.posted| {
          var rest := s.(posted := Without(s.posted, i));
          ProcessedNextSends(rest);
          if s.posted[i].FromCaller? { ProcessedNextSends(rest.(pendingTimeout := s.posted[i].timeout)); }
        }
      case Line(line) => LineSends(s, line);
      case Timeout(aborted) =>
        SettledSends(HandlerRun(s), TIMEOUT);
        SettledKeeps(HandlerRun(s), TIMEOUT);
        ProcessedNextSends(Settled(HandlerRun(s), TIMEOUT));
      case TransportError(error) => SettledSends(s, AtResponse(false, "TRANSPORT_ERROR", "", [error]));
      case _ =>
    }
  }

  lemma {:induction false} RunSends(s: Session, events: seq<Event>)
    requires Inv(s) && Sent(s)
    ensures Sent(After(s, events))
    decreases |events|
  {
    hide Step, Inv, Sent;
    if events != [] {
      StepKeeps(s, events[0]);
      StepSends(s, events[0]);
      RunSends(Step(s, events[0]), events[1..]);
    }
  }

  /** After every run, the modem has been sent the commands asked for, from the first one up to the one in
      flight, each once, in order and ended by a carriage return, and nothing else; and each answer is
      kept with the command it was sent for. */
  lemma SentInOrder(events: seq<Event>)
    ensures
      var s, asked := After(INITIAL, events), Requests(events);
      && |s.written| == |s.fulfilled| + |InFlight(s)| <= |asked|
      && (forall k :: 0 <= k < |s.written| ==> s.written[k] == asked[k].0 + "\r")
      && (forall k :: 0 <= k < |s.fulfilled| ==> s.fulfilled[k].command.text == asked[k].0)
  {
    InitialInv();
    RunSends(INITIAL, events);
    RunHolds(INITIAL, [], events);
    EachPromiseOnceInOrder(events);
    hide After, Requests, Inv;
    assert [] + Requests(events) == Requests(events);
  }

  // ---------------------------------------------------------------- what callers are told

  predicate Pending(b: Builder) { b.state != Complete ==> forall i :: 0 <= i < |b.lines| ==> !Ends(b.lines[i]) }

  lemma AddedPending(b: Builder, line: string)
    requires Pending(b)
    ensures Pending(Added(b, line))
  {
  }

  lemma {:induction false} RunPending(r: Routed, lines: seq<string>)
    requires Pending(r.builder)
    ensures Pending(Run(r, lines).builder)
    decreases |lines|
  {
    if lines != [] && r.builder.state != Complete {
      AddedPending(r.builder, lines[0]);
      hide Pending, Added, GoesToBuilder;
      RunPending(Dispatched(r, lines[0]), lines[1..]);
    }
  }

  /** The line that completes a response says what the response is. */
  lemma CompletedBy(b: Builder, line: string)
    requires Pending(b) && b.state != Complete && Added(b, line).state == Complete
    ensures Ends(line)
    ensures ResponseOf(Added(b, line))
         == if line == "OK" then AtResponse(true, "OK", "", b.lines) else AtResponse(false, "ERROR", line, b.lines)
  {
    if line != "OK" {
      assert (b.lines + [line])[..|b.lines|] == b.lines;
    }
  }

  /** The data lines that a command has collected so far. */
  function Collected(text: string, lines: seq<string>): seq<string> { BuilderAfter(text, lines).lines }

  /** A run without the last line is not complete, if that line is what completes it. */
  lemma LastLineCompletes(text: string, lines: seq<string>, line: string)
    requires BuilderAfter(text, lines).state != Complete && BuilderAfter(text, lines + [line]).state == Complete
    ensures Ends(line)
    ensures ResponseOf(BuilderAfter(text, lines + [line]))
         == if line == "OK" then AtResponse(true, "OK", "", Collected(text, lines))
            else AtResponse(false, "ERROR", line, Collected(text, lines))
  {
    var start := Routed(Started(text), []);
    assert Pending(start.builder);
    RunPending(start, lines);
    RunSnoc(start, lines, line);
    CompletedBy(Run(start, lines).builder, line);
    hide Run, Pending, Added, ResponseOf, Started, Ends;
  }

  lemma NotYetComplete(s: Session, lines: seq<string>)
    requires Coherent(s) && Heard(s, lines) && s.inProgress
    ensures BuilderAfter(s.current.value.command.text, lines).state != Complete
  {
    hide BuilderAfter;
  }

  /** Every answer of every run, as its caller is told: it is a success exactly if the event is the line OK;
      another line that ends the command starts with ERROR and is told as the error; an error of the
      transport and a timeout are told as such. */
  lemma AnswerTold(events: seq<Event>, e: Event)
    ensures
      var s, next := After(INITIAL, events), After(INITIAL, events + [e]);
      next.fulfilled != s.fulfilled ==>
        && s.current.Some?
        && next.fulfilled == s.fulfilled + [Answer(s.current.value.command, Told(s.current.value.command.text, events, e))]
        && (e.Line? ==> e.line == "OK" || "ERROR" <= e.line)
        && (e.Line? || e.TransportError? || e == Timeout(false))
  {
    var s := After(INITIAL, events);
    EveryAnswer(events, e);
    AlwaysInv(events);
    AlwaysHeard(events);
    hide After, LinesSince, BuilderAfter, ResponseOf, Heard, Fifo, NoneStranded, Collected;
    if After(INITIAL, events + [e]).fulfilled != s.fulfilled && e.Line? {
      NotYetComplete(s, LinesSince(events));
      LastLineCompletes(s.current.value.command.text, LinesSince(events), e.line);
    }
  }

  /** What a caller is told when the event ends its command. */
  function Told(text: string, events: seq<Event>, e: Event): AtResponse {
    match e
    case Line(line) =>
      if line == "OK" then AtResponse(true, "OK", "", Collected(text, LinesSince(events)))
      else AtResponse(false, "ERROR", line, Collected(text, LinesSince(events)))
    case TransportError(error) => AtResponse(false, "TRANSPORT_ERROR", "", [error])
    case _ => AtResponse(false, "TIMEOUT", "", [])
  }

  /** Lines that leave an ordinary command incomplete include no final one. */
  lemma {:induction false} IncompleteNoneFinal(r: Routed, lines: seq<string>)
    requires Collecting(r) && Run(r, lines).builder.state != Complete
    ensures NoneFinal(lines)
    decreases |lines|
  {
    if lines != [] {
      hide Grown, Dispatched, IsFinal;
      if IsFinal(lines[0]) {
        FinalCompletes(r, lines);
      } else {
        GrownByOne(r, lines[0]);
        GrownCollects(r, [lines[0]]);
        IncompleteNoneFinal(Dispatched(r, lines[0]), lines[1..]);
      }
    }
  }

  lemma FinalCompletes(r: Routed, lines: seq<string>)
    requires Collecting(r) && lines != [] && IsFinal(lines[0])
    ensures Run(r, lines).builder.state == Complete
  {
    FinalGoesToBuilder(r.builder, lines[0]);
    hide GoesToBuilder;
  }

  /** What an ordinary command with a name has collected are the lines that do not belong to another. */
  lemma CollectedByName(name: string, tail: string, lines: seq<string>)
    requires name != "" && name[0] == '+' && IsNamed(name, tail) && '?' !in tail && !("+CMGS" <= name + tail)
    requires BuilderAfter("AT" + name + tail, lines).state != Complete
    ensures Collected("AT" + name + tail, lines) == Shared(name, lines, false)
  {
    var text := "AT" + name + tail;
    var start := Routed(Started(text), []);
    PlusName("AT", name, tail);
    OrdinaryByName(name, tail);
    hide Prefix, DataOf, UrcsOf, Shared, IsNamed, NoneFinal;
    SharedByName(text, lines);
    IncompleteNoneFinal(start, lines);
    RunBeforeFinal(start, lines, []);
    Regroup(lines, [], []);
    Regroup([], [], DataOf(text, lines));
  }

  /** In every run, an ordinary command with a name that starts with a plus sign is told those of the lines
      read since it was sent that do not start with another name and a plus sign, in order. */
  lemma DataTold(events: seq<Event>, line: string, name: string, tail: string)
    requires name != "" && name[0] == '+' && IsNamed(name, tail) && '?' !in tail && !("+CMGS" <= name + tail)
    requires After(INITIAL, events).current.Some? && After(INITIAL, events).current.value.command.text == "AT" + name + tail
    ensures
      var s, next := After(INITIAL, events), After(INITIAL, events + [Line(line)]);
      next.fulfilled != s.fulfilled ==>
        next.fulfilled == s.fulfilled + [Answer(s.current.value.command,
          if line == "OK" then AtResponse(true, "OK", "", Shared(name, LinesSince(events), false))
          else AtResponse(false, "ERROR", line, Shared(name, LinesSince(events), false)))]
  {
    AnswerTold(events, Line(line));
    AlwaysInv(events);
    AlwaysHeard(events);
    hide After, LinesSince, BuilderAfter, Collected, Shared, Heard, Fifo, NoneStranded, IsNamed;
    NotYetComplete(After(INITIAL, events), LinesSince(events));
    CollectedByName(name, tail, LinesSince(events));
  }

  // ---------------------------------------------------------------- what is not an answer

  /** The line that a step hands to the URC dispatcher, if any. */
  function Unsolicited(s: Session, e: Event): seq<string> {
    if !e.Line? || e.line == "" || (s.inProgress && GoesToBuilder(s.routed.builder, e.line)) then [] else [e.line]
  }

  lemma StepHandsOn(s: Session, e: Event)
    ensures Step(s, e).routed.urcs == s.routed.urcs + Unsolicited(s, e)
  {
    hide ResponseOf, Started, GoesToBuilder, Added;
    Regroup(s.routed.urcs, [], []);
  }

  /** In every run: nothing but a line is ever taken as unsolicited, and every line that is not empty is
      while no command is in flight. */
  lemma HandedOn(events: seq<Event>, e: Event)
    ensures
      var s, next := After(INITIAL, events), After(INITIAL, events + [e]);
      && (!e.Line? ==> next.routed.urcs == s.routed.urcs)
      && (e.Line? && s.current.None? ==> next.routed.urcs == s.routed.urcs + if e.line == "" then [] else [e.line])
  {
    LastOf(events, e);
    AlwaysInv(events);
    hide After, Fifo, NoneStranded, Step, GoesToBuilder;
    StepHandsOn(After(INITIAL, events), e);
    Regroup(After(INITIAL, events).routed.urcs, [], []);
  }

  /** In every run: while an ordinary command with a plus name waits for its answer, exactly the lines with
      a plus sign and another name are taken as unsolicited. */
  lemma HandedOnByName(events: seq<Event>, line: string, name: string, tail: string)
    requires name != "" && name[0] == '+' && IsNamed(name, tail) && '?' !in tail && !("+CMGS" <= name + tail)
    requires After(INITIAL, events).current.Some? && After(INITIAL, events).current.value.command.text == "AT" + name + tail
    ensures After(INITIAL, events + [Line(line)]).routed.urcs
         == After(INITIAL, events).routed.urcs + if Foreign(name, line) then [line] else []
  {
    var s := After(INITIAL, events);
    LastOf(events, Line(line));
    AlwaysInv(events);
    AlwaysHeard(events);
    hide After, LinesSince, Heard, Fifo, NoneStranded, Step, IsNamed, GoesToBuilder, Foreign;
    StepHandsOn(s, Line(line));
    StaysOrdinary(s, LinesSince(events), name, tail);
    ForeignByName(s.routed.builder, name, tail, line);
  }

  lemma {:induction false} RunKeepsWaiting(r: Routed, lines: seq<string>)
    requires r.builder.state == WaitingResponse || r.builder.state == Complete
    ensures Run(r, lines).builder.state == WaitingResponse || Run(r, lines).builder.state == Complete
    ensures Run(r, lines).builder.command == r.builder.command
    decreases |lines|
  {
    if lines != [] && r.builder.state != Complete {
      hide CouldBeResponse;
      RunKeepsWaiting(Dispatched(r, lines[0]), lines[1..]);
    }
  }

  lemma StaysOrdinary(s: Session, lines: seq<string>, name: string, tail: string)
    requires Coherent(s) && Heard(s, lines) && s.inProgress && s.current.value.command.text == "AT" + name + tail
    requires IsNamed(name, tail) && '?' !in tail && !("+CMGS" <= name + tail)
    ensures s.routed.builder.state == WaitingResponse && s.routed.builder.command == "AT" + name + tail
  {
    OrdinaryByName(name, tail);
    RunKeepsWaiting(Routed(Started("AT" + name + tail), []), lines);
    hide Run, IsNamed;
  }

  lemma ForeignByName(b: Builder, name: string, tail: string, line: string)
    requires b.state == WaitingResponse && b.command == "AT" + name + tail
    requires name != "" && name[0] == '+' && IsNamed(name, tail) && '?' !in tail && !("+CMGS" <= name + tail)
    ensures line != "" ==> (GoesToBuilder(b, line) <==> !Foreign(name, line))
    ensures line == "" ==> !Foreign(name, line)
  {
    PlusName("AT", name, tail);
    OrdinaryByName(name, tail);
    hide Prefix, IsNamed;
  }

  // ---------------------------------------------------------------- timeouts

  predicate AllIn(timeouts: seq<nat>, asked: seq<nat>) { forall i :: 0 <= i < |timeouts| ==> timeouts[i] in asked }

  /** Wherever a timeout may still come from, it is one that a caller has asked for. */
  predicate TimeoutsAsked(s: Session, asked: seq<nat>) {
    && (s.current.Some? ==> s.current.value.timeout in asked)
    && (s.current.Some? || s.expired > 0 || AfterError in s.posted ==> s.pendingTimeout in asked)
    && AllIn(s.unposted, asked)
    && (forall i :: 0 <= i < |s.posted| ==> s.posted[i].FromCaller? ==> s.posted[i].timeout in asked)
  }

  lemma NextTimeoutAsked(s: Session, asked: seq<nat>)
    requires TimeoutsAsked(s, asked) && s.pendingTimeout in asked
    ensures TimeoutsAsked(ProcessedNext(s), asked)
  {
    hide Started, AllIn;
  }

  lemma LineTimeoutAsked(s: Session, line: string, asked: seq<nat>)
    requires Coherent(s) && TimeoutsAsked(s, asked)
    ensures TimeoutsAsked(LineReceived(s, line), asked)
  {
    hide Dispatched, ResponseOf, ProcessedNext, AllIn;
    if s.inProgress && line != [] {
      var next := s.(routed := Dispatched(s.routed, line));
      NextTimeoutAsked(Settled(next, ResponseOf(next.routed.builder)), asked);
    }
  }

  lemma WithoutOne<T>(s: seq<T>, i: nat)
    requires i < |s|
    ensures forall x :: x in Without(s, i) ==> x in s
  {
  }

  lemma WokenTimeoutAsked(s: Session, i: nat, asked: seq<nat>)
    requires TimeoutsAsked(s, asked) && i < |s.posted|
    ensures TimeoutsAsked(Woken(s, i), asked)
  {
    WithoutOne(s.posted, i);
    var rest := s.(posted := Without(s.posted, i));
    assert s.posted[i] in s.posted;
    forall k | 0 <= k < |rest.posted| && rest.posted[k].FromCaller? ensures rest.posted[k].timeout in asked {
      assert rest.posted[k] in s.posted;
    }
    hide ProcessedNext, Without, AllIn;
    if s.posted[i].FromCaller? {
      NextTimeoutAsked(rest.(pendingTimeout := s.posted[i].timeout), asked);
    } else {
      NextTimeoutAsked(rest, asked);
    }
  }

  lemma StepTimeoutAsked(s: Session, e: Event, asked: seq<nat>)
    requires Inv(s) && TimeoutsAsked(s, asked) && Enabled(s, e)
    ensures TimeoutsAsked(Step(s, e), asked + if e.Enqueue? then [e.timeout] else [])
  {
    var more := asked + if e.Enqueue? then [e.timeout] else [];
    assert forall t :: t in asked ==> t in more;
    assert TimeoutsAsked(s, more);
    hide LineReceived, ProcessedNext, CommandsOf, Woken, NoneStranded, Fifo;
    match e {
      case Line(line) => LineTimeoutAsked(s, line, more);
      case RunPosted(i) => WokenTimeoutAsked(s, i, more);
      case Timeout(aborted) =>
        if !aborted { NextTimeoutAsked(Settled(HandlerRun(s), TIMEOUT), more); }
      case _ =>
    }
  }

  lemma {:induction false} RunTimeoutAsked(s: Session, events: seq<Event>, asked: seq<nat>)
    requires Inv(s) && TimeoutsAsked(s, asked) && Possible(s, events)
    ensures TimeoutsAsked(After(s, events), asked + Asked(events))
    decreases |events|
  {
    if events == [] {
      assert asked + [] == asked;
    } else {
      var e := events[0];
      var now := if e.Enqueue? then [e.timeout] else [];
      hide Step, Inv, TimeoutsAsked, Enabled;
      StepKeeps(s, e);
      StepTimeoutAsked(s, e, asked);
      RunTimeoutAsked(Step(s, e), events[1..], asked + now);
      Regroup(asked, now, Asked(events[1..]));
    }
  }

  /** In every possible run, a command in flight has a timeout that some caller asked for: the initial one of
      the session is never used. */
  lemma TimeoutWasAsked(events: seq<Event>)
    requires Possible(INITIAL, events)
    ensures
      var s := After(INITIAL, events);
      s.current.Some? ==> s.current.value.timeout in Asked(events)
  {
    InitialInv();
    assert TimeoutsAsked(INITIAL, []);
    RunTimeoutAsked(INITIAL, events, []);
    hide After, Asked, Possible, Inv;
    assert [] + Asked(events) == Asked(events);
  }
}
