/** What whole runs of the AT session do: who is served, with whose timeout, and with which answer. */
module AtRuns {
  import opened Wrappers
  import opened Sequences
  import opened AtResponse
  import opened AtSession

  lemma {:induction false} AfterAppend(s: Session, a: seq<Event>, b: seq<Event>)
    ensures After(s, a + b) == After(After(s, a), b)
    decreases |a|
  {
    if a == [] {
      assert a + b == b;
    } else {
      assert (a + b)[0] == a[0] && (a + b)[1..] == a[1..] + b;
      hide Step;
      AfterAppend(Step(s, a[0]), a[1..], b);
    }
  }

  lemma AfterOne(s: Session, e: Event)
    ensures After(s, [e]) == Step(s, e)
  {
    hide Step;
    assert [e][1..] == [];
  }

  // ---------------------------------------------------------------- possible runs

  predicate Armed(s: Session) { s.current.Some? && s.current.value.timerArmed }

  /** Whether an event can happen: only an armed timer expires, and only the handler of an expired timer
      reports a timeout. */
  predicate Enabled(s: Session, e: Event) {
    match e
    case Post(i) => i < |s.unposted|
    case RunPosted(i) => i < |s.posted|
    case Expire => Armed(s)
    case Timeout(aborted) => aborted || s.expired > 0
    case _ => true
  }

  predicate Possible(s: Session, events: seq<Event>)
    decreases |events|
  {
    events == [] || (Enabled(s, events[0]) && Possible(Step(s, events[0]), events[1..]))
  }

  // ---------------------------------------------------------------- progress

  /** The steps that the session takes by itself, without a caller, the modem or an error. */
  predicate IsInternal(e: Event) { e.Post? || e.RunPosted? || e.Expire? || (e.Timeout? && !e.aborted) }

  predicate Scheduled(s: Session, events: seq<Event>) {
    Possible(s, events) && forall i :: 0 <= i < |events| ==> IsInternal(events[i])
  }

  /** A command whose timer was cancelled is in flight, and no queued handler will end it. */
  predicate Blocked(s: Session) { s.current.Some? && !s.current.value.timerArmed && s.expired == 0 }

  /** Nothing happens any more unless a caller, the modem or an error acts. */
  predicate Quiet(s: Session) { s.unposted == [] && s.posted == [] && !Armed(s) && s.expired == 0 }

  /** Every promise is set. */
  predicate AllDone(s: Session) { CommandsOf(s.fulfilled) == s.enqueued }

  /** An upper bound on the steps that the session can take by itself. */
  function StepsLeft(s: Session): nat {
    2 * |s.unposted| + |s.posted| + 2 * |s.queue| + (if Armed(s) then 2 else 0) + s.expired
  }

  lemma InternalStep(s: Session, e: Event)
    requires Inv(s) && IsInternal(e) && Enabled(s, e)
    ensures StepsLeft(Step(s, e)) < StepsLeft(s)
    ensures Blocked(Step(s, e)) <==> Blocked(s)
  {
    hide Fifo, StartsWith, Started;
  }

  /** Only a command that sends a message can be blocked. */
  lemma BlockedIsMessage(s: Session)
    requires Inv(s) && Blocked(s)
    ensures StartsWith(s.current.value.command.text, "AT+CMGS") && !AllDone(s)
  {
    hide CommandsOf;
    var done := CommandsOf(s.fulfilled);
    assert |done + InFlight(s) + s.queue| == |s.enqueued|;
  }

  lemma QuietIsDone(s: Session)
    requires Inv(s) && Quiet(s)
    ensures AllDone(s) <==> !Blocked(s)
  {
    if Blocked(s) {
      BlockedIsMessage(s);
    } else {
      hide CommandsOf;
      var done := CommandsOf(s.fulfilled);
      assert done + [] + [] == done;
    }
  }

  /** Every schedule of the session's own steps ends, and when it can go on no longer, all promises are
      set unless a message command was blocked at the start. */
  lemma {:induction false} EveryScheduleEnds(s: Session, events: seq<Event>)
    requires Inv(s) && Scheduled(s, events)
    ensures |events| + StepsLeft(After(s, events)) <= StepsLeft(s)
    ensures Blocked(After(s, events)) <==> Blocked(s)
    ensures Quiet(After(s, events)) ==> (AllDone(After(s, events)) <==> !Blocked(s))
    decreases |events|
  {
    if events == [] {
      if Quiet(s) { QuietIsDone(s); }
    } else {
      var next := Step(s, events[0]);
      assert Enabled(s, events[0]) && Possible(next, events[1..]);
      hide Step, Inv, Enabled, Blocked, Quiet, AllDone, StepsLeft, IsInternal;
      InternalStep(s, events[0]);
      StepKeeps(s, events[0]);
      EveryScheduleEnds(next, events[1..]);
    }
  }

  /** A step that the session can take by itself, while there is any. */
  function NextInternal(s: Session): (e: Event)
    requires !Quiet(s)
    ensures IsInternal(e) && Enabled(s, e)
  {
    if s.unposted != [] then Post(0)
    else if s.posted != [] then RunPosted(0)
    else if Armed(s) then Expire
    else Timeout(false)
  }

  lemma {:induction false} ScheduleToQuiet(s: Session) returns (events: seq<Event>)
    requires Inv(s)
    ensures Scheduled(s, events) && Quiet(After(s, events))
    decreases StepsLeft(s)
  {
    if Quiet(s) {
      events := [];
    } else {
      var e := NextInternal(s);
      hide Step, Inv, Enabled, Quiet, StepsLeft, IsInternal;
      InternalStep(s, e);
      StepKeeps(s, e);
      var rest := ScheduleToQuiet(Step(s, e));
      events := [e] + rest;
      assert events[1..] == rest;
    }
  }

  /** From any state that keeps the invariants, so from every reachable one: the session can answer
      everything by its own steps if and only if no message command with a cancelled timer blocks it. */
  lemma DrainsExactly(s: Session)
    requires Inv(s)
    ensures (exists events :: Scheduled(s, events) && AllDone(After(s, events))) <==> !Blocked(s)
  {
    hide Scheduled, AllDone, Blocked, Inv, Quiet, After, StepsLeft;
    if Blocked(s) {
      forall events | Scheduled(s, events) ensures !AllDone(After(s, events)) {
        EveryScheduleEnds(s, events);
        ScheduleKeeps(s, events);
        BlockedIsMessage(After(s, events));
      }
    } else {
      var events := ScheduleToQuiet(s);
      EveryScheduleEnds(s, events);
    }
  }

  lemma ScheduleKeeps(s: Session, events: seq<Event>)
    requires Inv(s)
    ensures Inv(After(s, events))
  {
    RunKeeps(s, events);
    hide *;
  }

  /** Concretely: a message command whose prompt does not come, but another line does, is blocked. */
  lemma MessageGetsBlocked()
    ensures
      var events := [Enqueue("AT+CMGS=20", 1), Post(0), RunPosted(0), Line("BUSY")];
      Possible(INITIAL, events) && Blocked(After(INITIAL, events))
  {
    var events := [Enqueue("AT+CMGS=20", 1), Post(0), RunPosted(0), Line("BUSY")];
    var s1 := Step(INITIAL, events[0]);
    var s2 := Step(s1, events[1]);
    var s3 := Step(s2, events[2]);
    assert StartsWith("AT+CMGS=20", "AT+CMGS");
    assert s2.posted == [FromCaller(1)] && s2.queue == [Command(0, "AT+CMGS=20", 1)];
    assert s3.inProgress && s3.routed.builder.state == WaitingPrompt;
    assert "BUSY" != ">" && "BUSY" != [];
    var s4 := Step(s3, events[3]);
    assert events[1..][1..] == events[2..] && events[2..][1..] == events[3..] && events[3..][1..] == [];
    assert After(s3, events[3..]) == s4 && Possible(s3, events[3..]);
    assert After(s2, events[2..]) == s4 && Possible(s2, events[2..]);
    assert After(s1, events[1..]) == s4 && Possible(s1, events[1..]);
  }

  // ---------------------------------------------------------------- whose timeout

  /** The command in flight has the timeout that its caller asked for. */
  predicate OwnTimeout(s: Session) {
    s.current.Some? ==> s.current.value.timeout == s.current.value.command.timeout
  }

  /** The timeouts that the callers ask for, in the order of their commands. */
  function Asked(events: seq<Event>): seq<nat> {
    if events == [] then [] else (if events[0].Enqueue? then [events[0].timeout] else []) + Asked(events[1..])
  }

  predicate AllSame(asked: seq<nat>) { forall i, j :: 0 <= i < |asked| && 0 <= j < |asked| ==> asked[i] == asked[j] }

  predicate AllAre(asked: seq<nat>, t: nat) { forall i :: 0 <= i < |asked| ==> asked[i] == t }

  /** All callers so far asked for t, and no other timeout can be used. */
  predicate Uniform(s: Session, t: nat) {
    && AllAre(s.unposted, t)
    && (forall i :: 0 <= i < |s.posted| && s.posted[i].FromCaller? ==> s.posted[i].timeout == t)
    && (forall i :: 0 <= i < |s.queue| ==> s.queue[i].timeout == t)
    && (s.current.Some? ==> s.current.value.timeout == t && s.current.value.command.timeout == t)
    && (s.inProgress ==> s.current.Some?)
    && (s.pendingTimeout == t
        || (s.current.None? && s.expired == 0 && forall i :: 0 <= i < |s.posted| ==> s.posted[i].FromCaller?))
  }

  lemma UniformNext(s: Session, t: nat)
    requires Uniform(s, t) && s.pendingTimeout == t
    ensures Uniform(ProcessedNext(s), t)
  {
    hide Started;
  }

  lemma UniformLine(s: Session, line: string, t: nat)
    requires Uniform(s, t)
    ensures Uniform(LineReceived(s, line), t)
  {
    hide Dispatched, ResponseOf, Started;
    if s.inProgress && line != [] {
      var next := s.(routed := Dispatched(s.routed, line));
      UniformNext(Settled(next, ResponseOf(next.routed.builder)), t);
    }
  }

  lemma UniformStep(s: Session, e: Event, t: nat)
    requires Uniform(s, t) && Enabled(s, e) && (e.Enqueue? ==> e.timeout == t)
    ensures Uniform(Step(s, e), t)
  {
    hide ProcessedNext, LineReceived;
    match e {
      case Line(line) => UniformLine(s, line, t);
      case Timeout(aborted) =>
        if !aborted { UniformNext(Settled(HandlerRun(s), TIMEOUT), t); }
      case RunPosted(i) =>
        var rest := s.(posted := Without(s.posted, i));
        match s.posted[i] {
          case FromCaller(timeout) => UniformNext(rest.(pendingTimeout := timeout), t);
          case AfterError => UniformNext(rest, t);
        }
      case _ =>
    }
  }

  lemma AskedFirst(events: seq<Event>, t: nat)
    requires events != [] && AllAre(Asked(events), t)
    ensures (events[0].Enqueue? ==> events[0].timeout == t) && AllAre(Asked(events[1..]), t)
  {
    var asked, rest := Asked(events), Asked(events[1..]);
    if events[0].Enqueue? {
      assert asked[0] == events[0].timeout;
      assert forall i :: 0 <= i < |rest| ==> rest[i] == asked[i + 1];
    } else {
      assert asked == rest;
    }
  }

  lemma {:induction false} UniformRun(s: Session, events: seq<Event>, t: nat)
    requires Uniform(s, t) && Possible(s, events) && AllAre(Asked(events), t)
    ensures Uniform(After(s, events), t)
    decreases |events|
  {
    if events != [] {
      assert Enabled(s, events[0]) && Possible(Step(s, events[0]), events[1..]);
      hide Uniform, Step, Asked, AllAre, Enabled;
      AskedFirst(events, t);
      UniformStep(s, events[0], t);
      UniformRun(Step(s, events[0]), events[1..], t);
    }
  }

  // ---------------------------------------------------------------- mixed timeouts

  /** The callers enqueue one after the other. */
  function Enqueues(asked: seq<nat>): seq<Event> {
    if asked == [] then [] else [Enqueue("AT", asked[0])] + Enqueues(asked[1..])
  }

  lemma EnqueuesCons(asked: seq<nat>, more: seq<Event>)
    ensures asked == [] ==> Enqueues(asked) == [] && Enqueues(asked) + more == more
    ensures asked != [] ==>
              var events := Enqueues(asked) + more;
              && Enqueues(asked) == [Enqueue("AT", asked[0])] + Enqueues(asked[1..])
              && events != [] && events[0] == Enqueue("AT", asked[0]) && events[1..] == Enqueues(asked[1..]) + more
  {
    if asked != [] {
      var rest := Enqueues(asked[1..]);
      var first := [Enqueue("AT", asked[0])];
      assert Enqueues(asked) == first + rest;
      hide Enqueues;
      Regroup(first, rest, more);
      assert (first + (rest + more))[1..] == rest + more;
    }
  }

  lemma AskedCons(events: seq<Event>, t: nat)
    requires events != [] && events[0] == Enqueue("AT", t)
    ensures Asked(events) == [t] + Asked(events[1..])
  {
  }

  lemma {:induction false} AskedOfEnqueues(asked: seq<nat>, more: seq<Event>)
    requires Asked(more) == []
    ensures Asked(Enqueues(asked) + more) == asked
  {
    hide *;
    EnqueuesCons(asked, more);
    if asked != [] {
      AskedCons(Enqueues(asked) + more, asked[0]);
      AskedOfEnqueues(asked[1..], more);
      assert [asked[0]] + asked[1..] == asked;
    }
  }

  /** Nobody has posted yet, so nothing is started. */
  predicate Waiting(s: Session, asked: seq<nat>) {
    && s.unposted == asked && |s.queue| == |asked| && s.posted == [] && !s.inProgress
    && forall i :: 0 <= i < |asked| ==> s.queue[i].timeout == asked[i]
  }

  lemma OneMoreWaits(s: Session, asked: seq<nat>, t: nat)
    requires Waiting(s, asked)
    ensures Waiting(Step(s, Enqueue("AT", t)), asked + [t])
  {
  }

  lemma FirstEvent(s: Session, e: Event, rest: seq<Event>)
    ensures After(s, [e] + rest) == After(Step(s, e), rest)
    ensures Enabled(s, e) && Possible(Step(s, e), rest) ==> Possible(s, [e] + rest)
  {
    hide Step, Enabled;
    assert ([e] + rest)[1..] == rest;
  }

  lemma {:induction false} EnqueuesWait(s: Session, before: seq<nat>, asked: seq<nat>, more: seq<Event>)
    requires Waiting(s, before)
    ensures Waiting(After(s, Enqueues(asked)), before + asked)
    ensures Possible(After(s, Enqueues(asked)), more) ==> Possible(s, Enqueues(asked) + more)
    decreases |asked|
  {
    EnqueuesCons(asked, more);
    if asked == [] {
      Regroup(before, [], []);
      hide Waiting;
    } else {
      var e := Enqueue("AT", asked[0]);
      assert Enabled(s, e);
      hide *;
      OneMoreWaits(s, before, asked[0]);
      EnqueuesWait(Step(s, e), before + [asked[0]], asked[1..], more);
      FirstEvent(s, e, Enqueues(asked[1..]));
      FirstEvent(s, e, Enqueues(asked[1..]) + more);
      Regroup([e], Enqueues(asked[1..]), more);
      assert before + [asked[0]] + asked[1..] == before + asked;
    }
  }

  lemma WokenByOther(s: Session, asked: seq<nat>, j: nat)
    requires Waiting(s, asked) && j < |asked| && asked[j] != asked[0]
    ensures
      var events := [Post(j), RunPosted(0)];
      Possible(s, events) && !OwnTimeout(After(s, events))
  {
    hide Started;
    var posted := Step(s, Post(j));
    assert posted.posted[0] == FromCaller(asked[j]);
    assert [Post(j), RunPosted(0)][1..] == [RunPosted(0)] && [RunPosted(0)][1..] == [];
    assert Possible(posted, [RunPosted(0)]);
    AfterOne(posted, RunPosted(0));
    var woken := Step(posted, RunPosted(0));
    assert woken.current == Some(Current(s.queue[0], asked[j], true));
  }

  /** Two callers that ask for different timeouts: a run in which the first command gets the other one. */
  lemma MixedTimeouts(asked: seq<nat>) returns (events: seq<Event>)
    requires !AllSame(asked)
    ensures Possible(INITIAL, events) && Asked(events) == asked && !OwnTimeout(After(INITIAL, events))
  {
    var j := OtherThanFirst(asked);
    var more := [Post(j), RunPosted(0)];
    NoneAsks(Post(j), RunPosted(0));
    hide *;
    events := Enqueues(asked) + more;
    NothingWaits();
    EnqueuesWait(INITIAL, [], asked, more);
    Regroup([], [], asked);
    WokenByOther(After(INITIAL, Enqueues(asked)), asked, j);
    AskedOfEnqueues(asked, more);
    AfterAppend(INITIAL, Enqueues(asked), more);
  }

  lemma NoneAsks(d: Event, e: Event)
    requires !d.Enqueue? && !e.Enqueue?
    ensures Asked([d, e]) == []
  {
    assert [d, e][1..] == [e] && [e][1..] == [];
    assert Asked([e]) == Asked([]) == [];
  }

  lemma NothingWaits()
    ensures Waiting(INITIAL, [])
  {
  }

  lemma OtherThanFirst(asked: seq<nat>) returns (j: nat)
    requires !AllSame(asked)
    ensures j < |asked| && asked[j] != asked[0]
  {
    var i, k :| 0 <= i < |asked| && 0 <= k < |asked| && asked[i] != asked[k];
    j := if asked[i] != asked[0] then i else k;
  }

  /** Every possible run gives every command the timeout that its own caller asked for if and only if all
      callers ask for the same one. */
  lemma OwnTimeoutExactly(asked: seq<nat>)
    ensures (forall events :: Possible(INITIAL, events) && Asked(events) == asked ==> OwnTimeout(After(INITIAL, events)))
       <==> AllSame(asked)
  {
    if AllSame(asked) {
      var t := if asked == [] then 0 else asked[0];
      assert AllAre(asked, t);
      assert Uniform(INITIAL, t);
      hide Possible, Asked, After, AllAre;
      forall events | Possible(INITIAL, events) && Asked(events) == asked ensures OwnTimeout(After(INITIAL, events)) {
        UniformRun(INITIAL, events, t);
      }
    } else {
      var events := MixedTimeouts(asked);
      hide *;
    }
  }

  /** Concretely: the second caller posts its wake-up first, and the first command is started with the
      second caller's timeout. */
  lemma OtherCallersTimeout()
    ensures
      var events := [Enqueue("A", 1), Enqueue("B", 2), Post(1), RunPosted(0)];
      Possible(INITIAL, events) && After(INITIAL, events).current == Some(Current(Command(0, "A", 1), 2, true))
  {
    var events := [Enqueue("A", 1), Enqueue("B", 2), Post(1), RunPosted(0)];
    var s1 := Step(INITIAL, events[0]);
    var s2 := Step(s1, events[1]);
    var s3 := Step(s2, events[2]);
    var s4 := Step(s3, events[3]);
    assert s2.queue == [Command(0, "A", 1), Command(1, "B", 2)] && s2.unposted == [1, 2];
    assert s3.posted == [FromCaller(2)];
    assert events[1..][1..] == events[2..] && events[2..][1..] == events[3..] && events[3..][1..] == [];
    assert After(s3, events[3..]) == s4 && Possible(s3, events[3..]);
    assert After(s2, events[2..]) == s4 && Possible(s2, events[2..]);
    assert After(s1, events[1..]) == s4 && Possible(s1, events[1..]);
  }

  // ---------------------------------------------------------------- answers

  function LinesIn(events: seq<Event>): seq<string> {
    if events == [] then [] else (if events[0].Line? then [events[0].line] else []) + LinesIn(events[1..])
  }

  /** Neither a timeout nor an error: the command in flight stays there unless a line ends it. */
  predicate NoneSettles(events: seq<Event>) {
    forall i :: 0 <= i < |events| ==> !events[i].TransportError? && (events[i].Timeout? ==> events[i].aborted)
  }

  predicate SameInFlight(s: Session, next: Session) {
    s.current.Some? && next.current.Some? && next.current.value.command == s.current.value.command
  }

  /** The same command is still in flight, and has seen these lines. */
  predicate Goes(s: Session, next: Session, lines: seq<string>) {
    && next.inProgress && SameInFlight(s, next)
    && next.routed == Grown(s.routed, lines) && next.fulfilled == s.fulfilled
  }

  lemma LineInFlight(s: Session, line: string)
    requires s.inProgress && s.current.Some? && Collecting(s.routed) && !IsFinal(line)
    ensures Goes(s, LineReceived(s, line), [line])
  {
    GrownByOne(s.routed, line);
    hide DataOf, UrcsOf;
    assert line == [] ==> Dispatched(s.routed, line) == s.routed;
  }

  lemma EventInFlight(s: Session, e: Event)
    requires s.inProgress && s.current.Some? && Collecting(s.routed)
    requires !e.TransportError? && (e.Timeout? ==> e.aborted) && (e.Line? ==> !IsFinal(e.line))
    ensures Goes(s, Step(s, e), if e.Line? then [e.line] else [])
  {
    if e.Line? {
      LineInFlight(s, e.line);
    } else {
      GrownByNone(s.routed);
    }
    hide Grown, LineReceived, IsFinal;
  }

  lemma LinesFirst(events: seq<Event>)
    requires events != []
    ensures LinesIn(events) == (if events[0].Line? then [events[0].line] else []) + LinesIn(events[1..])
    ensures events[0].Line? ==> LinesIn(events) != [] && LinesIn(events)[0] == events[0].line && LinesIn(events)[1..] == LinesIn(events[1..])
    ensures !events[0].Line? ==> LinesIn(events) == LinesIn(events[1..])
  {
    var rest := LinesIn(events[1..]);
    if events[0].Line? {
      assert ([events[0].line] + rest)[1..] == rest;
    } else {
      assert [] + rest == rest;
    }
  }

  lemma NoneFinalFirst(lines: seq<string>)
    requires lines != [] && NoneFinal(lines)
    ensures !IsFinal(lines[0]) && NoneFinal(lines[1..])
  {
    hide IsFinal;
  }

  lemma {:induction false} EventsInFlight(s: Session, events: seq<Event>)
    requires s.inProgress && s.current.Some? && Collecting(s.routed) && NoneSettles(events) && NoneFinal(LinesIn(events))
    ensures Goes(s, After(s, events), LinesIn(events))
    decreases |events|
  {
    if events == [] {
      GrownByNone(s.routed);
    } else {
      var next := Step(s, events[0]);
      LinesFirst(events);
      hide Step, Grown, LinesIn, IsFinal;
      if events[0].Line? {
        NoneFinalFirst(LinesIn(events));
        GrownTwice(s.routed, LinesIn(events));
      } else {
        GrownByNone(s.routed);
      }
      EventInFlight(s, events[0]);
      assert Collecting(next.routed) by { GrownCollects(s.routed, if events[0].Line? then [events[0].line] else []); }
      EventsInFlight(next, events[1..]);
    }
  }

  lemma GrownCollects(r: Routed, lines: seq<string>)
    requires Collecting(r)
    ensures Collecting(Grown(r, lines))
  {
    hide DataOf, UrcsOf;
  }

  /** A command without `?` that sends no message is answered by its first final line: with success
      exactly for OK, with the data lines read since it was sent, whatever unsolicited lines, enqueued
      commands, wake-ups and aborted or expiring timers come between. */
  lemma AnswerInFlight(s: Session, events: seq<Event>, final: string)
    requires Inv(s) && s.inProgress && Ordinary(s.current.value.command.text)
    requires s.routed.builder == Started(s.current.value.command.text)
    requires NoneSettles(events) && NoneFinal(LinesIn(events)) && IsFinal(final)
    ensures
      var command := s.current.value.command;
      var end := After(s, events + [Line(final)]);
      && end.fulfilled == s.fulfilled + [Answer(command,
           if final == "OK" then AtResponse(true, "OK", "", DataOf(command.text, LinesIn(events)))
           else AtResponse(false, "ERROR", final, DataOf(command.text, LinesIn(events))))]
      && end.routed.urcs == s.routed.urcs + UrcsOf(command.text, LinesIn(events))
  {
    hide *;
    HasCurrent(s);
    var text, lines := s.current.value.command.text, LinesIn(events);
    var last := After(s, events);
    StartedCollects(s.routed, text, lines);
    EventsInFlight(s, events);
    GoesOn(s, last, lines);
    AfterAppend(s, events, [Line(final)]);
    AfterOne(last, Line(final));
    CollectedNotFinal(text, lines);
    FinalSettles(last, final);
  }

  lemma HasCurrent(s: Session)
    requires Inv(s)
    ensures s.inProgress <==> s.current.Some?
  {
  }

  lemma StartedCollects(r: Routed, text: string, lines: seq<string>)
    requires r.builder == Started(text) && Ordinary(text)
    ensures Collecting(r) && Collecting(Grown(r, lines))
    ensures Grown(r, lines).builder.lines == DataOf(text, lines) && Grown(r, lines).urcs == r.urcs + UrcsOf(text, lines)
  {
    hide DataOf, UrcsOf, Prefix;
    Regroup([], [], DataOf(text, lines));
  }

  lemma CollectedNotFinal(text: string, lines: seq<string>)
    requires NoneFinal(lines)
    ensures NoneFinal(DataOf(text, lines))
  {
    DataIsNotFinal(text, lines);
    hide IsFinal, DataOf;
  }

  lemma GoesOn(s: Session, next: Session, lines: seq<string>)
    requires Goes(s, next, lines) && s.current.Some?
    ensures next.inProgress && next.current.Some? && next.current.value.command == s.current.value.command
    ensures next.routed == Grown(s.routed, lines) && next.fulfilled == s.fulfilled
  {
    hide Grown;
  }

  lemma FinalSettles(s: Session, final: string)
    requires s.inProgress && s.current.Some? && Collecting(s.routed) && IsFinal(final) && NoneFinal(s.routed.builder.lines)
    ensures
      var end := Step(s, Line(final));
      && end.fulfilled == s.fulfilled + [Answer(s.current.value.command,
           if final == "OK" then AtResponse(true, "OK", "", s.routed.builder.lines)
           else AtResponse(false, "ERROR", final, s.routed.builder.lines))]
      && end.routed.urcs == s.routed.urcs
  {
    FinalGoesToBuilder(s.routed.builder, final);
    ResponseOfFinal(s.routed.builder, final);
    hide Added, ResponseOf, GoesToBuilder, Prefix;
    assert Dispatched(s.routed, final) == s.routed.(builder := Added(s.routed.builder, final));
  }

  // ---------------------------------------------------------------- every answer of every run

  /** The lines read since the command in flight was started. */
  function LinesSince(events: seq<Event>): seq<string> {
    if events == [] then []
    else
      var before, e := events[..|events| - 1], events[|events| - 1];
      var s := After(INITIAL, before);
      if !SameInFlight(s, Step(s, e)) then []
      else if e.Line? then LinesSince(before) + [e.line]
      else LinesSince(before)
  }

  /** The builder of a command that has seen some lines. */
  function BuilderAfter(text: string, lines: seq<string>): Builder { Run(Routed(Started(text), []), lines).builder }

  lemma DispatchedBuilder(r: Routed, q: Routed, line: string)
    requires r.builder == q.builder
    ensures Dispatched(r, line).builder == Dispatched(q, line).builder
  {
    hide CouldBeResponse, Added;
  }

  /** One more line for a response that is not complete. */
  lemma {:induction false} RunSnoc(r: Routed, lines: seq<string>, line: string)
    requires Run(r, lines).builder.state != Complete
    ensures Run(r, lines + [line]) == Dispatched(Run(r, lines), line)
    decreases |lines|
  {
    hide Dispatched;
    if lines == [] {
      assert lines + [line] == [line] && [line][1..] == [];
    } else {
      assert (lines + [line])[0] == lines[0] && (lines + [line])[1..] == lines[1..] + [line];
      RunSnoc(Dispatched(r, lines[0]), lines[1..], line);
    }
  }

  /** The builder has seen exactly the lines read since the command in flight was started. */
  ghost predicate Heard(s: Session, lines: seq<string>) {
    s.inProgress ==> s.current.Some? && s.routed.builder == BuilderAfter(s.current.value.command.text, lines)
  }

  lemma FreshHeard(text: string)
    ensures BuilderAfter(text, []) == Started(text)
  {
  }

  lemma StartedHeard(s: Session)
    requires !s.inProgress
    ensures Heard(ProcessedNext(s), [])
  {
    if s.queue != [] { FreshHeard(s.queue[0].text); }
    hide BuilderAfter, Started;
  }

  lemma LineHeard(s: Session, line: string, lines: seq<string>)
    requires Coherent(s) && Heard(s, lines) && s.inProgress
    ensures
      var b := BuilderAfter(s.current.value.command.text, lines + [line]);
      && Dispatched(s.routed, line).builder == b
      && LineReceived(s, line)
         == if line == [] then s
            else if b.state == Complete then ProcessedNext(Settled(s.(routed := Dispatched(s.routed, line)), ResponseOf(b)))
            else if b.state == WaitingPrompt then TimerCancelled(s.(routed := Dispatched(s.routed, line)))
            else s.(routed := Dispatched(s.routed, line))
  {
    var text := s.current.value.command.text;
    var r := Run(Routed(Started(text), []), lines);
    RunSnoc(Routed(Started(text), []), lines, line);
    DispatchedBuilder(s.routed, r, line);
    hide Dispatched, Run, ResponseOf, ProcessedNext, Settled, TimerCancelled;
  }

  lemma LastOf(events: seq<Event>, e: Event)
    ensures (events + [e])[..|events|] == events && (events + [e])[|events|] == e
    ensures After(INITIAL, events + [e]) == Step(After(INITIAL, events), e)
  {
    AfterAppend(INITIAL, events, [e]);
    AfterOne(After(INITIAL, events), e);
    hide After, Step;
  }

  /** The queue never holds the command in flight, so a new one is told from it. */
  lemma NextIsOther(s: Session)
    requires Fifo(s) && s.current.Some? && s.queue != []
    ensures s.queue[0] != s.current.value.command
  {
    var head := CommandsOf(s.fulfilled) + [s.current.value.command];
    assert s.enqueued == head + s.queue;
    assert s.enqueued[|head| - 1] == head[|head| - 1] == s.current.value.command;
    assert s.enqueued[|head|] == s.queue[0];
    hide CommandsOf;
  }

  /** How a step changes the command in flight: it is answered, or it goes on with one line more or with
      none, or a new one is started. */
  lemma StepHeard(s: Session, e: Event, lines: seq<string>)
    requires Inv(s) && Heard(s, lines)
    ensures
      var next := Step(s, e);
      Heard(next, if !SameInFlight(s, next) then []
                  else if e.Line? then lines + [e.line]
                  else lines)
  {
    hide BuilderAfter, Started, Dispatched, ResponseOf, CommandsOf;
    if s.current.Some? && s.queue != [] { NextIsOther(s); }
    match e {
      case Line(line) =>
        if s.inProgress {
          LineHeard(s, line, lines);
          var b := BuilderAfter(s.current.value.command.text, lines + [line]);
          StartedHeard(Settled(s.(routed := Dispatched(s.routed, line)), ResponseOf(b)));
          if line == [] { EmptyHeard(s, lines); }
        }
      case Timeout(aborted) => StartedHeard(Settled(HandlerRun(s), TIMEOUT));
      case RunPosted(i) =>
        if i < |s.posted| && !s.inProgress {
          var rest := s.(posted := Without(s.posted, i));
          StartedHeard(rest);
          if s.posted[i].FromCaller? { StartedHeard(rest.(pendingTimeout := s.posted[i].timeout)); }
        }
      case _ =>
    }
  }

  lemma EmptyHeard(s: Session, lines: seq<string>)
    requires Coherent(s) && Heard(s, lines) && s.inProgress
    ensures Heard(s, lines + [[]])
  {
    LineHeard(s, [], lines);
    hide BuilderAfter, CouldBeResponse;
  }

  lemma {:induction false} AlwaysHeard(events: seq<Event>)
    ensures Heard(After(INITIAL, events), LinesSince(events))
  {
    if events != [] {
      var before, e := events[..|events| - 1], events[|events| - 1];
      assert events == before + [e];
      LastOf(before, e);
      AlwaysInv(before);
      AlwaysHeard(before);
      hide Heard, Step, Inv, After;
      StepHeard(After(INITIAL, before), e, LinesSince(before));
    }
  }

  /** Every answer of every run: it goes to the command in flight, and is a timeout, a transport error, or
      the response that its builder makes of the lines read since it was started. */
  lemma EveryAnswer(events: seq<Event>, e: Event)
    ensures
      var s, next := After(INITIAL, events), After(INITIAL, events + [e]);
      next.fulfilled == s.fulfilled
      || (s.current.Some? && next.fulfilled == s.fulfilled + [Answer(s.current.value.command,
           match e
           case TransportError(error) => AtResponse(false, "TRANSPORT_ERROR", "", [error])
           case Line(line) => ResponseOf(BuilderAfter(s.current.value.command.text, LinesSince(events) + [line]))
           case _ => TIMEOUT)]
          && (e.Line? ==> BuilderAfter(s.current.value.command.text, LinesSince(events) + [e.line]).state == Complete)
          && (e.Line? || e.TransportError? || e == Timeout(false)))
  {
    var s := After(INITIAL, events);
    LastOf(events, e);
    AlwaysInv(events);
    AlwaysHeard(events);
    hide After, LinesSince, BuilderAfter, Started, Dispatched, ResponseOf, Fifo;
    if e.Line? && s.inProgress {
      LineHeard(s, e.line, LinesSince(events));
    }
  }
}
