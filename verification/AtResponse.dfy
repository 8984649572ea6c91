/** Building the response of an AT command line by line, and telling response lines from unsolicited ones. */
module AtResponse {
  import opened Wrappers
  import opened Sequences

  datatype State = Idle | WaitingResponse | WaitingPrompt | WaitingFinal | Complete

  datatype AtResponse = AtResponse(success: bool, status: string, errorCode: string, data: seq<string>)

  /** The fields of a response builder. */
  datatype Builder = Builder(state: State, command: string, lines: seq<string>)

  const IDLE := Builder(Idle, "", [])

  predicate StartsWith(s: string, prefix: string) { prefix <= s }

  predicate IsError(line: string) { StartsWith(line, "ERROR") }

  /** A line that ends a response. */
  predicate IsFinal(line: string) { line == "OK" || IsError(line) }

  // ---------------------------------------------------------------- the response builder

  function Started(command: string): Builder {
    Builder(if StartsWith(command, "AT+CMGS") then WaitingPrompt else WaitingResponse, command, [])
  }

  function Added(b: Builder, line: string): Builder {
    match b.state
    case WaitingPrompt => if line == ">" then b.(state := WaitingFinal) else b
    case WaitingResponse | WaitingFinal =>
      if line == "OK" then b.(state := Complete)
      else if IsError(line) then b.(state := Complete, lines := b.lines + [line])
      else if line != [] then b.(lines := b.lines + [line])
      else b
    case _ => b
  }

  function ResponseOf(b: Builder): AtResponse {
    if b.state != Complete then AtResponse(false, "INCOMPLETE", "", [])
    else if b.lines == [] then AtResponse(true, "OK", "", [])
    else
      var n := |b.lines| - 1;
      if b.lines[n] == "OK" then AtResponse(true, "OK", "", b.lines[..n])
      else if IsError(b.lines[n]) then AtResponse(false, "ERROR", b.lines[n], b.lines[..n])
      else AtResponse(true, "OK", "", b.lines)
  }

  class ResponseBuilder {
    var state: State
    var command: string
    var lines: seq<string>

    function Fields(): Builder
      reads this
    {
      Builder(state, command, lines)
    }

    constructor ()
      ensures Fields() == IDLE
    {
      state, command, lines := Idle, "", [];
    }

    method StartCommand(cmd: string)
      modifies this
      ensures Fields() == Started(cmd)
    {
      command := cmd;
      lines := [];
      state := WaitingResponse;
      if StartsWith(cmd, "AT+CMGS") {
        state := WaitingPrompt;
      }
    }

    method AddLine(line: string) returns (complete: bool)
      modifies this
      ensures Fields() == Added(old(Fields()), line)
      ensures complete <==> old(state) != Complete && state == Complete
    {
      match state
      case WaitingPrompt =>
        if line == ">" {
          state := WaitingFinal;
        }
        return false;
      case WaitingResponse | WaitingFinal =>
        if line == "OK" {
          state := Complete;
          return true;
        }
        if StartsWith(line, "ERROR") {
          lines := lines + [line];
          state := Complete;
          return true;
        }
        if StartsWith(line, ">") {
          lines := lines + [line];
          return false;
        }
        if line != [] {
          lines := lines + [line];
        }
        return false;
      case _ =>
        return false;
    }

    method GetResponse() returns (r: AtResponse)
      ensures r == ResponseOf(Fields())
    {
      r := AtResponse(false, "", "", []);
      if state == Complete {
        if lines != [] {
          var n := |lines| - 1;
          var last := lines[n];
          if last == "OK" {
            r := AtResponse(true, "OK", "", lines[..n]);
          } else if StartsWith(last, "ERROR") {
            r := AtResponse(false, "ERROR", last, lines[..n]);
          } else {
            r := AtResponse(true, "OK", "", lines);
          }
        } else {
          r := AtResponse(true, "OK", "", []);
        }
      } else {
        r := AtResponse(false, "INCOMPLETE", "", []);
      }
    }

    method Reset()
      modifies this
      ensures Fields() == IDLE
    {
      state := Idle;
      command := "";
      lines := [];
    }
  }

  // ---------------------------------------------------------------- the dispatcher

  /** The first position of a character, or None. */
  function IndexOf(s: string, c: char): (r: Option<nat>)
    ensures r.Some? <==> c in s
    ensures r.Some? ==> r.value < |s| && s[r.value] == c && c !in s[..r.value]
  {
    if s == [] then None
    else if s[0] == c then Some(0)
    else match IndexOf(s[1..], c) case None => None case Some(i) => Some(i + 1)
  }

  /** The first position of "AT", or None. */
  function IndexOfAt(s: string): (r: Option<nat>)
    ensures r.Some? ==> r.value + 2 <= |s| && s[r.value..r.value + 2] == "AT"
  {
    if |s| < 2 then None
    else if s[0] == 'A' && s[1] == 'T' then Some(0)
    else match IndexOfAt(s[1..]) case None => None case Some(i) => Some(i + 1)
  }

  predicate EndsPrefix(c: char) { c == '=' || c == ' ' || c == '?' || c == '*' }

  /** The text up to the first of "= ?*". */
  function UpToEnd(s: string): (r: string)
    ensures r <= s && forall i :: 0 <= i < |r| ==> !EndsPrefix(r[i])
    ensures r == s || EndsPrefix(s[|r|])
  {
    if s == [] || EndsPrefix(s[0]) then [] else [s[0]] + UpToEnd(s[1..])
  }

  /** The part of a command that its own result lines start with: from the first +, else behind the
      first AT. */
  function Prefix(command: string): (prefix: string) {
    match IndexOf(command, '+')
    case Some(start) => UpToEnd(command[start..])
    case None =>
      match IndexOfAt(command)
      case Some(at) => UpToEnd(command[at + 2..])
      case None => ""
  }

  predicate CouldBeResponse(b: Builder, line: string) {
    if line == [] || b.state == Idle then false
    else if '?' in b.command then StartsWith(line, Prefix(b.command))
    else line[0] == '+' ==> StartsWith(line, Prefix(b.command))
  }

  predicate GoesToBuilder(b: Builder, line: string) {
    b.state == WaitingPrompt || b.state == WaitingFinal || CouldBeResponse(b, line)
  }

  /** The builder, and the lines handed to the URC dispatcher so far. */
  datatype Routed = Routed(builder: Builder, urcs: seq<string>)

  function Dispatched(r: Routed, line: string): Routed {
    if line == [] then r
    else if GoesToBuilder(r.builder, line) then r.(builder := Added(r.builder, line))
    else r.(urcs := r.urcs + [line])
  }

  // ---------------------------------------------------------------- handlers of unsolicited lines

  /** One call of a handler: the prefix it is registered for, and the arguments. */
  datatype Call = Call(prefix: string, args: string)

  /** The prefix whose handler a line goes to: the first in the table that the line starts with. */
  function Handler(prefixes: seq<string>, line: string): Option<string> {
    if prefixes == [] then None
    else if StartsWith(line, prefixes[0]) then Some(prefixes[0])
    else Handler(prefixes[1..], line)
  }

  /** What stands behind the first colon and the character after it, if anything. */
  function ArgsOf(line: string): string {
    match IndexOf(line, ':')
    case Some(colon) => if colon + 2 < |line| then line[colon + 2..] else ""
    case None => ""
  }

  function CallsFor(prefixes: seq<string>, line: string): seq<Call> {
    match Handler(prefixes, line)
    case Some(prefix) => [Call(prefix, ArgsOf(line))]
    case None => []
  }

  /** A line is handled exactly if it starts with a registered prefix, and by the handler of that one if
      it starts with no other, however the table is ordered. */
  lemma {:induction false} HandledExactly(prefixes: seq<string>, line: string)
    ensures Handler(prefixes, line).Some? <==> exists p :: p in prefixes && StartsWith(line, p)
    ensures forall p :: (p in prefixes && StartsWith(line, p) && forall q :: q in prefixes && StartsWith(line, q) ==> q == p)
                        ==> Handler(prefixes, line) == Some(p)
  {
    if prefixes != [] {
      hide StartsWith;
      assert prefixes == [prefixes[0]] + prefixes[1..];
      HandledExactly(prefixes[1..], line);
      if Handler(prefixes, line).Some? && !StartsWith(line, prefixes[0]) {
        var p :| p in prefixes[1..] && StartsWith(line, p);
        assert p in prefixes;
      }
    }
  }

  lemma {:induction false} FirstColon(name: string, rest: string)
    requires ':' !in name
    ensures IndexOf(name + ":" + rest, ':') == Some(|name|)
  {
    var line := name + ":" + rest;
    if name == [] {
      assert line[0] == ':';
    } else {
      assert line[0] == name[0] && line[1..] == name[1..] + ":" + rest;
      FirstColon(name[1..], rest);
    }
  }

  /** A notification with arguments hands them over unchanged. */
  lemma ArgsComeThrough(name: string, args: string)
    requires ':' !in name
    ensures ArgsOf(name + ": " + args) == args
  {
    var line := name + ": " + args;
    assert line == name + ":" + (" " + args);
    FirstColon(name, " " + args);
    assert |line| == |name| + 2 + |args|;
    hide IndexOf;
    assert line[|name| + 2..] == args;
  }

  /** The lines that were not taken as responses, and the calls of handlers they led to, in order. The
      table is in the order in which it is searched, whatever that is. */
  class UrcDispatcher {
    var lines: seq<string>
    var prefixes: seq<string>
    var calls: seq<Call>

    constructor ()
      ensures lines == [] && prefixes == [] && calls == []
    {
      lines, prefixes, calls := [], [], [];
    }

    method RegisterHandler(prefix: string)
      modifies `prefixes
      ensures forall p :: p in prefixes <==> p in old(prefixes) || p == prefix
    {
      if prefix !in prefixes {
        prefixes := prefixes + [prefix];
      }
    }

    method Dispatch(line: string) returns (handled: bool)
      modifies `lines, `calls
      ensures lines == if line == [] then old(lines) else old(lines) + [line]
      ensures calls == if line == [] then old(calls) else old(calls) + CallsFor(prefixes, line)
      ensures handled <==> line != [] && Handler(prefixes, line).Some?
    {
      hide StartsWith, ArgsOf;
      if line == [] {
        return false;
      }
      lines := lines + [line];
      var i := 0;
      assert prefixes[0..] == prefixes;
      while i < |prefixes|
        invariant 0 <= i <= |prefixes| && Handler(prefixes[i..], line) == Handler(prefixes, line)
      {
        assert prefixes[i..][1..] == prefixes[i + 1..];
        if StartsWith(line, prefixes[i]) {
          calls := calls + [Call(prefixes[i], ArgsOf(line))];
          return true;
        }
        i := i + 1;
      }
      assert calls + [] == calls;
      return false;
    }
  }

  class Dispatcher {
    const responseBuilder: ResponseBuilder
    const urcDispatcher: UrcDispatcher

    function Fields(): Routed
      reads responseBuilder, urcDispatcher
    {
      Routed(responseBuilder.Fields(), urcDispatcher.lines)
    }

    constructor (responseBuilder: ResponseBuilder, urcDispatcher: UrcDispatcher)
      ensures this.responseBuilder == responseBuilder && this.urcDispatcher == urcDispatcher
    {
      this.responseBuilder := responseBuilder;
      this.urcDispatcher := urcDispatcher;
    }

    /** Whether the line was of any use: taken as a response, or handled. */
    method Dispatch(line: string) returns (used: bool)
      modifies responseBuilder, urcDispatcher`lines, urcDispatcher`calls
      ensures Fields() == Dispatched(old(Fields()), line)
      ensures
        var response := line != [] && GoesToBuilder(old(responseBuilder.Fields()), line);
        && urcDispatcher.calls
           == old(urcDispatcher.calls) + (if line == [] || response then [] else CallsFor(urcDispatcher.prefixes, line))
        && (used <==> line != [] && (response || Handler(urcDispatcher.prefixes, line).Some?))
    {
      hide Prefix, Added, Handler, CallsFor;
      if line == [] {
        return false;
      }
      if responseBuilder.state == WaitingPrompt || responseBuilder.state == WaitingFinal {
        var complete := responseBuilder.AddLine(line);
        return true;
      }
      var response := CouldBeResponseToCurrent(line);
      if response {
        var complete := responseBuilder.AddLine(line);
        return true;
      }
      used := urcDispatcher.Dispatch(line);
    }

    method CouldBeResponseToCurrent(line: string) returns (response: bool)
      ensures response == CouldBeResponse(responseBuilder.Fields(), line)
    {
      hide Prefix;
      if line == [] || responseBuilder.state == Idle {
        return false;
      }
      var currentCmd := responseBuilder.command;
      if '?' in currentCmd {
        return StartsWith(line, Prefix(currentCmd));
      }
      if line[0] == '+' {
        return StartsWith(line, Prefix(currentCmd));
      }
      return true;
    }
  }

  // ---------------------------------------------------------------- routing over whole line sequences

  /** Dispatching lines one after the other, until a response is complete. */
  function Run(r: Routed, lines: seq<string>): Routed
    decreases |lines|
  {
    if lines == [] || r.builder.state == Complete then r
    else Run(Dispatched(r, lines[0]), lines[1..])
  }

  /** A line that a command without `?` takes as its own. */
  predicate IsData(command: string, line: string) {
    line != [] && (line[0] != '+' || StartsWith(line, Prefix(command)))
  }

  function DataOf(command: string, lines: seq<string>): (data: seq<string>) {
    if lines == [] then []
    else (if IsData(command, lines[0]) then [lines[0]] else []) + DataOf(command, lines[1..])
  }

  function UrcsOf(command: string, lines: seq<string>): seq<string> {
    if lines == [] then []
    else (if lines[0] == [] || IsData(command, lines[0]) then [] else [lines[0]]) + UrcsOf(command, lines[1..])
  }

  predicate NoneFinal(lines: seq<string>) { forall i :: 0 <= i < |lines| ==> !IsFinal(lines[i]) }

  /** A command whose response is neither preceded by a prompt nor marked by a query prefix. */
  predicate Ordinary(command: string) { '?' !in command && !StartsWith(command, "AT+CMGS") }

  lemma FinalGoesToBuilder(b: Builder, line: string)
    requires b.state == WaitingResponse && '?' !in b.command && IsFinal(line)
    ensures GoesToBuilder(b, line)
  {
    assert line[0] == 'O' || line[0] == 'E';
  }

  /** The state after lines none of which is final. */
  function Grown(r: Routed, lines: seq<string>): Routed {
    var c := r.builder.command;
    Routed(r.builder.(lines := r.builder.lines + DataOf(c, lines)), r.urcs + UrcsOf(c, lines))
  }

  predicate Collecting(r: Routed) { r.builder.state == WaitingResponse && '?' !in r.builder.command }

  lemma GrownByNone(r: Routed)
    ensures Grown(r, []) == r
  {
    Regroup(r.builder.lines, [], []);
    Regroup(r.urcs, [], []);
  }

  lemma GrownByOne(r: Routed, line: string)
    requires Collecting(r) && !IsFinal(line)
    ensures Dispatched(r, line) == Grown(r, [line])
  {
    hide Prefix;
    var c := r.builder.command;
    assert DataOf(c, []) == [] && UrcsOf(c, []) == [] && [line][1..] == [];
    assert DataOf(c, [line]) == (if IsData(c, line) then [line] else []);
    assert UrcsOf(c, [line]) == (if line == [] || IsData(c, line) then [] else [line]);
    hide DataOf, UrcsOf;
    Regroup(r.urcs, [], []);
    Regroup(r.builder.lines, [], []);
  }

  lemma GrownTwice(r: Routed, lines: seq<string>)
    requires lines != []
    ensures Grown(Grown(r, [lines[0]]), lines[1..]) == Grown(r, lines)
    ensures Collecting(r) ==> Collecting(Grown(r, [lines[0]]))
  {
    var c := r.builder.command;
    FirstSplit(c, lines);
    assert lines[..1] == [lines[0]];
    hide DataOf, UrcsOf;
    Regroup(r.builder.lines, DataOf(c, [lines[0]]), DataOf(c, lines[1..]));
    Regroup(r.urcs, UrcsOf(c, [lines[0]]), UrcsOf(c, lines[1..]));
  }

  lemma FirstSplit(command: string, lines: seq<string>)
    requires lines != []
    ensures DataOf(command, lines) == DataOf(command, lines[..1]) + DataOf(command, lines[1..])
    ensures UrcsOf(command, lines) == UrcsOf(command, lines[..1]) + UrcsOf(command, lines[1..])
  {
    hide IsData;
    assert lines[..1][1..] == [];
  }

  lemma RunFirst(r: Routed, lines: seq<string>, more: seq<string>)
    requires r.builder.state != Complete
    ensures lines == [] ==> lines + more == more
    ensures lines != [] ==> Run(r, lines + more) == Run(Dispatched(r, lines[0]), lines[1..] + more)
  {
    hide Dispatched;
    if lines != [] {
      assert (lines + more)[1..] == lines[1..] + more && (lines + more)[0] == lines[0];
    } else {
      assert lines + more == more;
    }
  }

  /** Before a final line, data lines pile up in the builder and all other non-empty lines reach the
      URC dispatcher in order. */
  lemma {:induction false} RunBeforeFinal(r: Routed, lines: seq<string>, more: seq<string>)
    requires Collecting(r) && NoneFinal(lines)
    ensures Run(r, lines + more) == Run(Grown(r, lines), more)
    decreases |lines|
  {
    hide Run, Grown, Dispatched, IsFinal;
    RunFirst(r, lines, more);
    if lines == [] {
      GrownByNone(r);
    } else {
      GrownByOne(r, lines[0]);
      GrownTwice(r, lines);
      RunBeforeFinal(Grown(r, [lines[0]]), lines[1..], more);
    }
  }

  lemma {:induction false} DataIsNotFinal(command: string, lines: seq<string>)
    requires NoneFinal(lines)
    ensures forall i :: 0 <= i < |DataOf(command, lines)| ==> !IsFinal(DataOf(command, lines)[i])
  {
    if lines != [] {
      hide IsFinal, IsData;
      DataIsNotFinal(command, lines[1..]);
    }
  }

  lemma ResponseOfFinal(b: Builder, final: string)
    requires b.state == WaitingResponse && IsFinal(final)
    requires forall i :: 0 <= i < |b.lines| ==> !IsFinal(b.lines[i])
    ensures Added(b, final).state == Complete
    ensures ResponseOf(Added(b, final))
         == if final == "OK" then AtResponse(true, "OK", "", b.lines) else AtResponse(false, "ERROR", final, b.lines)
  {
    if final == "OK" {
      if b.lines != [] { assert !IsFinal(b.lines[|b.lines| - 1]); }
    } else {
      assert (b.lines + [final])[..|b.lines|] == b.lines;
    }
  }

  /** Routing: any line sequence completes an ordinary command at its first OK or ERROR line; the
      response succeeds exactly for OK, holds the earlier data lines, and every other non-empty earlier
      line has reached the URC dispatcher in order. */
  lemma Routing(command: string, before: seq<string>, final: string, after: seq<string>)
    requires Ordinary(command) && NoneFinal(before) && IsFinal(final)
    ensures
      var end := Run(Routed(Started(command), []), before + [final] + after);
      && end.builder.state == Complete && end.urcs == UrcsOf(command, before)
      && ResponseOf(end.builder)
         == if final == "OK" then AtResponse(true, "OK", "", DataOf(command, before))
            else AtResponse(false, "ERROR", final, DataOf(command, before))
  {
    var start := Routed(Started(command), []);
    var r := Grown(start, before);
    Regroup([], [], DataOf(command, before));
    Regroup([], [], UrcsOf(command, before));
    Regroup(before, [final], after);
    RunBeforeFinal(start, before, [final] + after);
    FinalGoesToBuilder(r.builder, final);
    DataIsNotFinal(command, before);
    hide Prefix, IsData, DataOf, UrcsOf, NoneFinal;
    ResponseOfFinal(r.builder, final);
    assert ([final] + after)[0] == final;
    hide Run, Added;
    RunLast(r, [final] + after);
  }

  lemma RunLast(r: Routed, lines: seq<string>)
    requires r.builder.state == WaitingResponse && lines != [] && lines[0] != []
    requires GoesToBuilder(r.builder, lines[0]) && Added(r.builder, lines[0]).state == Complete
    ensures Run(r, lines) == r.(builder := Added(r.builder, lines[0]))
  {
    hide Added, GoesToBuilder;
    assert Run(r, lines) == Run(Dispatched(r, lines[0]), lines[1..]);
  }

  /** Without a final line, an ordinary command stays incomplete. */
  lemma NoFinalNoResponse(command: string, lines: seq<string>)
    requires Ordinary(command) && NoneFinal(lines)
    ensures Run(Routed(Started(command), []), lines)
         == Routed(Builder(WaitingResponse, command, DataOf(command, lines)), UrcsOf(command, lines))
  {
    Regroup([], [], DataOf(command, lines));
    Regroup([], [], UrcsOf(command, lines));
    assert lines + [] == lines;
    RunBeforeFinal(Routed(Started(command), []), lines, []);
  }

  /** Extended errors such as +CMS ERROR and +CME ERROR are not final lines: no sequence of lines that
      start with a plus completes any command. */
  lemma {:induction false} PlusLinesNeverComplete(r: Routed, lines: seq<string>)
    requires r.builder.state != Complete && forall i :: 0 <= i < |lines| ==> lines[i] != [] && lines[i][0] == '+'
    ensures Run(r, lines).builder.state != Complete
    decreases |lines|
  {
    hide CouldBeResponse;
    if lines != [] {
      assert !IsFinal(lines[0]);
      assert Dispatched(r, lines[0]).builder.state != Complete;
      PlusLinesNeverComplete(Dispatched(r, lines[0]), lines[1..]);
    }
  }

  // ---------------------------------------------------------------- queries and prompts

  /** A final line that a query would take as its own. */
  predicate EndsQuery(command: string, line: string) { IsFinal(line) && StartsWith(line, Prefix(command)) }

  lemma QueryStep(r: Routed, line: string)
    requires r.builder.state == WaitingResponse && '?' in r.builder.command
    ensures
      var r' := Dispatched(r, line);
      && r'.builder.command == r.builder.command
      && r'.builder.state == if EndsQuery(r.builder.command, line) then Complete else WaitingResponse
  {
    hide Prefix;
  }

  /** A query is completed exactly by a final line that starts with its prefix. */
  lemma {:induction false} QueryCompletesExactly(r: Routed, lines: seq<string>)
    requires r.builder.state == WaitingResponse && '?' in r.builder.command
    ensures Run(r, lines).builder.state == Complete <==> exists i :: 0 <= i < |lines| && EndsQuery(r.builder.command, lines[i])
    decreases |lines|
  {
    hide Dispatched, EndsQuery;
    if lines != [] {
      QueryStep(r, lines[0]);
      var r' := Dispatched(r, lines[0]);
      assert Run(r, lines) == Run(r', lines[1..]);
      if r'.builder.state != Complete {
        QueryCompletesExactly(r', lines[1..]);
        assert forall i :: 0 < i < |lines| ==> lines[i] == lines[1..][i - 1];
        if exists i :: 0 <= i < |lines[1..]| && EndsQuery(r.builder.command, lines[1..][i]) {
          var i :| 0 <= i < |lines[1..]| && EndsQuery(r.builder.command, lines[1..][i]);
          assert EndsQuery(r.builder.command, lines[i + 1]);
        }
      } else {
        assert EndsQuery(r.builder.command, lines[0]);
      }
    }
  }

  lemma PlusPrefix(command: string)
    requires '+' in command
    ensures Prefix(command) != [] && Prefix(command)[0] == '+'
  {
  }

  /** So a query such as AT+CREG? never completes: its OK is taken for an unsolicited line. */
  lemma PlusQueryNeverCompletes(command: string, lines: seq<string>)
    requires '?' in command && '+' in command && !StartsWith(command, "AT+CMGS")
    ensures Run(Routed(Started(command), []), lines).builder.state != Complete
    ensures CouldBeResponse(Started(command), "OK") == false
  {
    PlusPrefix(command);
    hide Prefix, Run;
    QueryCompletesExactly(Routed(Started(command), []), lines);
  }

  function NonEmpty(lines: seq<string>): seq<string> {
    if lines == [] then [] else (if lines[0] == [] then [] else [lines[0]]) + NonEmpty(lines[1..])
  }

  /** While a prompt is awaited, every line but the prompt is dropped. */
  lemma {:induction false} RunBeforePrompt(r: Routed, lines: seq<string>, more: seq<string>)
    requires r.builder.state == WaitingPrompt && ">" !in lines
    ensures Run(r, lines + more) == Run(r, more)
    decreases |lines|
  {
    hide Run;
    RunFirst(r, lines, more);
    if lines != [] {
      assert lines[0] in lines;
      RunBeforePrompt(r, lines[1..], more);
    }
  }

  /** After the prompt, every non-empty line is data, unsolicited or not. */
  lemma {:induction false} RunAfterPrompt(r: Routed, lines: seq<string>, more: seq<string>)
    requires r.builder.state == WaitingFinal && NoneFinal(lines)
    ensures Run(r, lines + more) == Run(r.(builder := r.builder.(lines := r.builder.lines + NonEmpty(lines))), more)
    decreases |lines|
  {
    hide Run, IsFinal;
    RunFirst(r, lines, more);
    if lines == [] {
      Regroup(r.builder.lines, [], []);
    } else {
      var d := if lines[0] == [] then [] else [lines[0]];
      AddedAfterPrompt(r, lines[0], d);
      hide Dispatched;
      RunAfterPrompt(r.(builder := r.builder.(lines := r.builder.lines + d)), lines[1..], more);
      Regroup(r.builder.lines, d, NonEmpty(lines[1..]));
    }
  }

  lemma AddedAfterPrompt(r: Routed, line: string, d: seq<string>)
    requires r.builder.state == WaitingFinal && !IsFinal(line) && d == if line == [] then [] else [line]
    ensures Dispatched(r, line) == r.(builder := r.builder.(lines := r.builder.lines + d))
  {
    Regroup(r.builder.lines, [], []);
    hide CouldBeResponse;
  }

  lemma {:induction false} NonEmptyIsNotFinal(lines: seq<string>)
    requires NoneFinal(lines)
    ensures forall i :: 0 <= i < |NonEmpty(lines)| ==> !IsFinal(NonEmpty(lines)[i])
  {
    if lines != [] {
      hide IsFinal;
      NonEmptyIsNotFinal(lines[1..]);
    }
  }

  lemma ResponseAfterPrompt(b: Builder, final: string)
    requires b.state == WaitingFinal && IsFinal(final)
    requires forall i :: 0 <= i < |b.lines| ==> !IsFinal(b.lines[i])
    ensures Added(b, final).state == Complete
    ensures ResponseOf(Added(b, final))
         == if final == "OK" then AtResponse(true, "OK", "", b.lines) else AtResponse(false, "ERROR", final, b.lines)
  {
    ResponseOfFinal(b.(state := WaitingResponse), final);
  }

  lemma RunLastAfterPrompt(r: Routed, final: string, after: seq<string>)
    requires r.builder.state == WaitingFinal && IsFinal(final)
    ensures Run(r, [final] + after) == r.(builder := Added(r.builder, final))
  {
    assert ([final] + after)[0] == final && final != [];
    assert Run(r, [final] + after) == Run(Dispatched(r, final), ([final] + after)[1..]);
  }

  lemma RunPrompt(r: Routed, more: seq<string>)
    requires r.builder.state == WaitingPrompt
    ensures Run(r, [">"] + more) == Run(r.(builder := r.builder.(state := WaitingFinal)), more)
  {
    assert ([">"] + more)[0] == ">" && ([">"] + more)[1..] == more;
  }

  /** Sending a message: lines before the prompt are dropped, and from the prompt to the first final
      line everything is data of the response; nothing reaches the URC dispatcher. */
  lemma PromptRouting(command: string, before: seq<string>, data: seq<string>, final: string, after: seq<string>)
    requires StartsWith(command, "AT+CMGS") && ">" !in before && NoneFinal(data) && IsFinal(final)
    ensures
      var end := Run(Routed(Started(command), []), before + ([">"] + (data + ([final] + after))));
      && end.builder.state == Complete && end.urcs == []
      && ResponseOf(end.builder)
         == if final == "OK" then AtResponse(true, "OK", "", NonEmpty(data))
            else AtResponse(false, "ERROR", final, NonEmpty(data))
  {
    var start := Routed(Started(command), []);
    assert start.builder == Builder(WaitingPrompt, command, []);
    hide *;
    var r := start.(builder := start.builder.(state := WaitingFinal));
    var end := r.(builder := r.builder.(lines := r.builder.lines + NonEmpty(data)));
    Regroup([], [], NonEmpty(data));
    RunBeforePrompt(start, before, [">"] + (data + ([final] + after)));
    RunPrompt(start, data + ([final] + after));
    RunAfterPrompt(r, data, [final] + after);
    RunLastAfterPrompt(end, final, after);
    NonEmptyIsNotFinal(data);
    ResponseAfterPrompt(end.builder, final);
  }
}
