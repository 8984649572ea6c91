/** Which lines belong to a command, told by the command's name. */
module AtNames {
  import opened Wrappers
  import opened AtResponse

  predicate EndsName(c: char) { c in {'=', ' ', '?', '*'} }

  /** A name is what stands in front of the first equals sign, space, question mark or asterisk. */
  predicate IsNamed(name: string, tail: string) {
    && (forall i :: 0 <= i < |name| ==> !EndsName(name[i]))
    && (tail == [] || EndsName(tail[0]))
  }

  lemma {:induction false} NameIsAll(name: string, tail: string)
    requires IsNamed(name, tail)
    ensures UpToEnd(name + tail) == name
  {
    if name != [] {
      assert (name + tail)[0] == name[0] && (name + tail)[1..] == name[1..] + tail;
      assert !EndsName(name[0]);
      NameIsAll(name[1..], tail);
    } else {
      assert name + tail == tail;
    }
  }

  lemma {:induction false} FirstOccurrence(before: string, c: char, rest: string)
    requires c !in before
    ensures IndexOf(before + [c] + rest, c) == Some(|before|)
  {
    var s := before + [c] + rest;
    if before != [] {
      assert s[0] == before[0] && s[1..] == before[1..] + [c] + rest;
      FirstOccurrence(before[1..], c, rest);
    }
  }

  /** Lines with the results of a command start with the command's name, from its first plus sign on. */
  lemma PlusName(before: string, name: string, tail: string)
    requires '+' !in before && name != [] && name[0] == '+' && IsNamed(name, tail)
    ensures Prefix(before + name + tail) == name
  {
    var command := before + name + tail;
    assert command == before + ['+'] + (name[1..] + tail);
    FirstOccurrence(before, '+', name[1..] + tail);
    assert command[|before|..] == name + tail;
    NameIsAll(name, tail);
  }

  /** Of a command without a plus sign, the name is what stands behind its AT. */
  lemma PlainName(name: string, tail: string)
    requires '+' !in name + tail && IsNamed(name, tail)
    ensures Prefix("AT" + name + tail) == name
  {
    var command := "AT" + name + tail;
    assert command[2..] == name + tail;
    assert '+' !in command;
    assert command[0] == 'A' && command[1] == 'T';
    NameIsAll(name, tail);
  }

  // ---------------------------------------------------------------- routing by name

  /** A line with a plus sign that does not start with the name. */
  predicate Foreign(name: string, line: string) { line != "" && line[0] == '+' && !(name <= line) }

  /** Of these lines, those that are foreign to the name, or those that are not; empty ones are neither. */
  function Shared(name: string, lines: seq<string>, foreign: bool): seq<string> {
    if lines == [] then []
    else
      (if lines[0] != "" && Foreign(name, lines[0]) == foreign then [lines[0]] else [])
      + Shared(name, lines[1..], foreign)
  }

  lemma {:induction false} SharedByName(command: string, lines: seq<string>)
    ensures DataOf(command, lines) == Shared(Prefix(command), lines, false)
    ensures UrcsOf(command, lines) == Shared(Prefix(command), lines, true)
  {
    if lines != [] {
      hide Prefix;
      SharedByName(command, lines[1..]);
    }
  }

  /** A line that says whether a command succeeded. */
  predicate Ends(line: string) { line == "OK" || "ERROR" <= line }

  /** An ordinary command with a name that starts with a plus sign is answered by the first line that is OK
      or starts with ERROR; it is told the other lines of its own, and every line with a plus sign that
      does not start with its name reaches the URC dispatcher, in order. */
  lemma RoutingByName(name: string, tail: string, before: seq<string>, final: string, after: seq<string>)
    requires name != "" && name[0] == '+' && IsNamed(name, tail) && '?' !in tail && !("+CMGS" <= name + tail)
    requires Ends(final) && forall i :: 0 <= i < |before| ==> !Ends(before[i])
    ensures
      var end := Run(Routed(Started("AT" + name + tail), []), before + [final] + after);
      && end.builder.state == Complete && end.urcs == Shared(name, before, true)
      && ResponseOf(end.builder)
         == if final == "OK" then AtResponse(true, "OK", "", Shared(name, before, false))
            else AtResponse(false, "ERROR", final, Shared(name, before, false))
  {
    var command := "AT" + name + tail;
    PlusName("AT", name, tail);
    OrdinaryByName(name, tail);
    hide Prefix, Run, DataOf, UrcsOf, Shared, Started, ResponseOf, IsNamed;
    SharedByName(command, before);
    Routing(command, before, final, after);
  }

  lemma OrdinaryByName(name: string, tail: string)
    requires IsNamed(name, tail) && '?' !in tail && !("+CMGS" <= name + tail)
    ensures Ordinary("AT" + name + tail)
  {
    var command, rest := "AT" + name + tail, name + tail;
    forall i | 0 <= i < |name| ensures name[i] != '?' { assert !EndsName(name[i]); }
    assert command == "AT" + rest;
    if "AT+CMGS" <= command {
      StartsBehind(rest);
    }
  }

  lemma StartsBehind(rest: string)
    requires "AT+CMGS" <= "AT" + rest
    ensures "+CMGS" <= rest
  {
    var command := "AT" + rest;
    assert command[..7] == "AT+CMGS" && command[2..] == rest;
    assert rest[..5] == command[2..7] == command[..7][2..];
  }

  /** Concretely: a new message that is announced while messages are listed is no part of the list. */
  lemma AnnouncedWhileListing(after: seq<string>)
    ensures
      var lines := ["+CMGL: 1,1,,23", "0791", "+CMTI: \"ME\",5"];
      var end := Run(Routed(Started("AT+CMGL=4"), []), lines + ["OK"] + after);
      && end.urcs == ["+CMTI: \"ME\",5"]
      && ResponseOf(end.builder) == AtResponse(true, "OK", "", ["+CMGL: 1,1,,23", "0791"])
  {
    var lines := ["+CMGL: 1,1,,23", "0791", "+CMTI: \"ME\",5"];
    assert "AT" + "+CMGL" + "=4" == "AT+CMGL=4";
    NoneEnds(lines);
    ListingIsNamed();
    hide Run, ResponseOf, Started, IsNamed, Ends;
    RoutingByName("+CMGL", "=4", lines, "OK", after);
    ListingIsShared(lines);
  }

  lemma ListingIsNamed()
    ensures IsNamed("+CMGL", "=4") && '?' !in "=4" && !("+CMGS" <= "+CMGL" + "=4")
  {
    var rest := "+CMGL" + "=4";
    assert rest[4] == 'L' && "+CMGS"[4] == 'S';
  }

  lemma NoneEnds(lines: seq<string>)
    requires lines == ["+CMGL: 1,1,,23", "0791", "+CMTI: \"ME\",5"]
    ensures Ends("OK") && forall i :: 0 <= i < |lines| ==> !Ends(lines[i])
  {
    assert lines[0][0] == '+' && lines[1][0] == '0' && lines[2][0] == '+';
  }

  lemma ListingIsShared(lines: seq<string>)
    requires lines == ["+CMGL: 1,1,,23", "0791", "+CMTI: \"ME\",5"]
    ensures Shared("+CMGL", lines, true) == [lines[2]] && Shared("+CMGL", lines, false) == [lines[0], lines[1]]
  {
    assert lines[0][..5] == "+CMGL" && lines[2][3] == 'T' && "+CMGL"[3] == 'G' && lines[1][0] == '0';
    assert lines[1..] == [lines[1], lines[2]] && lines[1..][1..] == [lines[2]] && lines[1..][1..][1..] == [];
    assert Foreign("+CMGL", lines[2]) && !Foreign("+CMGL", lines[0]) && !Foreign("+CMGL", lines[1]);
    forall foreign: bool
      ensures Shared("+CMGL", lines, foreign) == if foreign then [lines[2]] else [lines[0], lines[1]]
    {
      assert Shared("+CMGL", lines[1..][1..][1..], foreign) == [];
      assert Shared("+CMGL", lines[1..][1..], foreign) == if foreign then [lines[2]] else [];
      assert Shared("+CMGL", lines[1..], foreign) == if foreign then [lines[2]] else [lines[1]];
    }
  }
}
