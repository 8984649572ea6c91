/** Cutting the modem's byte stream into lines, twice in series: once in the serial transport, once in
    the AT session. */
module LineParser {
  const CRLF := "\r\n"

  /** The position of the leftmost CRLF, or the length of the text if there is none. */
  function FindCrlf(s: string): (p: nat)
    ensures p <= |s|
  {
    if |s| < 2 then |s|
    else if s[0] == '\r' && s[1] == '\n' then 0
    else 1 + FindCrlf(s[1..])
  }

  ghost predicate HasCrlfAt(s: string, i: nat) { i + 1 < |s| && s[i] == '\r' && s[i + 1] == '\n' }

  ghost predicate NoCrlf(s: string) { forall i: nat :: !HasCrlfAt(s, i) }

  lemma TailHasCrlf(s: string)
    requires s != [] && !NoCrlf(s[1..])
    ensures !NoCrlf(s)
  {
    var i: nat :| HasCrlfAt(s[1..], i);
    assert HasCrlfAt(s, i + 1);
  }

  lemma {:induction false} FindCrlfExactly(s: string)
    ensures FindCrlf(s) == |s| <==> NoCrlf(s)
    ensures FindCrlf(s) < |s| ==> HasCrlfAt(s, FindCrlf(s)) && NoCrlf(s[..FindCrlf(s)])
  {
    if |s| >= 2 && !(s[0] == '\r' && s[1] == '\n') {
      var p := FindCrlf(s[1..]);
      FindCrlfExactly(s[1..]);
      if NoCrlf(s[1..]) {
        forall i: nat ensures !HasCrlfAt(s, i) {
          if i > 0 { assert !HasCrlfAt(s[1..], i - 1); }
        }
      } else {
        TailHasCrlf(s);
      }
      if p < |s[1..]| {
        assert HasCrlfAt(s, p + 1);
        var head := s[..p + 1];
        forall i: nat ensures !HasCrlfAt(head, i) {
          if i > 0 { assert !HasCrlfAt(s[1..][..p], i - 1); }
        }
      }
    } else if |s| >= 2 {
      assert HasCrlfAt(s, 0);
    }
  }

  // ---------------------------------------------------------------- pieces

  /** The pieces between leftmost CRLFs, and what is left behind the last. */
  datatype Cut = Cut(pieces: seq<string>, left: string)

  function Split(s: string): (c: Cut)
    decreases |s|
  {
    var p := FindCrlf(s);
    if p + 2 > |s| then Cut([], s)
    else
      var rest := Split(s[p + 2..]);
      Cut([s[..p]] + rest.pieces, rest.left)
  }

  /** The text that the pieces were cut from. */
  function Joined(pieces: seq<string>, left: string): string {
    if pieces == [] then left else pieces[0] + CRLF + Joined(pieces[1..], left)
  }

  ghost predicate AllNoCrlf(pieces: seq<string>) { forall i :: 0 <= i < |pieces| ==> NoCrlf(pieces[i]) }

  lemma NotBefore(p: string, rest: string, q: nat)
    requires NoCrlf(p) && q < |p|
    ensures !HasCrlfAt(p + CRLF + rest, q)
  {
    assert !HasCrlfAt(p, q);
  }

  lemma NotPast(s: string, i: nat, q: nat)
    requires HasCrlfAt(s, i)
    ensures !NoCrlf(s)
    ensures i + 1 < q <= |s| ==> !NoCrlf(s[..q])
  {
    if i + 1 < q <= |s| { assert HasCrlfAt(s[..q], i); }
  }

  lemma FindAfter(p: string, rest: string)
    requires NoCrlf(p)
    ensures FindCrlf(p + CRLF + rest) == |p|
    ensures (p + CRLF + rest)[..|p|] == p && (p + CRLF + rest)[|p| + 2..] == rest
  {
    hide FindCrlf, NoCrlf;
    var s := p + CRLF + rest;
    FindCrlfExactly(s);
    assert HasCrlfAt(s, |p|);
    var q := FindCrlf(s);
    NotPast(s, |p|, q);
    assert s[|p| + 1] == '\n';
    if q < |p| { NotBefore(p, rest, q); }
  }

  /** The cut is the only one: pieces and leftover without CRLF that join to the text are its cut. */
  lemma {:induction false} SplitIsTheOnlyCut(pieces: seq<string>, left: string)
    requires AllNoCrlf(pieces) && NoCrlf(left)
    ensures Split(Joined(pieces, left)) == Cut(pieces, left)
  {
    if pieces == [] {
      FindCrlfExactly(left);
    } else {
      SplitIsTheOnlyCut(pieces[1..], left);
      hide FindCrlf, NoCrlf;
      FindAfter(pieces[0], Joined(pieces[1..], left));
      assert pieces == [pieces[0]] + pieces[1..];
    }
  }

  lemma SplitFirst(s: string)
    requires FindCrlf(s) < |s|
    ensures
      var p := FindCrlf(s);
      && p + 2 <= |s| && s == s[..p] + CRLF + s[p + 2..] && NoCrlf(s[..p])
      && Split(s) == Cut([s[..p]] + Split(s[p + 2..]).pieces, Split(s[p + 2..]).left)
  {
    FindCrlfExactly(s);
    CutAt(s, FindCrlf(s));
    SplitOnce(s);
    hide *;
  }

  lemma CutAt(s: string, p: nat)
    requires HasCrlfAt(s, p)
    ensures p + 2 <= |s| && s == s[..p] + CRLF + s[p + 2..]
  {
  }

  lemma SplitOnce(s: string)
    requires FindCrlf(s) + 2 <= |s|
    ensures
      var rest := Split(s[FindCrlf(s) + 2..]);
      Split(s) == Cut([s[..FindCrlf(s)]] + rest.pieces, rest.left)
  {
    hide FindCrlf;
  }

  lemma JoinedCons(piece: string, pieces: seq<string>, left: string)
    ensures Joined([piece] + pieces, left) == piece + CRLF + Joined(pieces, left)
    ensures AllNoCrlf([piece] + pieces) <==> NoCrlf(piece) && AllNoCrlf(pieces)
  {
    hide NoCrlf;
    var all := [piece] + pieces;
    assert all[0] == piece && all[1..] == pieces;
  }

  lemma NothingToSplit(s: string)
    requires FindCrlf(s) >= |s|
    ensures Split(s) == Cut([], s) && Joined([], s) == s && NoCrlf(s) && AllNoCrlf([])
  {
    FindCrlfExactly(s);
    hide FindCrlf, NoCrlf;
  }

  /** The pieces join to the text, and neither they nor the leftover hold a CRLF. */
  lemma {:induction false} SplitCuts(s: string)
    ensures Joined(Split(s).pieces, Split(s).left) == s
    ensures AllNoCrlf(Split(s).pieces) && NoCrlf(Split(s).left)
    decreases |s|
  {
    hide *;
    var p := FindCrlf(s);
    if p < |s| {
      SplitFirst(s);
      SplitCuts(s[p + 2..]);
      JoinedCons(s[..p], Split(s[p + 2..]).pieces, Split(s[p + 2..]).left);
    } else {
      NothingToSplit(s);
    }
  }

  lemma {:induction false} JoinedAppend(a: seq<string>, b: seq<string>, left: string)
    ensures Joined(a + b, left) == Joined(a, Joined(b, left))
  {
    if a == [] {
      assert a + b == b;
    } else {
      assert (a + b)[1..] == a[1..] + b;
      JoinedAppend(a[1..], b, left);
    }
  }

  lemma {:induction false} JoinedLeft(pieces: seq<string>, left: string, more: string)
    ensures Joined(pieces, left) + more == Joined(pieces, left + more)
  {
    if pieces != [] {
      JoinedLeft(pieces[1..], left, more);
      var head := pieces[0] + CRLF;
      assert head + Joined(pieces[1..], left) + more == head + (Joined(pieces[1..], left) + more);
    }
  }

  /** Cutting can be interrupted anywhere and resumed with the leftover. */
  lemma SplitResumes(a: string, b: string)
    ensures
      var first := Split(a);
      var second := Split(first.left + b);
      Split(a + b) == Cut(first.pieces + second.pieces, second.left)
  {
    var first := Split(a);
    var second := Split(first.left + b);
    hide *;
    SplitCuts(a);
    SplitCuts(first.left + b);
    BothNoCrlf(first.pieces, second.pieces);
    JoinedAppend(first.pieces, second.pieces, second.left);
    JoinedLeft(first.pieces, first.left, b);
    SplitIsTheOnlyCut(first.pieces + second.pieces, second.left);
  }

  lemma BothNoCrlf(a: seq<string>, b: seq<string>)
    requires AllNoCrlf(a) && AllNoCrlf(b)
    ensures AllNoCrlf(a + b)
  {
    hide NoCrlf;
  }

  function Concat(chunks: seq<string>): string {
    if chunks == [] then [] else chunks[0] + Concat(chunks[1..])
  }

  /** Cutting chunk by chunk, each time with the leftover in front. */
  function SplitChunks(left: string, chunks: seq<string>): Cut
    decreases |chunks|
  {
    if chunks == [] then Cut([], left)
    else
      var first := Split(left + chunks[0]);
      var rest := SplitChunks(first.left, chunks[1..]);
      Cut(first.pieces + rest.pieces, rest.left)
  }

  /** However a stream is cut into chunks, the pieces and the leftover are those of the whole stream. */
  lemma {:induction false} ChunksDoNotMatter(left: string, chunks: seq<string>)
    requires NoCrlf(left)
    ensures SplitChunks(left, chunks) == Split(left + Concat(chunks))
    decreases |chunks|
  {
    if chunks == [] {
      FindCrlfExactly(left);
      assert left + Concat(chunks) == left;
    } else {
      hide *;
      SplitCuts(left + chunks[0]);
      ChunksDoNotMatter(Split(left + chunks[0]).left, chunks[1..]);
      SplitResumes(left + chunks[0], Concat(chunks[1..]));
      FirstChunk(left, chunks);
    }
  }

  lemma FirstChunk(left: string, chunks: seq<string>)
    requires chunks != []
    ensures
      var first := Split(left + chunks[0]);
      var rest := SplitChunks(first.left, chunks[1..]);
      SplitChunks(left, chunks) == Cut(first.pieces + rest.pieces, rest.left)
    ensures left + chunks[0] + Concat(chunks[1..]) == left + Concat(chunks)
  {
    hide Split;
    var c, tail := chunks[0], Concat(chunks[1..]);
    assert left + c + tail == left + (c + tail);
  }

  // ---------------------------------------------------------------- lines

  /** A piece without one trailing CR. */
  function Stripped(piece: string): (line: string) {
    if piece != [] && piece[|piece| - 1] == '\r' then piece[..|piece| - 1] else piece
  }

  function Lines(pieces: seq<string>): (lines: seq<string>)
    ensures |lines| == |pieces|
    ensures forall i :: 0 <= i < |lines| ==> lines[i] == Stripped(pieces[i])
  {
    seq(|pieces|, i requires 0 <= i < |pieces| => Stripped(pieces[i]))
  }

  lemma LinesAppend(a: seq<string>, b: seq<string>)
    ensures Lines(a + b) == Lines(a) + Lines(b)
  {
  }

  class LineParser {
    var buffer: string
    ghost var fed: string            // everything fed so far
    ghost var emitted: seq<string>   // every line handed to the callback so far

    /** What is kept and what was emitted depend on the bytes fed, not on how they were cut into feeds. */
    ghost predicate Valid()
      reads this
    {
      buffer == Split(fed).left && emitted == Lines(Split(fed).pieces)
    }

    constructor ()
      ensures Valid() && fed == [] && emitted == []
    {
      buffer := [];
      fed := [];
      emitted := [];
    }

    /** Returns the lines in the order of the callbacks. */
    method Feed(data: string) returns (lines: seq<string>)
      requires Valid()
      modifies this
      ensures Valid() && fed == old(fed) + data && emitted == old(emitted) + lines
      ensures lines == Lines(Split(old(buffer) + data).pieces) && buffer == Split(old(buffer) + data).left
    {
      buffer := buffer + data;
      lines := ExtractLines();
      SplitResumes(fed, data);
      LinesAppend(Split(fed).pieces, Split(old(buffer) + data).pieces);
      fed := fed + data;
      emitted := emitted + lines;
    }

    method ExtractLines() returns (lines: seq<string>)
      modifies `buffer
      ensures lines == Lines(Split(old(buffer)).pieces) && buffer == Split(old(buffer)).left
    {
      lines := [];
      ghost var done := [];
      var pos := FindCrlf(buffer);
      while pos + 2 <= |buffer|
        invariant pos == FindCrlf(buffer) && lines == Lines(done)
        invariant Split(old(buffer)) == Cut(done + Split(buffer).pieces, Split(buffer).left)
        decreases |buffer|
      {
        ExtractOne(done, buffer, pos);
        var line := buffer[..pos];
        LinesAppend(done, [line]);
        done := done + [line];
        buffer := buffer[pos + 2..];
        if line != [] && line[|line| - 1] == '\r' {
          line := line[..|line| - 1];
        }
        lines := lines + [line];
        pos := FindCrlf(buffer);
      }
      assert done + [] == done;
    }
  }

  lemma ExtractOne(done: seq<string>, buffer: string, pos: nat)
    requires pos == FindCrlf(buffer) && pos + 2 <= |buffer|
    ensures done + Split(buffer).pieces == done + [buffer[..pos]] + Split(buffer[pos + 2..]).pieces
    ensures Split(buffer).left == Split(buffer[pos + 2..]).left
  {
    hide FindCrlf;
    var one, rest := [buffer[..pos]], Split(buffer[pos + 2..]).pieces;
    assert done + (one + rest) == done + one + rest;
  }

  // ---------------------------------------------------------------- two parsers in series

  lemma StrippedNoCrlf(piece: string)
    requires NoCrlf(piece)
    ensures NoCrlf(Stripped(piece))
  {
    var line := Stripped(piece);
    forall i: nat ensures !HasCrlfAt(line, i) { assert !HasCrlfAt(piece, i); }
  }

  /** A line that is framed again comes through a parser at once, and leaves nothing behind. */
  lemma ReframedLine(piece: string)
    requires NoCrlf(piece)
    ensures Split(Stripped(piece) + CRLF) == Cut([Stripped(piece)], [])
  {
    StrippedNoCrlf(piece);
    var line := Stripped(piece);
    assert NoCrlf([]);
    assert Joined([line], []) == line + CRLF by {
      assert [line][1..] == [];
      assert line + CRLF + [] == line + CRLF;
    }
    SplitIsTheOnlyCut([line], []);
  }

  /** Up to two trailing CRs are gone; fewer than two only if no other CR was at the end. */
  lemma TwiceStripped(piece: string) returns (k: nat)
    ensures k <= 2 && piece == Stripped(Stripped(piece)) + seq(k, i => '\r')
    ensures k < 2 ==> Stripped(Stripped(Stripped(piece))) == Stripped(Stripped(piece))
  {
    var once := Stripped(piece);
    k := |piece| - |Stripped(once)|;
  }

  lemma DeliveredGrows(fed: string, data: string, buffer: string)
    requires buffer == Split(fed).left
    ensures
      var pieces := Split(buffer + data).pieces;
      && AllNoCrlf(pieces)
      && Lines(Lines(Split(fed + data).pieces)) == Lines(Lines(Split(fed).pieces)) + Lines(Lines(pieces))
  {
    hide *;
    SplitCuts(buffer + data);
    SplitResumes(fed, data);
    LinesAppend(Split(fed).pieces, Split(buffer + data).pieces);
    LinesAppend(Lines(Split(fed).pieces), Lines(Split(buffer + data).pieces));
  }

  /** The transport's parser, which frames each line again for the parser of the session. */
  class Receiver {
    const transport: LineParser
    const session: LineParser
    ghost var delivered: seq<string>

    ghost predicate Valid()
      reads this, transport, session
    {
      && transport != session && transport.Valid() && session.Valid()
      && session.buffer == []
      && delivered == Lines(Lines(Split(transport.fed).pieces))
    }

    constructor ()
      ensures Valid() && fresh(transport) && fresh(session) && transport.fed == [] && delivered == []
    {
      transport := new LineParser();
      session := new LineParser();
      delivered := [];
    }

    /** Whatever a read returns, the session is handed the lines of all bytes read so far, each without
        up to two trailing CRs, and keeps nothing back. */
    method OnRead(data: string) returns (lines: seq<string>)
      requires Valid()
      modifies this, transport, session
      ensures Valid() && transport.fed == old(transport.fed) + data && delivered == old(delivered) + lines
    {
      hide Split, FindCrlf, NoCrlf, Lines;
      var first := transport.Feed(data);
      DeliveredGrows(old(transport.fed), data, old(transport.buffer));
      lines := Reframe(first, Split(old(transport.buffer) + data).pieces);
      delivered := delivered + lines;
    }

    method Reframe(first: seq<string>, ghost pieces: seq<string>) returns (lines: seq<string>)
      requires session.Valid() && session.buffer == []
      requires AllNoCrlf(pieces) && first == Lines(pieces)
      modifies session
      ensures session.Valid() && session.buffer == [] && lines == Lines(first)
    {
      hide Split, FindCrlf, NoCrlf;
      lines := [];
      for i := 0 to |first|
        invariant session.Valid() && session.buffer == []
        invariant lines == Lines(first[..i])
      {
        ReframedLine(pieces[i]);
        assert [] + (first[i] + CRLF) == first[i] + CRLF;
        var part := session.Feed(first[i] + CRLF);
        assert first[..i + 1] == first[..i] + [first[i]];
        lines := lines + part;
      }
    }
  }
}
