/**
 The relay's line assembler: a segment at a time, against the stream split at
 its newlines, and against the byte-at-a-time loop it replaced.
 */
module Lines {
  import opened Bytes
  import opened Newline

  const CR: u8 := 13

  /** A finished line: what was kept of it, the carriage return stripped, and whether that is all. */
  datatype Line = Line(text: seq<u8>, whole: bool)

  function StripReturn(text: seq<u8>): seq<u8> {
    if text != [] && text[|text| - 1] == CR then text[..|text| - 1] else text
  }

  /** One carriage return at the end comes off, and nothing else does. */
  lemma StripReturnIs(text: seq<u8>)
    ensures StripReturn(text + [13]) == text
    ensures text == [] || text[|text| - 1] != 13 ==> StripReturn(text) == text
  {
    assert (text + [13])[..|text|] == text;
  }

  /** The line a segment makes in `n` bytes of room: cut there, and marked when anything was cut. */
  function LineOf(n: nat, segment: seq<u8>): Line {
    Line(StripReturn(segment[..Min(n, |segment|)]), |segment| <= n)
  }

  // ---------------------------------------------------------------------
  // The stream split at its newlines
  // ---------------------------------------------------------------------

  /** The segments finished by `bytes`, after `pend` unfinished ones, and what is unfinished then. */
  datatype Cut = Cut(done: seq<seq<u8>>, pend: seq<u8>)

  function Split(pend: seq<u8>, bytes: seq<u8>): Cut
    decreases |bytes|
  {
    if bytes == [] then Cut([], pend)
    else if bytes[0] == NL then
      var rest := Split([], bytes[1..]);
      Cut([pend] + rest.done, rest.pend)
    else Split(pend + [bytes[0]], bytes[1..])
  }

  function Join(segments: seq<seq<u8>>): seq<u8> {
    if segments == [] then [] else segments[0] + [NL] + Join(segments[1..])
  }

  /** Nothing is lost or invented: the segments, a newline after each, and the rest are the stream. */
  lemma {:induction false} SplitRejoins(pend: seq<u8>, bytes: seq<u8>)
    requires NL !in pend
    ensures var c := Split(pend, bytes);
      && Join(c.done) + c.pend == pend + bytes
      && NL !in c.pend
      && forall s | s in c.done :: NL !in s
    decreases |bytes|
  {
    if bytes == [] {
      assert pend + bytes == pend;
    } else if bytes[0] == NL {
      SplitRejoins([], bytes[1..]);
      var rest := Split([], bytes[1..]);
      var all := [pend] + rest.done;
      assert all[1..] == rest.done;
      assert Join(all) + rest.pend == pend + [NL] + (Join(rest.done) + rest.pend);
      assert pend + bytes == pend + [NL] + ([] + bytes[1..]);
    } else {
      SplitRejoins(pend + [bytes[0]], bytes[1..]);
      assert pend + bytes == (pend + [bytes[0]]) + bytes[1..];
    }
  }

  /** Splitting a stream in two chunks is splitting it whole. */
  lemma {:induction false} SplitInChunks(pend: seq<u8>, a: seq<u8>, b: seq<u8>)
    ensures var first := Split(pend, a);
      var second := Split(first.pend, b);
      Split(pend, a + b) == Cut(first.done + second.done, second.pend)
    decreases |a|
  {
    if a == [] {
      assert a + b == b;
      var second := Split(pend, b);
      assert [] + second.done == second.done;
    } else {
      assert (a + b)[0] == a[0] && (a + b)[1..] == a[1..] + b;
      if a[0] == NL {
        SplitInChunks([], a[1..], b);
        var first := Split([], a[1..]);
        var second := Split(first.pend, b);
        assert [pend] + (first.done + second.done) == ([pend] + first.done) + second.done;
      } else {
        SplitInChunks(pend + [a[0]], a[1..], b);
      }
    }
  }

  function Flatten(chunks: seq<seq<u8>>): seq<u8> {
    if chunks == [] then [] else chunks[0] + Flatten(chunks[1..])
  }

  function SplitChunks(pend: seq<u8>, chunks: seq<seq<u8>>): Cut
    decreases |chunks|
  {
    if chunks == [] then Cut([], pend)
    else
      var first := Split(pend, chunks[0]);
      var rest := SplitChunks(first.pend, chunks[1..]);
      Cut(first.done + rest.done, rest.pend)
  }

  /** However the stream is chunked, the segments are the same. */
  lemma {:induction false} ChunkingDoesNotMatter(pend: seq<u8>, chunks: seq<seq<u8>>)
    ensures SplitChunks(pend, chunks) == Split(pend, Flatten(chunks))
    decreases |chunks|
  {
    if chunks != [] {
      var first := Split(pend, chunks[0]);
      ChunkingDoesNotMatter(first.pend, chunks[1..]);
      SplitInChunks(pend, chunks[0], Flatten(chunks[1..]));
    }
  }

  /** A stretch with no newline only adds to what is unfinished. */
  lemma {:induction false} SplitOfPlain(pend: seq<u8>, bytes: seq<u8>)
    requires NL !in bytes
    ensures Split(pend, bytes) == Cut([], pend + bytes)
    decreases |bytes|
  {
    if bytes == [] {
      assert pend + bytes == pend;
    } else {
      SplitOfPlain(pend + [bytes[0]], bytes[1..]);
      assert pend + bytes == (pend + [bytes[0]]) + bytes[1..];
    }
  }

  /** A stretch up to a newline finishes one segment, and the rest starts afresh. */
  lemma SplitAtNewline(pend: seq<u8>, bytes: seq<u8>, i: nat)
    requires FirstAt(bytes, i)
    ensures var rest := Split([], bytes[i + 1..]);
      Split(pend, bytes) == Cut([pend + bytes[..i]] + rest.done, rest.pend)
  {
    SplitOfPlain(pend, bytes[..i]);
    assert bytes == bytes[..i] + bytes[i..];
    SplitInChunks(pend, bytes[..i], bytes[i..]);
    assert bytes[i..][1..] == bytes[i + 1..];
    var rest := Split([], bytes[i + 1..]);
    assert [] + ([pend + bytes[..i]] + rest.done) == [pend + bytes[..i]] + rest.done;
  }

  function LinesOf(n: nat, segments: seq<seq<u8>>): (lines: seq<Line>)
    ensures |lines| == |segments|
    ensures forall i | 0 <= i < |lines| :: lines[i] == LineOf(n, segments[i])
  {
    seq(|segments|, i requires 0 <= i < |segments| => LineOf(n, segments[i]))
  }

  // ---------------------------------------------------------------------
  // What becomes of the lines
  // ---------------------------------------------------------------------

  /** A segment of at most `n` bytes that is not empty once its carriage return is off. */
  predicate IsCommand(n: nat, segment: seq<u8>) {
    |segment| <= n && StripReturn(segment) != []
  }

  /** A segment longer than `n` bytes of which the cut leaves something. */
  predicate IsDamaged(n: nat, segment: seq<u8>) {
    |segment| > n && StripReturn(segment[..n]) != []
  }

  function Commands(n: nat, segments: seq<seq<u8>>): seq<seq<u8>> {
    if segments == [] then []
    else (if IsCommand(n, segments[0]) then [StripReturn(segments[0])] else []) + Commands(n, segments[1..])
  }

  function Damaged(n: nat, segments: seq<seq<u8>>): nat {
    if segments == [] then 0
    else (if IsDamaged(n, segments[0]) then 1 else 0) + Damaged(n, segments[1..])
  }

  /** With room for two bytes or more, as the relay has, every segment too long is counted, and no other. */
  lemma DamagedIffTooLong(n: nat, segment: seq<u8>)
    requires n >= 2
    ensures IsDamaged(n, segment) <==> |segment| > n
  {
    if |segment| > n {
      assert |StripReturn(segment[..n])| >= n - 1;
    }
  }

  lemma ServedConcat(n: nat, a: seq<seq<u8>>, b: seq<seq<u8>>)
    ensures Commands(n, a + b) == Commands(n, a) + Commands(n, b)
    ensures Damaged(n, a + b) == Damaged(n, a) + Damaged(n, b)
  {
    CommandsConcat(n, a, b);
    DamagedConcat(n, a, b);
  }

  lemma {:induction false} CommandsConcat(n: nat, a: seq<seq<u8>>, b: seq<seq<u8>>)
    ensures Commands(n, a + b) == Commands(n, a) + Commands(n, b)
  {
    if a == [] {
      assert a + b == b;
    } else {
      var ab := a + b;
      assert ab[0] == a[0] && ab[1..] == a[1..] + b;
      CommandsConcat(n, a[1..], b);
    }
  }

  lemma {:induction false} DamagedConcat(n: nat, a: seq<seq<u8>>, b: seq<seq<u8>>)
    ensures Damaged(n, a + b) == Damaged(n, a) + Damaged(n, b)
  {
    if a == [] {
      assert a + b == b;
    } else {
      var ab := a + b;
      assert ab[0] == a[0] && ab[1..] == a[1..] + b;
      DamagedConcat(n, a[1..], b);
    }
  }

  /** What becomes of one line alone; with `ServedConcat`, that is all of both. */
  lemma ServedOne(n: nat, text: seq<u8>)
    requires text != [] && text[|text| - 1] != 13
    ensures |text| <= n ==> Commands(n, [text]) == [text] && Damaged(n, [text]) == 0
    ensures |text| + 1 <= n ==> Commands(n, [text + [13]]) == [text] && Damaged(n, [text + [13]]) == 0
    ensures |text| > n >= 2 ==> Commands(n, [text]) == [] && Damaged(n, [text]) == 1
    ensures Commands(n, [[]]) == [] && Damaged(n, [[]]) == 0
  {
    StripReturnIs(text);
    var one, two := [text], [text + [13]];
    var none: seq<seq<u8>> := [[]];
    assert one[1..] == [] && two[1..] == [] && none[1..] == [];
    if n >= 2 {
      DamagedIffTooLong(n, text);
    }
  }

  /** A command sent with its line end, at the start of a line, is the first the relay acts on. */
  lemma CommandArrives(n: nat, text: seq<u8>, rest: seq<u8>)
    requires text != [] && text[|text| - 1] != 13 && NL !in text && |text| + 1 <= n
    ensures Commands(n, Split([], text + [13, 10] + rest).done) == [text] + Commands(n, Split([], rest).done)
  {
    var bytes, segment := text + [13, 10] + rest, text + [13];
    assert forall i | 0 <= i < |segment| :: segment[i] == bytes[i];
    assert FirstAt(bytes, |segment|);
    SplitAtNewline([], bytes, |segment|);
    assert [] + bytes[..|segment|] == segment && bytes[|segment| + 1..] == rest;
    ServedOne(n, text);
    ServedConcat(n, [segment], Split([], rest).done);
  }

  lemma OneMoreServed(n: nat, done: seq<seq<u8>>, i: nat)
    requires i < |done|
    ensures var l := LineOf(n, done[i]);
      && Commands(n, done[..i + 1]) == Commands(n, done[..i]) + (if l.whole && l.text != [] then [l.text] else [])
      && Damaged(n, done[..i + 1]) == Damaged(n, done[..i]) + (if !l.whole && l.text != [] then 1 else 0)
  {
    assert done[..i + 1] == done[..i] + [done[i]];
    ServedConcat(n, done[..i], [done[i]]);
    assert |done[i]| <= n ==> done[i][..Min(n, |done[i]|)] == done[i];
    var one: seq<seq<u8>> := [done[i]];
    assert one[1..] == [];
  }

  // ---------------------------------------------------------------------
  // The assembler
  // ---------------------------------------------------------------------

  class Assembler {
    const line: array<u8>
    var len: nat
    var overrun: bool
    /** Every byte since the last newline, kept or not. */
    ghost var pend: seq<u8>

    ghost predicate Valid()
      reads this, line
    {
      && len == Min(line.Length, |pend|)
      && line[..len] == pend[..len]
      && (overrun <==> |pend| > line.Length)
    }

    constructor (n: nat)
      ensures Valid() && pend == [] && line.Length == n && fresh(line)
    {
      line := new u8[n](_ => 0);
      len, overrun := 0, false;
      pend := [];
    }

    /** `take`: `address` is where the slice starts in memory, which decides how its words lie. */
    method Take(bytes: seq<u8>, address: nat) returns (used: nat, ended: bool)
      requires Valid()
      modifies this, line
      ensures Valid()
      ensures if ended then used > 0 && FirstAt(bytes, used - 1) && pend == old(pend) + bytes[..used - 1]
              else used == |bytes| && NL !in bytes && pend == old(pend) + bytes
    {
      var head := Min((4 - address % 4) % 4, |bytes|);
      var found := Find(bytes, head, (|bytes| - head) / 4);
      ended := found.Some?;
      var segment := if ended then bytes[..found.value] else bytes;
      Keep(segment);
      used := |segment| + if ended then 1 else 0;
    }

    /** As much of a segment as fits, in one copy. */
    method Keep(segment: seq<u8>)
      requires Valid()
      modifies this, line
      ensures Valid() && pend == old(pend) + segment
    {
      var fit := Min(|segment|, line.Length - len);
      ghost var was := line[..len];
      CopyInto(line, len, segment[..fit]);
      len := len + fit;
      if fit < |segment| {
        overrun := true;
      }
      pend := pend + segment;
      assert line[..len] == was + segment[..fit];
      KeptPrefix(old(pend), segment, line.Length, old(len), fit);
    }

    /** The relay's loop over one chunk: every line it finishes, in order. */
    method Feed(chunk: seq<u8>, address: nat) returns (lines: seq<Line>)
      requires Valid()
      modifies this, line
      ensures Valid()
      ensures lines == LinesOf(line.Length, Split(old(pend), chunk).done)
      ensures pend == Split(old(pend), chunk).pend
    {
      ghost var start := pend;
      ghost var done: seq<seq<u8>> := [];
      lines := [];
      var at := 0;
      while at < |chunk|
        invariant 0 <= at <= |chunk| && Valid()
        invariant lines == LinesOf(line.Length, done)
        invariant var rest := Split(pend, chunk[at..]);
          Split(start, chunk) == Cut(done + rest.done, rest.pend)
        decreases |chunk| - at
      {
        ghost var before, left := pend, chunk[at..];
        var used, ended := Take(chunk[at..], address + at);
        if !ended {
          SplitOfPlain(before, left);
          assert done + [] == done;
          return;
        }
        SplitAtNewline(before, left, used - 1);
        assert left[used..] == chunk[at + used..];
        FinishedOneMore(line.Length, done, pend, Split([], left[used..]).done);
        at := at + used;
        lines := lines + [Finish()];
        done := done + [before + left[..used - 1]];
        len, overrun, pend := 0, false, [];
      }
      assert chunk[at..] == [];
      assert done + [] == done;
    }

    /** Chunk after chunk, each wherever in memory it lies: the same lines as the stream in one piece. */
    method FeedAll(chunks: seq<seq<u8>>, addresses: seq<nat>) returns (lines: seq<Line>)
      requires Valid() && |addresses| == |chunks|
      modifies this, line
      ensures Valid()
      ensures lines == LinesOf(line.Length, Split(old(pend), Flatten(chunks)).done)
      ensures pend == Split(old(pend), Flatten(chunks)).pend
    {
      ghost var start := pend;
      ghost var done: seq<seq<u8>> := [];
      lines := [];
      for i := 0 to |chunks|
        invariant Valid() && lines == LinesOf(line.Length, done)
        invariant var rest := SplitChunks(pend, chunks[i..]);
          SplitChunks(start, chunks) == Cut(done + rest.done, rest.pend)
      {
        ghost var cut, left := Split(pend, chunks[i]), chunks[i..];
        assert left[0] == chunks[i] && left[1..] == chunks[i + 1..];
        LinesOfConcat(line.Length, done, cut.done);
        LaterDone(done, cut.done, SplitChunks(cut.pend, chunks[i + 1..]).done);
        var more := Feed(chunks[i], addresses[i]);
        lines := lines + more;
        done := done + cut.done;
      }
      assert done + [] == done;
      ChunkingDoesNotMatter(start, chunks);
    }

    /** What the relay does with its lines: an empty one is skipped, a damaged one counted, any other obeyed. */
    method Serve(chunks: seq<seq<u8>>, addresses: seq<nat>) returns (commands: seq<seq<u8>>, bad: nat)
      requires Valid() && |addresses| == |chunks|
      modifies this, line
      ensures Valid()
      ensures var done := Split(old(pend), Flatten(chunks)).done;
        commands == Commands(line.Length, done) && bad == Damaged(line.Length, done)
    {
      ghost var done := Split(pend, Flatten(chunks)).done;
      var lines := FeedAll(chunks, addresses);
      commands, bad := [], 0;
      for i := 0 to |lines|
        invariant Valid()
        invariant commands == Commands(line.Length, done[..i]) && bad == Damaged(line.Length, done[..i])
      {
        OneMoreServed(line.Length, done, i);
        if lines[i].text != [] {
          if lines[i].whole {
            commands := commands + [lines[i].text];
          } else {
            bad := bad + 1;
          }
        }
      }
      assert done[..|lines|] == done;
    }

    function Finish(): Line
      requires Valid()
      reads this, line
      ensures Finish() == LineOf(line.Length, pend)
    {
      Line(StripReturn(line[..len]), !overrun)
    }
  }

  lemma LaterDone(done: seq<seq<u8>>, cut: seq<seq<u8>>, later: seq<seq<u8>>)
    ensures done + (cut + later) == (done + cut) + later
  {
  }

  lemma LinesOfConcat(n: nat, a: seq<seq<u8>>, b: seq<seq<u8>>)
    ensures LinesOf(n, a + b) == LinesOf(n, a) + LinesOf(n, b)
  {
  }

  lemma KeptPrefix(pend: seq<u8>, segment: seq<u8>, n: nat, len: nat, fit: nat)
    requires len == Min(n, |pend|) && fit == Min(|segment|, n - len)
    ensures len + fit == Min(n, |pend + segment|)
    ensures pend[..len] + segment[..fit] == (pend + segment)[..len + fit]
  {
  }

  lemma FinishedOneMore(n: nat, done: seq<seq<u8>>, segment: seq<u8>, later: seq<seq<u8>>)
    ensures LinesOf(n, done + [segment]) == LinesOf(n, done) + [LineOf(n, segment)]
    ensures done + ([segment] + later) == (done + [segment]) + later
  {
  }

  // ---------------------------------------------------------------------
  // The loop before, a byte at a time, on an assembler with the same fields
  // ---------------------------------------------------------------------

  /** The same lines, from the same stream, as the assembler's own. */
  method OracleFeed(a: Assembler, bytes: seq<u8>) returns (lines: seq<Line>)
    requires a.Valid()
    modifies a, a.line
    ensures a.Valid()
    ensures lines == LinesOf(a.line.Length, Split(old(a.pend), bytes).done)
    ensures a.pend == Split(old(a.pend), bytes).pend
  {
    ghost var start := a.pend;
    ghost var done: seq<seq<u8>> := [];
    lines := [];
    var i := 0;
    while i < |bytes|
      invariant 0 <= i <= |bytes| && a.Valid()
      invariant lines == LinesOf(a.line.Length, done)
      invariant var rest := Split(a.pend, bytes[i..]);
        Split(start, bytes) == Cut(done + rest.done, rest.pend)
    {
      assert bytes[i..][0] == bytes[i] && bytes[i..][1..] == bytes[i + 1..];
      if bytes[i] != NL {
        KeepByte(a, bytes[i]);
      } else {
        FinishedOneMore(a.line.Length, done, a.pend, Split([], bytes[i + 1..]).done);
        lines := lines + [a.Finish()];
        done := done + [a.pend];
        a.len, a.overrun, a.pend := 0, false, [];
      }
      i := i + 1;
    }
    assert bytes[i..] == [];
    assert done + [] == done;
  }

  method KeepByte(a: Assembler, b: u8)
    requires a.Valid()
    modifies a, a.line
    ensures a.Valid() && a.pend == old(a.pend) + [b]
  {
    if a.len < a.line.Length {
      a.line[a.len] := b;
      a.len := a.len + 1;
    } else {
      a.overrun := true;
    }
    a.pend := a.pend + [b];
  }
}
