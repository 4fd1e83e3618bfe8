/** Hint framing: length-prefixed hints in a byte stream (cannon/mipsevm/mips.go, op-preimage/hints.go). */
module Hints {
  import opened Bytes

  type Hint = seq<Byte>

  /** The hints delivered from a stream, and what stays buffered. */
  datatype Parsed = Parsed(hints: seq<Hint>, rest: seq<Byte>)

  /** Whether the buffer starts with a complete hint. */
  predicate Complete(buf: seq<Byte>) {
    |buf| >= 4 && BytesWord(buf[..4]) <= |buf| - 4
  }

  function FirstHint(buf: seq<Byte>): Hint
    requires Complete(buf)
  {
    buf[4..4 + BytesWord(buf[..4])]
  }

  function AfterFirst(buf: seq<Byte>): (r: seq<Byte>)
    requires Complete(buf)
    ensures |r| < |buf|
  {
    buf[4 + BytesWord(buf[..4])..]
  }

  /** One-shot parsing of a whole stream. */
  function Parse(buf: seq<Byte>): Parsed
    decreases |buf|
  {
    if !Complete(buf) then Parsed([], buf)
    else
      var tail := Parse(AfterFirst(buf));
      Parsed([FirstHint(buf)] + tail.hints, tail.rest)
  }

  /** The buffered parser of the VM: appends a write and delivers every complete hint.  The length comparison in the
      source is on uint32, so the buffer must stay below 4 GiB. */
  method ProcessHints(buf: seq<Byte>, written: seq<Byte>) returns (delivered: seq<Hint>, rest: seq<Byte>)
    requires |buf| + |written| < 0x1_0000_0000
    ensures Parse(buf + written) == Parsed(delivered, rest)
  {
    rest := buf + written;
    delivered := [];
    while |rest| >= 4
      invariant |rest| < 0x1_0000_0000
      invariant Parse(buf + written).rest == Parse(rest).rest
      invariant Parse(buf + written).hints == delivered + Parse(rest).hints
      decreases |rest|
    {
      var hintLen := BytesWord(rest[..4]);
      if hintLen <= |rest| - 4 {
        assert Complete(rest);
        delivered, rest := delivered + [rest[4..4 + hintLen]], rest[4 + hintLen..];
      } else {
        break;
      }
    }
  }

  /** More input after a buffer leaves its complete hints alone. */
  lemma CompleteGrows(buf: seq<Byte>, more: seq<Byte>)
    requires Complete(buf)
    ensures Complete(buf + more) && FirstHint(buf + more) == FirstHint(buf)
    ensures AfterFirst(buf + more) == AfterFirst(buf) + more
  {
    assert (buf + more)[..4] == buf[..4];
  }

  /** First p, then q: the hints in order, and q's leftover. */
  function Then(p: Parsed, q: Parsed): Parsed {
    Parsed(p.hints + q.hints, q.rest)
  }

  lemma ThenAssociates(p: Parsed, q: Parsed, r: Parsed)
    ensures Then(p, Then(q, r)) == Then(Then(p, q), r)
  {
    assert p.hints + (q.hints + r.hints) == (p.hints + q.hints) + r.hints;
  }

  lemma ThenNothing(buf: seq<Byte>, q: Parsed)
    ensures Then(Parsed([], buf), q) == q
  {
    assert [] + q.hints == q.hints;
  }

  lemma ParseStep(buf: seq<Byte>)
    requires Complete(buf)
    ensures Parse(buf) == Then(Parsed([FirstHint(buf)], AfterFirst(buf)), Parse(AfterFirst(buf)))
  {
  }

  /** Parsing in two writes gives what one-shot parsing of the concatenation gives. */
  lemma {:induction false} ParseSplit(a: seq<Byte>, b: seq<Byte>)
    ensures Parse(a + b) == Then(Parse(a), Parse(Parse(a).rest + b))
    decreases |a|
  {
    if !Complete(a) {
      ThenNothing(a, Parse(a + b));
    } else {
      hide Complete, FirstHint, Then, Parse;
      CompleteGrows(a, b);
      ParseStep(a);
      ParseStep(a + b);
      ParseSplit(AfterFirst(a), b);
      ThenAssociates(Parsed([FirstHint(a)], AfterFirst(a)), Parse(AfterFirst(a)), Parse(Parse(AfterFirst(a)).rest + b));
      ThenRest(Parsed([FirstHint(a)], AfterFirst(a)), Parse(AfterFirst(a)));
      ThenFirst(FirstHint(a), AfterFirst(a), AfterFirst(a) + b, Parse(AfterFirst(a) + b));
    }
  }

  lemma ThenRest(p: Parsed, q: Parsed)
    ensures Then(p, q).rest == q.rest
  {
  }

  lemma ThenFirst(hint: Hint, rest: seq<Byte>, rest': seq<Byte>, q: Parsed)
    ensures Then(Parsed([hint], rest), q) == Then(Parsed([hint], rest'), q)
  {
  }

  function Flatten(chunks: seq<seq<Byte>>): seq<Byte> {
    if chunks == [] then [] else chunks[0] + Flatten(chunks[1..])
  }

  /** Feeding a stream to the buffered parser write by write. */
  function Feed(buf: seq<Byte>, chunks: seq<seq<Byte>>): Parsed
    decreases |chunks|
  {
    if chunks == [] then Parsed([], buf)
    else
      var first := Parse(buf + chunks[0]);
      Then(first, Feed(first.rest, chunks[1..]))
  }

  lemma ParseIncomplete(buf: seq<Byte>)
    requires !Complete(buf)
    ensures Parse(buf) == Parsed([], buf)
  {
  }

  /** However a stream is split into writes, the buffered parser delivers the same hints and leftover. */
  lemma {:induction false} ChunkingIrrelevant(buf: seq<Byte>, chunks: seq<seq<Byte>>)
    requires !Complete(buf)
    ensures Feed(buf, chunks) == Parse(buf + Flatten(chunks))
    decreases |chunks|
  {
    hide Complete, Parse, Then;
    if chunks == [] {
      assert buf + Flatten(chunks) == buf;
      ParseIncomplete(buf);
    } else {
      var first := Parse(buf + chunks[0]);
      RestIncomplete(buf + chunks[0]);
      ChunkingIrrelevant(first.rest, chunks[1..]);
      ParseSplit(buf + chunks[0], Flatten(chunks[1..]));
      assert buf + Flatten(chunks) == buf + chunks[0] + Flatten(chunks[1..]);
    }
  }

  lemma {:induction false} RestIncomplete(buf: seq<Byte>)
    ensures !Complete(Parse(buf).rest)
    decreases |buf|
  {
    if Complete(buf) {
      RestIncomplete(AfterFirst(buf));
    }
  }

  type Framable = h: Hint | |h| < 0x1_0000_0000 witness []

  /** What HintWriter writes for one hint. */
  function Frame(hint: Framable): seq<Byte> {
    WordBytes(|hint|) + hint
  }

  function Frames(hints: seq<Framable>): seq<Byte> {
    if hints == [] then [] else Frame(hints[0]) + Frames(hints[1..])
  }

  lemma FrameFirst(hint: Framable, more: seq<Byte>)
    ensures Complete(Frame(hint) + more) && FirstHint(Frame(hint) + more) == hint
    ensures AfterFirst(Frame(hint) + more) == more
  {
    var s := Frame(hint) + more;
    assert s[..4] == WordBytes(|hint|);
    BytesOfWord(|hint|);
  }

  /** Framed hints are parsed back, with nothing left over. */
  lemma {:induction false} FramesRoundTrip(hints: seq<Framable>)
    ensures Parse(Frames(hints)) == Parsed(hints, [])
    decreases |hints|
  {
    if hints != [] {
      FrameFirst(hints[0], Frames(hints[1..]));
      FramesRoundTrip(hints[1..]);
    }
  }

  /** Framed hints, written in any pieces, reach the oracle unchanged. */
  lemma FramesInPieces(hints: seq<Framable>, chunks: seq<seq<Byte>>)
    requires Flatten(chunks) == Frames(hints)
    ensures Feed([], chunks) == Parsed(hints, [])
  {
    ChunkingIrrelevant([], chunks);
    assert [] + Flatten(chunks) == Frames(hints);
    FramesRoundTrip(hints);
  }

  /** How a round of the hint reader ends. */
  datatype HintRound = Handled | Refused | EndOfHints | Truncated

  /** The two ends of the hint channel: bytes on their way to the reader, and acknowledgements back. */
  class HintChannel {
    var toReader: seq<Byte>
    var toWriter: seq<Byte>

    constructor ()
      ensures toReader == [] && toWriter == []
    {
      toReader, toWriter := [], [];
    }

    /** HintWriter.Hint up to the point where it waits for the acknowledgement. */
    method WriteHint(hint: Framable)
      modifies this
      ensures toReader == old(toReader) + Frame(hint) && toWriter == old(toWriter)
    {
      toReader := toReader + (WordBytes(|hint|) + hint);
    }

    /** The end of HintWriter.Hint: one acknowledgement byte, or a panic when there is none. */
    method AwaitAck() returns (ok: bool)
      modifies this
      ensures ok == (old(toWriter) != []) && toReader == old(toReader)
      ensures toWriter == if ok then old(toWriter)[1..] else []
    {
      ok := toWriter != [];
      if ok {
        toWriter := toWriter[1..];
      }
    }

    /** HintReader.NextHint with everything written so far available: the next hint is acknowledged whether or not
        the router accepts it; the end between two frames is told apart from the end within one, which is an error. */
    method NextHint(router: Hint -> bool) returns (hint: Hint, r: HintRound)
      modifies this
      ensures Complete(old(toReader)) ==>
                && hint == FirstHint(old(toReader)) && toReader == AfterFirst(old(toReader))
                && toWriter == old(toWriter) + [0] && r == if router(hint) then Handled else Refused
      ensures !Complete(old(toReader)) ==>
                && r == (if old(toReader) == [] then EndOfHints else Truncated)
                && toReader == [] && toWriter == old(toWriter)
    {
      hint, r := [], Truncated;
      if |toReader| < 4 {
        r := if toReader == [] then EndOfHints else Truncated;
        toReader := [];
        return;
      }
      var length := BytesWord(toReader[..4]);
      ghost var before := toReader;
      toReader := toReader[4..];
      if length > |toReader| {
        toReader := [];
        return;
      }
      hint, toReader := toReader[..length], toReader[length..];
      assert hint == FirstHint(before) && toReader == AfterFirst(before);
      r := if router(hint) then Handled else Refused;
      toWriter := toWriter + [0];
    }
  }

  /** One exchange over an idle channel: the router sees exactly the hint, and the writer is unblocked. */
  method Exchange(c: HintChannel, hint: Framable, router: Hint -> bool)
    returns (seen: Hint, r: HintRound, acked: bool)
    requires c.toReader == [] && c.toWriter == []
    modifies c
    ensures seen == hint && r == (if router(hint) then Handled else Refused) && acked
    ensures c.toReader == [] && c.toWriter == []
  {
    c.WriteHint(hint);
    FrameFirst(hint, []);
    assert Frame(hint) + [] == Frame(hint);
    seen, r := c.NextHint(router);
    acked := c.AwaitAck();
  }
}
