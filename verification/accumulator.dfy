/** The input accumulator: reads from standard input are appended to the
    input buffer until a probe finds nothing more queued, and the filled
    part, minus its last byte, becomes the command for the engine.

    The operating system is an oracle: each poll is the outcome of one
    `ReadFile` into the unfilled tail of the buffer followed by one
    `PeekNamedPipe` probe. */
module Accumulator {

  import opened Wrappers
  import opened CStrings

  /** The outcome of one read: a failure, or the bytes the operating
      system offers; only as many as were asked for are transferred. */
  datatype Read = ReadFailed | Got(bytes: string)

  /** The outcome of one probe: a failure, or the number of bytes queued. */
  datatype Peek = PeekFailed | Queued(count: nat)

  /** One pass of the accumulation loop: a read, then a probe. */
  datatype Poll = Poll(read: Read, peek: Peek)

  /** The bytes a read places in the buffer when at most `room` bytes are
      asked for: a read never transfers more than was asked. */
  function Delivered(r: Read, room: nat): (b: string)
    ensures |b| <= room
    ensures r.ReadFailed? ==> b == []
    ensures r.Got? ==> b <= r.bytes
    ensures r.Got? && |r.bytes| <= room ==> b == r.bytes
  {
    match r
    case ReadFailed => []
    case Got(bytes) => if |bytes| <= room then bytes else bytes[..room]
  }

  /** One read into the buffer filled to `fill`, with capacity `cap`: the
      read may take at most `cap - |fill|` bytes and extends the fill by
      what it got; a failed read changes nothing. */
  function ReadInto(cap: nat, fill: string, r: Read): (f: string)
    requires |fill| <= cap
    ensures |f| <= cap
    ensures fill <= f
    ensures r.ReadFailed? ==> f == fill
    ensures r.Got? && |fill| + |r.bytes| <= cap ==> f == fill + r.bytes
  {
    fill + Delivered(r, cap - |fill|)
  }

  /** The first `cap` bytes of `s`: what a buffer of capacity `cap` keeps
      of it. */
  function Fit(cap: nat, s: string): (t: string)
    ensures t <= s && |t| <= cap
    ensures |s| <= cap ==> t == s
    ensures |s| > cap ==> |t| == cap
  {
    if |s| <= cap then s else s[..cap]
  }

  /** The bytes a read offers: those of a successful read, none of a failed
      one. */
  function Offered(r: Read): string {
    if r.Got? then r.bytes else []
  }

  /** Whatever follows a read, the buffer keeps the same first `cap` bytes
      whether the read was cut to the room left or offered in full: once a
      read overflows, the buffer is full and nothing later gets in. */
  lemma FitStep(cap: nat, fill: string, r: Read, more: string)
    requires |fill| <= cap
    ensures Fit(cap, ReadInto(cap, fill, r) + more) == Fit(cap, fill + Offered(r) + more)
  {
    var got := Offered(r);
    var f := ReadInto(cap, fill, r);
    if |fill| + |got| <= cap {
      assert f == fill + got;
    } else {
      assert |f| == cap;
      assert (f + more)[..cap] == f;
      assert (fill + got + more)[..cap] == f;
    }
  }

  /** A read keeps exactly the first `cap` bytes of the fill followed by
      what was offered: a read that does not fit fills the buffer to the
      last byte and loses the rest. */
  lemma ReadKeepsFirstBytes(cap: nat, fill: string, r: Read)
    requires |fill| <= cap
    ensures ReadInto(cap, fill, r) == Fit(cap, fill + Offered(r))
    ensures |fill| + |Offered(r)| > cap ==> |ReadInto(cap, fill, r)| == cap
  {
    FitStep(cap, fill, r, []);
    assert ReadInto(cap, fill, r) + [] == ReadInto(cap, fill, r);
    assert fill + Offered(r) + [] == fill + Offered(r);
  }

  /** The probe asks for another pass: it succeeded and found bytes
      queued. A failed probe ends the accumulation like an empty one. */
  predicate MorePending(p: Peek) {
    p.Queued? && p.count > 0
  }

  /** The result of one accumulation: the filled part of the buffer and
      the number of polls it took. */
  datatype Gathered = Gathered(fill: string, used: nat)

  /** The accumulation loop: poll until a probe finds nothing more queued.
      None when the polls run out first (the loop is still waiting). */
  function Gather(cap: nat, fill: string, polls: seq<Poll>): (g: Option<Gathered>)
    requires |fill| <= cap
    ensures g.None? <==> forall i | 0 <= i < |polls| :: MorePending(polls[i].peek)
    ensures g.Some? ==> 1 <= g.value.used <= |polls|
    ensures g.Some? ==> !MorePending(polls[g.value.used - 1].peek)
    ensures g.Some? ==> forall i | 0 <= i < g.value.used - 1 :: MorePending(polls[i].peek)
    ensures g.Some? ==> fill <= g.value.fill && |g.value.fill| <= cap
    decreases |polls|
  {
    if |polls| == 0 then None
    else
      var f := ReadInto(cap, fill, polls[0].read);
      if !MorePending(polls[0].peek) then Some(Gathered(f, 1))
      else match Gather(cap, f, polls[1..])
        case None => None
        case Some(g) => Some(Gathered(g.fill, g.used + 1))
  }

  /** All bytes the reads in `polls` delivered, as if nothing were cut. */
  function Received(polls: seq<Poll>): string {
    if |polls| == 0 then []
    else Offered(polls[0].read) + Received(polls[1..])
  }

  /** The command handed to the engine: the last filled byte is overwritten
      by a NUL, so the engine sees the text before it, up to any earlier
      NUL. */
  function Command(fill: string): (c: string)
    requires |fill| > 0
    ensures c <= fill[..|fill| - 1] && |c| < |fill|
    ensures Nul !in c && (|c| < |fill| - 1 ==> fill[|c|] == Nul)
    ensures Nul !in fill[..|fill| - 1] ==> c == fill[..|fill| - 1]
  {
    CStr(fill[..|fill| - 1])
  }

  /** The accumulated buffer is the old fill followed by every byte
      received, in order, cut to the capacity: when everything fits,
      nothing is lost. */
  lemma {:induction false} GatherCollects(cap: nat, fill: string, polls: seq<Poll>)
    requires |fill| <= cap
    requires Gather(cap, fill, polls).Some?
    ensures var g := Gather(cap, fill, polls).value;
      g.fill == Fit(cap, fill + Received(polls[..g.used]))
    decreases |polls|
  {
    var g := Gather(cap, fill, polls).value;
    var f := ReadInto(cap, fill, polls[0].read);
    var more := Received(polls[1..g.used]);
    ReceivedFirst(polls, g.used);
    FitStep(cap, fill, polls[0].read, more);
    assert fill + Offered(polls[0].read) + more == fill + Received(polls[..g.used]);
    if MorePending(polls[0].peek) {
      var h := Gather(cap, f, polls[1..]).value;
      assert h.used == g.used - 1 && h.fill == g.fill;
      assert polls[1..][..h.used] == polls[1..g.used];
      GatherCollects(cap, f, polls[1..]);
      assert g.fill == Fit(cap, f + more);
    } else {
      assert more == [] && f + more == f;
    }
  }

  /** The bytes received over the first `n` polls are those of the first
      poll followed by those of the rest. */
  lemma ReceivedFirst(polls: seq<Poll>, n: nat)
    requires 1 <= n <= |polls|
    ensures Received(polls[..n]) == Offered(polls[0].read) + Received(polls[1..n])
  {
    assert polls[..n][1..] == polls[1..n];
  }

  /** Splitting the input over several reads or delivering it in one read
      gives the same buffer, hence the same command, whether or not it
      fits: only the bytes and the final probe matter. */
  lemma ChunkingIrrelevant(cap: nat, fill: string, polls: seq<Poll>)
    requires |fill| <= cap
    requires Gather(cap, fill, polls).Some?
    ensures var g := Gather(cap, fill, polls).value;
      var one := Poll(Got(Received(polls[..g.used])), polls[g.used - 1].peek);
      Gather(cap, fill, [one]) == Some(Gathered(g.fill, 1))
  {
    var g := Gather(cap, fill, polls).value;
    var one := Poll(Got(Received(polls[..g.used])), polls[g.used - 1].peek);
    GatherCollects(cap, fill, polls);
    ReadKeepsFirstBytes(cap, fill, one.read);
  }

  /** Polls whose reads fail or deliver no bytes leave the fill as it
      was. */
  lemma {:induction false} NothingReadNothingFilled(cap: nat, fill: string, polls: seq<Poll>)
    requires |fill| <= cap
    requires forall i | 0 <= i < |polls| :: polls[i].read.ReadFailed? || polls[i].read.bytes == []
    requires Gather(cap, fill, polls).Some?
    ensures Gather(cap, fill, polls).value.fill == fill
    decreases |polls|
  {
    var f := ReadInto(cap, fill, polls[0].read);
    assert f == fill;
    if MorePending(polls[0].peek) {
      NothingReadNothingFilled(cap, f, polls[1..]);
    }
  }

  /** Once the buffer is full, reads ask for no bytes, so the fill never
      changes: the loop ends only when a probe finds nothing queued or
      fails, and while input stays queued it keeps polling without reading
      anything. */
  lemma {:induction false} FullBufferStalls(cap: nat, fill: string, polls: seq<Poll>)
    requires |fill| == cap
    ensures forall i | 0 <= i < |polls| :: ReadInto(cap, fill, polls[i].read) == fill
    ensures Gather(cap, fill, polls).Some? ==> Gather(cap, fill, polls).value.fill == fill
    decreases |polls|
  {
    if |polls| > 0 {
      assert ReadInto(cap, fill, polls[0].read) == fill + [];
      FullBufferStalls(cap, fill, polls[1..]);
    }
  }

  /** A command line typed with its newline reaches the engine without it. */
  lemma CommandDropsNewline(line: string)
    requires Nul !in line
    ensures Command(line + "\n") == line
  {
    assert (line + "\n")[..|line|] == line;
  }

  /** Whatever the last filled byte is, it is not part of the command; a
      line cut off by a full buffer loses its last character. */
  lemma CommandDropsLastByte(fill: string, c: char)
    requires Nul !in fill
    ensures Command(fill + [c]) == fill
  {
    assert (fill + [c])[..|fill|] == fill;
  }

  /** Example: `1+1` typed with a newline. */
  lemma TypedSum()
    ensures Gather(1024, [], [Poll(Got("1+1\n"), Queued(0))]) == Some(Gathered("1+1\n", 1))
    ensures Command("1+1\n") == "1+1"
  {
    assert [] + "1+1\n" == "1+1\n";
    CommandDropsNewline("1+1");
  }
}
