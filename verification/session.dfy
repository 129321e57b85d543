/** The session loop of the shell: prompt, accumulate a command, evaluate
    it, print the answers, and start over, until an evaluation reports a
    non-zero status.

    The engine is an oracle: each evaluation yields a status and, possibly,
    new text written into the output buffer registered at start-up. */
module Session {

  import opened Wrappers
  import opened CStrings
  import opened Answers
  import opened Accumulator

  /** Where the loop is: filling the input buffer, holding a command for
      the engine, or finished with the process exit status. */
  datatype Phase =
    | AwaitingInput(fill: string)
    | Evaluating(command: string)
    | Terminated(exitCode: int)

  /** The loop state together with the contents of the engine's output
      buffer; the text the buffer denotes is the part before its first
      NUL. */
  datatype Shell = Shell(phase: Phase, output: string)

  /** One evaluation as the engine answers it: its status, and the text it
      wrote into the output buffer, if it wrote any. */
  datatype Reply = Reply(status: int, written: Option<string>)

  /** A transition and the text it prints. */
  datatype Step = Step(next: Shell, printed: string)

  /** The message printed when the session ends. */
  const Exiting: string := "exiting\n"

  /** The state invariant: the fill never exceeds the input capacity, a
      pending command is shorter than it, and the session only ends with
      exit status 0. */
  predicate Inv(cap: nat, sh: Shell) {
    match sh.phase
    case AwaitingInput(fill) => |fill| <= cap
    case Evaluating(command) => |command| < cap
    case Terminated(code) => code == 0
  }

  /** Start of the loop: one prompt, an empty fill, and whatever the
      output buffer holds. */
  function Start(output: string): (st: Step)
    ensures st.printed == Prompt
    ensures st.next.phase == AwaitingInput([]) && st.next.output == output
  {
    Step(Shell(AwaitingInput([]), output), Prompt)
  }

  /** The shell as started: for any input capacity the start state keeps
      the invariant, and whatever the oracles answer, the console begins
      with the start prompt followed by the prompt of the first poll, if
      there is one; a session that ends prints the closing message last. */
  lemma Started(cap: nat, output: string, polls: seq<Poll>, replies: seq<Reply>)
    ensures Inv(cap, Start(output).next)
    ensures var t := Run(cap, Start(output).next, polls, replies);
      var console := Start(output).printed + t.printed;
      && (|polls| > 0 ==> Prompt + Prompt <= console)
      && (t.final.phase.Terminated? ==> EndsWith(console, Exiting))
  {
    var t := Run(cap, Start(output).next, polls, replies);
    EndsWithPrepend(Prompt, t.printed, Exiting);
    if |polls| > 0 {
      var st := PollStep(cap, [], output, polls[0]);
      var rest := Run(cap, st.next, polls[1..], replies);
      assert t.printed == Prompt + rest.printed;
      assert Prompt + t.printed == (Prompt + Prompt) + rest.printed;
    }
  }

  /** One pass of the accumulation loop: read, print a prompt, probe. When
      the probe finds nothing more, an empty fill starts over and a
      non-empty one becomes the command. */
  function PollStep(cap: nat, fill: string, output: string, p: Poll): (st: Step)
    requires |fill| <= cap
    ensures st.printed == Prompt && st.next.output == output
    ensures st.next.phase.AwaitingInput? ==> |st.next.phase.fill| <= cap
    ensures st.next.phase.AwaitingInput? ==> st.next.phase.fill == ReadInto(cap, fill, p.read)
    ensures st.next.phase.Evaluating? <==> !MorePending(p.peek) && |ReadInto(cap, fill, p.read)| > 0
    ensures st.next.phase.Evaluating? ==> st.next.phase.command == Command(ReadInto(cap, fill, p.read))
    ensures !st.next.phase.Terminated?
  {
    var f := ReadInto(cap, fill, p.read);
    if MorePending(p.peek) || |f| == 0 then Step(Shell(AwaitingInput(f), output), Prompt)
    else Step(Shell(Evaluating(Command(f)), output), Prompt)
  }

  /** One evaluation. A non-zero status prints the closing message and
      ends the session with exit status 0. A zero status prints the
      answers found in the output buffer, if it denotes any text, marks the
      buffer empty, and returns to an empty fill. */
  function EvalStep(output: string, reply: Reply): (st: Step)
    ensures reply.status != 0 ==> st.next.phase == Terminated(0) && st.printed == Exiting
    ensures reply.status == 0 ==> st.next.phase == AwaitingInput([])
    ensures reply.status == 0 ==> CStr(st.next.output) == []
    ensures reply.status == 0 && reply.written.Some? ==> st.printed == Render(CStr(reply.written.value))
    ensures reply.status == 0 && reply.written.None? ==> st.printed == Render(CStr(output))
  {
    var buffer := if reply.written.Some? then reply.written.value else output;
    if reply.status != 0 then Step(Shell(Terminated(0), buffer), Exiting)
    else if |CStr(buffer)| == 0 then Step(Shell(AwaitingInput([]), buffer), [])
    else Step(Shell(AwaitingInput([]), Cleared(buffer)), Render(CStr(buffer)))
  }

  /** The buffer after its first byte is set to NUL. */
  function Cleared(output: string): (b: string)
    requires |output| > 0
    ensures |b| == |output| && CStr(b) == []
  {
    output[0 := Nul]
  }

  /** What a run of the loop produced: the state it stopped in, the text it
      printed, and the commands it handed to the engine. */
  datatype Trace = Trace(final: Shell, printed: string, commands: seq<string>)

  /** The loop driven by the two oracles, until it ends or the oracle it
      needs next has nothing left. */
  function Run(cap: nat, sh: Shell, polls: seq<Poll>, replies: seq<Reply>): (t: Trace)
    requires Inv(cap, sh)
    ensures Inv(cap, t.final)
    ensures forall i | 0 <= i < |t.commands| :: |t.commands[i]| < cap
    ensures t.final.phase.Terminated? && !sh.phase.Terminated? ==> EndsWith(t.printed, Exiting)
    decreases |polls| + |replies|
  {
    match sh.phase
    case Terminated(_) => Trace(sh, [], [])
    case AwaitingInput(fill) =>
      if |polls| == 0 then Trace(sh, [], [])
      else
        var st := PollStep(cap, fill, sh.output, polls[0]);
        var t := Run(cap, st.next, polls[1..], replies);
        EndsWithPrepend(st.printed, t.printed, Exiting);
        Trace(t.final, st.printed + t.printed, t.commands)
    case Evaluating(command) =>
      if |replies| == 0 then Trace(sh, [], [])
      else
        var st := EvalStep(sh.output, replies[0]);
        var t := Run(cap, st.next, polls, replies[1..]);
        EndsWithPrepend(st.printed, t.printed, Exiting);
        assert st.printed + [] == st.printed;
        Trace(t.final, st.printed + t.printed, [command] + t.commands)
  }

  /** `s` ends with `suffix`. */
  predicate EndsWith(s: string, suffix: string) {
    |suffix| <= |s| && s[|s| - |suffix|..] == suffix
  }

  lemma EndsWithPrepend(pre: string, s: string, suffix: string)
    ensures EndsWith(s, suffix) ==> EndsWith(pre + s, suffix)
  {
    if EndsWith(s, suffix) {
      assert (pre + s)[|pre + s| - |suffix|..] == s[|s| - |suffix|..];
    }
  }

  /** `n` prompts in a row. */
  function Prompts(n: nat): string {
    if n == 0 then [] else Prompt + Prompts(n - 1)
  }

  /** The loop's polls do what the accumulation loop does: from a fill,
      the polls the accumulation uses print one prompt each and, when they
      gathered something, leave the command made from it waiting for the
      engine; when they gathered nothing, the fill starts over empty. */
  lemma {:induction false} PollsGather(cap: nat, fill: string, output: string, polls: seq<Poll>)
    requires |fill| <= cap
    requires Gather(cap, fill, polls).Some?
    ensures var g := Gather(cap, fill, polls).value;
      var t := Run(cap, Shell(AwaitingInput(fill), output), polls[..g.used], []);
      && t.printed == Prompts(g.used)
      && t.commands == []
      && t.final == Shell(if |g.fill| > 0 then Evaluating(Command(g.fill)) else AwaitingInput([]), output)
    decreases |polls|
  {
    var g := Gather(cap, fill, polls).value;
    var f := ReadInto(cap, fill, polls[0].read);
    var sh := Shell(AwaitingInput(fill), output);
    var ps := polls[..g.used];
    assert ps[0] == polls[0] && ps[1..] == polls[1..g.used];
    if MorePending(polls[0].peek) {
      var h := Gather(cap, f, polls[1..]).value;
      PollsGather(cap, f, output, polls[1..]);
      assert polls[1..][..h.used] == polls[1..g.used];
    } else {
      assert ps[1..] == [];
    }
  }

  /** Input that never delivers a byte never reaches the engine: every
      poll prints a prompt and the fill stays empty. */
  lemma {:induction false} SilentInputNeverEvaluates(cap: nat, output: string, polls: seq<Poll>, replies: seq<Reply>)
    requires forall i | 0 <= i < |polls| :: polls[i].read.ReadFailed? || polls[i].read.bytes == []
    ensures var t := Run(cap, Shell(AwaitingInput([]), output), polls, replies);
      t == Trace(Shell(AwaitingInput([]), output), Prompts(|polls|), [])
    decreases |polls|
  {
    if |polls| > 0 {
      assert ReadInto(cap, [], polls[0].read) == [];
      SilentInputNeverEvaluates(cap, output, polls[1..], replies);
    }
  }

  /** A command whose evaluation writes nothing prints nothing, even right
      after a command that printed answers: the buffer was marked empty, so
      stale answers are not shown again. */
  lemma StaleOutputNotRepeated(output: string, first: Reply, second: Reply)
    requires first.status == 0 && second.status == 0 && second.written.None?
    ensures EvalStep(EvalStep(output, first).next.output, second).printed == []
  {
  }

  /** One line read in one go, then one evaluation: one prompt for the
      read, then what the evaluation prints; the command is the line minus
      its last byte. */
  lemma OneCommand(cap: nat, output: string, line: string, peek: Peek, reply: Reply)
    requires 0 < |line| <= cap && !MorePending(peek)
    ensures var st := EvalStep(output, reply);
      Run(cap, Shell(AwaitingInput([]), output), [Poll(Got(line), peek)], [reply])
        == Trace(st.next, Prompt + st.printed, [Command(line)])
  {
    var p := Poll(Got(line), peek);
    assert ReadInto(cap, [], p.read) == line by {
      assert [] + line == line;
    }
    var cmd := Command(line);
    assert PollStep(cap, [], output, p) == Step(Shell(Evaluating(cmd), output), Prompt);
    var st := EvalStep(output, reply);
    assert Run(cap, st.next, [], []) == Trace(st.next, [], []);
    assert [reply][1..] == [] && [p][1..] == [];
    assert st.printed + [] == st.printed;
    assert [cmd] + [] == [cmd];
    assert Run(cap, Shell(Evaluating(cmd), output), [], [reply]) == Trace(st.next, st.printed, [cmd]);
  }

  /** A command that the engine evaluates with status 0 and a non-empty
      answer text: the answers are printed after the read's prompt, the
      fill is empty again and the output buffer denotes no text. */
  lemma AnsweredCommand(cap: nat, output: string, line: string, w: string)
    requires 0 < |line| <= cap && |w| > 0 && Nul !in w
    ensures var t := Run(cap, Shell(AwaitingInput([]), output), [Poll(Got(line), Queued(0))], [Reply(0, Some(w))]);
      && t.commands == [Command(line)]
      && t.printed == Prompt + Render(w)
      && t.final.phase == AwaitingInput([])
      && CStr(t.final.output) == []
  {
    OneCommand(cap, output, line, Queued(0), Reply(0, Some(w)));
    CStrOfNulFree(w);
  }

  /** Example: `1+1` typed, the engine answers `ans = 2`; one
      prompt for the read, then the single answer and its prompt, and the
      loop waits for input again with the buffer marked empty. */
  lemma SumSession(output: string)
    ensures var t := Run(1024, Shell(AwaitingInput([]), output),
        [Poll(Got("1+1\n"), Queued(0))], [Reply(0, Some("\nans =\n\n     2\n\n"))]);
      && t.commands == ["1+1"]
      && t.printed == Prompt + "\nans =\n\n     2\n\n>> "
      && t.final.phase == AwaitingInput([])
      && CStr(t.final.output) == []
  {
    var w := "\nans =\n\n     2\n\n";
    assert Nul !in w;
    AnsweredCommand(1024, output, "1+1\n", w);
    TypedSum();
    SingleAnswer();
  }

  /** A command whose evaluation reports a non-zero status ends the
      session: the closing message follows the read's prompt and the exit
      status is 0. */
  lemma FailedCommand(cap: nat, output: string, line: string, reply: Reply)
    requires 0 < |line| <= cap && reply.status != 0
    ensures var t := Run(cap, Shell(AwaitingInput([]), output), [Poll(Got(line), Queued(0))], [reply]);
      && t.commands == [Command(line)]
      && t.printed == Prompt + Exiting
      && t.final.phase == Terminated(0)
  {
    OneCommand(cap, output, line, Queued(0), reply);
  }

  /** Example: `exit` typed, the engine reports a non-zero
      status; the closing message is printed and the session ends with
      exit status 0. */
  lemma ExitSession(output: string, status: int, written: Option<string>)
    requires status != 0
    ensures var t := Run(1024, Shell(AwaitingInput([]), output),
        [Poll(Got("exit\n"), Queued(0))], [Reply(status, written)]);
      && t.commands == ["exit"]
      && t.printed == Prompt + Exiting
      && t.final.phase == Terminated(0)
  {
    FailedCommand(1024, output, "exit\n", Reply(status, written));
    CommandDropsNewline("exit");
    assert "exit" + "\n" == "exit\n";
  }
}
