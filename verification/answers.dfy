/** The response splitter: the engine's output text is cut into answers at
    every occurrence of the marker the engine puts before a self-labelled
    result, and each answer is printed followed by a fresh prompt. */
module Answers {

  import opened Wrappers

  /** The marker the engine inserts before each `ans` result. */
  const Pattern: string := "\nans =\n\n"

  /** The prompt printed after every answer. */
  const Prompt: string := ">> "

  /** The marker occurs in `s` starting at position `i`. */
  predicate OccursAt(s: string, i: nat) {
    i + |Pattern| <= |s| && s[i..i + |Pattern|] == Pattern
  }

  /** `strstr(s + from, pattern)`: the first occurrence of the marker that
      starts at or after `from`, if any. */
  function Find(s: string, from: nat): (r: Option<nat>)
    decreases |s| - from
    ensures r.Some? ==> from <= r.value && OccursAt(s, r.value)
    ensures r.Some? ==> forall j: nat | from <= j < r.value :: !OccursAt(s, j)
    ensures r.None? ==> forall j: nat | from <= j :: !OccursAt(s, j)
  {
    if |s| < from + |Pattern| then None
    else if OccursAt(s, from) then Some(from)
    else Find(s, from + 1)
  }

  /** Reference definition: every position at or after `from` where the
      marker occurs, in increasing order, overlapping occurrences included. */
  function Occurrences(s: string, from: nat): (r: seq<nat>)
    decreases |s| - from
    ensures forall k | 0 <= k < |r| :: from <= r[k] && OccursAt(s, r[k])
    ensures forall i, k | 0 <= i < k < |r| :: r[i] < r[k]
    ensures forall j: nat | from <= j && OccursAt(s, j) :: j in r
  {
    if |s| <= from then []
    else (if OccursAt(s, from) then [from] else []) + Occurrences(s, from + 1)
  }

  /** The answers of `s` from scan position `start` on (the do-while of
      the splitter): the text up to the next marker found strictly after
      `start`, then the answers from that marker on; or the whole tail. */
  function Segments(s: string, start: nat): (r: seq<string>)
    requires start < |s|
    ensures |r| > 0 && r[0] <= s[start..]
    decreases |s| - start
  {
    match Find(s, start + 1)
    case None => [s[start..]]
    case Some(p) => [s[start..p]] + Segments(s, p)
  }

  /** The answers printed for engine output `s`: none when it is empty. */
  function Split(s: string): (r: seq<string>)
    ensures |r| == 0 <==> |s| == 0
    ensures |s| > 0 ==> r[0] <= s
  {
    if |s| == 0 then [] else Segments(s, 0)
  }

  function Concat(parts: seq<string>): string {
    if |parts| == 0 then [] else parts[0] + Concat(parts[1..])
  }

  /** What reaches the console: every answer followed by one prompt. */
  function Framed(parts: seq<string>): (r: string)
    ensures |r| == 0 <==> |parts| == 0
  {
    if |parts| == 0 then [] else parts[0] + Prompt + Framed(parts[1..])
  }

  /** The console text for engine output `s`: nothing for empty output;
      otherwise it starts with the first answer and its prompt, and ends
      with a prompt. */
  function Render(s: string): (r: string)
    ensures |r| == 0 <==> |s| == 0
  {
    Framed(Split(s))
  }

  /** The cut points are increasing and end within `s`. */
  predicate Ascending(cuts: seq<nat>, n: nat) {
    && |cuts| > 0
    && (forall i, k | 0 <= i <= k < |cuts| :: cuts[i] <= cuts[k])
    && cuts[|cuts| - 1] <= n
  }

  /** The text between consecutive cut points. */
  function Slices(s: string, cuts: seq<nat>): (r: seq<string>)
    requires Ascending(cuts, |s|)
    ensures |r| == |cuts| - 1
    ensures forall k | 0 <= k < |r| :: r[k] == s[cuts[k]..cuts[k + 1]]
  {
    if |cuts| == 1 then [] else [s[cuts[0]..cuts[1]]] + Slices(s, cuts[1..])
  }

  /** The cut points of the splitter's reference from scan position
      `start`: the start, every marker strictly after it, and the end. */
  function CutsFrom(s: string, start: nat): (c: seq<nat>)
    requires start < |s|
    ensures |c| >= 2 && c[0] == start && c[|c| - 1] == |s|
    ensures forall i, k | 0 <= i < k < |c| :: c[i] < c[k]
    ensures forall k | 0 < k < |c| - 1 :: OccursAt(s, c[k])
  {
    var occ := Occurrences(s, start + 1);
    Bracketed(start, occ, |s|);
    [start] + occ + [|s|]
  }

  /** Increasing values strictly between `lo` and `hi`, bracketed by the
      two, stay increasing. */
  lemma Bracketed(lo: nat, inner: seq<nat>, hi: nat)
    requires lo < hi
    requires forall k | 0 <= k < |inner| :: lo < inner[k] < hi
    requires forall i, k | 0 <= i < k < |inner| :: inner[i] < inner[k]
    ensures var c := [lo] + inner + [hi];
      && |c| == |inner| + 2 && c[0] == lo && c[|c| - 1] == hi
      && (forall k | 0 < k < |c| - 1 :: c[k] == inner[k - 1])
      && (forall i, k | 0 <= i < k < |c| :: c[i] < c[k])
  {
    var c := [lo] + inner + [hi];
    assert forall k | 0 < k < |c| - 1 :: c[k] == inner[k - 1];
  }

  /** The cut points of the whole output. */
  function Cuts(s: string): seq<nat>
    requires |s| > 0
  {
    CutsFrom(s, 0)
  }

  lemma ConcatAppend(a: seq<string>, b: seq<string>)
    ensures Concat(a + b) == Concat(a) + Concat(b)
  {
    if |a| > 0 {
      assert (a + b)[0] == a[0];
      assert (a + b)[1..] == a[1..] + b;
      ConcatAppend(a[1..], b);
      assert Concat(a + b) == a[0] + (Concat(a[1..]) + Concat(b));
    } else {
      assert a + b == b;
    }
  }

  lemma FramedAppend(a: seq<string>, b: seq<string>)
    ensures Framed(a + b) == Framed(a) + Framed(b)
  {
    if |a| > 0 {
      assert (a + b)[0] == a[0];
      assert (a + b)[1..] == a[1..] + b;
      FramedAppend(a[1..], b);
      assert Framed(a + b) == a[0] + Prompt + (Framed(a[1..]) + Framed(b));
    } else {
      assert a + b == b;
    }
  }

  /** Where `Find` fails, the reference finds nothing. */
  lemma {:induction false} OccurrencesNone(s: string, from: nat)
    requires Find(s, from).None?
    ensures Occurrences(s, from) == []
    decreases |s| - from
  {
    if from < |s| {
      assert !OccursAt(s, from);
      OccurrencesNone(s, from + 1);
    }
  }

  /** Where `Find` succeeds, its answer is the reference's first element
      and the rest follows it. */
  lemma {:induction false} OccurrencesFirst(s: string, from: nat, p: nat)
    requires from <= p && OccursAt(s, p)
    requires forall j: nat | from <= j < p :: !OccursAt(s, j)
    ensures Occurrences(s, from) == [p] + Occurrences(s, p + 1)
    decreases p - from
  {
    if from < p {
      assert !OccursAt(s, from);
      OccurrencesFirst(s, from + 1, p);
    }
  }

  /** Joining the answers from `start` on gives back the tail of `s`. */
  lemma {:induction false} SegmentsConcat(s: string, start: nat)
    requires start < |s|
    ensures Concat(Segments(s, start)) == s[start..]
    decreases |s| - start
  {
    match Find(s, start + 1)
    case None =>
    case Some(p) =>
      SegmentsConcat(s, p);
      ConcatAppend([s[start..p]], Segments(s, p));
      assert s[start..] == s[start..p] + s[p..];
  }

  /** Without a further marker the scan yields the tail as one piece. */
  lemma LastSlice(s: string, start: nat)
    requires start < |s| && Find(s, start + 1).None?
    ensures CutsFrom(s, start) == [start, |s|]
    ensures Segments(s, start) == Slices(s, CutsFrom(s, start))
  {
    OccurrencesNone(s, start + 1);
    var cuts := CutsFrom(s, start);
    assert cuts == [start] + [] + [|s|] == [start, |s|];
    assert cuts[1..] == [|s|];
    assert Slices(s, cuts) == [s[start..|s|]] + Slices(s, [|s|]);
    assert s[start..] == s[start..|s|];
  }

  /** A further marker at `p` adds one cut point in front of those from `p`. */
  lemma NextCut(s: string, start: nat, p: nat)
    requires start < |s| && Find(s, start + 1) == Some(p)
    ensures p < |s|
    ensures CutsFrom(s, start) == [start] + CutsFrom(s, p)
    ensures Slices(s, CutsFrom(s, start)) == [s[start..p]] + Slices(s, CutsFrom(s, p))
  {
    OccurrencesFirst(s, start + 1, p);
    var occ := Occurrences(s, p + 1);
    var cuts := CutsFrom(s, start);
    var rest := CutsFrom(s, p);
    assert cuts == [start] + ([p] + occ) + [|s|];
    assert rest == [p] + occ + [|s|];
    assert cuts == [start] + rest;
    assert cuts[1..] == rest && cuts[0] == start && cuts[1] == p;
  }

  /** The scan from `start` cuts exactly at the markers strictly after it. */
  lemma {:induction false} SegmentsAreSlices(s: string, start: nat)
    requires start < |s|
    ensures Segments(s, start) == Slices(s, CutsFrom(s, start))
    decreases |s| - start
  {
    match Find(s, start + 1)
    case None =>
      LastSlice(s, start);
    case Some(p) =>
      NextCut(s, start, p);
      SegmentsAreSlices(s, p);
  }

  /** The splitter agrees with the reference: for non-empty output the
      answers are the pieces between the start, every marker occurrence
      at a position of at least 1, and the end. */
  lemma SplitMatchesCuts(s: string)
    requires |s| > 0
    ensures Split(s) == Slices(s, Cuts(s))
    ensures Cuts(s) == [0] + Occurrences(s, 1) + [|s|]
  {
    SegmentsAreSlices(s, 0);
  }

  /** No character is lost or duplicated: the answers, with the prompts
      dropped, join back to the engine output. */
  lemma SplitRoundTrip(s: string)
    ensures Concat(Split(s)) == s
  {
    if |s| > 0 {
      SegmentsConcat(s, 0);
    }
  }

  /** Empty output prints no answer and no extra prompt; otherwise there
      is one answer per marker at a position of at least 1, plus one. */
  lemma SplitCount(s: string)
    ensures |s| == 0 ==> Split(s) == [] && Render(s) == []
    ensures |s| > 0 ==> |Split(s)| == |Occurrences(s, 1)| + 1
  {
    if |s| > 0 {
      SplitMatchesCuts(s);
    }
  }

  /** Two marker occurrences are at least seven characters apart: the
      marker overlaps itself only in its outer newline. */
  lemma MarkerSpacing(s: string, p: nat, q: nat)
    requires p < q && OccursAt(s, p) && OccursAt(s, q)
    ensures p + |Pattern| - 1 <= q
  {
    assert forall i | 0 <= i < |Pattern| :: s[p + i] == Pattern[i] by {
      forall i | 0 <= i < |Pattern| ensures s[p + i] == Pattern[i] {
        assert s[p..p + |Pattern|][i] == Pattern[i];
      }
    }
    assert s[q] == '\n' by { assert s[q..q + |Pattern|][0] == Pattern[0]; }
    assert s[q + 1] == 'a' by { assert s[q..q + |Pattern|][1] == Pattern[1]; }
  }

  /** Consecutive cut points: the first is a marker unless it is the
      start, the second is a marker unless it is the end, and they are at
      least seven characters apart after the start. */
  lemma CutStep(s: string, k: nat)
    requires |s| > 0 && k + 1 < |Cuts(s)|
    ensures Cuts(s)[k] < Cuts(s)[k + 1]
    ensures k == 0 ==> Cuts(s)[k] == 0
    ensures k > 0 ==> OccursAt(s, Cuts(s)[k])
    ensures k > 0 ==> Cuts(s)[k] + |Pattern| - 1 <= Cuts(s)[k + 1]
    ensures k > 0 && k + 2 == |Cuts(s)| ==> Cuts(s)[k] + |Pattern| <= Cuts(s)[k + 1]
  {
    var c := Cuts(s);
    if k > 0 && k + 2 < |c| {
      MarkerSpacing(s, c[k], c[k + 1]);
    }
  }

  /** Answer `k` is the text between cut points `k` and `k + 1`. */
  lemma SplitPiece(s: string, k: nat)
    requires k < |Split(s)|
    ensures |s| > 0 && k + 1 < |Cuts(s)|
    ensures Split(s)[k] == s[Cuts(s)[k]..Cuts(s)[k + 1]]
  {
    SplitMatchesCuts(s);
  }

  /** A piece of `s` that starts at a marker and reaches at least to
      the marker's last character begins with the marker, minus its final
      newline when the piece is one character shorter than the marker. */
  lemma MarkerPiece(s: string, a: nat, b: nat)
    requires OccursAt(s, a) && a + |Pattern| - 1 <= b <= |s|
    ensures Pattern[..|Pattern| - 1] <= s[a..b]
    ensures b - a >= |Pattern| ==> Pattern <= s[a..b]
  {
    assert s[a..b][..|Pattern| - 1] == s[a..a + |Pattern|][..|Pattern| - 1];
    if b - a >= |Pattern| {
      assert s[a..b][..|Pattern|] == s[a..a + |Pattern|];
    }
  }

  /** The shape of every answer: none is empty; the first starts the
      output; every later one starts at a marker occurrence, so it begins
      with the marker without its final newline, and with the whole marker
      when it is the last answer or long enough to hold it. */
  lemma SegmentShape(s: string, k: nat)
    requires k < |Split(s)|
    ensures |Split(s)[k]| > 0
    ensures k == 0 ==> Split(s)[k] <= s
    ensures k > 0 ==> Pattern[..|Pattern| - 1] <= Split(s)[k]
    ensures k > 0 && (k == |Split(s)| - 1 || |Split(s)[k]| >= |Pattern|) ==> Pattern <= Split(s)[k]
  {
    SplitPiece(s, k);
    CutStep(s, k);
    SplitCount(s);
    if k > 0 {
      MarkerPiece(s, Cuts(s)[k], Cuts(s)[k + 1]);
    }
  }

  /** A marker inside a piece of `s` is a marker of `s`. */
  lemma MarkerInPiece(s: string, a: nat, b: nat, j: nat)
    requires a <= b <= |s|
    ensures OccursAt(s[a..b], j) ==> OccursAt(s, a + j)
  {
    if j + |Pattern| <= b - a {
      var t := s[a..b];
      assert forall i | j <= i < j + |Pattern| :: t[i] == s[a + i];
      assert t[j..j + |Pattern|] == s[a + j..a + j + |Pattern|];
    }
  }

  /** Nothing of a strictly increasing sequence lies strictly between two
      of its neighbours. */
  lemma NothingBetween(c: seq<nat>, k: nat, x: nat)
    requires k + 1 < |c|
    requires forall i, m | 0 <= i < m < |c| :: c[i] < c[m]
    requires c[k] < x < c[k + 1]
    ensures x !in c
  {
    forall m | 0 <= m < |c| ensures c[m] != x {
      if m <= k {
        assert c[m] <= c[k];
      } else {
        assert c[k + 1] <= c[m];
      }
    }
  }

  /** No marker starts strictly inside an answer: the scan never skips an
      occurrence. */
  lemma NoMarkerInsideSegment(s: string, k: nat, j: nat)
    requires k < |Split(s)|
    requires 0 < j < |Split(s)[k]|
    ensures !OccursAt(Split(s)[k], j)
  {
    SplitPiece(s, k);
    SplitMatchesCuts(s);
    var c := Cuts(s);
    var a, b := c[k], c[k + 1];
    MarkerInPiece(s, a, b, j);
    NothingBetween(c, k, a + j);
    assert OccursAt(s, a + j) ==> a + j in Occurrences(s, 1);
    assert forall x | x in Occurrences(s, 1) :: x in c;
  }

  /** The console text for output `s` is the answers, each followed by one
      prompt. This is the splitter loop of the shell, with `next` the scan
      position and `pch` the result of `strstr(next + 1, pattern)`. */
  method PrintAnswers(s: string) returns (console: string)
    ensures console == Render(s)
    ensures |s| == 0 ==> console == []
  {
    console := [];
    if |s| == 0 {
      return;
    }
    var next: nat := 0;
    var pch := Find(s, next + 1);
    assert Render(s) == console + Framed(Segments(s, next));
    while pch.Some?
      invariant next < |s|
      invariant pch == Find(s, next + 1)
      invariant Render(s) == console + Framed(Segments(s, next))
      decreases |s| - next
    {
      var p := pch.value;
      if p > next {
        FramedStep(s, next, p);
        assert console + s[next..p] + Prompt + Framed(Segments(s, p))
            == console + (s[next..p] + Prompt + Framed(Segments(s, p)));
        console := console + s[next..p] + Prompt;
        next := p;
      }
      pch := Find(s, next + 1);
    }
    FramedLast(s, next);
    assert console + s[next..] + Prompt == console + (s[next..] + Prompt);
    console := console + s[next..] + Prompt;
  }

  /** One pass of the splitter loop prints the answer up to the next
      marker and its prompt. */
  lemma FramedStep(s: string, next: nat, p: nat)
    requires next < |s| && Find(s, next + 1) == Some(p)
    ensures Framed(Segments(s, next)) == s[next..p] + Prompt + Framed(Segments(s, p))
  {
    FramedAppend([s[next..p]], Segments(s, p));
    assert Framed([s[next..p]]) == s[next..p] + Prompt + [];
  }

  /** After the last marker the rest is printed with one prompt. */
  lemma FramedLast(s: string, next: nat)
    requires next < |s| && Find(s, next + 1).None?
    ensures Framed(Segments(s, next)) == s[next..] + Prompt
  {
    assert Framed([s[next..]]) == s[next..] + Prompt + [];
  }

  /** Framing adds one prompt per answer, leads with the first answer and
      its prompt, and ends with a prompt. */
  lemma {:induction false} FramedShape(parts: seq<string>)
    ensures |Framed(parts)| == |Concat(parts)| + |Prompt| * |parts|
    ensures |parts| > 0 ==> parts[0] + Prompt <= Framed(parts)
    ensures |parts| > 0 ==> Framed(parts)[|Framed(parts)| - |Prompt|..] == Prompt
  {
    if |parts| > 0 {
      FramedShape(parts[1..]);
      var r := Framed(parts);
      var rest := Framed(parts[1..]);
      assert r == (parts[0] + Prompt) + rest;
      if |parts| == 1 {
        assert rest == [];
      } else {
        assert r[|r| - |Prompt|..] == rest[|rest| - |Prompt|..];
      }
    }
  }

  /** The console receives exactly the engine output plus one prompt per
      answer: it starts with the first answer and its prompt and ends with
      a prompt, and nothing at all is printed for empty output. */
  lemma RenderShape(s: string)
    ensures |Render(s)| == |s| + |Prompt| * |Split(s)|
    ensures |Render(s)| == 0 <==> |s| == 0
    ensures |s| > 0 ==> Split(s)[0] + Prompt <= Render(s)
    ensures |s| > 0 ==> Render(s)[|Render(s)| - |Prompt|..] == Prompt
  {
    FramedShape(Split(s));
    SplitRoundTrip(s);
  }

  /** A marker cannot start where the next character is not its second. */
  lemma NoMarkerAt(s: string, i: nat)
    requires i + 1 < |s| && s[i + 1] != Pattern[1]
    ensures !OccursAt(s, i)
  {
    if i + |Pattern| <= |s| {
      assert s[i..i + |Pattern|][1] == s[i + 1];
    }
  }

  /** The search passes over a stretch that holds no marker. */
  lemma {:induction false} FindSkips(s: string, from: nat, stop: nat)
    requires from <= stop
    requires forall j: nat | from <= j < stop :: !OccursAt(s, j)
    ensures Find(s, from) == Find(s, stop)
    decreases stop - from
  {
    if from < stop {
      assert !OccursAt(s, from);
      FindSkips(s, from + 1, stop);
    }
  }

  /** Example: output that is a single result is one answer, printed
      with one prompt. */
  lemma SingleAnswer()
    ensures Split("\nans =\n\n     2\n\n") == ["\nans =\n\n     2\n\n"]
    ensures Render("\nans =\n\n     2\n\n") == "\nans =\n\n     2\n\n>> "
  {
    var s := "\nans =\n\n     2\n\n";
    forall j: nat | 1 <= j < 9 ensures !OccursAt(s, j) {
      NoMarkerAt(s, j);
    }
    FindSkips(s, 1, 9);
  }

  /** Example: text before a marker is its own answer, and the marker
      goes with the answer it precedes. */
  lemma TwoAnswers()
    ensures Split("A\nans =\n\nB") == ["A", "\nans =\n\nB"]
    ensures Render("A\nans =\n\nB") == "A>> \nans =\n\nB>> "
  {
    var s := "A\nans =\n\nB";
    assert s[1..9] == Pattern;
    assert Find(s, 1) == Some(1);
    NoMarkerAt(s, 2);
    assert Find(s, 2) == None;
    assert Segments(s, 1) == [s[1..]];
    assert Split(s) == [s[0..1]] + Segments(s, 1);
    assert s[0..1] == "A" && s[1..] == "\nans =\n\nB";
  }
}
