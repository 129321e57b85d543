/** Start-up of the shell: the help flag, opening the engine, and the
    input and output buffer capacities taken from the command line. The
    arguments are `argv[1..]`; they are C strings, so none holds a NUL. */
module Arguments {

  /** The default input buffer capacity (`MAXLEN`). */
  const DefaultInputMax: int := 1024

  /** The characters C's `isspace` accepts, which `atoi` skips. */
  predicate IsSpace(c: char) {
    c == ' ' || c == '\t' || c == '\n' || c == '\U{000B}' || c == '\U{000C}' || c == '\r'
  }

  predicate IsDigit(c: char) {
    '0' <= c <= '9'
  }

  /** The characters at which a combined argument is split (`" \t\n"`). */
  predicate IsBreak(c: char) {
    c == ' ' || c == '\t' || c == '\n'
  }

  predicate AllDigits(d: string) {
    forall i | 0 <= i < |d| :: IsDigit(d[i])
  }

  /** What is left of `s` once its leading white space is skipped. */
  function SkipSpaces(s: string): (t: string)
    ensures |t| <= |s| && t == s[|s| - |t|..]
    ensures forall i | 0 <= i < |s| - |t| :: IsSpace(s[i])
    ensures |t| > 0 ==> !IsSpace(t[0])
  {
    if |s| > 0 && IsSpace(s[0]) then SkipSpaces(s[1..]) else s
  }

  /** The longest prefix of `s` made of decimal digits. */
  function LeadingDigits(s: string): (d: string)
    ensures d <= s && AllDigits(d)
    ensures |d| < |s| ==> !IsDigit(s[|d|])
  {
    if |s| > 0 && IsDigit(s[0]) then [s[0]] + LeadingDigits(s[1..]) else []
  }

  /** The number a string of decimal digits denotes. */
  function DecimalValue(d: string): nat
    requires AllDigits(d)
  {
    if |d| == 0 then 0
    else DecimalValue(d[..|d| - 1]) * 10 + (d[|d| - 1] as int - '0' as int)
  }

  /** The value of the decimal digits `t` starts with. */
  function Magnitude(t: string): nat {
    DecimalValue(LeadingDigits(t))
  }

  /** C's `atoi`: skip white space, read an optional sign, then as many
      decimal digits as follow; no digits gives 0. The result is not
      truncated to the width of a C `int`. */
  function Atoi(s: string): (n: int)
    ensures var t := SkipSpaces(s);
      |t| == 0 || (t[0] != '-' && t[0] != '+' && !IsDigit(t[0])) ==> n == 0
    ensures var t := SkipSpaces(s); |t| > 0 && t[0] == '-' ==> n <= 0
    ensures var t := SkipSpaces(s); |t| == 0 || t[0] != '-' ==> n >= 0
  {
    var t := SkipSpaces(s);
    if |t| > 0 && t[0] == '-' then -(Magnitude(t[1..]) as int)
    else if |t| > 0 && t[0] == '+' then Magnitude(t[1..])
    else Magnitude(t)
  }

  /** The decimal rendering of `n`, without sign or leading zeros. */
  function Decimal(n: nat): (d: string)
    ensures |d| > 0 && AllDigits(d)
  {
    if n < 10 then [('0' as int + n) as char]
    else Decimal(n / 10) + [('0' as int + n % 10) as char]
  }

  /** `strcspn(s, " \t\n")`: the length of the prefix of `s` without a
      space, tab or newline. */
  function Span(s: string): (pos: nat)
    ensures pos <= |s|
    ensures forall i | 0 <= i < pos :: !IsBreak(s[i])
    ensures pos < |s| ==> IsBreak(s[pos])
  {
    if |s| == 0 || IsBreak(s[0]) then 0 else 1 + Span(s[1..])
  }

  /** The capacities the shell runs with. `requested` is the output size
      the arguments asked for (0 when they named none); `outputMax` is the
      capacity actually registered with the engine. */
  datatype Sizes = Sizes(inputMax: int, requested: int, outputMax: int)

  /** No usable first argument: none at all, or an empty one. */
  predicate NoArgs(args: seq<string>) {
    |args| == 0 || |args[0]| == 0
  }

  /** The first argument asks for help: it starts with `?` or is `-h`. */
  predicate WantsHelp(args: seq<string>) {
    !NoArgs(args) && (args[0][0] == '?' || args[0] == "-h")
  }

  /** The two sizes packed into one argument: the text up to the first
      space, tab or newline, and the text after it, if there is any. */
  function SplitCombined(arg: string): (sizes: (int, int))
    ensures (forall i | 0 <= i < |arg| :: !IsBreak(arg[i])) ==> sizes == (Atoi(arg), 0)
    ensures forall p: nat | FirstBreak(arg, p) :: sizes == (Atoi(arg[..p]), Atoi(arg[p + 1..]))
  {
    var pos := Span(arg);
    SpanIsFirstBreak(arg);
    assert arg[..|arg|] == arg;
    (Atoi(arg[..pos]), if pos < |arg| then Atoi(arg[pos + 1..]) else 0)
  }

  /** Position `p` holds the first space, tab or newline of `s`. */
  predicate FirstBreak(s: string, p: nat) {
    p < |s| && IsBreak(s[p]) && forall i | 0 <= i < p :: !IsBreak(s[i])
  }

  /** `strcspn` stops at the first space, tab or newline, and at the end
      when there is none. */
  lemma SpanIsFirstBreak(s: string)
    ensures forall p: nat | FirstBreak(s, p) :: p == Span(s)
    ensures (forall i | 0 <= i < |s| :: !IsBreak(s[i])) ==> Span(s) == |s|
  {
    forall p: nat | FirstBreak(s, p) ensures p == Span(s) {
      assert Span(s) < |s| ==> IsBreak(s[Span(s)]);
    }
  }

  /** The output capacity the default rule would give: eight times the
      input capacity when no output size was requested. */
  function Defaulted(inputMax: int, requested: int): int {
    if requested == 0 then 8 * inputMax else requested
  }

  /** The capacities chosen from the arguments. The output capacity the
      default rule would give is overwritten by eight times the input
      size, so it is not computed here. */
  function ParseSizes(args: seq<string>): (z: Sizes)
    ensures NoArgs(args) ==> z == Sizes(DefaultInputMax, 0, 8 * DefaultInputMax)
    ensures z.outputMax == 8 * z.inputMax
    ensures !NoArgs(args) && |args| >= 2 ==> z.inputMax == Atoi(args[0]) && z.requested == Atoi(args[1])
    ensures !NoArgs(args) && |args| == 1 ==> (z.inputMax, z.requested) == SplitCombined(args[0])
  {
    if NoArgs(args) then Sizes(DefaultInputMax, 0, DefaultInputMax * 8)
    else
      var sizes := if |args| >= 2 then (Atoi(args[0]), Atoi(args[1])) else SplitCombined(args[0]);
      Sizes(sizes.0, sizes.1, sizes.0 * 8)
  }

  /** How start-up ends: the usage text (exit status 0), an engine that
      cannot be started (exit status -1), or a running shell. */
  datatype Startup = ShowUsage | EngineUnavailable | Running(sizes: Sizes)

  function ExitStatus(st: Startup): int
    requires !st.Running?
  {
    if st.ShowUsage? then 0 else -1
  }

  /** Start-up: help is answered before the engine is opened; an engine
      that does not open ends the program; otherwise the sizes are set. */
  function Launch(args: seq<string>, engineOpens: bool): (st: Startup)
    ensures WantsHelp(args) <==> st == ShowUsage
    ensures !WantsHelp(args) && !engineOpens <==> st == EngineUnavailable
    ensures st.Running? <==> !WantsHelp(args) && engineOpens
    ensures st.Running? ==> st.sizes == ParseSizes(args)
  {
    if WantsHelp(args) then ShowUsage
    else if !engineOpens then EngineUnavailable
    else Running(ParseSizes(args))
  }

  lemma {:induction false} DecimalValueOfDecimal(n: nat)
    ensures DecimalValue(Decimal(n)) == n
  {
    if n >= 10 {
      var d := Decimal(n);
      DecimalValueOfDecimal(n / 10);
      assert d[..|d| - 1] == Decimal(n / 10);
    }
  }

  lemma {:induction false} LeadingDigitsOfNumber(d: string, rest: string)
    requires AllDigits(d)
    requires |rest| == 0 || !IsDigit(rest[0])
    ensures LeadingDigits(d + rest) == d
  {
    if |d| > 0 {
      assert (d + rest)[1..] == d[1..] + rest;
      LeadingDigitsOfNumber(d[1..], rest);
    } else {
      assert d + rest == rest;
    }
  }

  /** `atoi` ignores leading white space. */
  lemma AtoiSkipsSpace(c: char, s: string)
    requires IsSpace(c)
    ensures Atoi([c] + s) == Atoi(s)
  {
    assert ([c] + s)[1..] == s;
  }

  /** Text that starts with a digit is read by `atoi` as its leading
      digits, with nothing skipped and no sign. */
  lemma AtoiUnsigned(s: string)
    requires |s| > 0 && IsDigit(s[0])
    ensures Atoi(s) == Magnitude(s)
  {
    assert SkipSpaces(s) == s;
  }

  /** `atoi` reads back a decimal rendering, whatever non-digit text
      follows it. */
  lemma AtoiDecimal(n: nat, rest: string)
    requires |rest| == 0 || !IsDigit(rest[0])
    ensures Atoi(Decimal(n) + rest) == n
  {
    var d := Decimal(n);
    var u := d + rest;
    assert u[0] == d[0];
    AtoiUnsigned(u);
    LeadingDigitsOfNumber(d, rest);
    DecimalValueOfDecimal(n);
  }

  /** `atoi` reads back a negative decimal rendering. */
  lemma AtoiNegative(n: nat, rest: string)
    requires |rest| == 0 || !IsDigit(rest[0])
    ensures Atoi("-" + Decimal(n) + rest) == -(n as int)
  {
    var u := Decimal(n) + rest;
    DecimalValueOfDecimal(n);
    LeadingDigitsOfNumber(Decimal(n), rest);
    var t := "-" + u;
    assert t[1..] == u;
    assert SkipSpaces(t) == t;
    assert "-" + Decimal(n) + rest == t;
  }

  lemma {:induction false} SpanPastNumber(d: string, rest: string)
    requires AllDigits(d)
    requires |rest| > 0 && IsBreak(rest[0])
    ensures Span(d + rest) == |d|
  {
    if |d| > 0 {
      assert (d + rest)[1..] == d[1..] + rest;
      SpanPastNumber(d[1..], rest);
    } else {
      assert d + rest == rest;
    }
  }

  /** A single argument holding two sizes separated by a space, tab or
      newline sets the input size from the first and requests the second;
      the registered output capacity is still eight times the input. */
  lemma CombinedArgument(a: nat, sep: char, b: nat)
    requires IsBreak(sep)
    ensures ParseSizes([Decimal(a) + [sep] + Decimal(b)]) == Sizes(a, b, 8 * a)
  {
    var da, db := Decimal(a), Decimal(b);
    var arg := da + [sep] + db;
    SpanPastNumber(da, [sep] + db);
    assert arg == da + ([sep] + db);
    assert arg[..|da|] == da + [] && arg[|da| + 1..] == db + [];
    AtoiDecimal(a, []);
    AtoiDecimal(b, []);
    assert SplitCombined(arg) == (a, b);
    assert !NoArgs([arg]) && [arg][0] == arg;
  }

  /** Two separate size arguments set the input size and request the
      output size; the registered output capacity is eight times the
      input all the same. */
  lemma SeparateArguments(a: nat, b: nat)
    ensures ParseSizes([Decimal(a), Decimal(b)]) == Sizes(a, b, 8 * a)
  {
    assert Decimal(a) + [] == Decimal(a) && Decimal(b) + [] == Decimal(b);
    AtoiDecimal(a, []);
    AtoiDecimal(b, []);
  }

  /** A single size sets the input capacity and requests nothing. */
  lemma SingleSize(a: nat)
    ensures ParseSizes([Decimal(a)]) == Sizes(a, 0, 8 * a)
  {
    var d := Decimal(a);
    assert Span(d) == |d| by {
      assert forall i | 0 <= i < |d| :: !IsBreak(d[i]);
    }
    assert d[..|d|] == d + [];
    AtoiDecimal(a, []);
  }

  /** The requested output size never takes effect: the registered
      capacity is eight times the input size, so it differs from any
      other request, and the default rule's value is discarded. */
  lemma RequestedOutputIgnored(args: seq<string>)
    ensures ParseSizes(args).outputMax == 8 * ParseSizes(args).inputMax
    ensures var z := ParseSizes(args);
      z.requested != 0 && z.requested != 8 * z.inputMax ==> z.outputMax != Defaulted(z.inputMax, z.requested)
  {
  }

  /** The help flag wins over everything, including an engine that could
      not be started, and ends with exit status 0. */
  lemma HelpFlags(rest: string, more: seq<string>, engineOpens: bool)
    ensures Launch(["?" + rest] + more, engineOpens) == ShowUsage
    ensures Launch(["-h"] + more, engineOpens) == ShowUsage
    ensures ExitStatus(ShowUsage) == 0 && ExitStatus(EngineUnavailable) == -1
  {
    assert (["?" + rest] + more)[0] == "?" + rest;
    assert (["-h"] + more)[0] == "-h";
  }
}
