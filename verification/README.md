# matlabShell core, modelled in Dafny

`matlabShell` is a small console bridge between an editor's inferior-shell
mode and a MATLAB computation engine. It prints a prompt and accumulates
bytes from standard input until a probe finds nothing more queued. It then
hands the accumulated text, minus its last byte, to the engine as one
command. It prints the engine's output answer by answer, cutting it at
every `"\nans =\n\n"` marker and following each answer with a `>> ` prompt.
This repeats until an evaluation reports a non-zero status.

The model is functional. The operating system and the engine are oracles.
Each poll of the input loop is a `Poll` value: the outcome of one read and
one probe of the pipe. Each evaluation is a `Reply` value: a status, plus
the text the engine wrote into its output buffer, if it wrote any. The
console is the string of everything the session loop prints, apart from the
messages of `printErr`.

| file | module | models |
|---|---|---|
| `wrappers.dfy` | `Wrappers` | `Option` |
| `cstrings.dfy` | `CStrings` | the text a NUL-terminated buffer denotes |
| `answers.dfy` | `Answers` | the response splitter: `strstr`, the answer loop, and a cut-point reference definition |
| `arguments.dfy` | `Arguments` | help flag, engine start-up, C `atoi`, `strcspn`, the buffer sizes |
| `accumulator.dfy` | `Accumulator` | the read/probe accumulation loop and the command taken from the input buffer |
| `session.dfy` | `Session` | the session loop as a state machine driven by the two oracles |

Four behaviours of the code are worth knowing; the model keeps each of them:

- The registered output capacity is always eight times the input capacity (`matlabShell.c:129`). An output size given on the command line is read and then overwritten. `Arguments.RequestedOutputIgnored` states this.
- The byte overwritten before evaluation is the last filled byte, whatever it is (`matlabShell.c:182`). It need not be a newline (`Accumulator.CommandDropsLastByte`). A line cut short by a full buffer (`Accumulator.ReadKeepsFirstBytes`) loses its last character, but only once a probe finds nothing queued. While more input stays queued, reads into the full buffer ask for no bytes, and the accumulation loop (`matlabShell.c:143-164`) keeps polling without progress (`Accumulator.FullBufferStalls`).
- No command is recognised by its text. Only a non-zero evaluation status ends the session (`matlabShell.c:188-191`). `exit` ends it only because the engine answers it that way.
- Printing the answers follows evaluation directly, with no input in between (`matlabShell.c:183-211`), so `Session.EvalStep` covers both.

An answer after the first does not always begin with the whole marker. The
marker overlaps itself in its outer newline, so two occurrences can be only
seven characters apart (`Answers.MarkerSpacing`). In that case the earlier
answer holds the marker minus its final newline. `Answers.SegmentShape`
states the precise form: each later answer begins with the marker without
its last newline, and with the whole marker when it is the last answer or
at least as long as the marker.

## Model

| member | source | states |
|---|---|---|
| `CStrings.CStr` | matlabShell.c:182-183 | the text a buffer denotes is its prefix before the first NUL; it holds no NUL and, when shorter than the buffer, is followed by one |
| `Answers.Find` | matlabShell.c:202 | `strstr` from a position: a found position is an occurrence at or after the start with none before it; not found means no occurrence at or after the start |
| `Answers.Occurrences` | matlabShell.c:199-202 | the reference list of marker positions from a start is strictly increasing, contains only occurrences, and contains every occurrence, overlapping ones included |
| `Answers.Segments` | matlabShell.c:201-208 | the answers from a scan position: there is at least one, and the first is a prefix of the text from that position |
| `Answers.Split` | matlabShell.c:192-209 | empty output gives no answers and non-empty output at least one; the first answer is a prefix of the output |
| `Answers.Render` | matlabShell.c:192-209 | the console text is empty exactly when the output is |
| `Answers.RenderShape` | matlabShell.c:196-209 | the console receives exactly the output plus one prompt per answer; it starts with the first answer and its prompt, and ends with a prompt |
| `Answers.SplitMatchesCuts` | matlabShell.c:196-209 | the answers of non-empty output are exactly the pieces between position 0, every marker occurrence at position 1 or later, and the end |
| `Answers.SplitRoundTrip` | matlabShell.c:201-209 | joining the answers gives back the engine output: nothing lost, nothing duplicated |
| `Answers.SplitCount` | matlabShell.c:192-209 | empty output gives no answers and prints nothing; otherwise there is one answer more than there are markers at position 1 or later |
| `Answers.MarkerSpacing` | matlabShell.c:199 | two marker occurrences are at least seven characters apart |
| `Answers.SegmentShape` | matlabShell.c:201-209 | no answer is empty; the first starts the output; each later one begins with the marker minus its last newline, and with the whole marker when it is last or long enough |
| `Answers.NoMarkerInsideSegment` | matlabShell.c:202-206 | no marker starts strictly inside an answer: the scan never skips an occurrence |
| `Answers.PrintAnswers` | matlabShell.c:196-209 | the splitter loop prints each answer of the reference split followed by one prompt, and prints nothing for empty output |
| `Answers.SingleAnswer` | matlabShell.c:196-209 | output that is one `ans = 2` result is a single answer, printed with one prompt |
| `Answers.TwoAnswers` | matlabShell.c:196-209 | text before a marker is its own answer, and the marker goes with the answer it precedes |
| `Arguments.Span` | matlabShell.c:117 | `strcspn` with space, tab and newline: no break character before the returned position, and a break character at it when it is inside the string |
| `Arguments.Atoi` | matlabShell.c:112 | after leading white space, text that starts with neither a sign nor a digit reads as 0; a leading minus gives a value of at most 0, anything else a value of at least 0 |
| `Arguments.AtoiSkipsSpace` | matlabShell.c:112 | `atoi` ignores a leading white-space character |
| `Arguments.SplitCombined` | matlabShell.c:116-123 | one argument is split at its first space, tab or newline into the input size and the requested output size; without such a character the whole argument is the input size and nothing is requested |
| `Arguments.SpanIsFirstBreak` | matlabShell.c:117 | `strcspn` returns the position of the first space, tab or newline, and the length when there is none |
| `Arguments.AtoiDecimal` | matlabShell.c:112 | `atoi` reads back the decimal rendering of any natural number, whatever non-digit text follows it |
| `Arguments.AtoiNegative` | matlabShell.c:112 | `atoi` reads back a minus sign followed by a decimal rendering as the negated number |
| `Arguments.ParseSizes` | matlabShell.c:104-129 | no usable first argument gives input 1024 and output 8192; two arguments are read by `atoi` each; one argument is split at its first space, tab or newline; the output capacity is always eight times the input capacity |
| `Arguments.Launch` | matlabShell.c:91-102 | help is shown if and only if the first argument starts with `?` or is `-h`; otherwise start-up fails if and only if the engine does not open; otherwise the shell runs with the parsed sizes |
| `Arguments.HelpFlags` | matlabShell.c:93-102 | `?…` and `-h` show the usage even when the engine would not open; usage exits with 0 and engine failure with -1 |
| `Arguments.CombinedArgument` | matlabShell.c:115-126 | one argument `a<sep>b` sets input size `a` and requests `b`, yet registers output capacity `8a` |
| `Arguments.SeparateArguments` | matlabShell.c:111-114 | two arguments `a` and `b` set input size `a` and request `b`, yet register output capacity `8a` |
| `Arguments.SingleSize` | matlabShell.c:115-126 | one argument with a single number sets that input size, requests nothing, and registers eight times it |
| `Arguments.RequestedOutputIgnored` | matlabShell.c:125-129 | the registered output capacity is eight times the input capacity, so a non-zero request other than that differs from what the default rule computed |
| `Accumulator.Delivered` | matlabShell.c:145 | a read transfers at most the room asked for; a failed read transfers nothing; a read that fits transfers everything offered |
| `Accumulator.ReadInto` | matlabShell.c:145-151 | a read into the unfilled tail keeps the fill as a prefix and never exceeds the capacity; a failed read leaves it unchanged; a read that fits appends its bytes |
| `Accumulator.ReadKeepsFirstBytes` | matlabShell.c:145-148 | a read keeps exactly the first `cap` bytes of the fill followed by what the read offered, so a read that does not fit fills the buffer completely |
| `Accumulator.FitStep` | matlabShell.c:145-148 | cutting a read to the room left keeps the same first `cap` bytes as taking it in full, whatever is received afterwards |
| `Accumulator.Gather` | matlabShell.c:143-164 | the accumulation stops at the first probe that finds nothing queued or fails, and keeps going while every probe finds bytes; the old fill is kept as a prefix and the capacity is respected |
| `Accumulator.GatherCollects` | matlabShell.c:143-164 | the gathered buffer is the first `cap` bytes of the old fill followed by all bytes received, in order; when everything fits, nothing is lost |
| `Accumulator.ChunkingIrrelevant` | matlabShell.c:143-164 | input split over several reads gathers the same buffer as the same bytes delivered in one read, whether or not they fit |
| `Accumulator.NothingReadNothingFilled` | matlabShell.c:145-152 | reads that fail or deliver nothing leave the fill as it was |
| `Accumulator.FullBufferStalls` | matlabShell.c:143-164 | once the buffer is full every read leaves it unchanged, so the gathered buffer is the full one and only a probe that finds nothing or fails ends the loop |
| `Accumulator.Command` | matlabShell.c:182-183 | the command is the text of the fill without its last byte, up to its first NUL: a NUL-free prefix of it, followed in the fill by a NUL when shorter; all of it when it holds no NUL |
| `Accumulator.CommandDropsNewline` | matlabShell.c:182 | a line typed with its newline reaches the engine without it |
| `Accumulator.CommandDropsLastByte` | matlabShell.c:182 | the last filled byte never reaches the engine, whatever it is |
| `Accumulator.TypedSum` | matlabShell.c:143-182 | `1+1` typed with a newline is gathered in one poll and becomes the command `1+1` |
| `Session.Started` | matlabShell.c:140-153 | the start state keeps the invariant for every input capacity; the console begins with the start prompt and the first poll's prompt; a session that ends prints the closing message last |
| `Session.PollStep` | matlabShell.c:143-166 | every poll prints one prompt and leaves the output buffer alone; it evaluates if and only if the probe finds nothing queued and the fill after the read is non-empty, and the command is then that fill minus its last byte; otherwise the loop keeps exactly the fill after the read, within the capacity |
| `Session.EvalStep` | matlabShell.c:182-212 | a non-zero status prints the closing message and ends with exit status 0; a zero status prints the answers of the text in the output buffer, empties the fill and leaves the buffer denoting no text |
| `Session.Cleared` | matlabShell.c:210 | writing NUL into the first byte keeps the buffer's size and makes it denote no text |
| `Session.Run` | matlabShell.c:142-214 | the loop keeps its invariant (fill within capacity, commands shorter than it, exit status 0); every command sent is shorter than the capacity; a session that ends prints the closing message last |
| `Session.PollsGather` | matlabShell.c:143-166 | the loop's polls act as the accumulation loop: one prompt per poll, then the gathered command waits for the engine, or an empty fill starts over |
| `Session.SilentInputNeverEvaluates` | matlabShell.c:143-166 | input that never delivers a byte never reaches the engine: one prompt per poll and the fill stays empty |
| `Session.StaleOutputNotRepeated` | matlabShell.c:192-212 | after a successful evaluation, one that writes nothing prints nothing, because the old answers were marked consumed |
| `Session.OneCommand` | matlabShell.c:142-212 | one line read in one go and one evaluation print one prompt then what the evaluation prints; the command is the line minus its last byte |
| `Session.AnsweredCommand` | matlabShell.c:182-212 | a successful evaluation with NUL-free text prints the prompt then the rendered answers, and leaves an empty fill and a buffer denoting no text |
| `Session.FailedCommand` | matlabShell.c:183-191 | a failing evaluation prints the prompt then the closing message and ends with exit status 0 |
| `Session.SumSession` | matlabShell.c:140-212 | `1+1` answered with `ans = 2` prints `>> `, the answer and `>> `, and waits for input again |
| `Session.ExitSession` | matlabShell.c:140-191 | `exit` answered with a non-zero status prints `>> ` and `exiting`, and ends with exit status 0 |

## Left out

- Accumulator.Delivered: bytes a read offers beyond the room asked for are dropped from that poll rather than kept queued for the next read, as `ReadFile` would. The next poll's oracle may still deliver them, so the model allows more behaviour than the program and nothing false follows.
- Console and pipe I/O (`ReadFile`, `PeekNamedPipe`, `printf`, `fflush`) are oracle values and a printed string. The error messages from `printErr` are not modelled. A failed read or probe is modelled only by its effect on the loop.
- `Sleep(250)` between read and probe is left out, because the model has no notion of time.
- The engine (`engOpen`, `engOutputBuffer`, `engEvalString`) is an oracle. Whether the engine truncates its text to the registered capacity is up to the engine, so the model takes whatever text it writes.
- The initial contents of the output buffer are arbitrary, because `malloc` does not initialise memory. The model takes them as a parameter.
- `malloc` failures and the two extra bytes allocated beyond each capacity are not modelled.
- Negative input capacities are not modelled: the session loop takes the capacity as a natural number. A capacity of 0 is included; reads then never fill the buffer and no command is sent.
- Arguments.AtoiDecimal: C `int` overflow in `atoi`, and in `8*inputMax` in `Arguments.ParseSizes`, is not modelled. Integers are unbounded.
- `Answers.PrintAnswers` prints every answer but the last with a `%.Ns` format built in a ten-byte buffer (`matlabShell.c:204`). That buffer overflows for such answers of 1000 characters or more. The model prints the exact answer text, and the overflow is not modelled. The last answer is printed with `%s` (`matlabShell.c:209`) and is not affected.
- The version banner and the usage text are not modelled; the model records only whether the usage was shown.
- The debug branches and the commented-out echo and file-name code are left out, because `debug` is initialised to 0 and never set (`matlabShell.c:74`).
