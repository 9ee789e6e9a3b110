# scripts/utils in Dafny

A model of the shared command helper crate `scripts/utils` of a set of
desktop scripts (volume, brightness and write-mode controls). The crate runs
shell-like command lines and formats levels for notifications. The model covers
its pure logic:

- **Tokenizer** (`parse_command`): a quote-aware, single-pass tokenizer. Its
  state is the finished tokens, the current word and an "inside quotes" flag.
  It is modelled as a fold `Scan` over that state and as the original
  `while` loop (`ParseCommandLoop`), and the two are proved equal. `Visible`
  is an independent reference definition: the characters of the input that
  end up in some token. `QuotedPieces` is another: the quote-aware split
  of the input at the spaces outside quotes, without the scanner's state.
- **Splitting**: Rust's `str::split` on a delimiter string and `join`. These
  come with the round trip, the fact that no piece contains the delimiter,
  the leftmost choice of occurrences, and re-splitting of a joined prefix.
- **Pipeline**: the pure part of `execute_raw`. It splits the line on the
  separator (space, bar, space) into stages, picks the stage that becomes the
  program and its arguments, and picks the upstream command line.
  - `ExecuteRaw` follows the code as written, including its panics.
  - `BuildChain` and `PlanCommand` are the evidently intended pipeline: the
    last stage is fed by the chain of all the stages before it.
- **Progress**: `get_progress_bar` and `pad_progress` on `u32`. A `u32`
  overflow or underflow panics, as in a debug build.
- **Numerals**: `u32::to_string`, a base-ten numeral, with its inverse.
- **Output**: the `trim` that `execute` applies to the decoded output.

Panics are values: `Rust.Outcome` is either `Ok(value)` or
`Panicked(reason)`.

The crate's own code shows where it goes wrong, and the model follows the
code as written:
- `execute_raw` has a "No command provided!" error for a line with no
  stages (lib.rs:7). But `split` never yields zero pieces, so that branch is
  dead. The empty line instead tokenizes to no words, and `args[0]` panics.
- The recursive call at lib.rs:22 is meant to run the stages before the last
  one as the upstream pipeline. In the code, every line with the separator
  panics at lib.rs:18 before any process is spawned.
- In `pad_progress`, a width below the numeral's length plus one underflows
  `u32` at lib.rs:86 and panics. `PadLabel` is the label without that
  underflow; where `pad_progress` returns at all, it returns that label.

## Model

| member | source | states |
|---|---|---|
| Tokenizer.ParseCommand | scripts/utils/src/lib.rs:46-72 | no contract of its own; characterized by ParseCommandTokens and ParseCommandIsQuotedSplit |
| Tokenizer.Step | scripts/utils/src/lib.rs:53-66 | no contract of its own; one loop iteration, characterized by StepDescribes |
| Tokenizer.Flush | scripts/utils/src/lib.rs:68-70 | no contract of its own; the final push of a non-empty pending word, characterized by ParseCommandTokens and UnbalancedQuoteIsFlushed |
| Tokenizer.ScanDescribes | scripts/utils/src/lib.rs:52-67 | after any input, the finished tokens are non-empty and quote-free, the pending word is quote-free, the flag is set exactly when an odd number of quotes was read, and tokens plus word spell the kept characters |
| Tokenizer.StepDescribes | scripts/utils/src/lib.rs:53-66 | one loop iteration (space, quote or other character) keeps that description true |
| Tokenizer.ParseCommandTokens | scripts/utils/src/lib.rs:46-72 | no token is empty and none contains a quote character; concatenated, the tokens are exactly the input without its quotes and without spaces outside quotes; and they are the non-empty pieces of the quote-aware split |
| Tokenizer.ScanFollowsQuotedPieces | scripts/utils/src/lib.rs:52-67 | after any input, the finished tokens are the non-empty pieces of the quote-aware split so far but the last, the pending word is its last piece, and the flag is the quote parity |
| Tokenizer.ParseCommandIsQuotedSplit | scripts/utils/src/lib.rs:46-72 | for every input, the tokens are the non-empty pieces between the spaces that follow an even number of quotes, with quote characters removed, so a token breaks at such a space and nowhere else |
| Tokenizer.QuoteInsideWordJoins | scripts/utils/src/lib.rs:64 | a quoted span glued to a bare word extends that word instead of starting a new token |
| Tokenizer.ParseCommandLoop | scripts/utils/src/lib.rs:46-72 | the imperative loop with the final flush returns the same tokens as the fold |
| Tokenizer.ParseWithoutQuotesIsSplit | scripts/utils/src/lib.rs:54-62 | without quote characters, the tokens are the pieces of a split on single spaces with empty pieces dropped, so runs of spaces make no empty token |
| Tokenizer.EmptyQuotedSpanVanishes | scripts/utils/src/lib.rs:64 | two consecutive quote characters anywhere in the input leave the tokenizer state unchanged, so an empty quoted span contributes nothing |
| Tokenizer.UnbalancedQuoteIsFlushed | scripts/utils/src/lib.rs:64-70 | after any prefix that leaves a quoted span open, a rest without quote characters, spaces included, joins the pending word, and that word is returned as the last token |
| Tokenizer.UnbalancedQuoteExample | scripts/utils/src/lib.rs:64-70 | the line echo followed by an unclosed quoted hello world gives echo and hello world |
| Tokenizer.ParseQuotedMiddle | scripts/utils/src/lib.rs:54-66 | a quoted span between two bare words is one token, inner spaces kept and quotes dropped, for either quote character |
| Tokenizer.ParseCommandExamples | scripts/utils/src/lib.rs:99-115 | the three tokenizer tests, plus the empty line giving no tokens |
| Tokenizer.ParseEchoExamples | scripts/utils/src/lib.rs:117-133 | the commands of the execute tests tokenize to echo and hello, quotes removed |
| Splitting.Split | scripts/utils/src/lib.rs:5 | at least one piece; the rest is characterized by JoinSplit, SplitPiecesAvoidDelimiter and SplitLeftmost |
| Splitting.Join | scripts/utils/src/lib.rs:22 | no contract of its own; the inverse of Split, by JoinSplit |
| Splitting.JoinSplit | scripts/utils/src/lib.rs:5 | joining the pieces of a split with the same delimiter rebuilds the string |
| Splitting.SplitPiecesAvoidDelimiter | scripts/utils/src/lib.rs:5 | no piece of a split contains the delimiter |
| Splitting.SplitIsSingleIff | scripts/utils/src/lib.rs:5-8 | a split has exactly one piece if and only if the delimiter does not occur in the string |
| Splitting.SplitLeftmost | scripts/utils/src/lib.rs:5 | with two or more pieces, the first piece ends at the first occurrence of the delimiter, and the other pieces are the split of what follows it |
| Splitting.SplitOfJoinedPrefix | scripts/utils/src/lib.rs:5 | re-splitting the join of all pieces but the last gives back those pieces |
| Pipeline.Stages | scripts/utils/src/lib.rs:5 | there is at least one stage, no stage contains the separator, and joining the stages with it gives the command line back; with two or more stages, the first ends at the first separator and the rest are the split of what follows it |
| Pipeline.SpawnArgv | scripts/utils/src/lib.rs:9-11 | a program is launched exactly when the argument vector is non-empty; the program followed by its arguments is that vector |
| Pipeline.ExecuteRaw | scripts/utils/src/lib.rs:4-30 | the "No command provided!" error of the zero-stage branch is never returned |
| Pipeline.SingleStageSpawns | scripts/utils/src/lib.rs:8-15 | a line without the separator launches the words of the whole line, and panics when it has none |
| Pipeline.MultiStagePanics | scripts/utils/src/lib.rs:17-18 | every line containing the separator panics: its byte length minus one is never below the number of stages |
| Pipeline.ExecuteRawSucceedsIff | scripts/utils/src/lib.rs:4-30 | the dispatch succeeds if and only if the line has no separator and at least one word, and then it launches those words |
| Pipeline.NoBarIsOneStage | scripts/utils/src/lib.rs:5 | a line without a bar character contains no separator |
| Pipeline.EmptyCommandPanics | scripts/utils/src/lib.rs:7-10 | the empty line panics indexing an empty argument vector instead of reporting no command |
| Pipeline.ExecuteEchoExamples | scripts/utils/src/lib.rs:117-133 | the three echo commands of the tests each launch echo with the single argument hello |
| Pipeline.StagesExample | scripts/utils/src/lib.rs:5 | the three-stage line of a, b and c splits into those three stages |
| Pipeline.UpstreamAsWritten | scripts/utils/src/lib.rs:22 | no contract of its own; the upstream line as written, characterized by UpstreamDropsFirstStage |
| Pipeline.UpstreamDropsFirstStage | scripts/utils/src/lib.rs:22 | for the three-stage line of a, b and c the upstream as written is b alone, while the first two stages joined back give the two-stage line of a and b |
| Pipeline.BuildChainFollowsStages | scripts/utils/src/lib.rs:17-23 | the corrected chain runs every stage once, in order, each with its own words |
| Pipeline.ChainFeedsFromPrefix | scripts/utils/src/lib.rs:17-23 | in the corrected chain the last stage reads from exactly the chain of the line made of the stages before it, and that line splits into those stages |
| Pipeline.ThreeStagesFeedFromTwo | scripts/utils/src/lib.rs:17-23 | the last stage of the line of a, b and c is fed by the chain of the line of a and b |
| Pipeline.PlanCommand | scripts/utils/src/lib.rs:4-30 | the corrected plan refuses the line if and only if some stage has no words; otherwise every stage of its chain has a program and the stages are the line's stages in order |
| Pipeline.PlanAgreesOnSingleStage | scripts/utils/src/lib.rs:8-15 | wherever the code as written succeeds, the corrected plan runs the same single program with the same arguments |
| Pipeline.PlanExample | scripts/utils/src/lib.rs:17-27 | the corrected plan for the line of a, b and c runs a, then b, then c |
| Progress.GetProgressBar | scripts/utils/src/lib.rs:74-83 | a bar that does not panic is two characters longer than the bar length |
| Progress.Bar | scripts/utils/src/lib.rs:76-82 | an opening bracket, exactly the given number of plus signs, then spaces, then a closing bracket |
| Progress.ProgressBarShape | scripts/utils/src/lib.rs:75-82 | the filled cells come first, and their number is the whole part of progress times bar length over 100 |
| Progress.ProgressBarPanics | scripts/utils/src/lib.rs:75-80 | the bar panics if and only if the product overflows u32 or exceeds what the bar can hold, so the space count would underflow |
| Progress.PercentFits | scripts/utils/src/lib.rs:74-80 | a progress of at most 100 with a product that fits in u32 never panics |
| Progress.FilledMonotone | scripts/utils/src/lib.rs:75-79 | if a bar does not panic, the same bar with less progress does not either, and it never has more filled cells |
| Progress.FullBar | scripts/utils/src/lib.rs:75-81 | at 100 every cell is a plus sign |
| Progress.EmptyBar | scripts/utils/src/lib.rs:75-81 | at 0 every cell is a space |
| Progress.ProgressBarExample | scripts/utils/src/lib.rs:135-139 | progress 75 on a bar of 10 gives seven plus signs and three spaces in brackets |
| Progress.PadProgress | scripts/utils/src/lib.rs:85-93 | the label panics if and only if the width is below the numeral's length plus one; otherwise it has exactly the width and is the full numeral, a percent sign, then spaces |
| Progress.PadProgressReadsBack | scripts/utils/src/lib.rs:85-92 | the label never truncates the number: the digits before the percent sign denote the progress |
| Progress.PadProgressExamples | scripts/utils/src/lib.rs:141-145 | 75 at width 4 gives the padded label of the test, at width 3 no padding, and 100 at width 3 underflows |
| Progress.PadLabel | scripts/utils/src/lib.rs:85-93 | the corrected label for every level and width: the full numeral, a percent sign, then spaces up to the width when the width leaves room, and no padding otherwise |
| Progress.PadLabelAgrees | scripts/utils/src/lib.rs:85-93 | wherever the label as written does not panic, it is the corrected label |
| Progress.PadLabelReadsBack | scripts/utils/src/lib.rs:85-92 | the corrected label never truncates the number, whatever the width |
| Progress.PadLabelExamples | scripts/utils/src/lib.rs:141-145 | 100 at width 3 gives the label 100 and a percent sign, and 75 at width 4 the label of the test |
| Numerals.Decimal | scripts/utils/src/lib.rs:86 | the numeral has digits only, no leading zero, and starts with 0 exactly for zero |
| Numerals.DecimalRoundTrip | scripts/utils/src/lib.rs:86-89 | reading the numeral back gives the number |
| Numerals.CanonicalRoundTrip | scripts/utils/src/lib.rs:86-89 | every numeral without leading zeros is the numeral of the number it denotes |
| Numerals.DecimalLength | scripts/utils/src/lib.rs:86 | the numeral's length is the number of decimal digits the number needs |
| Numerals.NumeralExamples | scripts/utils/src/lib.rs:141-145 | the numerals of 0, 75 and 100 |
| Strings.ByteLength | scripts/utils/src/lib.rs:18 | the byte length of a string is between its character count and four times that |
| Strings.AsciiByteLength | scripts/utils/src/lib.rs:18 | the byte length equals the character count if and only if every character is ASCII |
| Strings.Utf8Width | scripts/utils/src/lib.rs:18 | each character takes one to four bytes, and one exactly for ASCII |
| Strings.Repeat | scripts/utils/src/lib.rs:79-80 | the repetition has the requested length and holds only the repeated character |
| Strings.CountRepeat | scripts/utils/src/lib.rs:79 | a repetition holds exactly that many copies of its character and none of any other |
| Output.IsWhitespace | scripts/utils/src/lib.rs:41 | no contract of its own; the White_Space characters that Rust's trim removes |
| Output.Trim | scripts/utils/src/lib.rs:41 | no contract of its own; characterized by TrimIsMaximalSlice and TrimIdempotent |
| Output.TrimStart | scripts/utils/src/lib.rs:41 | the result is a suffix of the input after a whitespace-only head, and does not start with whitespace |
| Output.TrimEnd | scripts/utils/src/lib.rs:41 | the result is a prefix of the input before a whitespace-only tail, and does not end with whitespace |
| Output.TrimIsMaximalSlice | scripts/utils/src/lib.rs:41 | the trimmed text is the slice between a whitespace-only head and a whitespace-only tail, with no whitespace at either end |
| Output.TrimIdempotent | scripts/utils/src/lib.rs:41 | trimming twice is trimming once |
| Output.ExecuteOutput | scripts/utils/src/lib.rs:39-44 | the returned text is the slice of the output between a whitespace-only head and a whitespace-only tail, and neither starts nor ends with whitespace |
| Output.TrimExample | scripts/utils/src/lib.rs:117-121 | the output of echo hello, with its newline, is returned as hello |

## Left out

- Process spawning, stdin and stdout piping, `wait_with_output` and the `expect` panic on a failed spawn (lib.rs:10-14, 19-26, 34) are operating-system plumbing. The model returns a `Launch` that says which program and arguments would be spawned and which upstream line would feed it.
- The recursive `execute_raw` call and its `unwrap`s at lib.rs:22 are not modelled. The upstream line is recorded as a string, and the branch that reaches it is never taken anyway, because lib.rs:18 panics first.
- `String::from_utf8_lossy` (lib.rs:41) is a foreign decoding call. `ExecuteOutput` takes the already-decoded output as a parameter.
- What `echo` prints in the execute tests (lib.rs:117-133) depends on a real process. `TrimExample` takes its output to be `hello` followed by a newline.
- `execute_cmd` and `execute` only pass on the result of `execute_raw`, and `execute_raw` never returns its error value, so only the trim step is modelled.
- Release builds, where `u32` arithmetic wraps around instead of panicking, are not modelled. `GetProgressBar` and `PadProgress` model a debug build, where an overflow or underflow panics.
- `usize` conversions of the repeat counts at lib.rs:79-80 and 89 are not modelled. They cannot fail for a `u32` on the targets the scripts run on.
- Pipeline.ExecuteRaw: its own contract states only that its "No command provided!" error is never returned. Its full behaviour is stated by `SingleStageSpawns`, `MultiStagePanics` and `ExecuteRawSucceedsIff`.
- Progress.GetProgressBar: its own contract states only the length. The layout, the filled count and the panic conditions are stated by `ProgressBarShape` and `ProgressBarPanics`.
- The volume, brightness and write-mode programs (`scripts/volumecontrol`, `scripts/brightnesscontrol`, `scripts/writemode`) are not part of this model. They are argument parsing, calls to external tools, JSON scraping and file writes.

## Findings

| source | as written | input that shows it | evidently intended | confidence | as-written member | corrected member |
|---|---|---|---|---|---|---|
| scripts/utils/src/lib.rs:18 | picks the last stage with the line's byte length minus one | the two-stage line of a and b (5 bytes, 2 stages, index 4) | the stage count minus one | not executed | Pipeline.MultiStagePanics | Pipeline.BuildChainFollowsStages |
| scripts/utils/src/lib.rs:22 | the upstream line skips stage 0 and joins the rest with a bare bar | the three-stage line of a, b and c gets the upstream b | all stages but the last, joined with the separator | not executed | Pipeline.UpstreamDropsFirstStage | Pipeline.ThreeStagesFeedFromTwo |
| scripts/utils/src/lib.rs:86 | subtracts the numeral's length and one from the width in u32 | 100 at width 3 | no padding when the width leaves no room | not executed | Progress.PadProgressExamples | Progress.PadLabel |
| scripts/utils/src/lib.rs:7-10 | the no-command branch is dead, and the empty line panics at the argument index | the empty line | refuse a line that has no command | not executed | Pipeline.EmptyCommandPanics | Pipeline.PlanCommand |
