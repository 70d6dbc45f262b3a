# Advent of Code 2025, days 1–6, and their parser-combinator library

This project is a Dafny model of a small Rust workspace. It has two parts:

- **A parser-combinator library** (`parser-combinators/src/lib.rs`).
  - A parser maps a view of a token slice to either a success (an output and the remaining view) or a failure (an error type and the view where it failed).
  - The primitives are `read`, `pure`, `pure_with`, `fail` and `fail_with_message`.
  - The combinators are `map`, `map_const`, `satisfy`, the pair, `seql`, `seqr`, `disj` (which backtracks at most one token), `backtrack`, `choice` and `optional`.
  - The repetitions are `many`, `many1`, `sep_by`, `sep_by1`, `end_by`, `end_by1`, `sep_end_by` and `sep_end_by1`.
- **Six puzzle solvers built on it** (`src/day1.rs` … `src/day6.rs`), together with the character parsers they share (`src/parser_utils.rs`) and a row-major grid (`src/grid.rs`).

## How the model is organised

- **`Parsers`** (parsers.dfy) holds the error model (`ErrorType`, `ParseError`, `combine`), the `Outcome` of a parse, the primitives and the non-repeating combinators.
  - A parser is a total function `seq<T> -> Outcome<T, O>`, just as any Rust closure of the right type is a parser.
  - A view is modelled by the remaining token sequence itself.
  - `Obeys(p)` is the library's implicit contract: every view a parser reports is a suffix of its input. Every combinator is proved to preserve it.
  - The outcome `Diverges` stands for a call that never returns.
- **`Repetition`** (repetition.dfy) holds the repeating combinators.
  - Each is defined by a loop function: `ManyLoop`, `ThenLoop` and `TrailingSep`.
  - Each also has a `Run…` method that is the library's literal `while let` loop. The method is proved equal to its function.
  - A repetition whose element succeeds without consuming anything loops forever in Rust. The model returns `Diverges` in that case and proves that this is the only way a repetition diverges.
- **`DecimalDigits`** (decimal.dfy) holds the decimal arithmetic the days share: `NumDigits` (which is `ilog10 + 1`), `DigitAt` and the decimal rendering of a number.
- **`ParserUtils`** (parser_utils.dfy) holds `chr`, `keyword`, `whitespace`, `digit`, `nat` and `parse_all`.
  - It also holds generic round-trip lemmas: parsing a separator-joined rendering gives back the listed values.
  - Every day's grammar round trip is an instance of these lemmas.
- **`Grids`** (grid.dfy) models `Grid<T>` as a class with fields `items`, `width` and `height`. The class includes the constructor, `in_bounds`, `index_iter`, `neighbor_indices8`, `neighbors8` and indexing (`Get`, and `Put` for `index_mut`).
- **`Day1` … `Day6`** each contain:
  - the day's grammar, proved to read back a rendering of any input;
  - a reference definition of each part's answer;
  - `SolveEasy` and `SolveHard` written as the Rust loops, proved equal to the reference;
  - lemmas on what the references mean.

## Model

| member | source | states |
|---|---|---|
| Parsers.Combine | parser-combinators/src/lib.rs:19-26 | the merged error is one of the two, the one with the shorter remaining view, and on equal views the second one |
| Parsers.Read | parser-combinators/src/lib.rs:593-601 | `read` keeps the parsing contract (its view is a suffix of the input) |
| Parsers.ReadConsumesOne | parser-combinators/src/lib.rs:593-601 | `read` succeeds exactly on a non-empty view, consuming precisely its first token; on the empty view it fails with `Read` at that view |
| Parsers.PureWith | parser-combinators/src/lib.rs:528-529 | `pure_with` keeps the parsing contract |
| Parsers.Pure | parser-combinators/src/lib.rs:545-546 | `pure` keeps the parsing contract |
| Parsers.Fail | parser-combinators/src/lib.rs:559-563 | `fail` keeps the parsing contract |
| Parsers.FailWithMessage | parser-combinators/src/lib.rs:576-580 | `fail_with_message` keeps the parsing contract |
| Parsers.ZeroWidthPrimitives | parser-combinators/src/lib.rs:528-580 | `pure` and `pure_with` always succeed without consuming; `fail` and `fail_with_message` always fail at the given view |
| Parsers.Map | parser-combinators/src/lib.rs:212-215 | `map` of a contract-keeping parser keeps the contract |
| Parsers.MapConst | parser-combinators/src/lib.rs:229-232 | `map_const` of a contract-keeping parser keeps the contract |
| Parsers.MapKeepsView | parser-combinators/src/lib.rs:212-232 | `map` succeeds exactly when `p` does, with `f` of its output and the same view; a failure of `p` passes unchanged; `map_const` is `map` with a constant function |
| Parsers.Satisfy | parser-combinators/src/lib.rs:188-197 | `satisfy` preserves the contract |
| Parsers.SatisfySemantics | parser-combinators/src/lib.rs:188-197 | a failure of `p` passes through; an accepted output is returned unchanged; a rejected output is a `Satisfy` error at the view AFTER the token |
| Parsers.Pair | parser-combinators/src/lib.rs:242-247 | the pair of two contract-keeping parsers keeps the contract |
| Parsers.Seql | parser-combinators/src/lib.rs:262-266 | `seql` preserves the contract |
| Parsers.Seqr | parser-combinators/src/lib.rs:281-285 | `seqr` preserves the contract |
| Parsers.SeqlSeqrProject | parser-combinators/src/lib.rs:242-285 | `seql` and `seqr` are the pair followed by its first or second projection, on every input |
| Parsers.SequenceSuccess | parser-combinators/src/lib.rs:242-285 | when both parts succeed in turn, the pair, `seql` and `seqr` succeed with the respective outputs and the second part's view |
| Parsers.Disj | parser-combinators/src/lib.rs:148-156 | `disj` preserves the contract |
| Parsers.DisjSemantics | parser-combinators/src/lib.rs:148-156 | success of `p1` is the result; a failure of `p1` after more than one token is the result whatever the alternative; otherwise `p2` is tried from the original view, and two failures are combined |
| Parsers.SatisfyRejectionCommitsDisj | parser-combinators/src/lib.rs:148-197 | a `satisfy` rejection after more than one token commits a `disj`: the alternative is never tried |
| Parsers.Backtrack | parser-combinators/src/lib.rs:167-174 | `backtrack` preserves the contract |
| Parsers.BacktrackResetsView | parser-combinators/src/lib.rs:167-174 | any failure is reported at the original view with its error type kept; anything else is unchanged |
| Parsers.BacktrackThenDisj | parser-combinators/src/lib.rs:148-174 | `backtrack(p1).disj(p2)` tries `p2` after any failure of `p1`, however much `p1` consumed (unbounded backtracking) |
| Parsers.ChoiceFrom | parser-combinators/src/lib.rs:616-626 | trying the alternatives in order reports a view within the input when all of them keep the contract |
| Parsers.Choice | parser-combinators/src/lib.rs:616-626 | `choice` preserves the contract |
| Parsers.RunChoice | parser-combinators/src/lib.rs:616-626 | the `for` loop with early return computes `choice` |
| Parsers.ChoiceFirstDecisive | parser-combinators/src/lib.rs:616-626 | when all alternatives before `i` fail and `ps[i]` does not, the result is `ps[i]`'s |
| Parsers.ChoiceAllFail | parser-combinators/src/lib.rs:622-625 | when every alternative fails, `choice` fails with `Choice` at the original view |
| Parsers.Optional | parser-combinators/src/lib.rs:296-301 | `optional` preserves the contract |
| Parsers.OptionalNeverFails | parser-combinators/src/lib.rs:296-301 | `optional` never fails: `Some` of the output with `p`'s view, or `None` at the original view |
| Repetition.ManyLoop | parser-combinators/src/lib.rs:312-320 | the repetition loop never fails and, for a contract-keeping element, reports a suffix of its input |
| Repetition.ThenLoop | parser-combinators/src/lib.rs:331-339 | after a first element, the loop fails exactly when the first element fails, with its error, and keeps the contract |
| Repetition.TrailingSep | parser-combinators/src/lib.rs:470-474 | the final separator attempt never turns a success into a failure, and keeps the contract |
| Repetition.Many | parser-combinators/src/lib.rs:312-320 | `many` preserves the contract |
| Repetition.Many1 | parser-combinators/src/lib.rs:331-339 | `many1` preserves the contract |
| Repetition.SepBy | parser-combinators/src/lib.rs:354-368 | `sep_by` preserves the contract |
| Repetition.SepBy1 | parser-combinators/src/lib.rs:383-393 | `sep_by1` preserves the contract |
| Repetition.EndBy | parser-combinators/src/lib.rs:408-418 | `end_by` preserves the contract |
| Repetition.EndBy1 | parser-combinators/src/lib.rs:433-444 | `end_by1` preserves the contract |
| Repetition.SepEndBy | parser-combinators/src/lib.rs:459-477 | `sep_end_by` preserves the contract |
| Repetition.SepEndBy1 | parser-combinators/src/lib.rs:492-506 | `sep_end_by1` preserves the contract |
| Repetition.RunManyLoop | parser-combinators/src/lib.rs:311-319 | the `while let` loop over the element, started with outputs `res0`, yields `res0` followed by the outputs of the loop function |
| Repetition.RunSepLoop | parser-combinators/src/lib.rs:359-365 | the loop that needs a separator and then an element yields the repetition of `seqr(sep, p)` |
| Repetition.RunEndLoop | parser-combinators/src/lib.rs:411-417 | the loop that needs an element and then a separator yields the repetition of `seql(p, sep)` |
| Repetition.RunMany | parser-combinators/src/lib.rs:312-320 | the imperative `many` computes `Many` |
| Repetition.RunMany1 | parser-combinators/src/lib.rs:331-339 | the imperative `many1` computes `Many1` |
| Repetition.RunSepBy | parser-combinators/src/lib.rs:354-368 | the imperative `sep_by` computes `SepBy` |
| Repetition.RunSepBy1 | parser-combinators/src/lib.rs:383-393 | the imperative `sep_by1` computes `SepBy1` |
| Repetition.RunEndBy | parser-combinators/src/lib.rs:408-418 | the imperative `end_by` computes `EndBy` |
| Repetition.RunEndBy1 | parser-combinators/src/lib.rs:433-444 | the imperative `end_by1` computes `EndBy1` |
| Repetition.RunSepEndBy | parser-combinators/src/lib.rs:459-477 | the imperative `sep_end_by` computes `SepEndBy` |
| Repetition.RunSepEndBy1 | parser-combinators/src/lib.rs:492-506 | the imperative `sep_end_by1` computes `SepEndBy1` |
| Repetition.ManyLoopChain | parser-combinators/src/lib.rs:312-320 | the loop returns `(vs, rest)` exactly when the element succeeds once per value in `vs`, shortening the view each time and ending at `rest`, and then fails at `rest` |
| Repetition.ManyLoopStalls | parser-combinators/src/lib.rs:314-317 | after some progress, an element that succeeds without consuming makes the loop never return |
| Repetition.ManyLoopDivergesOnlyByStalling | parser-combinators/src/lib.rs:314-317 | for a contract-keeping element, the only way the loop never returns is reaching a view where the element succeeds without consuming |
| Repetition.ManyNeverFails | parser-combinators/src/lib.rs:312-320 | `many` never fails; it is `([], view)` when the element fails at once, and never returns when the element succeeds without consuming |
| Repetition.Many1Semantics | parser-combinators/src/lib.rs:331-339 | `many1` fails exactly when its first element does, with that error; otherwise it is that element followed by `many`, with at least one output |
| Repetition.Many1IsMany | parser-combinators/src/lib.rs:312-339 | when the first element succeeds and consumes, `many1` and `many` agree |
| Repetition.SepBy1Success | parser-combinators/src/lib.rs:383-506 | `sep_by1` is the first element followed by the `seqr(sep, p)` loop, and `sep_end_by1` is that result followed by the trailing-separator attempt |
| Repetition.SepBySemantics | parser-combinators/src/lib.rs:354-393 | `sep_by` is `([], view)` when the first element fails and `sep_by1` otherwise; `sep_by1` fails exactly when the first element does, with its error |
| Repetition.SepByStopsBeforeSeparator | parser-combinators/src/lib.rs:359-365 | a `sep_by1` success is a first element, then separator-element pairs, stopping where the separator fails or the element after it fails, without consuming that separator |
| Repetition.EndByChain | parser-combinators/src/lib.rs:408-418 | `end_by` returns `(vs, rest)` exactly when element-separator pairs chain from the input to `rest` and the next pair fails |
| Repetition.EndBySemantics | parser-combinators/src/lib.rs:408-444 | `end_by` never fails; `end_by1` fails exactly when its first element or that element's separator fails, and otherwise continues as `end_by` |
| Repetition.SepEndByFinalSeparator | parser-combinators/src/lib.rs:501-505 | after the elements, a successful separator's view is taken; on a failed separator, the view recorded in its error is taken; the elements are unchanged |
| Repetition.SepEndByNeverFailsAfterFirst | parser-combinators/src/lib.rs:459-506 | `sep_end_by` never fails and is `([], view)` when the first element fails; `sep_end_by1` fails exactly when its first element does |
| DecimalDigits.NumDigits | src/day2.rs:22 | a number has at least one digit |
| DecimalDigits.NumDigitsBounds | src/day2.rs:22 | a positive `n` lies between 10^(digits-1) and 10^digits, which is what `ilog10(n) + 1` means |
| DecimalDigits.NumDigitsUnique | src/day2.rs:22 | the digit count is the only `k` with 10^(k-1) <= n < 10^k |
| DecimalDigits.Decimal | src/parser_utils.rs:34-40 | a number's decimal rendering is all digits, has `NumDigits(n)` digits and no leading zero, and denotes `n` |
| DecimalDigits.DigitAt | src/day6.rs:66-69 | `n / 10^i % 10` is a single digit |
| ParserUtils.RunLength | src/parser_utils.rs:23-28 | the run length is the longest prefix satisfying `f`: every character before it satisfies `f` and the next one does not |
| ParserUtils.Chr | src/parser_utils.rs:5-7 | `chr` preserves the contract |
| ParserUtils.ChrSpec | src/parser_utils.rs:5-7 | `chr(c)` accepts exactly a leading `c`; a mismatch is a `Satisfy` error after the token; an empty view is a `Read` error |
| ParserUtils.ChrMismatchTriesAlternative | src/parser_utils.rs:5-7 | a `chr` mismatch consumes one token, so an enclosing `disj` tries the alternative (how days 1, 4 and 6 choose between letters) |
| ParserUtils.Keyword | src/parser_utils.rs:9-21 | `keyword` preserves the contract |
| ParserUtils.KeywordSpec | src/parser_utils.rs:9-21 | `keyword(kw)` consumes exactly a leading `kw` and otherwise fails with the message `keyword` at the original view |
| ParserUtils.Whitespace | src/parser_utils.rs:23-28 | `whitespace` preserves the contract |
| ParserUtils.ManyCharsIsRun | src/parser_utils.rs:23-28 | repeating a one-character test consumes exactly the maximal run of matching characters |
| ParserUtils.WhitespaceSkipsRun | src/parser_utils.rs:23-28 | `whitespace` skips exactly the maximal run of whitespace and never fails |
| ParserUtils.NewlineIsWhitespace | src/parser_utils.rs:23-28 | a newline is skipped as whitespace |
| ParserUtils.Digit | src/parser_utils.rs:30-32 | `digit` preserves the contract |
| ParserUtils.DigitSpec | src/parser_utils.rs:30-32 | `digit` succeeds exactly on a leading decimal digit and consumes only that digit |
| ParserUtils.Many1CharsIsRun | src/parser_utils.rs:34-40 | `many1` of a character test fails exactly when the run is empty, and otherwise consumes the maximal run |
| ParserUtils.Nat | src/parser_utils.rs:34-40 | `nat` preserves the contract |
| ParserUtils.NatSpec | src/parser_utils.rs:34-40 | `nat` fails exactly without a leading digit, and otherwise reads the maximal digit run as its decimal value |
| ParserUtils.NatRoundTrip | src/parser_utils.rs:34-40 | reading back a number's decimal rendering with `nat` yields the number and leaves what follows |
| ParserUtils.ParseAll | src/parser_utils.rs:42-49 | `parse_all` yields a value exactly when the parse succeeds with nothing left, and that value is the parser's output |
| ParserUtils.ParseAllSpec | src/parser_utils.rs:42-49 | `parse_all` gives `v` exactly when the parse is `(v, [])` |
| ParserUtils.SepLoopRoundTripBy | parser-combinators/src/lib.rs:359-365 | when each separator-prefixed text reads back as its value, the separator loop reads all the values of the joined texts |
| ParserUtils.SepBy1RoundTripBy | parser-combinators/src/lib.rs:383-393 | `sep_by1` reads back the values of the separator-joined texts, and `sep_end_by1` adds only the trailing-separator attempt |
| ParserUtils.SepBy1RoundTrip | parser-combinators/src/lib.rs:383-393 | the previous round trip with a single-character separator |
| ParserUtils.ManyMappedCharsIsRun | parser-combinators/src/lib.rs:312-320 | `many` of a mapped one-character parser maps every character of a matching run and stops at the first character outside it |
| ParserUtils.SepBy1LeavesTrailingSeparator | parser-combinators/src/lib.rs:383-393 | `sep_by1` on `a,a,` stops before the last comma |
| ParserUtils.EndBy1ConsumesTrailingSeparator | parser-combinators/src/lib.rs:433-444 | `end_by1` on `a,a,` consumes everything |
| ParserUtils.EndBy1DropsUnterminated | parser-combinators/src/lib.rs:433-444 | `end_by1` on `a,a` leaves the unterminated last element unread |
| ParserUtils.SepEndByTakesErrorView | parser-combinators/src/lib.rs:470-474 | `sep_end_by` on `a;` consumes the `;`, because the failed separator's error view is taken |
| Grids.AddPointsLaws | src/grid.rs:61-63 | adding points is commutative and associative, and adding the negation undoes an addition |
| Grids.FlattenRowMajor | src/grid.rs:13-21 | flattening rows of equal width has `rows * width` cells, and row `r`, column `c` lands at `r * width + c` |
| Grids.AroundRange | src/grid.rs:41-45 | the k-th offset of the 3×3 loop has coordinates in -1..=1, is numbered row-major, and is `(0, 0)` only for k = 4 |
| Grids.Grid.constructor | src/grid.rs:13-21 | the width is the first row's length, the height is the number of rows, and the items are the rows flattened; rows of equal width give a valid grid |
| Grids.Grid.OffsetInRange | src/grid.rs:65-71 | an in-bounds point's row-major position is below `width * height`, and distinct in-bounds points have distinct positions |
| Grids.Grid.Put | src/grid.rs:73-77 | `index_mut` replaces exactly the cell at the point's position and keeps the grid valid |
| Grids.Grid.IndexIter | src/grid.rs:35-37 | `index_iter` yields `height * width` points |
| Grids.Grid.IndexIterSpec | src/grid.rs:35-37 | the k-th point of `index_iter` is in bounds at position k; its points are exactly the in-bounds points; they are sorted by row, then column |
| Grids.Grid.NeighborIndices8 | src/grid.rs:39-54 | the nested loop computes the neighbour list |
| Grids.Grid.NeighborsUpToMembers | src/grid.rs:41-51 | after k steps of the loop, the list holds the in-bounds offsets among the first k, skipping the centre |
| Grids.Grid.NeighborsSpec | src/grid.rs:39-54 | a point is a neighbour exactly when it is in bounds, differs from the centre and is at most one step away in each coordinate |
| Grids.Grid.NeighborsCount | src/grid.rs:39-54 | there are at most 8 neighbours, sorted row-major, and an interior point has all 8 |
| Grids.Grid.NeighborsInRange | src/grid.rs:56-58 | every neighbour is in bounds, so `neighbors8` can index it |
| Grids.Grid.CellsAt | src/grid.rs:56-58 | the i-th cell yielded is the cell at the i-th point's position |
| Grids.Grid.Neighbors8 | src/grid.rs:56-58 | `neighbors8` yields one cell per neighbour, at most 8 |
| Day1.DirectionRoundTrip | src/day1.rs:26 | the letter of a direction reads back as that direction |
| Day1.RotationRoundTrip | src/day1.rs:26-27 | a rotation written as its letter and decimal amount reads back as itself |
| Day1.Grammar | src/day1.rs:25-28 | the day 1 grammar preserves the contract |
| Day1.NewlineBeforeRotation | src/parser_utils.rs:23-28 | before a rotation's letter, `whitespace` skips exactly the one newline |
| Day1.InputRoundTrip | src/day1.rs:25-28 | rotations written one per line, each line ending in a newline, parse back to the rotations, consuming everything, and `parse_all` yields them |
| Day1.TruncRem100 | src/day1.rs:39 | Rust's `%= 100` gives a value in (-100, 100) with the sign of the dividend that is congruent to it modulo 100 |
| Day1.ReducedReading | src/day1.rs:36-42 | the reduced dial stays congruent to the unreduced position, and is 0 exactly when that position is a multiple of 100 |
| Day1.SolveEasy | src/day1.rs:30-45 | part one counts the rotations after which the dial points at 0 |
| Day1.ClicksAreCrossings | src/day1.rs:47-77 | counting the clicks that land on 0 one by one equals the number of multiples of 100 the rotation passes |
| Day1.CrossingsShift | src/day1.rs:47-77 | the number of zero clicks depends only on the dial modulo 100 |
| Day1.Turn | src/day1.rs:51-74 | one rotation of part two leaves the dial in (-100, 100) and congruent to the moved position, and counts exactly the multiples of 100 passed; a zero amount changes nothing |
| Day1.TurnCount | src/day1.rs:60-72 | the sign-change test plus the two reduction loops count exactly the multiples of 100 passed |
| Day1.SolveHard | src/day1.rs:47-77 | part two counts every click at which the dial points at 0 |
| Day1.StopsAreClicks | src/day1.rs:30-77 | with positive amounts, part two's answer is at least part one's |
| Day2.Grammar | src/day2.rs:13-15 | the day 2 grammar preserves the contract |
| Day2.RangeRoundTrip | src/day2.rs:14 | a range written `lo-hi` reads back as itself |
| Day2.InputRoundTrip | src/day2.rs:13-15 | a comma-separated, newline-terminated list of ranges parses back to the list, consuming everything |
| Day2.WorkedExample | src/day2.rs:13-15 | `3-4,7-9` followed by a newline parses to `[(3,4),(7,9)]` with nothing left |
| Day2.DoubledIffTwoBlocks | src/day2.rs:22-27 | part one's test (even digit count, upper half equals lower half) is the two-block case of part two's test |
| Day2.TwoBlocks | src/day2.rs:26-27 | for a number of at most 2h digits, the two blocks of width h are the remainder and the quotient by 10^h |
| Day2.DoubledIsRepeated | src/day2.rs:17-71 | every ID invalid in part one is invalid in part two |
| Day2.EasyAtMostHard | src/day2.rs:17-71 | part one's total is at most part two's |
| Day2.IsDoubled | src/day2.rs:22-29 | the part one test decides `Doubled` |
| Day2.SolveEasy | src/day2.rs:17-33 | part one sums the doubled IDs of every range, a number in two ranges counted twice |
| Day2.AllBlocksMatch | src/day2.rs:50-59 | the block loop returns true exactly when all k blocks of width w equal the lowest one |
| Day2.IsRepeated | src/day2.rs:40-63 | the `num_groups` loop from 20 down to 2 decides `Repeated` |
| Day2.SolveHard | src/day2.rs:35-71 | part two sums the IDs made of a block repeated 2 to 20 times |
| Day3.Grammar | src/day3.rs:13-15 | the day 3 grammar preserves the contract |
| Day3.LineRoundTrip | src/day3.rs:14 | a non-empty line of joltages written as digits reads back as itself |
| Day3.InputRoundTrip | src/day3.rs:13-15 | newline-terminated lines parse back to the joltage lists, consuming everything |
| Day3.MaxOf | src/day3.rs:21-31 | the maximum bounds every element and, for a non-empty list, occurs in it |
| Day3.BestPairIsMaximum | src/day3.rs:17-36 | the reference answer of a line is the largest two-digit number formed by two batteries in order, and some pair attains it |
| Day3.BestPairBelow | src/day3.rs:25-30 | a line's best pair never exceeds its largest joltage followed by 9 |
| Day3.EasyLine | src/day3.rs:21-33 | the `most`/`second_most` loop computes the best pair of a line |
| Day3.SolveEasy | src/day3.rs:17-36 | part one sums the best pairs of all lines |
| Day3.FirstEligible | src/day3.rs:45-46 | the inner loop stops at the first slot the digit can improve while leaving room for the rest, or at 12 |
| Day3.PickAfter | src/day3.rs:42-54 | after any number of digits the pick has exactly 12 slots |
| Day3.HornerDigits | src/day3.rs:56-60 | folding the twelve digits with `val * 10 + digit` gives a number whose digit at each place is the corresponding pick |
| Day3.PickIsSubsequence | src/day3.rs:44-54 | every non-zero slot of the pick is a battery of the line, the chosen batteries keep their order, and each leaves enough room after it |
| Day3.OfferDigit | src/day3.rs:45-53 | the in-place update of the 12-slot array is one offer step of the reference |
| Day3.HardLine | src/day3.rs:41-61 | the twelve-slot scan of a line computes the reference value, a number below 10^12 |
| Day3.SolveHard | src/day3.rs:38-64 | part two sums the reference values of all lines |
| Day4.Grammar | src/day4.rs:13-15 | the day 4 grammar preserves the contract |
| Day4.CellRoundTrip | src/day4.rs:14 | `.` reads back as an empty cell and `@` as a roll, through the `disj` |
| Day4.RowLoop | src/day4.rs:14 | the cell loop of `many1` reads a written row back and stops where the cells end |
| Day4.RowRoundTrip | src/day4.rs:14 | a non-empty row of cells written with `.` and `@` reads back as itself |
| Day4.InputRoundTrip | src/day4.rs:14 | newline-terminated rows parse back to the rows, consuming everything |
| Day4.CountTrueClear | src/day4.rs:31 | clearing one roll lowers the number of rolls by exactly one |
| Day4.AccessibleAmong | src/day4.rs:19 | filtering the first n points of `index_iter` keeps exactly the accessible ones, in increasing position |
| Day4.AccessibleIsRoll | src/day4.rs:19 | an accessible point holds a roll |
| Day4.AccessibleAtMostRolls | src/day4.rs:19 | there are no more accessible points than rolls |
| Day4.SolveEasy | src/day4.rs:17-20 | part one's count is at most the number of rolls |
| Day4.Cleared | src/day4.rs:29-32 | after clearing the listed points, a cell is a roll exactly when it was one and no listed point sits at its position |
| Day4.ClearedCount | src/day4.rs:29-32 | clearing rolls at distinct positions lowers the number of rolls by the number of points |
| Day4.RemoveAll | src/day4.rs:29-32 | the removal loop leaves the grid equal to `Cleared` of the old grid and the list (exactly the listed rolls cleared, every other cell unchanged), counting each point once |
| Day4.NextRound | src/day4.rs:24-32 | one round lowers the number of rolls by exactly the number of accessible rolls, and adds no roll |
| Day4.RoundsSpec | src/day4.rs:23-34 | the rounds end with no accessible roll, remove only rolls, and `Removed` is exactly the number of rolls they remove |
| Day4.FirstRoundIsEasy | src/day4.rs:17-35 | the total of part two is part one's count plus what the later rounds remove |
| Day4.SolveHard | src/day4.rs:22-35 | the loop leaves the grid equal to `Rounds` of the starting grid and returns `Removed` of it; so no roll stays accessible, the total is the number of rolls removed, no roll is added, and the total is at least part one's count |
| Day4.NoneAccessible | src/day4.rs:26-28 | an empty accessible list means no point is accessible |
| Day4.RollsAt | src/day4.rs:25-31 | the points collected in a round hold rolls, are in bounds and are listed without repetition |
| Day5.Grammar | src/day5.rs:15-18 | the day 5 grammar preserves the contract |
| Day5.RangesRoundTrip | src/day5.rs:16 | newline-terminated ranges read back, stopping at the blank line |
| Day5.IdsRoundTrip | src/day5.rs:17 | newline-terminated IDs read back, consuming everything |
| Day5.InputRoundTrip | src/day5.rs:15-18 | ranges, a blank line and IDs parse back to the pair of lists, consuming everything |
| Day5.FreshCount | src/day5.rs:25-33 | the count is at most the number of IDs; it equals that number exactly when every ID is fresh, and is 0 exactly when none is |
| Day5.SolveEasy | src/day5.rs:20-36 | part one counts the listed IDs that lie in some range, each ID once |
| Day5.CoveredIsFresh | src/day5.rs:20-53 | an ID is covered by the union of the ranges exactly when it is fresh in part one's sense |
| Day5.Overlapping | src/day5.rs:43 | the first filter keeps exactly the merged ranges that overlap the new one |
| Day5.Apart | src/day5.rs:44 | the second filter keeps exactly the others, and the two filters split the list |
| Day5.FiltersKeepOrder | src/day5.rs:43-44 | both filters keep the list's order |
| Day5.Widen | src/day5.rs:46 | the fold's result contains the new range and every overlapping range, and each of its ends comes from one of them |
| Day5.WidenCovers | src/day5.rs:46 | the widened range covers exactly the new range plus the overlapping ranges |
| Day5.SeparateOverlap | src/day5.rs:38-53 | in a list of pairwise disjoint ranges, two overlapping members are the same range |
| Day5.ApartSeparate | src/day5.rs:44 | filtering keeps a list pairwise disjoint |
| Day5.FiltersCover | src/day5.rs:43-44 | together the two filters cover what the list covers |
| Day5.StepSeparate | src/day5.rs:42-49 | one merge step keeps the merged ranges well-formed and pairwise disjoint |
| Day5.StepCovers | src/day5.rs:42-49 | one merge step adds exactly the new range to what is covered |
| Day5.SeparateSize | src/day5.rs:52 | for pairwise disjoint ranges, the sum of `hi - lo + 1` is the number of IDs covered |
| Day5.SolveHard | src/day5.rs:38-53 | part two counts the IDs covered by at least one range, each once |
| Day6.Grammar | src/day6.rs:21-24 | the day 6 grammar preserves the contract |
| Day6.TryInto | src/day6.rs:22 | `try_into` gives a value exactly for four rows, and that value is the rows |
| Day6.RowRoundTrip | src/day6.rs:22 | a space-separated row of numbers reads back as itself |
| Day6.RowsRoundTrip | src/day6.rs:22 | newline-separated rows read back, stopping before the operator line |
| Day6.OpsRoundTrip | src/day6.rs:23 | space-separated operators read back as themselves |
| Day6.InputRoundTrip | src/day6.rs:21-24 | rows and operators parse back, consuming everything; the rows become four rows exactly when there are four |
| Day6.Columns | src/day6.rs:31 | zipping runs for the shortest of the four rows and the operators |
| Day6.FoldFour | src/day6.rs:48-51 | folding four numbers is their sum or their product |
| Day6.Stripped | src/day6.rs:33-47 | stripping trailing zeros gives a positive divisor of the number that does not end in 0 |
| Day6.StrippedFactor | src/day6.rs:33-47 | a positive number is its stripped value times a power of ten |
| Day6.PaddingIgnored | src/day6.rs:26-27 | zero padding appended to a number without trailing zeros is removed again, which is why the padded input gives the same answer |
| Day6.StripZeros | src/day6.rs:33-35 | the `while n % 10 == 0` loop computes the stripped value |
| Day6.SolveEasy | src/day6.rs:28-54 | part one sums, over the columns, the stripped numbers folded with the column's operator |
| Day6.ColumnNumber | src/day6.rs:66-70 | a vertical number has at most four digits |
| Day6.ColumnNumberDigits | src/day6.rs:66-70 | the j-th digit from the top of the vertical number is row j's digit at that position |
| Day6.BeyondDigitsZero | src/day6.rs:63-65 | past the largest number's digit count, every vertical number is 0, so the loop bound misses nothing |
| Day6.HardNumbers | src/day6.rs:63-73 | there is one stripped vertical number per digit of the column's largest number, none of which ends in 0 |
| Day6.SolveColumn | src/day6.rs:61-79 | a column's solution folds its vertical numbers with its operator, starting from 0 or 1 |
| Day6.SolveHard | src/day6.rs:58-84 | part two sums the column solutions |

## Left out

- The driver is not part of this model:
  - `src/main.rs` and `src/lib.rs`: the `Day` trait, reading input files, timing and printing.
  - The placeholder `src/day0.rs`.
  - The input-rewriting script `inputs/fix_day6.py`.
- Input text is a parameter: every solver and grammar takes it as a sequence of characters.
- The library's builder methods (`disj`, `map` and so on, lib.rs:36-134) are not modelled separately. They only wrap their arguments in the structs modelled here, so the model calls the combinators directly.
- Lifetimes, borrowing and `Clone` bounds are not modelled: outputs are values, not references into the input.
- The combinator structs are not modelled: each is a Dafny function returning a parser. The blanket `Fn` implementation (lib.rs:509-518) is the definition of `Parser` itself.
- A call that never returns is the outcome `Diverges`.
  - `ParseAll` maps it to `None`, as it does with the source's panics. The model does not distinguish panicking from hanging.
  - Stack overflow from deep recursion is not modelled.
- `u64`, `i32` and `i64` are unbounded (`nat`, `int`). Overflow panics in debug builds and wrap-around in release builds are not modelled.
- `nat()`'s `expect("digits parse to int")` (parser_utils.rs:39) can panic when the digits exceed the target type. In the model the digits always read as their unbounded value.
- `Whitespace` uses the Unicode White_Space code points, as Rust's `char::is_whitespace` does. Case and normalisation play no role.
- Day1.StopsAreClicks: the inequality is proved only when every amount is positive. A zero-amount rotation that leaves the dial on 0 counts again in part one but is skipped by part two (day1.rs:51-53), so the general inequality is false.
- Day2.SolveEasy, Day2.SolveHard: these require every range to start at 1 or more. `ilog10(0)` panics (day2.rs:22, 40), so a range containing 0 makes the source panic.
- Day2.EasyAtMostHard: this carries the same hypothesis, that ranges start at 1 or more.
- Day3.HardLine, Day3.SolveHard: these require every line to have at least 12 batteries. `len - 12` underflows `usize` otherwise (day3.rs:46).
- Day3.HardLine: the result is proved to be a subsequence of the line (Day3.PickIsSubsequence), but not to be the largest twelve-digit subsequence.
- Joltages are digits (`Jolt`, below 10), as the grammar guarantees. The `u8` of the source needs no wrap-around.
- Grid indexing (`index` and `index_mut`, grid.rs:65-77) panics on an out-of-range position. The model turns that into a precondition of `Get` and `Put`.
  - `Grid::new` on an empty list panics (grid.rs:14), so the constructor requires at least one row.
  - `Grid::new` does not check that the rows have equal width. `Valid()` holds only when they do; Day4's solvers require it, and rows of unequal width break the row-major layout in the source as well.
- `Grid::width` and `Grid::height` are fields read directly.
- `neighbors8` returns an iterator. The model returns the sequence of cells it yields.
- Day5.SolveHard: this requires every range to satisfy `lo <= hi`, as the puzzle input does. A reversed range is not always an error in the source: one that overlaps a merged range is absorbed by the min/max fold (day5.rs:43-46), while one that survives the merge reaches `hi - lo + 1` and underflows `u64` (day5.rs:52). The model does not follow reversed ranges through the merge.
- Day6.SolveEasy: this requires every number to be positive (`EasyReady`). Stripping trailing zeros from 0 never ends (day6.rs:33-35). The source relies on the input having no 0s (day6.rs:26-27).
- Day6.SolveHard: this requires every column to be `HardReady`. `ilog10` of a column whose largest number is 0 panics (day6.rs:63), and a vertical number that is 0 makes the stripping loop never end (day6.rs:71-73).
- Day6.TryInto: `try_into().unwrap()` on a number of rows other than four panics (day6.rs:22). The model returns `None` there, and the solvers take the four rows (`Rows`) as input.
- Day4.SolveEasy: this is a function, because the source's iterator chain changes nothing. Its own contract only bounds the count by the number of rolls. That it counts exactly the accessible rolls is stated by Day4.AccessibleAmong, whose length it returns.
- Day4.Grammar: this yields the rows. `Grid::new` (the final `.map`, day4.rs:14) is applied by the caller, so the solvers take a `Grid`.

## Notes on the code

Two details of the library's code decide what the model does:

- **`combine` on a tie.** When both errors have views of the same length, `combine` keeps the SECOND error (lib.rs:20-24). See Parsers.Combine.
- **`sep_end_by` after a failed separator.** When the final separator attempt fails, the parser continues from the view recorded in the separator's error (lib.rs:470-474 and 501-505), not from the view before the attempt. The two agree whenever the separator fails without consuming, as `chr` does on the empty view. They differ when the separator rejects a token, as `chr` does: it reports its error after that token. So `sep_end_by(chr('a'), chr(','))` on `a;` consumes the `;` (ParserUtils.SepEndByTakesErrorView). Days 1 and 3–6 use `sep_end_by1` only where the input ends or continues with a separator, so their round trips are unaffected.
