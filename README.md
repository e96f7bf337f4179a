# game-review: engine-output reader and accuracy pipeline in Dafny

The program reviews a finished chess game. For every position on the game's
main line it starts a UCI engine (`stockfish`), asks it to think for a fixed
time, and reads the engine's output until the `bestmove` line, keeping the
last `score` it saw. The evaluations are turned to White's point of view,
mapped to win percentages, and every move is scored for the side that made it.

This project models the three pieces of `src/main.rs` that carry logic:

- `EngineOutput` — the read loop of `get_eval`. The engine's standard output
  is a finite sequence of `ReadItem`s (a line as `read_line` returns it, with
  its newline, or a read error). `ParseLine` classifies one line as
  `Terminate`, `NoScore`, `Score(v)` or `Fatal(e)`; `Read` is the loop as a
  function; `GetEval` is the loop itself (an outer loop over lines with a
  mutable running value, and the inner `score` scan with `continue`/`break`),
  proved equal to `Read`. Every panic of the scan (`unwrap` of a missing
  token, a failed `parse`, `unreachable!`) is an explicit `Panicked` outcome.
- `Evaluations` — the loop of `main` that builds `evaluations`: the first
  value as it is, later ones negated exactly when Black is to move.
- `Accuracy` — the loop over `1..evaluations.len()` that scores odd
  transitions for White and even ones for Black.

`Text` holds the string operations these use (`starts_with`, `split(' ')`,
`parse::<i32>`, and decimal formatting, whose output parses back to the number it formats), `Int32` the `i32`
range and checked negation, `Wrappers` an `Option` type.

The model follows the code where it departs from what a UCI reader is usually described as doing:

- lines are split on the single character `' '`, not on whitespace, so the
  last token of a line keeps its `"\n"`; a line ending in `score cp 37\n`
  is therefore a panic (`CentipawnNewlineFatal`);
- `score mate K` gives `i32::MAX` for every `K`, negative ones included; the
  sign of a mate is not taken from `K` (`MateLine`);
- a kind other than `mate` or `cp` after `score` is a panic, not a line that
  is ignored (`KindFatalCases`);
- `get_eval` also stops, returning the running value, when `read_line`
  fails (line 36).

A `cp` value of `-2147483648` parses as an `i32`, and negating it when Black is
to move overflows. `CollectEvaluations` reports this as `NegationOverflow`;
the mate sentinel `i32::MAX` always negates safely (`WhiteViewInRange`).

## Model

| member | source | states |
|---|---|---|
| `Int32.Negate` | src/main.rs:98-100 | `-x` on `i32` is representable exactly when `x` is not `i32::MIN`, and then it is the additive inverse |
| `Text.StartsWithPrefix` | src/main.rs:38 | `s.starts_with(p)` holds exactly when `s` is `p` followed by some string |
| `Text.Split` | src/main.rs:42 | `split(' ')` yields at least one piece and no piece contains the separator |
| `Text.JoinSplit` | src/main.rs:42 | the pieces joined with the separator give back the line: splitting loses nothing |
| `Text.SplitJoin` | src/main.rs:42 | splitting a join of separator-free pieces gives back exactly those pieces |
| `Text.SplitAround` | src/main.rs:42 | a separator splits the tokens before it from the tokens after it |
| `Text.ParseI32` | src/main.rs:52 | a successful `parse::<i32>` yields a value in the `i32` range from a string of digits with at most a leading sign |
| `Text.ParseFormat` | src/main.rs:52 | every `i32` written in decimal parses back to itself, and the decimal form of every integer outside the range fails |
| `Text.ParseUnsigned` | src/main.rs:52 | a string of digits (leading zeros allowed) parses to its value exactly when that is in range, and fails otherwise |
| `Text.ParsePlus` | src/main.rs:52 | `+` followed by digits parses to the digits' value exactly when that is in range |
| `Text.ParseMinus` | src/main.rs:52 | `-` followed by digits (`-0` included) parses to minus the digits' value exactly when that is in range |
| `Text.LeadingZero` | src/main.rs:52 | a leading zero does not change the value of a digit string |
| `Text.ParseRejectsNewline` | src/main.rs:36-52 | a token that still ends in the newline `read_line` keeps never parses |
| `EngineOutput.ScoreOf` | src/main.rs:50-54 | what follows `score` is either a score in the `i32` range or a fatal error, never "no score" |
| `EngineOutput.ScanTokens` | src/main.rs:44-58 | the token scan never terminates reading and only yields in-range scores |
| `EngineOutput.ParseLine` | src/main.rs:38-58 | a line terminates reading exactly when it starts with `bestmove`; any score it yields is an `i32` |
| `EngineOutput.Read` | src/main.rs:33-64 | from an in-range running value the loop returns (or is left holding) an in-range value |
| `EngineOutput.GetEval` | src/main.rs:33-64 | the imperative read loop, starting from 0, produces exactly the outcome of `Read`, and a returned value is an `i32` |
| `EngineOutput.BestmoveLine` | src/main.rs:38-40 | any line beginning with `bestmove` terminates, whatever it contains, `score` tokens included |
| `EngineOutput.ScanNoScore` | src/main.rs:44-48 | the scan finds nothing if and only if no token equals `score` |
| `EngineOutput.ScanFirstScore` | src/main.rs:44-56 | only the first `score` token is used; tokens after it are read from there, later `score` tokens ignored |
| `EngineOutput.LineNoScore` | src/main.rs:38-48 | a line leaves the value unchanged if and only if it does not start with `bestmove` and has no token exactly `score` |
| `EngineOutput.LineFirstScore` | src/main.rs:42-56 | in a line of space-separated tokens the tokens after the first `score` decide the result |
| `EngineOutput.CentipawnTokens` | src/main.rs:50-52 | the tokens `cp N` after `score` give the score `N` when `N` is an `i32` and a fatal parse error otherwise, whatever follows |
| `EngineOutput.CentipawnLine` | src/main.rs:50-52 | `score cp N`, among any other space-free tokens, sets the value to the decimal `N` for every `i32` `N`, and is fatal for every `N` outside the range |
| `EngineOutput.MateLine` | src/main.rs:50-51 | `score mate` followed by anything sets the value to `i32::MAX`, whatever the mate distance |
| `EngineOutput.CentipawnNewlineFatal` | src/main.rs:36-52 | a centipawn token at the end of a line keeps its newline, so the line is a fatal parse error |
| `EngineOutput.KindFatalCases` | src/main.rs:50-53 | nothing after `score`, or a kind other than `mate` or `cp`, is fatal |
| `EngineOutput.CentipawnFatalCases` | src/main.rs:52 | nothing after `cp`, or a token after it that does not parse as an `i32`, is fatal |
| `EngineOutput.ReadNoScores` | src/main.rs:34-48 | when no line before the stop carries a score the value is the starting one (0 for `get_eval`) |
| `EngineOutput.LastScoreWins` | src/main.rs:34-64 | the value returned is that of the last score line before the first line where reading stops |
| `EngineOutput.FatalLinePanics` | src/main.rs:50-53 | a fatal line reached before reading stops makes the whole call panic with that line's error |
| `EngineOutput.ReadIgnoresAfterStop` | src/main.rs:36-40 | the lines after the first `bestmove` line (or read error) never affect the outcome |
| `EngineOutput.BestmoveKeepsValue` | src/main.rs:38-40 | a `bestmove` line returns the value held before it, even if it contains `score` |
| `Evaluations.CollectEvaluations` | src/main.rs:88-106 | the sequence has one entry per move plus one, entry 0 unchanged, entry i+1 negated iff Black is to move after move i, all in range; it fails only at the first ply whose negation overflows |
| `Evaluations.WhiteViewInRange` | src/main.rs:98-100 | turning a value to White's view stays in range iff it is not `i32::MIN` with Black to move; a mate score always does |
| `Accuracy.MoveAccuracies` | src/main.rs:110-128 | one win percentage per evaluation; White gets exactly the odd transitions (n/2 of them) scored on `win[i-1]-win[i]`, Black the even ones ((n-1)/2) on `win[i]-win[i-1]`, both in increasing order |
| `Accuracy.MovesPartition` | src/main.rs:117-127 | every transition goes to exactly one side, and a sequence of at most one evaluation gives two empty lists |

## Left out

- Starting the engine process, the pipes, the three protocol writes whose results are ignored and the unchecked `flush` (src/main.rs:15-31): operating-system I/O.
- End of output: at end of file `read_line` keeps returning an empty line and the loop at src/main.rs:36 never ends; the model's finite input ends in the outcome `Unterminated` instead.
- Which `read_line` failures occur (an I/O error, output that is not UTF-8) is not modelled; a failure is a `ReadFailure` item.
- Command-line arguments, reading the PGN file, `error`, `process::exit` and all printing (src/main.rs:8-11, 70-82, 130-135): I/O.
- The `chess` crate (PGN parsing, `Board`, `get_fen`, `make_move`, `get_main_line`, src/main.rs:84-104): a foreign library; the loop instead receives, per move, the side to move and the value `get_eval` returned for that position.
- Evaluations.CollectEvaluations: negating `i32::MIN` is modelled as a debug build does it, as the `NegationOverflow` outcome (a panic); the release behaviour, where `-i32::MIN` wraps to `i32::MIN` and the program goes on, is not modelled.
- Evaluations.CollectEvaluations: takes each `get_eval` result as a given `i32`; a panic or hang inside one of those calls, which ends the whole program, is covered by `EngineOutput.GetEval` and not repeated here.
- Accuracy.MoveAccuracies: the logistic win-percentage curve and the exponential accuracy formula are `f32` computations, kept as uninterpreted functions, and the differences are taken on `real` rather than with `f32` rounding.
- The two mean accuracies (NaN for an empty list, src/main.rs:134-135): floating point and output only.
