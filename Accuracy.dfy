/**
 * The accuracy loop of `main`: the evaluations become win percentages, and
 * every transition from one position to the next is scored for the side
 * that made the move. The floating-point formulas are parameters.
 */
module Accuracy {
  /** Number of transitions `i` in `1..n` with `i` odd (White's moves). */
  function WhiteMoves(n: nat): nat {
    n / 2
  }

  /** Number of transitions `i` in `1..n` with `i` even (Black's moves). */
  function BlackMoves(n: nat): nat {
    if n == 0 then 0 else (n - 1) / 2
  }

  /**
   * `win_percentages` and the loop over `1..evaluations.len()`: an odd
   * transition `i` scores White's loss `win[i-1] - win[i]`, an even one
   * scores Black's loss `win[i] - win[i-1]`; `winPct` stands for the logistic
   * curve and `accuracyOfLoss` for the exponential accuracy formula.
   */
  method MoveAccuracies(evaluations: seq<int>, winPct: int -> real, accuracyOfLoss: real -> real)
    returns (win: seq<real>, white: seq<real>, black: seq<real>)
    ensures |win| == |evaluations| && forall i :: 0 <= i < |win| ==> win[i] == winPct(evaluations[i])
    ensures |white| == WhiteMoves(|evaluations|) && |black| == BlackMoves(|evaluations|)
    ensures forall k :: 0 <= k < |white| ==> white[k] == accuracyOfLoss(win[2 * k] - win[2 * k + 1])
    ensures forall k :: 0 <= k < |black| ==> black[k] == accuracyOfLoss(win[2 * k + 2] - win[2 * k + 1])
  {
    win := seq(|evaluations|, i requires 0 <= i < |evaluations| => winPct(evaluations[i]));
    white, black := [], [];
    var i := 1;
    while i < |win|
      invariant |win| == 0 ==> i == 1
      invariant |win| > 0 ==> 1 <= i <= |win|
      invariant |white| == i / 2 && |black| == (i - 1) / 2
      invariant 2 * |white| <= i && 2 * |black| < i
      invariant forall k :: 0 <= k < |white| ==> white[k] == accuracyOfLoss(win[2 * k] - win[2 * k + 1])
      invariant forall k :: 0 <= k < |black| ==> black[k] == accuracyOfLoss(win[2 * k + 2] - win[2 * k + 1])
    {
      if i % 2 == 1 {
        white := white + [accuracyOfLoss(win[i - 1] - win[i])];
      } else {
        black := black + [accuracyOfLoss(win[i] - win[i - 1])];
      }
      i := i + 1;
    }
  }

  /** Every transition goes to exactly one side. */
  lemma MovesPartition(n: nat)
    ensures WhiteMoves(n) + BlackMoves(n) == if n == 0 then 0 else n - 1
    ensures n <= 1 ==> WhiteMoves(n) == 0 && BlackMoves(n) == 0
  {
  }
}
