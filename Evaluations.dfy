/**
 * The collection loop of `main`: one evaluation for the starting position,
 * then one per played move, each turned to White's point of view by
 * negating it when Black is to move.
 */
module Evaluations {
  import opened Wrappers
  import opened Int32

  datatype Colour = White | Black

  /**
   * One move of the main line as the loop sees it: the side to move once the
   * move is made, and what `get_eval` returned for that position.
   */
  datatype Ply = Ply(sideToMove: Colour, engineEval: int)

  datatype Collection =
    | Collected(evaluations: seq<int>)
    | NegationOverflow(ply: nat)      // `-eval` overflowed on this move: a panic in a debug build

  /** Whether turning this ply's value to White's point of view overflows `i32`. */
  predicate Overflows(p: Ply) {
    p.sideToMove == Black && p.engineEval == MIN
  }

  /** The evaluation from White's point of view, as mathematics has it. */
  function WhiteView(p: Ply): int {
    if p.sideToMove == Black then -p.engineEval else p.engineEval
  }

  /**
   * The `evaluations` vector: the first evaluation as it is, then every
   * later one negated exactly when Black is to move.
   */
  method CollectEvaluations(initial: int, plies: seq<Ply>) returns (c: Collection)
    requires InRange(initial)
    requires forall i :: 0 <= i < |plies| ==> InRange(plies[i].engineEval)
    ensures c.Collected? <==> forall i :: 0 <= i < |plies| ==> !Overflows(plies[i])
    ensures c.NegationOverflow? ==>
              c.ply < |plies| && Overflows(plies[c.ply]) &&
              forall i :: 0 <= i < c.ply ==> !Overflows(plies[i])
    ensures c.Collected? ==>
              |c.evaluations| == |plies| + 1 && c.evaluations[0] == initial &&
              (forall i :: 0 <= i < |plies| ==> c.evaluations[i + 1] == WhiteView(plies[i])) &&
              forall i :: 0 <= i < |c.evaluations| ==> InRange(c.evaluations[i])
  {
    var evaluations := [initial];
    var i := 0;
    while i < |plies|
      invariant 0 <= i <= |plies|
      invariant |evaluations| == i + 1 && evaluations[0] == initial
      invariant forall k :: 0 <= k < i ==> !Overflows(plies[k])
      invariant forall k :: 0 <= k < i ==> evaluations[k + 1] == WhiteView(plies[k])
      invariant forall k :: 0 <= k < |evaluations| ==> InRange(evaluations[k])
    {
      var eval := plies[i].engineEval;
      if plies[i].sideToMove == Black {
        match Negate(eval)
        case None =>
          return NegationOverflow(i);
        case Some(negated) =>
          eval := negated;
      }
      evaluations := evaluations + [eval];
      i := i + 1;
    }
    return Collected(evaluations);
  }

  /**
   * The only value whose negation overflows is `i32::MIN`: a mate score
   * (`i32::MAX`) with Black to move becomes `-i32::MAX`, which fits.
   */
  lemma WhiteViewInRange(p: Ply)
    requires InRange(p.engineEval)
    ensures InRange(WhiteView(p)) <==> !Overflows(p)
    ensures p.engineEval == MAX ==> InRange(WhiteView(p))
  {
  }
}
