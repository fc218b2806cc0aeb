/**
  The queue of upcoming operators, shown as a column of `rows` labels: its
  set-up at the start of a game and its left shift after every move
  (`setupNextOperators`, `updateOperators`).
*/
module Operators {
  import opened Wrappers
  import opened JavaInt

  const Plus: string := "+"
  const Minus: string := "-"
  const Times: string := "*"
  const Divide: string := "/"

  /** One of the four texts `getRandOperator` can return. */
  predicate IsOperator(s: string) {
    s == Plus || s == Minus || s == Times || s == Divide
  }

  /** The labels at indices below `n` all hold operators. */
  predicate OperatorPrefix(labels: seq<string>, n: int) {
    forall i | 0 <= i < |labels| && i < n :: IsOperator(labels[i])
  }

  /**
    The labels after one move, where `m` is the number of moves left before the
    move is counted and `drawn` is the operator drawn at random. With more moves
    left than labels, the queue shifts left by one and `drawn` fills the last
    label; otherwise it shifts left and every label from index `m - 1` on is
    blanked, so only the operators still usable stay visible.
  */
  function ShiftedLabels(labels: seq<string>, m: int, drawn: string): (r: seq<string>)
    ensures |r| == |labels|
  {
    var n := |labels|;
    if m > n then (if n == 0 then [] else labels[1..] + [drawn])
    else seq(n, i requires 0 <= i < n => if i < m - 1 then labels[i + 1] else "")
  }

  /**
    `updateOperators`: the source's in-place loop, which reads each label's
    right neighbour before overwriting it. It computes `ShiftedLabels`, and
    the branch meant to draw a random operator when the queue is shorter than
    the labels can never run.
  */
  method UpdateOperators(labels: seq<string>, movesLeft: int, drawn: string) returns (r: seq<string>)
    requires IntMin + 2 <= movesLeft
    ensures r == ShiftedLabels(labels, movesLeft, drawn)
  {
    ghost var spec := ShiftedLabels(labels, movesLeft, drawn);
    r := labels;
    var i := 0;
    while i < |r|
      invariant 0 <= i <= |r| == |labels|
      invariant forall k | i <= k < |r| :: r[k] == labels[k]
      invariant forall k | 0 <= k < i :: r[k] == spec[k]
    {
      if movesLeft <= |r| {
        if i < movesLeft - 2 {
          r := r[i := r[i + 1]];
        } else if i < movesLeft - 1 {
          if i == |r| - 1 {
            assert false;
          } else {
            r := r[i := r[i + 1]];
          }
        } else {
          r := r[i := ""];
        }
      } else {
        if i < |r| - 1 {
          r := r[i := r[i + 1]];
        } else {
          r := r[i := drawn];
        }
      }
      i := i + 1;
    }
    assert |r| == |spec|;
  }

  /**
    After a move with `m` moves left beforehand, a label is non-empty exactly
    when its index is below `m - 1`: the queue shows `min(m - 1, rows)`
    operators, and keeps holding operators there when it held them below `m`.
  */
  lemma ShiftKeepsOperatorPrefix(labels: seq<string>, m: int, drawn: string)
    requires IsOperator(drawn)
    requires OperatorPrefix(labels, m)
    ensures var r := ShiftedLabels(labels, m, drawn);
      && OperatorPrefix(r, m - 1)
      && forall i | 0 <= i < |r| :: r[i] != "" <==> i < m - 1
  {
  }

  /**
    `setupNextOperators`: label `i` takes the `i`-th operator read from the save
    file while there is one, and otherwise a random operator `draw(i)`.
  */
  function SetupNextOperators(rows: nat, newOperators: Option<seq<string>>, draw: int -> string): (r: seq<string>)
    ensures |r| == rows
    ensures newOperators.Some? ==>
      forall i | 0 <= i < rows && i < |newOperators.value| :: r[i] == newOperators.value[i]
    ensures forall i | 0 <= i < rows && (newOperators.None? || i >= |newOperators.value|) :: r[i] == draw(i)
    ensures (forall i :: IsOperator(draw(i))) ==>
      forall i | 0 <= i < rows && (newOperators.None? || i >= |newOperators.value|) :: IsOperator(r[i])
  {
    seq(rows, i requires 0 <= i < rows =>
      if newOperators.Some? && i < |newOperators.value| then newOperators.value[i] else draw(i))
  }
}
