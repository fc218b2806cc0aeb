/**
  The game rules inside the click handler of `GameGui`: combining two cells with
  the front operator, the cross of cells the second click may choose, the
  deadlock rule, and the win/loss check after each move.
*/
module Engine {
  import opened Wrappers
  import opened JavaInt
  import opened GameSettings
  import opened Grid
  import opened Operators

  /** Whether the game goes on, or which post-game screen it ended on. */
  datatype Phase = Playing | Won | Lost(deficit: int)

  /**
    The state behind the game screen: the settings, the moves left, the cell
    values, the selected (anchor) cell if any, the operator labels (index 0 is
    the operator of the next move) and the phase.
  */
  datatype Game = Game(
    settings: Settings,
    movesLeft: int,
    grid: seq<seq<int>>,
    anchor: Option<Pos>,
    labels: seq<string>,
    phase: Phase)

  function Rows(g: Game): int {
    g.settings.GetRows()
  }

  function Target(g: Game): int {
    g.settings.GetTargetVal()
  }

  /** The shape the Java fields always have: a `rows` by `cols` button grid of
      `int` values, one operator label per row, and an anchor on the grid. */
  predicate WellFormed(g: Game) {
    && Valid(g.settings)
    && g.settings.GetRows() >= 0 && g.settings.GetCols() >= 0
    && IsGrid(g.grid, g.settings.GetRows(), g.settings.GetCols())
    && AllInts(g.grid)
    && |g.labels| == g.settings.GetRows()
    && IsInt(g.movesLeft)
    && (g.anchor.Some? ==> InGrid(g.grid, g.anchor.value))
  }

  // ------------------------------------------------------------ one move

  /** The exact value of `a op b` on digits, division rounding down (which is
      toward zero for non-negative operands). */
  function Exact(op: string, a: nat, b: nat): int
    requires op == Divide ==> b != 0
  {
    if op == Plus then a + b
    else if op == Minus then a - b
    else if op == Times then a * b
    else if op == Divide then a / b
    else 0
  }

  /**
    The value written to the anchor: `Math.abs((a op b) % 10)` in Java `int`
    arithmetic, where a label that is no operator leaves the result at 0. It
    is always a digit.
  */
  function Combine(op: string, a: int, b: int): (r: int)
    requires op == Divide ==> b != 0
    ensures 0 <= r <= 9
  {
    var raw :=
      if op == Plus then Wrap(a + b)
      else if op == Minus then Wrap(a - b)
      else if op == Times then Wrap(a * b)
      else if op == Divide then Wrap(Quot(a, b))
      else 0;
    JavaAbs(Rem(raw, 10))
  }

  /** On digit operands nothing wraps, and the written value is the last decimal
      digit of the magnitude of the exact result. */
  lemma CombineDigits(op: string, a: nat, b: nat)
    requires IsOperator(op) && a <= 9 && b <= 9
    requires op == Divide ==> b != 0
    ensures Combine(op, a, b) == Abs(Exact(op, a, b)) % 10
  {
    var raw := Exact(op, a, b);
    assert IsInt(raw) && Combine(op, a, b) == JavaAbs(Rem(raw, 10)) by {
      if op == Times {
        DigitProduct(a, b);
      } else if op == Divide {
        DigitQuotient(a, b);
      }
    }
    AbsRemTen(raw);
  }

  /** The product of two digits fits in an `int`. */
  lemma DigitProduct(a: nat, b: nat)
    requires a <= 9 && b <= 9
    ensures 0 <= a * b <= 81
  {
    assert a * b <= 9 * b;
  }

  /** On non-negative operands Java's quotient is the Euclidean one, at most the dividend. */
  lemma DigitQuotient(a: nat, b: nat)
    requires a <= 9 && 1 <= b <= 9
    ensures Quot(a, b) == a / b && 0 <= a / b <= a
  {
    var q := a / b;
    assert q * b <= a;
    assert q <= q * b;
  }

  /** A subtraction with a negative result: Java's remainder keeps the sign and
      `Math.abs` drops it, so `a - b` writes `b - a`, where a Euclidean
      remainder would give `10 - (b - a)` (3 - 7 writes 4, not 6). */
  lemma CombineNegativeDifference(a: nat, b: nat)
    requires a < b <= 9
    ensures Combine(Minus, a, b) == b - a
    ensures (a - b) % 10 == 10 - (b - a)
  {
    assert Wrap(a - b) == a - b;
    assert Quot(a - b, 10) == 0;
  }

  /**
    Cell `p` is enabled for the second click of a move: it is not the anchor,
    it shares the anchor's row or column, and it does not hold 0 while the
    front operator is `/`.
  */
  predicate Available(grid: seq<seq<int>>, anchor: Pos, front: string, p: Pos) {
    && InGrid(grid, p)
    && p != anchor
    && !(front == Divide && At(grid, p) == 0)
    && (p.row == anchor.row || p.col == anchor.col)
  }

  /** No cell can be chosen as the second click. */
  predicate Deadlocked(grid: seq<seq<int>>, anchor: Pos, front: string) {
    !exists i, j | 0 <= i < |grid| && 0 <= j < |grid[i]| :: Available(grid, anchor, front, Pos(i, j))
  }

  /** No cell of row `i` left of column `j` is available. */
  predicate RowClear(grid: seq<seq<int>>, anchor: Pos, front: string, i: int, j: int) {
    forall j' | 0 <= j' < j :: !Available(grid, anchor, front, Pos(i, j'))
  }

  /** Entries `0` to `n - 1` of `row` say which cells of grid row `i` are available. */
  predicate RowMatches(row: seq<bool>, grid: seq<seq<int>>, anchor: Pos, front: string, i: int, n: int) {
    n <= |row| && forall j | 0 <= j < n :: row[j] <==> Available(grid, anchor, front, Pos(i, j))
  }

  /** The board is deadlocked exactly when every row is clear. */
  lemma ClearRowsDeadlock(grid: seq<seq<int>>, rows: nat, cols: nat, anchor: Pos, front: string)
    requires IsGrid(grid, rows, cols)
    ensures Deadlocked(grid, anchor, front) <==> forall i | 0 <= i < rows :: RowClear(grid, anchor, front, i, cols)
  {
    if Deadlocked(grid, anchor, front) {
      forall i | 0 <= i < rows
        ensures RowClear(grid, anchor, front, i, cols)
      {
        forall j | 0 <= j < cols
          ensures !Available(grid, anchor, front, Pos(i, j))
        {
          assert 0 <= j < |grid[i]|;
        }
      }
    } else {
      var i, j :| 0 <= i < |grid| && 0 <= j < |grid[i]| && Available(grid, anchor, front, Pos(i, j));
      assert !RowClear(grid, anchor, front, i, cols);
    }
  }

  /**
    One row of `createAvailableButtonsCross`'s sweep: each button of row `i` is
    disabled if it is the anchor or (under `/`) holds 0, and otherwise enabled
    when it shares the anchor's row or column; the enabled ones are counted.
  */
  method CrossRow(grid: seq<seq<int>>, rows: nat, cols: nat, anchor: Pos, front: string, i: nat)
    returns (row: seq<bool>, count: nat)
    requires IsGrid(grid, rows, cols) && i < rows
    ensures |row| == cols && RowMatches(row, grid, anchor, front, i, cols)
    ensures count == 0 <==> RowClear(grid, anchor, front, i, cols)
  {
    row := [];
    count := 0;
    var j := 0;
    while j < cols
      invariant 0 <= j <= cols && |row| == j
      invariant RowMatches(row, grid, anchor, front, i, j)
      invariant count == 0 <==> RowClear(grid, anchor, front, i, j)
    {
      if (anchor.row == i && anchor.col == j) || (front == Divide && grid[i][j] == 0) {
        row := row + [false];
      } else {
        var on := anchor.row == i || anchor.col == j;
        row := row + [on];
        if on {
          count := count + 1;
        }
      }
      assert row[j] <==> Available(grid, anchor, front, Pos(i, j));
      j := j + 1;
    }
  }

  /**
    `createAvailableButtonsCross`: visits every button, disables the anchor and
    (under `/`) every 0, enables the rest of the anchor's row and column, and
    counts the enabled buttons; a count of 0 is the deadlock.
  */
  method CreateAvailableButtonsCross(grid: seq<seq<int>>, rows: nat, cols: nat, anchor: Pos, front: string)
    returns (enabled: seq<seq<bool>>, count: nat)
    requires IsGrid(grid, rows, cols)
    ensures |enabled| == rows && forall i | 0 <= i < rows :: |enabled[i]| == cols
    ensures forall i, j | 0 <= i < rows && 0 <= j < cols ::
      enabled[i][j] <==> Available(grid, anchor, front, Pos(i, j))
    ensures forall i, j | 0 <= i < rows && 0 <= j < cols ::
      enabled[i][j] && front == Divide ==> grid[i][j] != 0
    ensures count == 0 <==> Deadlocked(grid, anchor, front)
  {
    enabled := [];
    count := 0;
    var i := 0;
    while i < rows
      invariant 0 <= i <= rows && |enabled| == i
      invariant forall i' | 0 <= i' < i :: |enabled[i']| == cols && RowMatches(enabled[i'], grid, anchor, front, i', cols)
      invariant count == 0 <==> forall i' | 0 <= i' < i :: RowClear(grid, anchor, front, i', cols)
    {
      var row, n := CrossRow(grid, rows, cols, anchor, front, i);
      enabled := enabled + [row];
      count := count + n;
      i := i + 1;
    }
    ClearRowsDeadlock(grid, rows, cols, anchor, front);
    assert forall i, j | 0 <= i < rows && 0 <= j < cols :: enabled[i][j] <==> Available(grid, anchor, front, Pos(i, j)) by {
      forall i, j | 0 <= i < rows && 0 <= j < cols
        ensures enabled[i][j] <==> Available(grid, anchor, front, Pos(i, j))
      {
        assert RowMatches(enabled[i], grid, anchor, front, i, cols);
      }
    }
  }

  /** With at least two cells on the board, only `/` facing zeros can deadlock:
      every other cell of the anchor's row and column then holds 0. */
  lemma DeadlockNeedsDivision(grid: seq<seq<int>>, rows: nat, cols: nat, anchor: Pos, front: string)
    requires IsGrid(grid, rows, cols) && InGrid(grid, anchor) && (rows >= 2 || cols >= 2)
    requires Deadlocked(grid, anchor, front)
    ensures front == Divide
    ensures forall i, j | 0 <= i < rows && 0 <= j < cols && (i == anchor.row || j == anchor.col) && Pos(i, j) != anchor ::
      grid[i][j] == 0
  {
    var other := if rows >= 2 then Pos((anchor.row + 1) % rows, anchor.col) else Pos(anchor.row, (anchor.col + 1) % cols);
    assert !Available(grid, anchor, front, other);
    forall i, j | 0 <= i < rows && 0 <= j < cols && (i == anchor.row || j == anchor.col) && Pos(i, j) != anchor
      ensures grid[i][j] == 0
    {
      assert !Available(grid, anchor, front, Pos(i, j));
    }
  }

  // ------------------------------------------------------------- outcome

  /**
    `moveDone(false)` after its decrement, with `movesLeft` already decremented:
    a loss when no moves are left and the sum misses the target, reporting how
    far it is; otherwise a win exactly when the sum equals the target, even if
    moves are left or none are.
  */
  function Evaluate(movesLeft: int, sum: int, target: int): (p: Phase)
    requires IsInt(sum) && IsInt(target)
    ensures p.Lost? <==> movesLeft <= 0 && sum != target
    ensures p.Won? <==> sum == target
    ensures p.Lost? ==> IsInt(p.deficit) && p.deficit != 0
    ensures p.Lost? && IntMin < target - sum <= IntMax ==> p.deficit == Abs(target - sum)
  {
    if movesLeft <= 0 && sum != target then Lost(JavaAbs(Wrap(target - sum)))
    else if sum == target then Won
    else Playing
  }

  /** `moveDone(false)`: one move fewer, then the outcome check on the current sum. */
  function MoveDone(g: Game): (r: Game)
    requires WellFormed(g) && IntMin < g.movesLeft
    ensures WellFormed(r) && r == g.(movesLeft := r.movesLeft, phase := r.phase)
    ensures r.movesLeft == g.movesLeft - 1
    ensures r.phase.Lost? <==> r.movesLeft <= 0 && CurrentSum(g.grid) != Target(g)
    ensures r.phase.Won? <==> CurrentSum(g.grid) == Target(g)
  {
    var m := g.movesLeft - 1;
    g.(movesLeft := m, phase := Evaluate(m, CurrentSum(g.grid), Target(g)))
  }

  /** The deadlock branch of `createAvailableButtonsCross`: moves left forced to
      0, then `moveDone(false)`. */
  function CheckCross(g: Game): (r: Game)
    requires WellFormed(g) && g.anchor.Some? && |g.labels| > 0
    ensures WellFormed(r)
    ensures !Deadlocked(g.grid, g.anchor.value, g.labels[0]) ==> r == g
    ensures Deadlocked(g.grid, g.anchor.value, g.labels[0]) ==>
      && r == g.(movesLeft := -1, phase := r.phase)
      && !r.phase.Playing?
      && r.phase == Evaluate(-1, CurrentSum(g.grid), Target(g))
  {
    if Deadlocked(g.grid, g.anchor.value, g.labels[0]) then MoveDone(g.(movesLeft := 0)) else g
  }

  // -------------------------------------------------------------- clicks

  /**
    The first click of a game: the clicked cell becomes the anchor and its
    cross is computed. No move is used unless the cross is empty, which ends
    the game at once.
  */
  function SelectAnchor(g: Game, pos: Pos): (r: Game)
    requires WellFormed(g) && g.phase.Playing? && g.anchor.None? && InGrid(g.grid, pos)
    ensures WellFormed(r) && r.anchor == Some(pos)
    ensures r.settings == g.settings && r.grid == g.grid && r.labels == g.labels
    ensures !Deadlocked(g.grid, pos, g.labels[0]) ==> r.movesLeft == g.movesLeft && r.phase.Playing?
    ensures Deadlocked(g.grid, pos, g.labels[0]) ==>
      && r.movesLeft == -1
      && !r.phase.Playing?
      && (r.phase.Won? <==> CurrentSum(g.grid) == Target(g))
      && r.phase == Evaluate(-1, CurrentSum(g.grid), Target(g))
  {
    CheckCross(g.(anchor := Some(pos)))
  }

  /**
    The second click of a move, on an enabled cell `pos`: the anchor takes
    `Combine(front, anchor value, pos value)` and no other cell changes, the
    operator queue shifts (with `drawn` as the random refill), `pos` becomes the
    new anchor and the new cross is computed. Without a deadlock one move is
    used and the outcome is checked; a deadlock forces the moves left to 0 and
    ends the game, and the handler's own `moveDone` then takes them to -2.
  */
  function Move(g: Game, pos: Pos, drawn: string): (r: Game)
    requires WellFormed(g) && g.phase.Playing? && g.anchor.Some?
    requires |g.labels| > 0 && Available(g.grid, g.anchor.value, g.labels[0], pos)
    requires IsOperator(drawn) && IntMin + 2 <= g.movesLeft
    ensures WellFormed(r) && r.settings == g.settings && r.anchor == Some(pos)
    ensures var a := g.anchor.value;
      && r.grid[a.row][a.col] == Combine(g.labels[0], At(g.grid, a), At(g.grid, pos))
      && forall i, j | 0 <= i < |g.grid| && 0 <= j < |g.grid[i]| && Pos(i, j) != a :: r.grid[i][j] == g.grid[i][j]
    ensures r.labels == ShiftedLabels(g.labels, g.movesLeft, drawn)
    ensures !Deadlocked(r.grid, pos, r.labels[0]) ==>
      && r.movesLeft == g.movesLeft - 1
      && r.phase == Evaluate(g.movesLeft - 1, CurrentSum(r.grid), Target(g))
    ensures Deadlocked(r.grid, pos, r.labels[0]) ==>
      && r.movesLeft == -2
      && !r.phase.Playing?
      && (r.phase.Won? <==> CurrentSum(r.grid) == Target(g))
      && r.phase == Evaluate(-1, CurrentSum(r.grid), Target(g))
  {
    var a := g.anchor.value;
    var v := Combine(g.labels[0], At(g.grid, a), At(g.grid, pos));
    var moved := g.(
      grid := SetCell(g.grid, a, v),
      labels := ShiftedLabels(g.labels, g.movesLeft, drawn),
      anchor := Some(pos));
    var crossed := CheckCross(moved);
    var done := MoveDone(crossed);
    // After a deadlock the handler's own `moveDone` repeats the same check on
    // the same sum; the game keeps the outcome of the first.
    if crossed.phase.Playing? then done else done.(phase := crossed.phase)
  }

  /** After a deadlock both outcome checks agree: -1 and -2 moves left give the
      same verdict on the same sum. */
  lemma DeadlockChecksAgree(sum: int, target: int)
    requires IsInt(sum) && IsInt(target)
    ensures Evaluate(-1, sum, target) == Evaluate(-2, sum, target)
  {
  }

  /** A click on button `pos` while the game is on: the first click selects the
      anchor, every later one (on an enabled button) is a move. */
  function Click(g: Game, pos: Pos, drawn: string): (r: Game)
    requires WellFormed(g) && g.phase.Playing? && InGrid(g.grid, pos)
    requires g.anchor.Some? ==> Available(g.grid, g.anchor.value, g.labels[0], pos)
    requires IsOperator(drawn) && (g.anchor.Some? ==> IntMin + 2 <= g.movesLeft)
    ensures WellFormed(r) && r.anchor == Some(pos) && r.settings == g.settings
  {
    if g.anchor.None? then SelectAnchor(g, pos) else Move(g, pos, drawn)
  }

  // ----------------------------------------------------------- invariant

  /** What every game started from the menu keeps: a well-formed state with at
      least one row, at least one move left while playing, and an operator in
      every label the remaining moves will use. */
  predicate Invariant(g: Game) {
    && WellFormed(g)
    && Rows(g) >= 1
    && (g.phase.Playing? ==> g.movesLeft >= 1)
    && OperatorPrefix(g.labels, g.movesLeft)
  }

  /** Every click keeps the invariant. */
  lemma ClickPreservesInvariant(g: Game, pos: Pos, drawn: string)
    requires Invariant(g) && g.phase.Playing? && InGrid(g.grid, pos)
    requires g.anchor.Some? ==> Available(g.grid, g.anchor.value, g.labels[0], pos)
    requires IsOperator(drawn)
    ensures Invariant(Click(g, pos, drawn))
  {
  }
}
