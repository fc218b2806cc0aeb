/**
  The button grid as a dense matrix of Java `int` cell values, its row-major
  order (used by the save file) and its sum (`updateCurrentSum`).
*/
module Grid {
  import opened JavaInt

  /** A cell position: row and column of a `GridButton`. */
  datatype Pos = Pos(row: int, col: int)

  /** `g` is a dense `rows` by `cols` matrix. */
  predicate IsGrid(g: seq<seq<int>>, rows: int, cols: int) {
    |g| == rows && forall i | 0 <= i < |g| :: |g[i]| == cols
  }

  predicate InGrid(g: seq<seq<int>>, p: Pos) {
    0 <= p.row < |g| && 0 <= p.col < |g[p.row]|
  }

  /** Every cell holds a Java `int`. */
  predicate AllInts(g: seq<seq<int>>) {
    forall i, j | 0 <= i < |g| && 0 <= j < |g[i]| :: IsInt(g[i][j])
  }

  function At(g: seq<seq<int>>, p: Pos): int
    requires InGrid(g, p)
  {
    g[p.row][p.col]
  }

  /** `setValue` on the button at `p`: that cell takes `v` and no other cell changes. */
  function SetCell(g: seq<seq<int>>, p: Pos, v: int): (r: seq<seq<int>>)
    requires InGrid(g, p)
    ensures |r| == |g| && forall i | 0 <= i < |g| :: |r[i]| == |g[i]|
    ensures r[p.row][p.col] == v
    ensures forall i, j | 0 <= i < |g| && 0 <= j < |g[i]| && (i != p.row || j != p.col) :: r[i][j] == g[i][j]
  {
    g[p.row := g[p.row][p.col := v]]
  }

  /** The cells in row-major order (row 0 left to right, then row 1, ...). */
  function Flatten(g: seq<seq<int>>): seq<int>
    decreases |g|
  {
    if |g| == 0 then [] else Flatten(g[..|g| - 1]) + g[|g| - 1]
  }

  lemma FlattenSnoc(g: seq<seq<int>>, row: seq<int>)
    ensures Flatten(g + [row]) == Flatten(g) + row
  {
  }

  lemma {:induction false} FlattenLength(g: seq<seq<int>>, rows: nat, cols: nat)
    requires IsGrid(g, rows, cols)
    ensures |Flatten(g)| == rows * cols
    decreases rows
  {
    if rows > 0 {
      FlattenLength(g[..rows - 1], rows - 1, cols);
      assert (rows - 1) * cols + cols == rows * cols;
    }
  }

  /** Cell `(i, j)` of a `rows` by `cols` grid sits at index `i * cols + j` of its row-major order. */
  lemma {:induction false} FlattenIndex(g: seq<seq<int>>, rows: nat, cols: nat, i: nat, j: nat)
    requires IsGrid(g, rows, cols) && i < rows && j < cols
    ensures i * cols + j < |Flatten(g)| && Flatten(g)[i * cols + j] == g[i][j]
    decreases rows
  {
    FlattenLength(g, rows, cols);
    FlattenLength(g[..rows - 1], rows - 1, cols);
    assert (rows - 1) * cols + cols == rows * cols;
    if i < rows - 1 {
      FlattenIndex(g[..rows - 1], rows - 1, cols, i, j);
    } else {
      assert i * cols == (rows - 1) * cols;
    }
  }

  /** The row-major order of the first `k` rows is a prefix of the whole one. */
  lemma {:induction false} FlattenPrefix(g: seq<seq<int>>, k: nat)
    requires k <= |g|
    ensures |Flatten(g[..k])| <= |Flatten(g)| && Flatten(g)[..|Flatten(g[..k])|] == Flatten(g[..k])
    decreases |g|
  {
    if k < |g| {
      var init := g[..|g| - 1];
      assert init[..k] == g[..k];
      FlattenPrefix(init, k);
      assert Flatten(g) == Flatten(init) + g[|g| - 1];
    } else {
      assert g[..k] == g;
    }
  }

  /** Row `i` occupies the `cols` entries of the row-major order that follow
      the rows above it. */
  lemma FlattenRow(g: seq<seq<int>>, rows: nat, cols: nat, i: nat)
    requires IsGrid(g, rows, cols) && i < rows
    ensures var p := |Flatten(g[..i])|;
      && p + cols == |Flatten(g[..i + 1])| <= |Flatten(g)|
      && Flatten(g)[p..p + cols] == g[i]
  {
    var p := |Flatten(g[..i])|;
    assert g[..i + 1] == g[..i] + [g[i]];
    FlattenSnoc(g[..i], g[i]);
    FlattenPrefix(g, i + 1);
    assert Flatten(g)[p..p + cols] == Flatten(g[..i + 1])[p..p + cols];
  }

  /** The grid whose row-major order is `vals`: the inverse of `Flatten`. */
  function Reshape(vals: seq<int>, rows: nat, cols: nat): (g: seq<seq<int>>)
    requires |vals| == rows * cols
    ensures IsGrid(g, rows, cols)
    ensures Flatten(g) == vals
    decreases rows
  {
    if rows == 0 then []
    else
      assert (rows - 1) * cols + cols == rows * cols;
      var init := Reshape(vals[..(rows - 1) * cols], rows - 1, cols);
      FlattenSnoc(init, vals[(rows - 1) * cols..]);
      assert vals == vals[..(rows - 1) * cols] + vals[(rows - 1) * cols..];
      init + [vals[(rows - 1) * cols..]]
  }

  lemma {:induction false} ReshapeFlatten(g: seq<seq<int>>, rows: nat, cols: nat)
    requires IsGrid(g, rows, cols)
    ensures |Flatten(g)| == rows * cols
    ensures Reshape(Flatten(g), rows, cols) == g
    decreases rows
  {
    FlattenLength(g, rows, cols);
    if rows > 0 {
      var init := g[..rows - 1];
      FlattenLength(init, rows - 1, cols);
      ReshapeFlatten(init, rows - 1, cols);
      assert g == init + [g[rows - 1]];
      var vals := Flatten(g);
      assert vals == Flatten(init) + g[rows - 1];
      assert vals[..(rows - 1) * cols] == Flatten(init);
      assert vals[(rows - 1) * cols..] == g[rows - 1];
    }
  }

  /** A grid whose row-major order holds only Java `int`s holds only `int`s. */
  lemma {:induction false} FlattenAllInts(g: seq<seq<int>>, rows: nat, cols: nat)
    requires IsGrid(g, rows, cols)
    requires forall k | 0 <= k < |Flatten(g)| :: IsInt(Flatten(g)[k])
    ensures AllInts(g)
    decreases rows
  {
    if rows > 0 {
      var init := g[..rows - 1];
      assert g == init + [g[rows - 1]];
      FlattenSnoc(init, g[rows - 1]);
      var n := |Flatten(init)|;
      forall k | 0 <= k < n
        ensures IsInt(Flatten(init)[k])
      {
        assert Flatten(g)[k] == Flatten(init)[k];
      }
      FlattenAllInts(init, rows - 1, cols);
      var last := g[rows - 1];
      forall j | 0 <= j < cols
        ensures IsInt(last[j])
      {
        assert Flatten(g)[n + j] == last[j];
      }
    }
  }

  /** The exact sum of a sequence of values. */
  function SeqSum(s: seq<int>): int
    decreases |s|
  {
    if |s| == 0 then 0 else SeqSum(s[..|s| - 1]) + s[|s| - 1]
  }

  lemma SeqSumSnoc(s: seq<int>, x: int)
    ensures SeqSum(s + [x]) == SeqSum(s) + x
  {
  }

  /** The exact sum of all cells. */
  function GridSum(g: seq<seq<int>>): int {
    SeqSum(Flatten(g))
  }

  /** The sum the game shows and compares with the target: the Java `int` total,
      which wraps around when the exact total leaves the `int` range. */
  function CurrentSum(g: seq<seq<int>>): (r: int)
    ensures IsInt(r)
    ensures IsInt(GridSum(g)) ==> r == GridSum(g)
  {
    Wrap(GridSum(g))
  }

  /**
    `updateCurrentSum`: adds up the cells row by row into an `int` accumulator,
    each addition wrapping; the result is the wrapped exact total.
  */
  method UpdateCurrentSum(g: seq<seq<int>>, rows: nat, cols: nat) returns (sum: int)
    requires IsGrid(g, rows, cols)
    ensures sum == CurrentSum(g)
  {
    sum := 0;
    var i := 0;
    while i < rows
      invariant 0 <= i <= rows
      invariant sum == Wrap(SeqSum(Flatten(g[..i])))
    {
      var j := 0;
      assert Flatten(g[..i]) + g[i][..0] == Flatten(g[..i]);
      while j < cols
        invariant 0 <= j <= cols
        invariant sum == Wrap(SeqSum(Flatten(g[..i]) + g[i][..j]))
      {
        var done := Flatten(g[..i]) + g[i][..j];
        WrapAddLeft(SeqSum(done), g[i][j]);
        assert Flatten(g[..i]) + g[i][..j + 1] == done + [g[i][j]];
        SeqSumSnoc(done, g[i][j]);
        sum := Wrap(sum + g[i][j]);
        j := j + 1;
      }
      assert g[..i + 1] == g[..i] + [g[i]];
      FlattenSnoc(g[..i], g[i]);
      assert g[i][..cols] == g[i];
      i := i + 1;
    }
    assert g[..rows] == g;
  }

  /** With every cell a digit, the total is at most nine per cell. */
  lemma {:induction false} DigitSumBound(s: seq<int>)
    requires forall k | 0 <= k < |s| :: 0 <= s[k] <= 9
    ensures 0 <= SeqSum(s) <= 9 * |s|
    decreases |s|
  {
    if |s| > 0 {
      DigitSumBound(s[..|s| - 1]);
    }
  }

  /** Digit cells give a row-major order of digits. */
  lemma {:induction false} FlattenDigits(g: seq<seq<int>>, rows: nat, cols: nat)
    requires IsGrid(g, rows, cols)
    requires forall i, j | 0 <= i < rows && 0 <= j < cols :: 0 <= g[i][j] <= 9
    ensures forall k | 0 <= k < |Flatten(g)| :: 0 <= Flatten(g)[k] <= 9
    decreases rows
  {
    if rows > 0 {
      FlattenDigits(g[..rows - 1], rows - 1, cols);
    }
  }

  /** On a board the menu allows (at most 10 by 10) with digit cells, the Java
      total never wraps: the shown sum is the exact sum. */
  lemma SmallBoardSumExact(g: seq<seq<int>>, rows: nat, cols: nat)
    requires IsGrid(g, rows, cols) && rows <= 10 && cols <= 10
    requires forall i, j | 0 <= i < rows && 0 <= j < cols :: 0 <= g[i][j] <= 9
    ensures 0 <= CurrentSum(g) == GridSum(g) <= 900
  {
    FlattenLength(g, rows, cols);
    FlattenDigits(g, rows, cols);
    DigitSumBound(Flatten(g));
    SmallProduct(rows, cols);
  }

  /** The cell count of a board within the menu's limits. */
  lemma SmallProduct(a: nat, b: nat)
    requires a <= 10 && b <= 10
    ensures a * b <= 100
  {
  }
}
