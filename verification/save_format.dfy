/**
  The data lines of the save file as `save` writes them: the cell values
  (`fileFriendlyButtons`) and the operators still to be used
  (`fileFriendlyOperators`), each as the source's loop and as the closed form
  the reader is proved against.
*/
module SaveFormat {
  import opened JavaText
  import opened Grid

  /** The decimal texts of the values, in order. */
  function Texts(vals: seq<int>): (r: seq<string>)
    ensures |r| == |vals|
    decreases |vals|
  {
    if |vals| == 0 then [] else [IntToText(vals[0])] + Texts(vals[1..])
  }

  /** Entry `k` of the texts is the text of value `k`. */
  lemma {:induction false} TextsAt(vals: seq<int>, k: nat)
    requires k < |vals|
    ensures Texts(vals)[k] == IntToText(vals[k])
    decreases k
  {
    if k > 0 {
      TextsAt(vals[1..], k - 1);
    }
  }

  /** Every entry of the texts is the text of its value. */
  lemma TextsAll(vals: seq<int>)
    ensures forall k | 0 <= k < |vals| :: Texts(vals)[k] == IntToText(vals[k])
  {
    forall k | 0 <= k < |vals|
      ensures Texts(vals)[k] == IntToText(vals[k])
    {
      TextsAt(vals, k);
    }
  }

  /** The buttons line: every cell value in row-major order, separated by `|`. */
  function ButtonsLine(grid: seq<seq<int>>): string {
    Join(Texts(Flatten(grid)))
  }

  /**
    `fileFriendlyButtons`, as the source's nested loop: it writes cell `(i, j)`
    and then a `|` unless `(i, j)` is the bottom-right cell.
  */
  method FileFriendlyButtons(grid: seq<seq<int>>, rows: nat, cols: nat) returns (str: string)
    requires IsGrid(grid, rows, cols)
    ensures str == ButtonsLine(grid)
  {
    str := "";
    for i := 0 to rows
      invariant |Flatten(grid[..i])| <= |Flatten(grid)|
      invariant str == JoinPrefix(Texts(Flatten(grid)), |Flatten(grid[..i])|, |Flatten(grid)|)
    {
      str := WriteGridRow(grid, rows, cols, i, str);
    }
    assert grid[..rows] == grid;
    assert Texts(Flatten(grid))[..|Flatten(grid)|] == Texts(Flatten(grid));
  }

  /** One pass of the outer loop: row `i` extends the line from the start of
      row `i` to the start of row `i + 1` in row-major order. */
  method WriteGridRow(grid: seq<seq<int>>, rows: nat, cols: nat, i: nat, str0: string) returns (str: string)
    requires IsGrid(grid, rows, cols) && i < rows && |Flatten(grid[..i])| <= |Flatten(grid)|
    requires str0 == JoinPrefix(Texts(Flatten(grid)), |Flatten(grid[..i])|, |Flatten(grid)|)
    ensures |Flatten(grid[..i + 1])| <= |Flatten(grid)|
    ensures str == JoinPrefix(Texts(Flatten(grid)), |Flatten(grid[..i + 1])|, |Flatten(grid)|)
  {
    RowPlace(grid, rows, cols, i);
    str := WriteRow(grid, rows, cols, i, Flatten(grid), |Flatten(grid[..i])|, str0);
  }

  /**
    The inner loop of `fileFriendlyButtons`: row `i`, each cell followed by a
    `|` unless it is the bottom-right one, appended to the text written so far.
    `vals` are all the cells in row-major order, and row `i` starts at index
    `start` of them.
  */
  method WriteRow(grid: seq<seq<int>>, rows: nat, cols: nat, i: nat, ghost vals: seq<int>, ghost start: nat, str0: string)
    returns (str: string)
    requires IsGrid(grid, rows, cols) && i < rows && start + cols <= |vals|
    requires vals[start..start + cols] == grid[i]
    requires i + 1 == rows ==> start + cols == |vals|
    requires i + 1 < rows && 0 < cols ==> start + cols < |vals|
    requires str0 == JoinPrefix(Texts(vals), start, |vals|)
    ensures str == JoinPrefix(Texts(vals), start + cols, |vals|)
  {
    str := str0;
    for j := 0 to cols
      invariant str == JoinPrefix(Texts(vals), start + j, |vals|)
    {
      assert vals[start + j] == vals[start..start + cols][j];
      str := WriteCell(grid[i][j], vals, start + j, i + 1 == rows && j + 1 == cols, str);
    }
  }

  /** The body of the inner loop: the cell's text, then `|` unless the cell is
      the last one; the line written so far grows by one field. */
  method WriteCell(cell: int, ghost vals: seq<int>, ghost k: nat, last: bool, str0: string) returns (str: string)
    requires k < |vals| && vals[k] == cell
    requires last <==> k + 1 == |vals|
    requires str0 == JoinPrefix(Texts(vals), k, |vals|)
    ensures str == JoinPrefix(Texts(vals), k + 1, |vals|)
  {
    TextsAt(vals, k);
    JoinPrefixStep(Texts(vals), k, |vals|);
    str := str0 + IntToText(cell);
    if !last {
      str := str + "|";
    }
  }

  /** Where row `i` lies in the row-major order: right after the rows above
      it, and at the end exactly when it is the last row. */
  lemma RowPlace(grid: seq<seq<int>>, rows: nat, cols: nat, i: nat)
    requires IsGrid(grid, rows, cols) && i < rows
    ensures var vals, start := Flatten(grid), |Flatten(grid[..i])|;
      && start + cols == |Flatten(grid[..i + 1])| <= |vals|
      && vals[start..start + cols] == grid[i]
      && (i + 1 == rows ==> start + cols == |vals|)
      && (i + 1 < rows && 0 < cols ==> start + cols < |vals|)
  {
    FlattenRow(grid, rows, cols, i);
    if i + 1 == rows {
      assert grid[..i + 1] == grid;
    } else {
      FlattenRow(grid, rows, cols, i + 1);
    }
  }

  /**
    How many labels `fileFriendlyOperators` writes: the moves left when that
    lies between 0 and the number of labels, and otherwise every label (a
    negative count never meets the loop's `i == movesLeft` stop).
  */
  function WrittenCount(movesLeft: int, n: nat): (k: nat)
    ensures k <= n
    ensures 0 <= movesLeft ==> k == if movesLeft < n then movesLeft else n
    ensures movesLeft < 0 ==> k == n
  {
    if 0 <= movesLeft < n then movesLeft else n
  }

  /** The operators line: the labels the remaining moves will use, separated by `|`. */
  function OperatorsLine(labels: seq<string>, movesLeft: int): string {
    Join(labels[..WrittenCount(movesLeft, |labels|)])
  }

  /**
    `fileFriendlyOperators`, as the source's loop over the labels: it stops at
    index `movesLeft` and writes a `|` after a label unless that label is the
    last one or the last one the moves left allow.
  */
  method FileFriendlyOperators(labels: seq<string>, movesLeft: int) returns (str: string)
    ensures str == OperatorsLine(labels, movesLeft)
  {
    var k := WrittenCount(movesLeft, |labels|);
    str := "";
    var i := 0;
    while i < |labels|
      invariant 0 <= i <= k
      invariant str == JoinPrefix(labels, i, k)
    {
      if i == movesLeft {
        break;
      }
      JoinPrefixStep(labels, i, k);
      str := str + labels[i];
      if i + 1 != |labels| && i + 1 != movesLeft {
        str := str + "|";
      }
      i := i + 1;
    }
  }
}
