/**
  `init`, `createButtonGrid` and the settings part of `init` as pure
  constructors: a new game from the current settings and random draws, or a
  game rebuilt from the fields of a save file.
*/
module Setup {
  import opened Wrappers
  import opened JavaInt
  import opened JavaText
  import opened GameSettings
  import opened Grid
  import opened Operators
  import opened Engine

  /** Why building a game fails: the Java exception `init` would throw. */
  datatype LoadError =
    | NullLine       // NullPointerException: the text ended before a line that is used
    | WrongFile      // a section header line does not match
    | NotANumber     // NumberFormatException from Integer.parseInt
    | MissingField   // ArrayIndexOutOfBoundsException: fewer `|`-separated fields than needed
    | BadDimensions  // NegativeArraySizeException, or a GridLayout with 0 rows and 0 columns

  /** The random draws of a new game: `rand.nextInt(9)` for cell `(i, j)` and
      `getRandOperator()` for label `i`. */
  datatype Randomness = Randomness(cell: (int, int) -> int, op: int -> string)

  /** The draws stay in the ranges `java.util.Random` gives them. */
  ghost predicate Fair(rnd: Randomness) {
    && (forall i, j :: 0 <= rnd.cell(i, j) <= 8)
    && (forall i :: IsOperator(rnd.op(i)))
  }

  /** `Integer.parseInt(fields[k])`, failing when the field is missing or not a number. */
  function Field(fields: seq<string>, k: nat): (r: Result<int, LoadError>)
    ensures r.Success? <==> k < |fields| && ParseInt(fields[k]).Some?
    ensures r.Success? ==> r.value == ParseInt(fields[k]).value
    ensures k >= |fields| ==> r == Failure(MissingField)
  {
    if k >= |fields| then Failure(MissingField)
    else match ParseInt(fields[k])
      case None => Failure(NotANumber)
      case Some(v) => Success(v)
  }

  /**
    The settings part of `init`: rows, columns, moves and target parsed from
    fields 0 to 3 in that order and set on the current settings; extra fields
    are ignored.
  */
  function ApplySettings(current: Settings, fields: seq<string>): (r: Result<Settings, LoadError>)
    ensures r.Success? <==> |fields| >= 4 && forall k | 0 <= k < 4 :: ParseInt(fields[k]).Some?
    ensures r.Success? ==> Valid(r.value)
    ensures r.Success? ==>
      r.value == Settings(ParseInt(fields[0]).value, ParseInt(fields[1]).value,
                          ParseInt(fields[2]).value, ParseInt(fields[3]).value)
  {
    var rows :- Field(fields, 0);
    var cols :- Field(fields, 1);
    var moves :- Field(fields, 2);
    var target :- Field(fields, 3);
    Success(current.SetNumOfRows(rows).SetNumOfCols(cols).SetMovesLeft(moves).SetTargetValue(target))
  }

  /** The settings line of a save file restores the settings it was written from. */
  lemma SettingsRoundTrip(s: Settings, current: Settings)
    requires Valid(s)
    ensures ApplySettings(current, Split(s.FileFriendlyString())) == Success(s)
  {
    ParseIntToText(s.numOfRows);
    ParseIntToText(s.numOfCols);
    ParseIntToText(s.movesLeft);
    ParseIntToText(s.targetValue);
  }

  /** The first `n` fields parsed in order; the first missing or malformed one decides the error. */
  function ParseCells(fields: seq<string>, n: nat): (r: Result<seq<int>, LoadError>)
    ensures r.Success? <==> n <= |fields| && forall k | 0 <= k < n :: ParseInt(fields[k]).Some?
    ensures r.Success? ==> |r.value| == n && forall k | 0 <= k < n :: Some(r.value[k]) == ParseInt(fields[k])
    decreases n
  {
    if n == 0 then Success([])
    else
      var v :- Field(fields, 0);
      var rest :- ParseCells(fields[1..], n - 1);
      Success([v] + rest)
  }

  /** The grid of random draws a new game starts with. */
  function RandomGrid(rows: nat, cols: nat, cell: (int, int) -> int): (g: seq<seq<int>>)
    ensures IsGrid(g, rows, cols)
    ensures forall i, j | 0 <= i < rows && 0 <= j < cols :: g[i][j] == cell(i, j)
  {
    seq(rows, i requires 0 <= i < rows => seq(cols, j requires 0 <= j < cols => cell(i, j)))
  }

  /**
    `createButtonGrid`: cell `(i, j)` takes field `i * cols + j` of the saved
    buttons (row-major order), or the random draw when there is no save.
  */
  function CreateButtonGrid(rows: nat, cols: nat, newButtons: Option<seq<string>>, cell: (int, int) -> int)
    : (r: Result<seq<seq<int>>, LoadError>)
    ensures newButtons.None? ==> r == Success(RandomGrid(rows, cols, cell))
    ensures newButtons.Some? ==> r.Success? == ParseCells(newButtons.value, rows * cols).Success?
    ensures r.Success? && newButtons.Some? ==>
      && IsGrid(r.value, rows, cols) && AllInts(r.value)
      && ParseCells(newButtons.value, rows * cols) == Success(Flatten(r.value))
  {
    if newButtons.None? then Success(RandomGrid(rows, cols, cell))
    else
      var vals :- ParseCells(newButtons.value, rows * cols);
      var g := Reshape(vals, rows, cols);
      FlattenAllInts(g, rows, cols);
      Success(g)
  }

  /** The settings `init` continues with: the current ones, or the saved fields set on them. */
  function InitSettings(current: Settings, newSettings: Option<seq<string>>): (r: Result<Settings, LoadError>)
    ensures newSettings.None? ==> r == Success(current)
    ensures newSettings.Some? ==> r == ApplySettings(current, newSettings.value)
  {
    if newSettings.None? then Success(current) else ApplySettings(current, newSettings.value)
  }

  /** A board `init` can lay out: no negative dimension (`NegativeArraySizeException`)
      and not zero rows and zero columns (`GridLayout` rejects that). */
  predicate Buildable(s: Settings) {
    s.GetRows() >= 0 && s.GetCols() >= 0 && (s.GetRows() != 0 || s.GetCols() != 0)
  }

  /** The number of buttons a board of these settings holds. */
  function CellCount(s: Settings): nat
    requires s.GetRows() >= 0 && s.GetCols() >= 0
  {
    s.GetRows() * s.GetCols()
  }

  /** The part of `init` after the settings are in place: the board is laid
      out, the grid and the labels are built, nothing is selected. */
  function Build(settings: Settings, movesLeft: int, newButtons: Option<seq<string>>,
                 newOperators: Option<seq<string>>, rnd: Randomness)
    : (r: Result<Game, LoadError>)
    requires Valid(settings) && IsInt(movesLeft) && Fair(rnd)
    ensures r.Success? <==>
      && Buildable(settings)
      && (newButtons.None? || ParseCells(newButtons.value, CellCount(settings)).Success?)
    ensures !Buildable(settings) ==> r == Failure(BadDimensions)
    ensures r.Success? ==>
      && WellFormed(r.value) && r.value.anchor.None? && r.value.phase.Playing?
      && r.value.settings == settings && r.value.movesLeft == movesLeft
      && r.value.labels == SetupNextOperators(settings.GetRows(), newOperators, rnd.op)
    ensures r.Success? && newButtons.None? ==>
      r.value.grid == RandomGrid(settings.GetRows(), settings.GetCols(), rnd.cell)
    ensures r.Success? && newButtons.Some? ==>
      ParseCells(newButtons.value, CellCount(settings)) == Success(Flatten(r.value.grid))
  {
    var rows, cols := settings.GetRows(), settings.GetCols();
    if rows == 0 && cols == 0 then Failure(BadDimensions)
    else if rows < 0 || cols < 0 then Failure(BadDimensions)
    else
      var grid := CreateButtonGrid(rows, cols, newButtons, rnd.cell);
      if grid.Failure? then Failure(grid.error)
      else Success(Game(settings, movesLeft, grid.value, None, SetupNextOperators(rows, newOperators, rnd.op), Playing))
  }

  /**
    `init(newSettings, newMovesLeft, newButtons, newOperators)`; a new game
    passes `(None, -1, None, None)`. The moves left are the saved value, or the
    current settings' budget when that value is the sentinel -1; the settings
    are then replaced by the saved ones; the grid and labels are built; nothing
    is selected and the game is on. A zero-by-zero or negative board fails.
  */
  function Init(current: Settings, newSettings: Option<seq<string>>, newMovesLeft: int,
                newButtons: Option<seq<string>>, newOperators: Option<seq<string>>, rnd: Randomness)
    : (r: Result<Game, LoadError>)
    requires Valid(current) && IsInt(newMovesLeft) && Fair(rnd)
    ensures r.Success? ==> WellFormed(r.value) && r.value.anchor.None? && r.value.phase.Playing?
    ensures r.Success? ==>
      r.value.movesLeft == (if newMovesLeft == -1 then current.GetMovesLeft() else newMovesLeft)
    ensures r.Success? <==>
      && InitSettings(current, newSettings).Success?
      && Buildable(InitSettings(current, newSettings).value)
      && (newButtons.None? ||
          var s := InitSettings(current, newSettings).value;
          ParseCells(newButtons.value, CellCount(s)).Success?)
    ensures InitSettings(current, newSettings).Failure? ==> r.Failure? && r.error == InitSettings(current, newSettings).error
    ensures InitSettings(current, newSettings).Success? && !Buildable(InitSettings(current, newSettings).value) ==>
      r == Failure(BadDimensions)
    ensures r.Success? ==> r.value.settings == InitSettings(current, newSettings).value
    ensures r.Success? && newButtons.None? ==>
      r.value.grid == RandomGrid(Rows(r.value), r.value.settings.GetCols(), rnd.cell)
    ensures r.Success? && newButtons.Some? ==>
      ParseCells(newButtons.value, CellCount(r.value.settings)) == Success(Flatten(r.value.grid))
    ensures r.Success? ==> r.value.labels == SetupNextOperators(Rows(r.value), newOperators, rnd.op)
    ensures newSettings.None? && newButtons.None? && Buildable(current) ==> r.Success? && r.value.settings == current
  {
    var movesLeft := if newMovesLeft == -1 then current.GetMovesLeft() else newMovesLeft;
    var settings := InitSettings(current, newSettings);
    if settings.Failure? then Failure(settings.error)
    else Build(settings.value, movesLeft, newButtons, newOperators, rnd)
  }

  /** `init` on saved fields whose settings and cells read back: the game built
      from those settings, the moves left, that grid and the labels. */
  lemma InitLoaded(current: Settings, newSettings: seq<string>, newMovesLeft: int, newButtons: seq<string>,
                   newOperators: seq<string>, rnd: Randomness, settings: Settings, grid: seq<seq<int>>)
    requires Valid(current) && IsInt(newMovesLeft) && Fair(rnd)
    ensures ApplySettings(current, newSettings) == Success(settings) && Buildable(settings) &&
            CreateButtonGrid(settings.GetRows(), settings.GetCols(), Some(newButtons), rnd.cell) == Success(grid) ==>
      Init(current, Some(newSettings), newMovesLeft, Some(newButtons), Some(newOperators), rnd)
        == Success(Game(settings, if newMovesLeft == -1 then current.GetMovesLeft() else newMovesLeft, grid,
                        None, SetupNextOperators(settings.GetRows(), Some(newOperators), rnd.op), Playing))
  {
  }

  /** A new game started from the menu: the settings are kept, every cell is a
      random digit from 0 to 8, every label is an operator, the whole budget is
      left, nothing is selected, and the game invariant holds. */
  lemma NewGameStarts(current: Settings, rnd: Randomness)
    requires FromMenu(current) && Fair(rnd)
    ensures var r := Init(current, None, -1, None, None, rnd);
      && r.Success?
      && r.value.settings == current
      && r.value.movesLeft == current.GetMovesLeft()
      && (forall i, j | 0 <= i < |r.value.grid| && 0 <= j < |r.value.grid[i]| :: 0 <= r.value.grid[i][j] <= 8)
      && (forall i | 0 <= i < |r.value.labels| :: IsOperator(r.value.labels[i]))
      && Invariant(r.value)
  {
  }
}
