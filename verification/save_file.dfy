/**
  The save file: `save` with `fileFriendlyButtons` and `fileFriendlyOperators`
  as the writer, `load` as the reader feeding `init`, and the header-only
  probe `readFromFilePossible` that decides whether the menu offers loading.
  The file is modelled as its text.
*/
module SaveFile {
  import opened Wrappers
  import opened JavaInt
  import opened JavaText
  import opened GameSettings
  import opened Grid
  import opened Operators
  import opened Engine
  import opened Setup
  import opened SaveFormat

  const SettingsHeader: string := "Settings"
  const MovesHeader: string := "Moves left"
  const ButtonsHeader: string := "Buttons"
  const OperatorsHeader: string := "Next operators"

  // -------------------------------------------------------------- writer

  /** A save file's eight lines: each header, then its data line. */
  function FileLines(settings: string, moves: string, buttons: string, operators: string): seq<string> {
    [ SettingsHeader, settings, MovesHeader, moves, ButtonsHeader, buttons, OperatorsHeader, operators ]
  }

  /** The eight lines `save` writes. */
  function SaveLines(g: Game): seq<string> {
    FileLines(g.settings.FileFriendlyString(), IntToText(g.movesLeft), ButtonsLine(g.grid),
              OperatorsLine(g.labels, g.movesLeft))
  }

  /** The text of the save file: the lines separated by `newLine()`, with no
      line break after the operators line. */
  function SaveText(g: Game): string {
    JoinLines(SaveLines(g))
  }

  // -------------------------------------------------------------- reader

  /** What `load` reads before calling `init`: the fields of the settings,
      buttons and operators lines and the parsed moves left. */
  datatype SaveRecord = SaveRecord(settings: seq<string>, movesLeft: int, buttons: seq<string>, operators: seq<string>)

  /** The four header lines are where they belong. */
  predicate HeadersInPlace(lines: seq<string>) {
    && |lines| >= 7
    && lines[0] == SettingsHeader
    && lines[2] == MovesHeader
    && lines[4] == ButtonsHeader
    && lines[6] == OperatorsHeader
  }

  /**
    The reading part of `load`, line by line: each header must match, the
    moves-left line must parse as an `int`, and every data line must exist
    (splitting a missing line is a `NullPointerException`). It succeeds
    exactly when all eight lines are there, the headers match and the moves
    left parse.
  */
  function ReadSave(text: string): (r: Result<SaveRecord, LoadError>)
    ensures var lines := ReadLines(text);
      r.Success? <==> |lines| >= 8 && HeadersInPlace(lines) && ParseInt(lines[3]).Some?
    ensures var lines := ReadLines(text);
      r.Success? ==> r.value == SaveRecord(Split(lines[1]), ParseInt(lines[3]).value, Split(lines[5]), Split(lines[7]))
  {
    var lines := ReadLines(text);
    if |lines| <= 0 then Failure(NullLine)
    else if lines[0] != SettingsHeader then Failure(WrongFile)
    else if |lines| <= 1 then Failure(NullLine)
    else
      var settings := Split(lines[1]);
      if |lines| <= 2 then Failure(NullLine)
      else if lines[2] != MovesHeader then Failure(WrongFile)
      else
        var moves := if |lines| <= 3 then None else ParseInt(lines[3]);
        if moves.None? then Failure(NotANumber)
        else if |lines| <= 4 then Failure(NullLine)
        else if lines[4] != ButtonsHeader then Failure(WrongFile)
        else if |lines| <= 5 then Failure(NullLine)
        else
          var buttons := Split(lines[5]);
          if |lines| <= 6 then Failure(NullLine)
          else if lines[6] != OperatorsHeader then Failure(WrongFile)
          else if |lines| <= 7 then Failure(NullLine)
          else Success(SaveRecord(settings, moves.value, buttons, Split(lines[7])))
  }

  /** `load`: read the file, then rebuild the game with `init`. */
  function Load(text: string, current: Settings, rnd: Randomness): (r: Result<Game, LoadError>)
    requires Valid(current) && Fair(rnd)
    ensures r.Success? <==>
      && ReadSave(text).Success?
      && var settings := InitSettings(current, Some(ReadSave(text).value.settings));
      && settings.Success? && Buildable(settings.value)
      && ParseCells(ReadSave(text).value.buttons, CellCount(settings.value)).Success?
    ensures ReadSave(text).Failure? ==> r == Failure(ReadSave(text).error)
    ensures r.Success? ==> WellFormed(r.value) && r.value.anchor.None? && r.value.phase.Playing?
    ensures r.Success? ==> r.value.settings == InitSettings(current, Some(ReadSave(text).value.settings)).value
  {
    var rec :- ReadSave(text);
    Init(current, Some(rec.settings), rec.movesLeft, Some(rec.buttons), Some(rec.operators), rnd)
  }

  /**
    `readFromFilePossible`: only the four headers are checked, and the data
    lines are read without being looked at, so a missing last line goes
    unnoticed. It holds exactly when the headers are in place.
  */
  function ReadFromFilePossible(text: string): (ok: bool)
    ensures ok <==> HeadersInPlace(ReadLines(text))
  {
    var lines := ReadLines(text);
    if |lines| <= 0 || lines[0] != SettingsHeader then false
    else if |lines| <= 2 || lines[2] != MovesHeader then false
    else if |lines| <= 4 || lines[4] != ButtonsHeader then false
    else if |lines| <= 6 || lines[6] != OperatorsHeader then false
    else true
  }

  /** A file whose first three data lines hold no line break reads back its
      first seven lines as written, so the probe finds the headers. */
  lemma HeadersRead(settings: string, moves: string, buttons: string, operators: string)
    requires IsLine(settings) && IsLine(moves) && IsLine(buttons)
    ensures var lines := FileLines(settings, moves, buttons, operators);
      var read := ReadLines(JoinLines(lines));
      |read| >= 7 && read[..7] == lines[..7] && ReadFromFilePossible(JoinLines(lines))
  {
    var lines := FileLines(settings, moves, buttons, operators);
    HeadersAreLines();
    ReadJoinLinesPrefix(lines);
    var read := ReadLines(JoinLines(lines));
    assert read[0] == lines[0] && read[2] == lines[2] && read[4] == lines[4] && read[6] == lines[6] by {
      assert read[..7][0] == read[0] && read[..7][2] == read[2];
      assert read[..7][4] == read[4] && read[..7][6] == read[6];
    }
  }

  /** The first seven lines of a saved file read back as written, whatever the
      operators line holds, so the probe accepts every saved file. */
  lemma SavedHeadersRead(g: Game)
    ensures var read := ReadLines(SaveText(g));
      |read| >= 7 && read[..7] == SaveLines(g)[..7]
    ensures ReadFromFilePossible(SaveText(g))
  {
    SaveLinesAreLines(g);
    HeadersRead(g.settings.FileFriendlyString(), IntToText(g.movesLeft), ButtonsLine(g.grid),
                OperatorsLine(g.labels, g.movesLeft));
  }

  /** Every file `load` accepts, the probe accepts too. */
  lemma LoadImpliesProbe(text: string, current: Settings, rnd: Randomness)
    requires Valid(current) && Fair(rnd)
    ensures Load(text, current, rnd).Success? ==> ReadFromFilePossible(text)
  {
  }

  // ---------------------------------------------------------- round trip

  /** The cell texts parse back to the cell values. */
  lemma ParseTexts(vals: seq<int>)
    requires forall k | 0 <= k < |vals| :: IsInt(vals[k])
    ensures ParseCells(Texts(vals), |vals|) == Success(vals)
  {
    var texts := Texts(vals);
    forall k | 0 <= k < |vals|
      ensures ParseInt(texts[k]) == Some(vals[k])
    {
      TextsAt(vals, k);
      ParseIntToText(vals[k]);
    }
    assert ParseCells(texts, |vals|).value == vals;
  }


  /** Reading the buttons line rebuilds the grid it was written from. */
  lemma ButtonsRoundTrip(grid: seq<seq<int>>, rows: nat, cols: nat, cell: (int, int) -> int)
    requires IsGrid(grid, rows, cols) && AllInts(grid)
    ensures CreateButtonGrid(rows, cols, Some(Split(ButtonsLine(grid))), cell) == Success(grid)
  {
    var vals := Flatten(grid);
    ReshapeFlatten(grid, rows, cols);
    var fields := Split(ButtonsLine(grid));
    if |vals| > 0 {
      forall k | 0 <= k < |vals|
        ensures IsInt(vals[k])
      {
        FlattenIntsAt(grid, rows, cols, k);
      }
      var texts := Texts(vals);
      TextsAll(vals);
      SplitJoin(texts);
      ParseTexts(vals);
    }
  }

  /** Each entry of a grid's row-major order is one of its cells. */
  lemma {:induction false} FlattenIntsAt(grid: seq<seq<int>>, rows: nat, cols: nat, k: nat)
    requires IsGrid(grid, rows, cols) && AllInts(grid) && k < |Flatten(grid)|
    ensures IsInt(Flatten(grid)[k])
    decreases rows
  {
    var init := grid[..rows - 1];
    assert grid == init + [grid[rows - 1]];
    FlattenSnoc(init, grid[rows - 1]);
    if k < |Flatten(init)| {
      FlattenIntsAt(init, rows - 1, cols, k);
    }
  }

  /**
    A game `save` can write so that `load` reads it back: well-formed, at least
    one row, moves left not 0, and the written labels free of `|` and line
    breaks with the last of them non-empty.
  */
  predicate Saveable(g: Game) {
    var k := WrittenCount(g.movesLeft, |g.labels|);
    && WellFormed(g)
    && Rows(g) >= 1
    && g.movesLeft != 0
    && (forall i | 0 <= i < k :: IsLine(g.labels[i]) && '|' !in g.labels[i])
    && g.labels[k - 1] != ""
  }

  /** The settings, moves-left and buttons lines `save` writes hold no line break. */
  lemma SaveLinesAreLines(g: Game)
    ensures IsLine(g.settings.FileFriendlyString())
    ensures IsLine(IntToText(g.movesLeft))
    ensures IsLine(ButtonsLine(g.grid))
  {
    TextsAll(Flatten(g.grid));
    JoinIsLine(Texts(Flatten(g.grid)));
  }

  /** The four section headers hold no line break. */
  lemma HeadersAreLines()
    ensures IsLine(SettingsHeader) && IsLine(MovesHeader) && IsLine(ButtonsHeader) && IsLine(OperatorsHeader)
  {
  }

  /** Reading a saved game gives back the fields that were written. */
  lemma ReadSaveText(g: Game)
    requires Saveable(g)
    ensures ReadSave(SaveText(g)) == Success(SaveRecord(
      Split(g.settings.FileFriendlyString()), g.movesLeft,
      Split(ButtonsLine(g.grid)), Split(OperatorsLine(g.labels, g.movesLeft))))
  {
    SaveLinesAreLines(g);
    JoinIsLine(g.labels[..WrittenCount(g.movesLeft, |g.labels|)]);
    ParseIntToText(g.movesLeft);
    ReadFileLines(g.settings.FileFriendlyString(), IntToText(g.movesLeft), ButtonsLine(g.grid),
                  OperatorsLine(g.labels, g.movesLeft));
  }

  /** A file of eight lines with the headers in place and a number on the
      moves-left line reads back as the record of its data lines. */
  lemma ReadFileLines(settings: string, moves: string, buttons: string, operators: string)
    requires IsLine(settings) && IsLine(moves) && IsLine(buttons) && IsLine(operators)
    requires operators != "" && ParseInt(moves).Some?
    ensures ReadSave(JoinLines(FileLines(settings, moves, buttons, operators)))
      == Success(SaveRecord(Split(settings), ParseInt(moves).value, Split(buttons), Split(operators)))
  {
    var lines := FileLines(settings, moves, buttons, operators);
    HeadersAreLines();
    assert forall i | 0 <= i < |lines| :: IsLine(lines[i]);
    ReadJoinLines(lines);
  }

  /** `load` on a saved game hands the written fields to `init`. */
  lemma LoadSaved(g: Game, current: Settings, rnd: Randomness)
    requires Saveable(g) && Valid(current) && Fair(rnd)
    ensures Load(SaveText(g), current, rnd)
      == Init(current, Some(Split(g.settings.FileFriendlyString())), g.movesLeft,
              Some(Split(ButtonsLine(g.grid))), Some(Split(OperatorsLine(g.labels, g.movesLeft))), rnd)
  {
    ReadSaveText(g);
  }

  /**
    Saving and loading restores the settings, the grid and the labels the
    remaining moves use; later labels are drawn afresh and the selection is
    cleared. The moves left come back too, except that a saved -1 is the
    sentinel `init` reads as "new game", which takes the budget of the
    settings in force before the load.
  */
  lemma SaveLoadRoundTrip(g: Game, current: Settings, rnd: Randomness)
    requires Saveable(g) && Valid(current) && Fair(rnd)
    ensures var r := Load(SaveText(g), current, rnd);
      var k := WrittenCount(g.movesLeft, Rows(g));
      && r.Success?
      && r.value.settings == g.settings
      && r.value.movesLeft == (if g.movesLeft == -1 then current.GetMovesLeft() else g.movesLeft)
      && r.value.grid == g.grid
      && |r.value.labels| == |g.labels|
      && r.value.labels[..k] == g.labels[..k]
      && (forall i | k <= i < Rows(g) :: r.value.labels[i] == rnd.op(i))
      && r.value.anchor.None? && r.value.phase.Playing?
  {
    LoadRebuilds(g, current, rnd);
    RebuiltFields(Load(SaveText(g), current, rnd), g, current, rnd);
  }

  /** What a load that rebuilt a saved game restores, field by field. */
  lemma RebuiltFields(r: Result<Game, LoadError>, g: Game, current: Settings, rnd: Randomness)
    requires Saveable(g)
    requires var m := g.movesLeft;
      r == Success(Game(g.settings, if m == -1 then current.GetMovesLeft() else m, g.grid, None,
                        SetupNextOperators(g.settings.GetRows(), Some(g.labels[..WrittenCount(m, Rows(g))]), rnd.op), Playing))
    ensures var k := WrittenCount(g.movesLeft, Rows(g));
      && r.Success?
      && r.value.settings == g.settings
      && r.value.movesLeft == (if g.movesLeft == -1 then current.GetMovesLeft() else g.movesLeft)
      && r.value.grid == g.grid
      && |r.value.labels| == |g.labels|
      && r.value.labels[..k] == g.labels[..k]
      && (forall i | k <= i < Rows(g) :: r.value.labels[i] == rnd.op(i))
      && r.value.anchor.None? && r.value.phase.Playing?
  {
    var k := WrittenCount(g.movesLeft, Rows(g));
    var labels := SetupNextOperators(g.settings.GetRows(), Some(g.labels[..k]), rnd.op);
    assert |labels| == |g.labels| && labels[..k] == g.labels[..k];
  }

  /** Loading a saved game yields the game `init` builds from the written fields. */
  lemma LoadRebuilds(g: Game, current: Settings, rnd: Randomness)
    requires Saveable(g) && Valid(current) && Fair(rnd)
    ensures var s, m := g.settings, g.movesLeft;
      var written := g.labels[..WrittenCount(m, Rows(g))];
      Load(SaveText(g), current, rnd)
        == Success(Game(s, if m == -1 then current.GetMovesLeft() else m, g.grid, None,
                        SetupNextOperators(s.GetRows(), Some(written), rnd.op), Playing))
  {
    var s := g.settings;
    var m := g.movesLeft;
    var written := g.labels[..WrittenCount(m, Rows(g))];
    var sf, bf := Split(s.FileFriendlyString()), Split(ButtonsLine(g.grid));
    assert Load(SaveText(g), current, rnd) == Init(current, Some(sf), m, Some(bf), Some(written), rnd) by {
      LoadSaved(g, current, rnd);
      OperatorsLineRoundTrip(g.labels, m);
    }
    var labels := SetupNextOperators(s.GetRows(), Some(written), rnd.op);
    assert Init(current, Some(sf), m, Some(bf), Some(written), rnd)
        == Success(Game(s, if m == -1 then current.GetMovesLeft() else m, g.grid, None, labels, Playing)) by {
      SettingsRoundTrip(s, current);
      ButtonsRoundTrip(g.grid, s.GetRows(), s.GetCols(), rnd.cell);
      InitLoaded(current, sf, m, bf, written, rnd, s, g.grid);
    }
  }

  /** The operators line splits back into the labels it was written from. */
  lemma OperatorsLineRoundTrip(labels: seq<string>, movesLeft: int)
    requires var k := WrittenCount(movesLeft, |labels|);
      && 1 <= k
      && (forall i | 0 <= i < k :: '|' !in labels[i])
      && labels[k - 1] != ""
    ensures Split(OperatorsLine(labels, movesLeft)) == labels[..WrittenCount(movesLeft, |labels|)]
  {
    var written := labels[..WrittenCount(movesLeft, |labels|)];
    SplitJoin(written);
  }

  /** Every state reached in play from a new game can be saved and loaded back. */
  lemma ReachableIsSaveable(g: Game)
    requires Invariant(g) && g.phase.Playing?
    ensures Saveable(g)
  {
  }

  /**
    A game with no moves left writes an empty operators line, so the file ends
    right after its last header: the probe still offers it, but `load` fails
    on the missing line.
  */
  lemma NoMovesLeftSaveIsUnloadable(g: Game, current: Settings, rnd: Randomness)
    requires WellFormed(g) && Rows(g) >= 1 && g.movesLeft == 0
    requires Valid(current) && Fair(rnd)
    ensures ReadFromFilePossible(SaveText(g))
    ensures Load(SaveText(g), current, rnd) == Failure(NullLine)
  {
    assert OperatorsLine(g.labels, g.movesLeft) == "";
    SaveLinesAreLines(g);
    ParseIntToText(g.movesLeft);
    UnloadableEmptyLast(g.settings.FileFriendlyString(), IntToText(g.movesLeft), ButtonsLine(g.grid), current, rnd);
  }

  /** A file whose operators line is empty ends right after the operators
      header: the probe accepts it and `load` rejects it. */
  lemma UnloadableEmptyLast(settings: string, moves: string, buttons: string, current: Settings, rnd: Randomness)
    requires Valid(current) && Fair(rnd)
    requires IsLine(settings) && IsLine(moves) && IsLine(buttons) && ParseInt(moves).Some?
    ensures ReadFromFilePossible(JoinLines(FileLines(settings, moves, buttons, "")))
    ensures Load(JoinLines(FileLines(settings, moves, buttons, "")), current, rnd) == Failure(NullLine)
  {
    var lines := FileLines(settings, moves, buttons, "");
    HeadersAreLines();
    assert lines == lines[..7] + [""];
    ReadJoinLinesEmptyLast(lines[..7]);
    MissingLastLine(JoinLines(lines), current, rnd);
  }

  /** A file that stops after the operators header passes the probe, but
      `load` finds no operators line. */
  lemma MissingLastLine(text: string, current: Settings, rnd: Randomness)
    requires Valid(current) && Fair(rnd)
    requires var lines := ReadLines(text);
      |lines| == 7 && HeadersInPlace(lines) && ParseInt(lines[3]).Some?
    ensures ReadFromFilePossible(text)
    ensures Load(text, current, rnd) == Failure(NullLine)
  {
  }
}
