/**
  The four-field game configuration (`Settings` in the Java program): board
  rows and columns, the move budget and the target sum, with its defaults,
  getters, setters and the one-line save encoding.
*/
module GameSettings {
  import opened JavaInt
  import opened JavaText

  datatype Settings = Settings(numOfRows: int, numOfCols: int, movesLeft: int, targetValue: int) {

    function GetRows(): int {
      numOfRows
    }

    function GetCols(): int {
      numOfCols
    }

    /** The move budget a new game starts with. */
    function GetMovesLeft(): int {
      movesLeft
    }

    function GetTargetVal(): int {
      targetValue
    }

    function SetNumOfRows(v: int): (r: Settings)
      ensures r.GetRows() == v
      ensures r.GetCols() == GetCols() && r.GetMovesLeft() == GetMovesLeft() && r.GetTargetVal() == GetTargetVal()
    {
      this.(numOfRows := v)
    }

    function SetNumOfCols(v: int): (r: Settings)
      ensures r.GetCols() == v
      ensures r.GetRows() == GetRows() && r.GetMovesLeft() == GetMovesLeft() && r.GetTargetVal() == GetTargetVal()
    {
      this.(numOfCols := v)
    }

    function SetMovesLeft(v: int): (r: Settings)
      ensures r.GetMovesLeft() == v
      ensures r.GetRows() == GetRows() && r.GetCols() == GetCols() && r.GetTargetVal() == GetTargetVal()
    {
      this.(movesLeft := v)
    }

    function SetTargetValue(v: int): (r: Settings)
      ensures r.GetTargetVal() == v
      ensures r.GetRows() == GetRows() && r.GetCols() == GetCols() && r.GetMovesLeft() == GetMovesLeft()
    {
      this.(targetValue := v)
    }

    /**
      The save-file line `rows|cols|moves|target`: for any values it splits on
      `|` into exactly these four fields, each the decimal text of one field.
    */
    function FileFriendlyString(): (s: string)
      ensures Split(s) == [IntToText(numOfRows), IntToText(numOfCols), IntToText(movesLeft), IntToText(targetValue)]
      ensures IsLine(s)
    {
      var a, b, c, d := IntToText(numOfRows), IntToText(numOfCols), IntToText(movesLeft), IntToText(targetValue);
      SplitJoin([a, b, c, d]);
      JoinIsLine([a, b, c, d]);
      JoinFour(a, b, c, d);
      a + "|" + b + "|" + c + "|" + d
    }
  }

  /** A freshly constructed `Settings`: a 7 by 5 board, 20 moves, target 150,
      all within the ranges the main menu's spinners allow. */
  function NewSettings(): (s: Settings)
    ensures s.GetRows() == 7 && s.GetCols() == 5
    ensures s.GetMovesLeft() == 20 && s.GetTargetVal() == 150
    ensures FromMenu(s)
  {
    Settings(7, 5, 20, 150)
  }

  /** Every field holds a Java `int`. */
  predicate Valid(s: Settings) {
    IsInt(s.numOfRows) && IsInt(s.numOfCols) && IsInt(s.movesLeft) && IsInt(s.targetValue)
  }

  /** Values the main menu's spinners can produce: rows and columns 2 to 10,
      target 1 to 420, moves 1 to 99. */
  predicate FromMenu(s: Settings) {
    && 2 <= s.numOfRows <= 10
    && 2 <= s.numOfCols <= 10
    && 1 <= s.targetValue <= 420
    && 1 <= s.movesLeft <= 99
  }

  /** Setting two different fields gives the same record in either order,
      setting a field twice keeps only the last value, and setting all four
      fields leaves nothing of the old record. */
  lemma SettersIndependent(s: Settings, r: int, c: int, m: int, t: int, r2: int, c2: int, m2: int, t2: int)
    ensures s.SetNumOfRows(r).SetNumOfCols(c) == s.SetNumOfCols(c).SetNumOfRows(r)
    ensures s.SetNumOfRows(r).SetMovesLeft(m) == s.SetMovesLeft(m).SetNumOfRows(r)
    ensures s.SetNumOfRows(r).SetTargetValue(t) == s.SetTargetValue(t).SetNumOfRows(r)
    ensures s.SetNumOfCols(c).SetMovesLeft(m) == s.SetMovesLeft(m).SetNumOfCols(c)
    ensures s.SetNumOfCols(c).SetTargetValue(t) == s.SetTargetValue(t).SetNumOfCols(c)
    ensures s.SetMovesLeft(m).SetTargetValue(t) == s.SetTargetValue(t).SetMovesLeft(m)
    ensures s.SetNumOfRows(r).SetNumOfRows(r2) == s.SetNumOfRows(r2)
    ensures s.SetNumOfCols(c).SetNumOfCols(c2) == s.SetNumOfCols(c2)
    ensures s.SetMovesLeft(m).SetMovesLeft(m2) == s.SetMovesLeft(m2)
    ensures s.SetTargetValue(t).SetTargetValue(t2) == s.SetTargetValue(t2)
    ensures s.SetNumOfRows(r).SetNumOfCols(c).SetMovesLeft(m).SetTargetValue(t) == Settings(r, c, m, t)
  {
  }
}
