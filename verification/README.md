# Weird math game — a Dafny model of the game rules

The game is played on a grid of digit buttons with a queue of operators
(`+`, `-`, `*`, `/`) shown beside it. The first click picks an anchor cell.
Every later click on a cell in the anchor's row or column is a move:

- the anchor takes `Math.abs((anchor op clicked) % 10)`, where `op` is the
  operator at the front of the queue;
- the queue shifts up;
- the clicked cell becomes the new anchor;
- one move is used.

The game is won when the sum of the grid equals the target, and lost when
the moves run out first. When no cell can be clicked (under `/`, cells
holding 0 are disabled) the game ends at once: it is won if the sum already
equals the target and lost otherwise. A game can be saved to an eight-line
text file and loaded back.

This project models that logic as pure Dafny functions over immutable
values:

| module | file | models |
|---|---|---|
| `JavaInt` | `java_int.dfy` | Java `int` arithmetic: 32-bit wrap-around, `/` truncating toward zero, `%` keeping the dividend's sign, `Math.abs` |
| `JavaText` | `java_text.dfy` | `Integer.toString`, `Integer.parseInt`, `String.split("\\|")`, `\|`-joining, `BufferedReader.readLine` over lines written with `newLine()` |
| `GameSettings` | `settings.dfy` | the `Settings` class: its four fields, getters, setters and `fileFriendlyString` |
| `Grid` | `grid.dfy` | the button grid as `seq<seq<int>>`, row-major flattening, `updateCurrentSum` |
| `Operators` | `operators.dfy` | the operator queue: `updateOperators` and `setupNextOperators` |
| `Engine` | `engine.dfy` | the click handler, `createAvailableButtonsCross`, `moveDone(boolean)` and the win/lose check |
| `Setup` | `setup.dfy` | `init`, `createButtonGrid` and the settings part of `init` |
| `SaveFormat` | `save_format.dfy` | `fileFriendlyButtons` and `fileFriendlyOperators`: the data lines of the save file |
| `SaveFile` | `save_file.dfy` | `save`, `load` and `readFromFilePossible` |

Notes on how the model is built:

- Randomness is a parameter. `Setup.Randomness` holds the draws for each
  cell and each label, and the label drawn when the queue shifts is the
  `drawn` argument of `Engine.Move`.
- The save file is a `string`, and `SaveFile.Load` reads it line by line as
  `readLine` would.
- A failed `load` is a `Setup.LoadError`, which names the Java exception the
  code would throw and then catch.

A button's value is modelled as a Java `int`. `GameGui` is written against
an `int`-valued `getValue()`: it assigns the value to `int` variables
(src/GameGui.java:441-442) and adds it to an `int` sum (src/GameGui.java:410).
Both lines only compile if `getValue()` returns `int`. The `GridButton.java`
in the repository returns a `double`, which does not fit those lines. The
model follows `GameGui`. The consequence for the save file is listed under
"Left out".

Following the code where it differs from what a reader might expect:

- After a deadlocked move, `moveDone` runs twice: once inside
  `createAvailableButtonsCross` and once at the end of the handler. So the
  moves left end at -2. The game keeps the first outcome, and
  `Engine.DeadlockChecksAgree` shows that the second check gives the same one.
- A saved moves-left value of -1 is `init`'s "new game" sentinel. Loading
  such a file takes the moves-left budget of the settings in force before the
  load.
- `fileFriendlyOperators` writes every label when the moves left are
  negative, because its loop stops only when `i == movesLeft`.

## Model

| member | source | states |
|---|---|---|
| `JavaInt.Wrap` | src/GameGui.java:444-447 | Java's 32-bit `int` overflow: the result is an `int` that differs from the exact value by a multiple of 2^32, so any value already in range is kept |
| `JavaInt.JavaAbs` | src/GameGui.java:449 | `Math.abs` on an `int`: the magnitude, except that `Math.abs(Integer.MIN_VALUE)` stays `Integer.MIN_VALUE` |
| `JavaInt.Quot` | src/GameGui.java:447 | Java's `/` on `int`: the magnitude is the quotient of the magnitudes, and the sign is negative exactly when the operands' signs differ and the quotient is non-zero |
| `JavaInt.Rem` | src/GameGui.java:449 | Java's `%`: `a == Quot(a, b) * b + r`, `\|r\| < \|b\|`, and `r` is never of the opposite sign to `a` |
| `JavaInt.AbsRemTen` | src/GameGui.java:449 | `Math.abs(x % 10)` is the last decimal digit of `\|x\|` for every `int` |
| `JavaText.IntToText` | src/Settings.java:37 | the decimal text of an `int` is non-empty, holds no `\|` and no line break, and starts with `-` exactly when the value is negative |
| `JavaText.ParseInt` | src/GameGui.java:634 | `parseInt` returns only `int`-range values and rejects the empty string and a lone sign |
| `JavaText.ParseIntAccepts` | src/GameGui.java:634 | every accepted text is a sign or digit followed by digits; unsigned and `+` texts read as their digits' value, and `-` texts as the negated digits' value |
| `JavaText.ParseIntAcceptsNumeral` | src/GameGui.java:634 | conversely, an optional `-` or `+` followed by at least one digit is accepted whenever its value is in `int` range, with that value |
| `JavaText.NatToTextValue` | src/Settings.java:37 | the digits `Integer.toString` writes for a non-negative value read back as that value |
| `JavaText.ParseIntToText` | src/GameGui.java:212-215 | `parseInt` reads back every `int` from its decimal text |
| `JavaText.RawSplit` | src/GameGui.java:626 | the pieces between `\|` characters hold no `\|`, and joining them with `\|` gives back the text |
| `JavaText.DropTrailingEmpty` | src/GameGui.java:626 | `split` keeps a prefix of the pieces, ending in a non-empty piece, and drops only empty pieces |
| `JavaText.JoinInjective` | src/GameGui.java:662-676 | two lists of `\|`-free fields that join to the same text are equal |
| `JavaText.Split` | src/GameGui.java:626 | `split("\\|")` returns a text without `\|` unchanged as the only field; otherwise it returns the pieces between `\|` characters up to the last non-empty one, dropping only trailing empty pieces, and no field holds a `\|` |
| `JavaText.JoinPrefixStep` | src/GameGui.java:666-671 | writing the next field and then a separator unless it is the last field extends the `\|`-join written so far |
| `JavaText.SplitJoin` | src/GameGui.java:626 | splitting the `\|`-join of `\|`-free fields gives them back when the last field is non-empty or is the only one |
| `JavaText.ReadLines` | src/GameGui.java:621 | no line `readLine` returns holds a line terminator |
| `JavaText.ReadLinesStep` | src/GameGui.java:621 | the text gives no line exactly when it is empty; otherwise the first line is the text up to its first terminator, and reading resumes after that terminator, `\r\n` counting as one, so a terminator at the very end starts no further line |
| `JavaText.ReadJoinLines` | src/GameGui.java:583-600 | lines joined by `\n`, by `\r` or by `\r\n` are read back as the same lines when the last one is non-empty: each of the three ends a line |
| `JavaText.ReadJoinLinesPrefix` | src/GameGui.java:583-600 | whatever the last written line holds, every line before it is read back unchanged |
| `JavaText.ReadJoinLinesEmptyLast` | src/GameGui.java:600 | an empty last line written after `newLine()` is not read back: `readLine` returns null there |
| `GameSettings.Settings.SetNumOfRows` | src/Settings.java:8-10 | sets the rows and leaves the other three fields unchanged |
| `GameSettings.Settings.SetNumOfCols` | src/Settings.java:16-18 | sets the columns and leaves the other three fields unchanged |
| `GameSettings.Settings.SetMovesLeft` | src/Settings.java:24-26 | sets the moves and leaves the other three fields unchanged |
| `GameSettings.Settings.SetTargetValue` | src/Settings.java:32-34 | sets the target and leaves the other three fields unchanged |
| `GameSettings.SettersIndependent` | src/Settings.java:8-34 | the setters of any two different fields commute (all six pairs), a second set of any field overrides the first, and setting all four gives exactly those values |
| `GameSettings.Settings.FileFriendlyString` | src/Settings.java:36-38 | the settings line holds no line break and splits on `\|` into exactly four fields: the decimal texts of rows, columns, moves and target, in that order |
| `GameSettings.NewSettings` | src/Settings.java:2 | a fresh `Settings` is 7 by 5 with 20 moves and target 150, all within the menu's spinner ranges |
| `Grid.SetCell` | src/GameGui.java:450 | writing a value to one button changes that cell and no other, and keeps the grid's shape |
| `Grid.Reshape` | src/GameGui.java:282-287 | laying out `rows * cols` values row by row gives a grid of that shape whose row-major order is the values |
| `Grid.ReshapeFlatten` | src/GameGui.java:662-676 | a grid laid out from its own row-major order is the same grid |
| `Grid.FlattenIndex` | src/GameGui.java:664-667 | cell `(i, j)` is entry `i * cols + j` of the row-major order |
| `Grid.FlattenRow` | src/GameGui.java:664-674 | row `i` fills the `cols` entries of the row-major order right after the rows above it |
| `Grid.CurrentSum` | src/GameGui.java:406-415 | the sum of the cells as a Java `int`: always in range, and the exact sum whenever that fits |
| `Grid.UpdateCurrentSum` | src/GameGui.java:406-415 | the nested loop adding the buttons with wrap-around computes the wrapped sum of all cells |
| `Grid.SmallBoardSumExact` | src/GameGui.java:406-415 | on a board of at most 10 by 10 digit cells the sum never wraps and lies between 0 and 900 |
| `Operators.UpdateOperators` | src/GameGui.java:342-364 | the in-place loop over the labels produces exactly the shifted queue, and its random branch for the last label cannot be reached |
| `Operators.ShiftKeepsOperatorPrefix` | src/GameGui.java:342-364 | if the labels the remaining moves use are operators, the labels for one move fewer are too, and exactly those labels are non-empty after the shift |
| `Operators.SetupNextOperators` | src/GameGui.java:315-337 | one label per row; label `i` is the `i`-th saved operator while there is one, and otherwise the random draw for `i` |
| `Engine.Combine` | src/GameGui.java:440-450 | the value written to the anchor is always a digit from 0 to 9 |
| `Engine.CombineDigits` | src/GameGui.java:443-450 | on digit operands nothing wraps, and the value is the last digit of the magnitude of the exact result |
| `Engine.CombineNegativeDifference` | src/GameGui.java:445-449 | for digits `a < b`, `a - b` writes `b - a`, where a Euclidean remainder would give `10 - (b - a)` |
| `Engine.CrossRow` | src/GameGui.java:470-482 | the sweep over one row enables exactly the available cells of that row, and its count is 0 exactly when none of them is available |
| `Engine.ClearRowsDeadlock` | src/GameGui.java:484 | a zero count over all rows is exactly a deadlock: no cell of the board can be the second click |
| `Engine.CreateAvailableButtonsCross` | src/GameGui.java:467-487 | a button is enabled exactly when it is in the anchor's row or column, is not the anchor and is not a 0 under `/`; the count is 0 exactly when no cell is available |
| `Engine.DeadlockNeedsDivision` | src/GameGui.java:471-486 | on a board of two or more cells a deadlock happens only under `/`, with every other cell of the anchor's cross holding 0 |
| `Engine.Evaluate` | src/GameGui.java:500-513 | lost exactly when no moves are left and the sum misses the target; won exactly when the sum equals the target; the reported deficit is non-zero and equals `\|target - sum\|` when that fits |
| `Engine.MoveDone` | src/GameGui.java:500-510 | one move fewer and nothing else changed except the phase; lost exactly when no moves are left and the sum misses the target; won exactly when the sum equals the target |
| `Engine.CheckCross` | src/GameGui.java:467-487 | without a deadlock the game is untouched; with one, the moves left become 0 and then -1, the game ends, and the outcome is the check at -1 moves left |
| `Engine.DeadlockChecksAgree` | src/GameGui.java:484-486 | after a deadlock, the checks at -1 and at -2 moves left give the same outcome |
| `Engine.SelectAnchor` | src/GameGui.java:435-438 | the first click sets the anchor and uses no move; if its cross is empty the game ends at once with -1 moves left, with the outcome of the check at -1 moves left: won exactly when the sum already equals the target |
| `Engine.Move` | src/GameGui.java:439-458 | only the anchor cell changes, to `Combine` of the front operator, the anchor and the clicked cell; the queue shifts; the clicked cell becomes the anchor; without a deadlock one move is used and the outcome is `Evaluate`; with a deadlock the game ends at -2 moves left, with the outcome of the first check, at -1 moves left, on the new sum |
| `Engine.Click` | src/GameGui.java:433-461 | every click keeps the game well formed, keeps the settings, and leaves the clicked cell as the anchor |
| `Engine.ClickPreservesInvariant` | src/GameGui.java:433-461 | every click from a started game keeps at least one row, at least one move while playing, and an operator in every label the remaining moves use |
| `Setup.Field` | src/GameGui.java:212-215 | reading field `k` succeeds exactly when it exists and parses, giving the parsed value; a missing field is the index error |
| `Setup.ApplySettings` | src/GameGui.java:211-216 | loading settings succeeds exactly when the first four fields parse, and then they become rows, columns, moves and target in that order |
| `Setup.SettingsRoundTrip` | src/GameGui.java:211-216 | reading back a settings line restores exactly the settings it was written from |
| `Setup.ParseCells` | src/GameGui.java:284-286 | reading `n` saved cells succeeds exactly when the first `n` fields parse, and gives their values in order |
| `Setup.RandomGrid` | src/GameGui.java:288 | a new grid has the configured shape and cell `(i, j)` holds the draw for `(i, j)` |
| `Setup.CreateButtonGrid` | src/GameGui.java:278-294 | without a save the grid is the random one; with a save it succeeds exactly when the `rows * cols` fields parse, and its row-major order is those values |
| `Setup.Build` | src/GameGui.java:227-240 | laying out the board succeeds exactly when it has no negative dimension, is not 0 by 0, and the saved cells (if any) parse; a bad board is `BadDimensions`; the game keeps the settings and moves left it is given, holds the random grid or the parsed cells in row-major order and the labels of `setupNextOperators`, has nothing selected and is well formed |
| `Setup.Init` | src/GameGui.java:204-276 | `init` succeeds exactly when the saved settings (if any) parse, the board has no negative dimension and is not 0 by 0, and the saved cells (if any) parse. A settings error is returned as it is, and a bad board is `BadDimensions`. On success the settings are the parsed fields set on the current ones. The moves left are the saved value, or the current budget for the sentinel -1. The grid is the random one, or the one whose row-major order is the parsed cells. The labels are those of `setupNextOperators`. Nothing is selected and play is on |
| `Setup.NewGameStarts` | src/GameGui.java:193-195 | a new game from menu settings keeps those settings and the full budget, has cells 0 to 8 and operator labels, and satisfies the invariant |
| `SaveFormat.FileFriendlyButtons` | src/GameGui.java:662-676 | the nested loop, with its separator test `i + 1 != rows \|\| j + 1 != cols`, writes the `\|`-join of the cells' decimal texts in row-major order |
| `SaveFormat.WriteGridRow` | src/GameGui.java:664-674 | one pass of the outer loop extends the written text from the start of row `i` to the start of row `i + 1` in row-major order |
| `SaveFormat.WriteRow` | src/GameGui.java:665-673 | the inner loop over row `i`, given where that row sits among all the cells, appends its cells' texts with the separators the `\|`-join puts after them |
| `SaveFormat.WriteCell` | src/GameGui.java:666-672 | appending a cell's text, then `\|` unless it is the bottom-right cell, extends the `\|`-join written so far by one field |
| `SaveFormat.RowPlace` | src/GameGui.java:664-670 | row `i` starts after the rows above it and ends the row-major order exactly when it is the last row |
| `SaveFormat.FileFriendlyOperators` | src/GameGui.java:682-694 | the loop with its early stop and conditional separators writes the `\|`-join of exactly the first `WrittenCount` labels |
| `SaveFile.SavedHeadersRead` | src/GameGui.java:580-608 | the first seven lines of a saved file read back as written, so the probe accepts every saved file |
| `SaveFile.ReadSave` | src/GameGui.java:613-651 | reading succeeds exactly when all eight lines are present, the four headers match and the moves-left line parses; the fields are the split data lines |
| `SaveFile.Load` | src/GameGui.java:613-656 | a load succeeds exactly when the file reads as a save, its settings fields parse, the board has no negative dimension and is not 0 by 0, and the buttons line holds enough cells that parse; a read failure is returned as it is; a loaded game is well formed, playing, has nothing selected and carries the parsed settings |
| `SaveFile.ReadFromFilePossible` | src/GameGui.java:700-734 | the probe holds exactly when the four headers are in place, whatever the data lines are |
| `SaveFile.LoadImpliesProbe` | src/GameGui.java:700-734 | every file that loads is also accepted by the probe |
| `SaveFile.ParseTexts` | src/GameGui.java:284-286 | the decimal texts of `int` cells parse back to the cells |
| `SaveFormat.TextsAt` | src/GameGui.java:666 | entry `k` of the written cell texts is the decimal text of cell `k` |
| `SaveFile.ButtonsRoundTrip` | src/GameGui.java:662-676 | the buttons line read back by `createButtonGrid` rebuilds the grid it was written from |
| `SaveFile.FlattenIntsAt` | src/GameGui.java:664-667 | every entry of the row-major order of an `int` grid is an `int` |
| `SaveFile.SaveLinesAreLines` | src/GameGui.java:586-596 | the settings, moves-left and buttons lines `save` writes hold no line break |
| `SaveFile.ReadFileLines` | src/GameGui.java:621-651 | a text of eight lines with the headers in place and a number on the moves-left line reads back as its split data lines and that number |
| `SaveFile.MissingLastLine` | src/GameGui.java:621-651 | a file that ends right after the operators header passes the probe, but `load` fails on the missing operators line |
| `SaveFile.ReadSaveText` | src/GameGui.java:580-608 | reading a saved game gives back the split settings line, the moves left, the split buttons line and the split operators line |
| `SaveFile.LoadSaved` | src/GameGui.java:613-656 | loading a saved game passes exactly the written fields to `init` |
| `SaveFile.LoadRebuilds` | src/GameGui.java:613-656 | loading a saved game gives the game built from the saved settings, moves left and grid, with the written labels first and random draws after, nothing selected and play on |
| `SaveFile.OperatorsLineRoundTrip` | src/GameGui.java:682-694 | the operators line splits back into exactly the labels that were written |
| `SaveFile.SaveLoadRoundTrip` | src/GameGui.java:580-656 | save then load restores the settings, the moves left (except the sentinel -1), the grid and the written labels; the later labels are fresh draws, nothing is selected and the game is on |
| `SaveFile.ReachableIsSaveable` | src/GameGui.java:580-608 | every game still in play from a new game meets the conditions for the save/load round trip |
| `SaveFile.UnloadableEmptyLast` | src/GameGui.java:599-601 | a file whose operators line is written empty ends at its operators header, so it passes the probe but `load` fails on the missing line |
| `SaveFile.NoMovesLeftSaveIsUnloadable` | src/GameGui.java:682-694 | a game saved with 0 moves left cannot be loaded, because the file ends at the empty operators line, yet the probe still accepts it |

## Left out

- The Swing user interface is not modelled: frames, panels, spinners, labels' fonts, `revalidate` and `postGame`'s screen. The spinner ranges appear only as `GameSettings.FromMenu`.
- `mainMenu` and `Gui.java` are not part of this model. Neither is `Game.java`: it calls a `GameGui(int, int)` constructor and a `printTargetValue(int)` overload that `GameGui` does not have, and it has no entry point.
- File I/O is not modelled: the save file is a string, and I/O errors are not modelled. `save` closes the window at the end, which is also left out.
- `java.util.Random` and `getRandOperator` are left out. Their draws are parameters, and `Setup.Fair` states their ranges.
- `GridButton.java` is not part of this model beyond its value and its position. Its `double` storage and its text formatting are replaced by an `int` cell, as explained above.
- Engine.Click: requires at least `IntMin + 2` moves left for a second click (the first click never computes `movesLeft - 2`). Below that, the source's `movesLeft - 2` in `updateOperators` wraps around and indexes past the labels. Only a hand-edited save file reaches this.
- Operators.UpdateOperators: has the same `IntMin + 2` requirement as `Engine.Click`, for the same reason.
- Setup.Init: models a failed `init` as a failure result. The source has already changed the moves left, and possibly some settings, before it throws. Those partial updates of the window's state are not modelled.
- JavaText.ParseInt: accepts only ASCII digits. Java's `parseInt` also accepts other Unicode decimal digits.
- `newLine()` writes the system's line separator. `SaveFile.SaveText` uses `"\n"`. `JavaText.ReadJoinLines` shows that `"\r"` and `"\r\n"` give back the same lines, but the save/load round trip is stated for `"\n"` only.
- SaveFile.ButtonsRoundTrip and SaveFile.SaveLoadRoundTrip: rely on `getValue()` returning `int`, as `GameGui` assumes. With the `double`-valued `GridButton.java`, `fileFriendlyButtons` would append texts such as `3.0`, and `Integer.parseInt` at src/GameGui.java:285 would reject them, so no saved board could be loaded.
- An `OutOfMemoryError` from a huge saved board size is not modelled.
- A click on a disabled button cannot happen in the source, so `Engine.Click` requires an available cell for the second click.
- The handler's second `moveDone` after a deadlock calls `postGame` again. The model keeps only the outcome, which `Engine.DeadlockChecksAgree` shows is unchanged.
