# cursweep game-state engine in Dafny

A model of the game engine of `cursweep.c`, a terminal minesweeper. The
source keeps two pieces of state:

- `tab` is the hidden truth. It is a `lin x col` grid of characters in
  which `'B'` is a bomb and `'0'..'8'` is the number of bombs around a cell.
- The screen is the only record of what the player has uncovered. `'*'` is a
  hidden cell, `'B'` a flagged one, and a digit or blank a revealed one.

The model keeps `tab` as an `array2<char>`. It replaces the screen with an
`array2<Visibility>` of the same size, holding `Hidden`, `Flagged` or
`Revealed`. Positions are 0-based `tab` coordinates; the source's screen
row `y` is `tab` row `y - 1`.

Modules, one per file:

- `Grid` (grid.dfy): positions, the eight directions in the order the source
  visits them, and counting facts about cells and neighbourhoods.
- `Board` (board.dfy): `InitTab`, `InitBombs` with its rejection-sampling
  loop, and `InitNumbers`. The values of `rand()` are a sequence of draws
  that the caller supplies. `InitBombs` is proved to place exactly `bombs`
  bombs, on the first `bombs` distinct cells the draws name. `InitNumbers`
  is proved to leave every non-bomb cell holding the count of its bomb
  neighbours.
- `Screen` (screen.dfy): the visibility grid, `FieldCreate` and `Mark`.
- `Reveal` (reveal.dfy): `Step`, the recursive flood fill. It returns 0 on
  a cell that is not hidden, -1 on a bomb and 1 otherwise. It is proved to
  add to `stepped` exactly the number of cells it opened, and never to open
  a bomb or a flagged cell. Every cell it opens is reachable from the
  starting cell through opened blanks, and no hidden non-bomb neighbour is
  left next to any blank it opened. It terminates because every
  nested step starts from a strictly smaller set of hidden cells.
- `Surroundings` (surroundings.dfy): `Check`, a query that changes
  nothing. On a revealed cell it either aborts, because a bomb around the
  cell is not flagged, or returns the hidden neighbours it would highlight.
- `Cursor` (cursor.dfy): the clamped cursor moves and the mouse-position
  test of the main loop.
- `Turn` (turn.dfy): what one pass of the main loop does, stated on values.
  A `Snapshot` holds the cursor, `cont` and the hidden, flagged and revealed
  cells. `Effect` relates the snapshots before and after an input, event by
  event. A step is described by `Opened`: which cells it opened, in which
  order, and how the three cell sets change.
- `Game` (game.dfy): a class holding `main`'s state: `tab`, the screen,
  the `cont` counter and the cursor. Its constructor sets up a game. Each
  command of the main loop is a method whose postcondition is `Effect` for
  its input. `Run` runs the main loop over a sequence of keys typed. Main's
  getch does not see the key after a '?', which Help's own getch reads to
  close the panel, so `Keys` gives the inputs the loop actually receives.
  `Run` records the run as a sequence of snapshots linked by `Effect`
  (`Steps`), and `Play` adds the verdict. The
  class invariant says `cont` equals the number of revealed cells and no
  bomb is revealed. The loop ends in a win exactly when every non-bomb cell
  is revealed.

## Model

| member | source | states |
|---|---|---|
| Board.InitTab | cursweep.c:77-98 | returns a fresh lin x col tab with '0' in every cell, hence no bomb |
| Board.DrawCell | cursweep.c:112-113 | the cell a pair of rand() results picks, row `% lin` and column `% col`, always lies on the field |
| Board.Firsts | cursweep.c:109-116 | the distinct cells of a draw sequence in order of first appearance: no repeats, and the same set of cells as the draws |
| Board.FirstsPrefix | cursweep.c:109-116 | the first appearances of a prefix of the draws are a prefix of those of all draws |
| Board.FirstsSnoc | cursweep.c:111-115 | one more draw adds its cell to the first appearances exactly when the cell is new |
| Board.SkipDrawn | cursweep.c:111-114 | draws that only repeat cells already drawn add nothing to the first appearances |
| Board.FreeDrawExists | cursweep.c:111-114 | while fewer than n distinct cells are used and the draws name n, some later draw names a new cell, so the do-while loop ends |
| Board.NextBomb | cursweep.c:111-115 | the draw that ends the do-while loop after redrawing repeats adds exactly its cell to the first appearances |
| Board.DrawFreeCell | cursweep.c:111-114 | takes draws from t0 until one names a cell without a bomb, returns that cell and the next draw position, and every draw it passed over named a bomb |
| Board.InitBombs | cursweep.c:102-117 | the bombs are exactly the first `bombs` distinct cells the draws name, there are exactly `bombs` of them, and every other cell still holds '0' |
| Board.AroundInsert | cursweep.c:129-146 | counting one more bomb raises a cell's count by one exactly when the bomb is its neighbour |
| Board.RoomAround | cursweep.c:129-146 | before a bomb is counted, no non-bomb cell around it already shows '8', so the `++` stays a digit |
| Board.BumpCell | cursweep.c:130-145 | one guarded `++`: only the named cell changes, and only if it is on the field and not a bomb |
| Board.VisitedNext | cursweep.c:130-145 | the neighbours handled after direction k are those handled before it plus the neighbour in direction k |
| Board.BumpAround | cursweep.c:129-146 | every on-field non-bomb neighbour of the bomb is bumped once; no other cell changes, and nothing past an edge is touched |
| Board.CountedNone | cursweep.c:121-126 | a tab of bombs and zeros counts no bombs yet |
| Board.CountedPass | cursweep.c:126-148 | passing a cell that is not a bomb, or the end of a row, changes no count |
| Board.CountBomb | cursweep.c:129-146 | after handling a bomb, every non-bomb cell counts the bombs visited so far including this one |
| Board.CountedAll | cursweep.c:121-149 | once every row is visited, every non-bomb cell holds '0' plus its number of bomb neighbours |
| Board.InitNumbers | cursweep.c:121-149 | bomb cells are unchanged, and every other cell holds '0' plus the number of bombs among its on-field neighbours |
| Board.NumberedDigit | cursweep.c:126-148 | after numbering, a non-bomb cell holds a digit '0'..'8', and holds '0' exactly when no neighbour is a bomb |
| Screen.Toggled | cursweep.c:170-179 | the mark toggle swaps hidden and flagged and leaves a revealed cell as it is |
| Screen.ToggledTwice | cursweep.c:170-179 | marking twice restores the original visibility |
| Screen.FieldCreate | cursweep.c:153-162 | a fresh lin x col screen on which every cell is hidden and none is flagged or revealed |
| Screen.Mark | cursweep.c:166-183 | only the marked cell changes, by the toggle; the hidden and flagged sets trade that one cell; revealed cells and everything off the field are untouched |
| Screen.Uncover | cursweep.c:255-260 | drawing a hidden cell's digit moves exactly that cell from hidden to revealed |
| Reveal.Step | cursweep.c:243-279 | returns 0 on a cell that is not hidden or is off the field, -1 on a hidden bomb, and 1 otherwise; on 0 and -1 nothing changes. On 1 the cell is opened first, and the trail of opened cells is distinct and exactly the cells that went from hidden to revealed. `stepped` grows by exactly their number, and no bomb or flagged cell is opened. Every later cell of the trail is a neighbour of a blank opened before it, so only cells reachable through blanks open, and every opened '0' has no hidden non-bomb neighbour left |
| Reveal.OpenNumber | cursweep.c:254-262 | a hidden digit cell other than '0' is revealed alone and counted once |
| Reveal.OpenBlank | cursweep.c:254-274 | a hidden '0' is revealed and counted first, then its neighbours are stepped on; the region opened is closed around every blank in it |
| Reveal.StepAround | cursweep.c:264-273 | the eight steps around a blank, in the source's order, leave each of its neighbours revealed, flagged or a bomb, and count every cell they open |
| Reveal.ChainStart | cursweep.c:264-273 | a blank followed by the cells its eight steps opened forms a chain in which every cell hangs off an earlier opened blank |
| Reveal.ChainJoin | cursweep.c:264-273 | appending the chain opened from a neighbour of the blank keeps every opened cell next to the blank or to an earlier opened blank |
| Reveal.ClosedCentre | cursweep.c:264-273 | a blank whose eight neighbours are all opened or bombs keeps the opened region closed |
| Reveal.ClosedJoin | cursweep.c:264-273 | the region a nested step opens joins the region opened so far and the union stays closed |
| Reveal.Accumulate | cursweep.c:262-273 | the counts and trails of consecutive steps add up: the joined trail is distinct and is exactly the union of the cells each opened |
| Reveal.SweptMore | cursweep.c:264-273 | after the step in direction k, that neighbour is no longer a hidden non-bomb |
| Surroundings.AbortFrom | cursweep.c:291-356 | read as intended, the check aborts in directions k..7 exactly when some bomb neighbour in those directions is not flagged |
| Surroundings.HiddenFrom | cursweep.c:359-400 | the cells re-drawn in green are exactly the hidden neighbours in directions k..7 |
| Surroundings.Check | cursweep.c:283-407 | it does nothing unless the cell is revealed; it aborts exactly when a bomb around the cell is not flagged; otherwise it highlights exactly the hidden neighbours. As a function it changes nothing |
| Surroundings.CheckAsWritten | cursweep.c:283-407 | the check with line 351's probe still acts only on revealed cells and highlights only the hidden neighbours |
| Surroundings.Line351Misread | cursweep.c:349-356 | on a field whose only bomb neighbour, down-right of the cell, is flagged, the as-written check aborts while the intended check goes through |
| Cursor.MoveRight | cursweep.c:533-547 | right arrow and 'd' move right by n but stop at column col - 1 |
| Cursor.MoveLeft | cursweep.c:549-563 | left arrow and 'a' move left by n but stop at column 0 |
| Cursor.MoveUp | cursweep.c:565-579 | up arrow and 'w' move up by n but stop at screen row 1 |
| Cursor.MoveDown | cursweep.c:581-595 | down arrow and 's' move down by n but stop at screen row lin |
| Cursor.RightThenLeft | cursweep.c:533-563 | moving right and back left by the same step returns to the start unless the first move hit the edge |
| Cursor.MouseOnFieldExact | cursweep.c:493 | the corrected mouse test accepts exactly the clicks that land on a cell of the field |
| Cursor.MouseAsWrittenAdmitsColumnCol | cursweep.c:493 | the test as written accepts a click in column col, one past the last column |
| Game.CountDecidesWin | cursweep.c:479 | the revealed cells never exceed lin*col - bombs, and reach that number exactly when every non-bomb cell is revealed |
| Turn.Tally | cursweep.c:510-513 | opening `stepped` new non-bomb cells adds exactly `stepped` to the revealed count |
| Turn.StepOpened | cursweep.c:243-279 | Step's postconditions, read as relations between the cell sets before and after the step, make up `Opened` |
| Turn.OpenedCount | cursweep.c:510-513 | after a step, the revealed cells number exactly as many more as the trail has cells, and still include no bomb |
| Turn.Moved | cursweep.c:533-595 | each movement key moves the cursor by 1 (arrows) or 4 ('d', 'a', 'w', 's') in its direction, clamped to the field; the cursor stays on the field |
| Turn.SteppedFrom | cursweep.c:496-512 | what a step does depends on `cont` and the cells, not on where the cursor was before the click moved it |
| Turn.ClickedFrom | cursweep.c:496-506 | the same holds for a mark, check or step triggered by a click |
| Turn.Quits | cursweep.c:597-598 | by `Effect`, the game quits on 'q' and on no other input |
| Turn.Ended | cursweep.c:516-598 | an input that explodes or quits leaves `cont` and every cell as they were; one that explodes has the cursor on a hidden bomb |
| Turn.StepsSnoc | cursweep.c:478-600 | a run followed by one more input with its `Effect` is a run |
| Turn.StepsEnded | cursweep.c:478-600 | in a run, an input quits exactly when it is a 'q'. An input that explodes or quits leaves `cont` and the cells as they were, and an explosion leaves the cursor on a hidden bomb |
| Turn.RunEnded | cursweep.c:478-600 | at the end of a run in which no earlier input ended the game, 'q' is not among the earlier inputs, and the last input quit exactly when it was a 'q'. An ending input keeps the loop test true, and an explosion ends on a hidden bomb |
| Turn.KeysTyped | cursweep.c:60-64 | main's loop receives no more inputs than keys are typed, and only keys that were typed |
| Turn.KeysWithoutHelp | cursweep.c:481-487 | without a '?', main's loop receives exactly the keys typed, in order |
| Turn.HelpThenQuit | cursweep.c:60-64 | the keys '?', 'q' give main only '?': the 'q' closes the help panel and does not quit |
| Turn.KeysStep | cursweep.c:479-487 | reading one more key keeps what main received a prefix of `Keys` |
| Turn.KeysPrefix | cursweep.c:479-487 | every input main received so far is among `Keys` and among the keys typed, and once every key is read main has received all of `Keys` |
| Game.StepCounted | cursweep.c:508-513 | Step returns 0 on a cell that is not hidden, -1 on a hidden bomb and 1 otherwise, and the screen changes only on 1. The step satisfies `Opened`: it opens nothing unless the cell is hidden and safe, and then opens that cell first. It opens only that cell when it holds a digit, and otherwise a distinct chain through blanks. It opens no bomb. The opened cells leave the hidden set and join the revealed set, which gains nothing else. No flag changes, and no opened blank keeps a hidden safe neighbour. `stepped` is the length of the trail |
| Game.Game.MoveCursor | cursweep.c:533-595 | a movement key moves only the cursor, to the position `Moved` gives, and keeps the invariant |
| Game.Game.constructor | cursweep.c:447-476 | with the prompted bounds, a game whose bombs are the first `bombs` distinct drawn cells, whose tab is numbered, with every cell hidden, `cont` 0 and the cursor at the top-left cell |
| Game.Game.StepHere | cursweep.c:508-519 | the step command at the cursor satisfies `Opened` between the cell sets before and after. It explodes exactly when the cell under the cursor was a hidden bomb, and then the screen is unchanged. `cont` grows by exactly the number of cells opened, and the invariant holds |
| Game.Game.MarkHere | cursweep.c:521-524 | the cell under the cursor toggles between hidden and flagged and every other cell stays; the hidden and flagged sets trade that cell, the revealed set is unchanged, and the invariant holds |
| Game.Game.CheckHere | cursweep.c:527-530 | the check command reports `Check` at the cursor. That is: nothing if the cell is not revealed, an abort if a bomb around it is not flagged, otherwise its hidden neighbours. It changes nothing |
| Game.Game.ClickHere | cursweep.c:498-506 | at the cursor, a right click marks, a double left click checks and a left click steps, each with that command's effect; any other click changes nothing; the cursor stays |
| Game.Game.ClickAt | cursweep.c:489-506 | a click off the field changes nothing. Otherwise the cursor moves to the click, and a right click, double left click or left click marks, checks or steps, with the command's effect. Any other click does nothing more. The invariant holds |
| Game.Game.Press | cursweep.c:485-598 | each key main's getch returns has its `Effect`. ' ', 'm' and 'n' step, mark and check at the cursor. The movement keys move the cursor as `Moved` says and change no cell. 'q' quits. '?' and any other key change nothing; the key that closes the help panel is not one of these inputs (`Turn.Keys`) |
| Game.Game.Handle | cursweep.c:481-599 | every input has its `Effect` on the cursor, `cont` and the cells, and the invariant holds; the game quits exactly on 'q' |
| Game.Game.Round | cursweep.c:481-599 | one input of the loop has its `Effect` on the state; the game quits exactly on 'q'; an exploding or quitting input leaves `cont` as it was; an explosion leaves the cursor on a hidden bomb |
| Game.Game.Advance | cursweep.c:479-599 | one pass of the loop extends the run by that input's `Effect`, recording the state it reached and its status. The loop test held in every recorded state before it. The input quits exactly when it is a 'q' |
| Game.Game.CountDecides | cursweep.c:479 | in any valid state, `cont` is at most lin*col - bombs and reaches it exactly when all non-bomb cells are revealed |
| Game.Game.Run | cursweep.c:478-600 | the loop reads the first n keys typed, and what main received from them (`seen`) is the start of `Keys`: the key after each '?' closes the help panel and is skipped. The run `seen` makes satisfies `Steps`: each input has its `Effect` on the state before it, from the initial state to the final one. The loop test held before every input, and no input but the last exploded or quit. Unless the last input exploded or quit, the loop stopped because every safe cell is open or the keys ran out |
| Game.Game.Play | cursweep.c:478-611 | the run of `Run`, then the verdict. The game is won exactly when every non-bomb cell is revealed. It is lost exactly when the last input exploded, and that cell is a hidden bomb under the cursor. It is quit exactly when the last input was the first 'q' main received, which was the last key read. Otherwise every key was read, main received all of `Keys`, and none of them was a 'q' |

## Left out

- Rendering is not modelled: colours, the HUD with its "Last" counter, the
  Help panel (cursweep.c:31-73, 420-445, 462-476) and the `Loser` animation
  (cursweep.c:187-239). Only the logical visibility state is kept. The
  cursor's `move` calls are left out for the same reason.
- Keyboard and mouse polling are not modelled. The inputs arrive as a
  sequence of `Event`s; when the sequence ends, `Play` returns
  `InputEnded`.
- Turn.Keys: a mouse click typed while the help panel is open is dropped
  whole, since Help's getch (cursweep.c:63) takes it. The model does not
  keep the mouse event that ncurses may still hold for a later `getmouse`.
  If the keys end while the help panel is open, the game ends with
  `InputEnded`.
- The prompt loops of cursweep.c:447-460 are not modelled. What they
  guarantee is the constructor's precondition: `lin` and `col` are at least
  10, and `bombs` lies between lin * col / 10 and lin * col / 3. Only the
  upper bounds `LINES - 1` and `COLS`, which depend on the terminal, are
  left out.
- `srand(time(NULL))` and `rand()` are not modelled. The draws are a finite
  sequence of non-negative pairs that must name at least `bombs` distinct
  cells. This stands in for rand() eventually reaching a free cell.
- The malloc failure path with `exit(1)` (cursweep.c:83-89) is left out.
  Dafny allocation does not fail.
- Board.InitBombs: requires the draws to name at least `bombs` distinct
  cells. The source instead draws until a free cell turns up, and never
  stops once no cell is free.
- Reveal.Step: off the field it returns 0. The source relies on the screen
  never showing '*' outside the field.
- Surroundings.Probe: an as-written probe that lands off the field counts
  as showing no flag, i.e. as a blank screen cell.
- Game.Game.Valid: does not include that tab is numbered. The constructor
  establishes it, and no method of the game has tab in its modifies
  clause, so tab never changes.
- Game.Game.Handle: the check's highlighting is returned as a value, not
  drawn. The help key's panel is not drawn either.
- Game.Game.ClickAt: uses the corrected mouse test `MouseOnField`. A click
  in column col, which cursweep.c:493 accepts and which moves the cursor
  there, is ignored here. The as-written test is `MouseOnFieldAsWritten`
  (see Findings).

## Findings

| source | as written | input that shows it | evidently intended | confidence | as-written member | corrected member |
|---|---|---|---|---|---|---|
| cursweep.c:351 | the down-right neighbour's flag is read from screen cell (y + 1, y + 1) | a revealed top-row cell at column 5 whose only bomb neighbour, down-right, is flagged: the check reads another hidden cell and aborts | read screen cell (y + 1, x + 1), as the tab test on line 352 does | not executed | Surroundings.Line351Misread | Surroundings.Check |
| cursweep.c:493 | a click is ignored only when event.x > col | a click in column col, one past the last column, is accepted and moves the cursor off the field | ignore a click when event.x > col - 1 | not executed | Cursor.MouseAsWrittenAdmitsColumnCol | Cursor.MouseOnFieldExact |
