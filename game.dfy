/** The game as main runs it (cursweep.c:410-610): the set-up of a new
    field and the loop that reacts to keys and mouse clicks until the player
    wins, steps on a bomb or quits. */
module Game {
  import opened Grid
  import opened Board
  import opened Screen
  import opened Reveal
  import opened Surroundings
  import opened Cursor

  import opened Turn

  /** How a game ends. Lost carries the tab cell of the bomb. */
  datatype Outcome = Won | Lost(row: int, column: int) | Quit | InputEnded

  /** The player has revealed every cell without a bomb. */
  ghost predicate Cleared(lin: int, col: int, tab: array2<char>, vis: array2<Visibility>)
    reads tab, vis
  {
    RevealedCells(vis) == Cells(lin, col) - Bombs(tab)
  }

  /** The revealed cells never outnumber the cells without a bomb, and reach
      that number exactly when every one of them is revealed: the win test
      of cursweep.c:479 compares counts to decide a question about sets. */
  lemma {:induction false} CountDecidesWin(lin: nat, col: nat, bombSet: set<Pos>, revealed: set<Pos>)
    requires bombSet <= Cells(lin, col) && revealed <= Cells(lin, col) && revealed !! bombSet
    ensures |revealed| <= lin * col - |bombSet|
    ensures |revealed| == lin * col - |bombSet| <==> revealed == Cells(lin, col) - bombSet
  {
    CellsCard(lin, col);
    var safe := Cells(lin, col) - bombSet;
    assert Cells(lin, col) == safe + bombSet;
    assert |safe| == lin * col - |bombSet|;
    SubsetCard(revealed, safe);
  }

  /** Step on (i, j) as main uses it (cursweep.c:508-519): Step's code and
      the cells it opened, `stepped` being their number. */
  method StepCounted(tab: array2<char>, vis: array2<Visibility>, i: int, j: int)
    returns (r: int, stepped: int, ghost trail: seq<Pos>)
    requires vis.Length0 == tab.Length0 && vis.Length1 == tab.Length1
    modifies vis
    ensures r == if (i, j) !in old(HiddenCells(vis)) then 0 else if (i, j) in Bombs(tab) then -1 else 1
    ensures r != 1 ==> unchanged(vis)
    ensures Opened(tab, (i, j), old(HiddenCells(vis)), old(FlaggedCells(vis)), old(RevealedCells(vis)),
                   HiddenCells(vis), FlaggedCells(vis), RevealedCells(vis), trail)
    ensures stepped == |trail|
  {
    ghost var h0, f0, r0 := HiddenCells(vis), FlaggedCells(vis), RevealedCells(vis);
    r, stepped, trail := Step(tab, vis, i, j, 0);
    StepOpened(tab, (i, j), h0, f0, r0, HiddenCells(vis), FlaggedCells(vis), RevealedCells(vis), trail);
  }

  class Game {
    const lin: int
    const col: int
    const bombs: int
    /** The hidden truth: 'B' or the digit '0'..'8' of every cell. */
    const tab: array2<char>
    /** What the screen shows of every cell. */
    const vis: array2<Visibility>
    /** How many cells the player has opened. */
    var cont: int
    /** The cursor, in screen coordinates: row y shows tab row y - 1. */
    var y: int
    var x: int

    /** The invariant of the main loop: the field has the chosen size and
        number of bombs (the sizes themselves are fixed by the constructor's
        precondition), no bomb is revealed, `cont` counts the revealed
        cells, and the cursor is on the field. (That every safe cell holds
        its bomb count is set up by the constructor and kept because no
        method of the game writes to tab.) */
    ghost predicate Valid()
      reads this, tab, vis
    {
      tab.Length0 == lin && tab.Length1 == col && vis.Length0 == lin && vis.Length1 == col &&
      |Bombs(tab)| == bombs &&
      RevealedCells(vis) !! Bombs(tab) &&
      cont == |RevealedCells(vis)| &&
      1 <= y <= lin && 0 <= x < col
    }

    /** Sets up a game (cursweep.c:470-477) once the prompts have accepted
        the sizes (cursweep.c:447-460): all cells hidden, nothing opened, the
        cursor on the top-left cell. The rand() results are `draws`. */
    constructor (lin: int, col: int, bombs: int, draws: seq<(nat, nat)>)
      requires 10 <= lin && 10 <= col && lin * col / 10 <= bombs <= lin * col / 3
      requires bombs <= |Firsts(DrawnCells(lin, col, draws))|
      ensures Valid() && Numbered(tab)
      ensures this.lin == lin && this.col == col && this.bombs == bombs
      ensures Bombs(tab) == Elems(Firsts(DrawnCells(lin, col, draws))[..bombs])
      ensures HiddenCells(vis) == Cells(lin, col)
      ensures cont == 0 && y == 1 && x == 0
      ensures fresh(tab) && fresh(vis)
    {
      this.lin, this.col, this.bombs := lin, col, bombs;
      var t := InitTab(lin, col);
      InitBombs(t, bombs, draws);
      InitNumbers(t);
      var v := FieldCreate(lin, col);
      tab, vis := t, v;
      cont, y, x := 0, 1, 0;
    }

    /** The state one input can change. */
    ghost function Snap(): Snapshot
      reads this, vis
    {
      Snapshot(y, x, cont, HiddenCells(vis), FlaggedCells(vis), RevealedCells(vis))
    }

    /** The step command at the cursor (cursweep.c:508-519): `cont` grows by
        the cells Step opened, and only when it returns 1. */
    method StepHere() returns (status: Status, ghost trail: seq<Pos>)
      requires Valid()
      modifies this`cont, vis
      ensures Valid()
      ensures SteppedAt(tab, old(Snap()), Snap(), status, trail)
      ensures status == Exploded ==> unchanged(vis)
    {
      ghost var h0, f0, r0 := HiddenCells(vis), FlaggedCells(vis), RevealedCells(vis);
      HiddenNotRevealed(vis);
      var i, j := y - 1, x;
      var r, stepped;
      r, stepped, trail := StepCounted(tab, vis, i, j);
      OpenedCount(tab, (i, j), h0, f0, r0, HiddenCells(vis), FlaggedCells(vis), RevealedCells(vis), trail);
      if r == 1 {
        cont := cont + stepped;
      }
      status := if r == -1 then Exploded else Playing;
      assert (y - 1, x) == (i, j);
    }

    /** The mark command at the cursor (cursweep.c:521-524): the cell under
        the cursor toggles and every other cell stays. */
    method MarkHere()
      requires Valid()
      modifies vis
      ensures Valid()
      ensures forall r, c :: 0 <= r < lin && 0 <= c < col ==>
        vis[r, c] == if (r, c) == (y - 1, x) then Toggled(old(vis[r, c])) else old(vis[r, c])
      ensures Marked((y - 1, x), old(HiddenCells(vis)), old(FlaggedCells(vis)), old(RevealedCells(vis)),
                     HiddenCells(vis), FlaggedCells(vis), RevealedCells(vis))
    {
      Mark(vis, y - 1, x);
    }

    /** A click on the cell under the cursor (cursweep.c:498-506). */
    method ClickHere(clicked1: bool, clicked3: bool, doubleClicked1: bool) returns (status: Status, ghost trail: seq<Pos>)
      requires Valid()
      modifies this`cont, vis
      ensures Valid() && y == old(y) && x == old(x)
      ensures Clicked(tab, clicked1, clicked3, doubleClicked1, old(Snap()), Snap(), status, trail)
    {
      ghost var s0 := Snap();
      status, trail := Playing, [];
      if clicked3 {
        MarkHere();
        assert MarkedAt(s0, Snap(), status, trail);
      } else if doubleClicked1 {
        status := CheckHere();
      } else if clicked1 {
        status, trail := StepHere();
      }
    }

    /** A mouse event (cursweep.c:489-506): a click off the field is
        ignored; otherwise the cursor moves to it and a right click marks,
        a double left click checks and a left click steps. */
    method ClickAt(ex: nat, ey: int, clicked1: bool, clicked3: bool, doubleClicked1: bool)
      returns (status: Status, ghost trail: seq<Pos>)
      requires Valid()
      modifies this`cont, this`y, this`x, vis
      ensures Valid()
      ensures Effect(tab, lin, col, Click(ex, ey, clicked1, clicked3, doubleClicked1), old(Snap()), Snap(), status, trail)
    {
      ghost var s0 := Snap();
      status, trail := Playing, [];
      if MouseOnField(ex, ey, lin, col) {
        x, y := ex, ey;
        ghost var s1 := Snap();
        status, trail := ClickHere(clicked1, clicked3, doubleClicked1);
        ClickedFrom(tab, clicked1, clicked3, doubleClicked1, s0, s1, Snap(), status, trail);
      }
    }

    /** The check command at the cursor (cursweep.c:527-530): it reports
        what `Check` finds on the cell under the cursor and changes nothing. */
    method CheckHere() returns (status: Status)
      requires Valid()
      ensures status == Checked(Check(tab, vis, y - 1, x))
      ensures status == Checked(Inspected(tab, Snap()))
    {
      status := Checked(Check(tab, vis, y - 1, x));
    }

    /** A movement key moves the cursor and changes nothing else. */
    method MoveCursor(ev: Event)
      requires Valid()
      modifies this`y, this`x
      ensures Valid()
      ensures (y, x) == Moved(ev, old(y), old(x), lin, col)
    {
      var cursor := Moved(ev, y, x, lin, col);
      y, x := cursor.0, cursor.1;
    }

    /** A key press (cursweep.c:485-487, 508-598): ' ' steps on, 'm' marks
        and 'n' checks the cell under the cursor, the movement keys move the
        cursor, 'q' quits, and '?' (help) or any other key changes nothing. */
    method Press(ev: Event) returns (status: Status, ghost trail: seq<Pos>)
      requires Valid() && !ev.Click?
      modifies this`cont, this`y, this`x, vis
      ensures Valid()
      ensures Effect(tab, lin, col, ev, old(Snap()), Snap(), status, trail)
    {
      ghost var s0 := Snap();
      status, trail := Playing, [];
      match ev
      case StepKey =>
        status, trail := StepHere();
      case MarkKey =>
        MarkHere();
        assert MarkedAt(s0, Snap(), status, trail);
      case CheckKey =>
        status := CheckHere();
      case RightKey | FarRightKey | LeftKey | FarLeftKey | UpKey | FarUpKey | DownKey | FarDownKey =>
        MoveCursor(ev);
      case QuitKey =>
        status := Quitting;
      case HelpKey =>
      case OtherKey =>
    }

    /** One pass of the main loop's switch (cursweep.c:481-599): a mouse
        event or a key press. */
    method Handle(ev: Event) returns (status: Status, ghost trail: seq<Pos>)
      requires Valid()
      modifies this`cont, this`y, this`x, vis
      ensures Valid()
      ensures Effect(tab, lin, col, ev, old(Snap()), Snap(), status, trail)
      ensures status == Quitting <==> ev == QuitKey
    {
      ghost var s0 := Snap();
      if ev.Click? {
        status, trail := ClickAt(ev.ex, ev.ey, ev.clicked1, ev.clicked3, ev.doubleClicked1);
      } else {
        status, trail := Press(ev);
      }
      Quits(tab, lin, col, ev, s0, Snap(), status, trail);
    }

    /** One input as the main loop sees it: its `Effect`, and what the loop
        tests afterwards. The game quits exactly on 'q', an input that ends
        the game leaves `cont` as it was, and one that explodes leaves the
        cursor on a hidden bomb. */
    method Round(ev: Event) returns (status: Status, ghost trail: seq<Pos>)
      requires Valid()
      modifies this`cont, this`y, this`x, vis
      ensures Valid()
      ensures Effect(tab, lin, col, ev, old(Snap()), Snap(), status, trail)
      ensures status == Quitting <==> ev == QuitKey
      ensures status == Exploded || status == Quitting ==> cont == old(cont)
      ensures status == Exploded ==> (y - 1, x) in HiddenCells(vis) && (y - 1, x) in Bombs(tab)
    {
      ghost var s0 := Snap();
      status, trail := Handle(ev);
      if status == Exploded || status == Quitting {
        Ended(tab, lin, col, ev, s0, Snap(), status, trail);
      }
    }

    /** One turn of the main loop together with the run it extends: `Round`
        on the input `ev`, and the record of the run over the inputs `seen`
        so far (`history`, `statuses`, `trails`) grown by its `Effect`. */
    method Advance(ev: Event, ghost seen: seq<Event>, ghost history: seq<Snapshot>,
                   ghost statuses: seq<Status>, ghost trails: seq<seq<Pos>>)
      returns (status: Status, ghost history': seq<Snapshot>, ghost statuses': seq<Status>,
               ghost trails': seq<seq<Pos>>)
      requires Valid() && cont < lin * col - bombs
      requires Steps(tab, lin, col, seen, history, statuses, trails) && history[|seen|] == Snap()
      requires forall k :: 0 <= k < |seen| ==> history[k].cont < lin * col - bombs
      requires forall k :: 0 <= k < |seen| ==> statuses[k] != Exploded && statuses[k] != Quitting
      modifies this`cont, this`y, this`x, vis
      ensures Valid()
      ensures Steps(tab, lin, col, seen + [ev], history', statuses', trails')
      ensures history'[0] == history[0] && history'[|seen| + 1] == Snap() && statuses'[|seen|] == status
      ensures forall k :: 0 <= k <= |seen| ==> history'[k].cont < lin * col - bombs
      ensures forall k :: 0 <= k < |seen| ==> statuses'[k] != Exploded && statuses'[k] != Quitting
      ensures status == Quitting <==> ev == QuitKey
      ensures status == Exploded || status == Quitting ==> cont == old(cont)
      ensures status == Exploded ==> (y - 1, x) in HiddenCells(vis) && (y - 1, x) in Bombs(tab)
    {
      ghost var trail;
      status, trail := Round(ev);
      StepsSnoc(tab, lin, col, seen, history, statuses, trails, ev, Snap(), status, trail);
      history', statuses', trails' := history + [Snap()], statuses + [status], trails + [trail];
    }

    /** In every valid state `cont` is at most the number of cells without
        a bomb, and equals it exactly when all of them are revealed: the loop
        condition of cursweep.c:479 decides the win. */
    lemma CountDecides()
      requires Valid()
      ensures cont <= lin * col - bombs
      ensures cont == lin * col - bombs <==> Cleared(lin, col, tab, vis)
    {
      RevealedInField(vis);
      BombsInField(tab);
      CountDecidesWin(lin, col, Bombs(tab), RevealedCells(vis));
    }

    /** The main loop (cursweep.c:478-600), reading the keys typed in
        order while fewer than lin * col - bombs cells are open. It reads the
        first n keys; `seen` is what main's getch returned among them, the
        key after each '?' going to the help panel (`Keys`). `history` is
        the run `seen` makes from the initial state to the final one, and
        `last` is the status of the last input (Playing when there was
        none). The loop test held before every input, no input but the last
        ended the game, and only the last can be a 'q'. When the loop stops
        without an explosion or a 'q', either all safe cells are open or the
        keys are used up. */
    method Run(events: seq<Event>)
      returns (n: nat, last: Status, ghost seen: seq<Event>, ghost history: seq<Snapshot>,
               ghost statuses: seq<Status>, ghost trails: seq<seq<Pos>>)
      requires Valid()
      modifies this`cont, this`y, this`x, vis
      ensures Valid()
      ensures n <= |events| && seen + KeysFrom(events, n) == Keys(events)
      ensures |history| == |seen| + 1 && |statuses| == |seen| && |trails| == |seen|
      ensures Steps(tab, lin, col, seen, history, statuses, trails)
      ensures history[0] == old(Snap()) && history[|seen|] == Snap()
      ensures forall k :: 0 <= k < |seen| ==> history[k].cont < lin * col - bombs
      ensures forall k :: 0 <= k < |seen| - 1 ==> statuses[k] != Exploded && statuses[k] != Quitting
      ensures last == if seen == [] then Playing else statuses[|seen| - 1]
      ensures seen != [] ==> 0 < n && (events[n - 1] == seen[|seen| - 1] || seen[|seen| - 1] == HelpKey)
      ensures last != Exploded && last != Quitting ==> cont >= lin * col - bombs || n == |events|
    {
      n, last := 0, Playing;
      seen, history, statuses, trails := [], [Snap()], [], [];
      while cont < lin * col - bombs && n < |events| && last != Exploded && last != Quitting
        invariant Valid()
        invariant n <= |events| && |seen| <= n && seen + KeysFrom(events, n) == Keys(events)
        invariant |history| == |seen| + 1 && |statuses| == |seen| && |trails| == |seen|
        invariant Steps(tab, lin, col, seen, history, statuses, trails)
        invariant history[0] == old(Snap()) && history[|seen|] == Snap()
        invariant forall k :: 0 <= k < |seen| ==> history[k].cont < lin * col - bombs
        invariant forall k :: 0 <= k < |seen| - 1 ==> statuses[k] != Exploded && statuses[k] != Quitting
        invariant last == if seen == [] then Playing else statuses[|seen| - 1]
        invariant seen != [] ==> 0 < n && (events[n - 1] == seen[|seen| - 1] || seen[|seen| - 1] == HelpKey)
        decreases |events| - n
      {
        last, history, statuses, trails := Advance(events[n], seen, history, statuses, trails);
        KeysStep(events, n, seen);
        seen := seen + [events[n]];
        n := Next(events, n);
      }
    }

    /** The whole game after the setup (cursweep.c:478-611): the main loop,
        then its verdict. The game is won exactly when every cell without a
        bomb is revealed, lost exactly when the last input exploded, on a
        hidden bomb under the cursor, and quit exactly when the last input
        was the first 'q' main received; otherwise the keys ran out first,
        and main received no 'q' from them. */
    method Play(events: seq<Event>)
      returns (outcome: Outcome, n: nat, ghost seen: seq<Event>, ghost history: seq<Snapshot>,
               ghost statuses: seq<Status>, ghost trails: seq<seq<Pos>>)
      requires Valid()
      modifies this`cont, this`y, this`x, vis
      ensures Valid()
      ensures n <= |events| && seen + KeysFrom(events, n) == Keys(events)
      ensures |history| == |seen| + 1 && |statuses| == |seen| && |trails| == |seen|
      ensures Steps(tab, lin, col, seen, history, statuses, trails)
      ensures history[0] == old(Snap()) && history[|seen|] == Snap()
      ensures forall k :: 0 <= k < |seen| ==> history[k].cont < lin * col - bombs
      ensures forall k :: 0 <= k < |seen| - 1 ==> statuses[k] != Exploded && statuses[k] != Quitting
      ensures outcome == Won <==> Cleared(lin, col, tab, vis)
      ensures outcome.Lost? <==> seen != [] && statuses[|seen| - 1] == Exploded
      ensures outcome == Quit <==> seen != [] && statuses[|seen| - 1] == Quitting
      ensures outcome.Lost? ==> (outcome.row, outcome.column) == (y - 1, x)
      ensures outcome.Lost? ==> (outcome.row, outcome.column) in Bombs(tab) && (outcome.row, outcome.column) in HiddenCells(vis)
      ensures outcome == Quit ==> 0 < n && events[n - 1] == QuitKey
      ensures outcome == Quit ==> seen[|seen| - 1] == QuitKey && QuitKey !in seen[..|seen| - 1]
      ensures outcome == Quit ==> QuitKey in Keys(events)
      ensures outcome == InputEnded ==> n == |events| && seen == Keys(events) && QuitKey !in Keys(events)
    {
      var last;
      n, last, seen, history, statuses, trails := Run(events);
      if seen != [] {
        RunEnded(tab, lin, col, seen, history, statuses, trails, lin * col - bombs);
      }
      CountDecides();
      KeysPrefix(events, n, seen);
      outcome :=
        if last == Exploded then Lost(y - 1, x)
        else if last == Quitting then Quit
        else if cont < lin * col - bombs then InputEnded
        else Won;
    }
  }
}
