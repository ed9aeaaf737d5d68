/** The effect of one input on the game, stated on values (cursweep.c:478-600). */
module Turn {
  import opened Grid
  import opened Board
  import opened Screen
  import opened Reveal
  import opened Surroundings
  import opened Cursor

  /** One input of the main loop, as getch and getmouse deliver it. */
  datatype Event =
    | HelpKey                                                      // '?'
    | Click(ex: nat, ey: int, clicked1: bool, clicked3: bool, doubleClicked1: bool)  // KEY_MOUSE
    | StepKey                                                      // ' '
    | MarkKey                                                      // 'm'
    | CheckKey                                                     // 'n'
    | RightKey | FarRightKey                                       // KEY_RIGHT, 'd'
    | LeftKey | FarLeftKey                                         // KEY_LEFT, 'a'
    | UpKey | FarUpKey                                             // KEY_UP, 'w'
    | DownKey | FarDownKey                                         // KEY_DOWN, 's'
    | QuitKey                                                      // 'q'
    | OtherKey                                                     // anything else: ignored

  /** What one input did to the game. */
  datatype Status =
    | Playing
    | Checked(res: CheckResult)   // the surroundings check ran, with this result
    | Exploded                    // the step landed on a bomb
    | Quitting

  /** Opening `newCells`, hidden cells without a bomb, adds their number to
      the count of revealed cells and reveals no bomb. */
  lemma Tally(r0: set<Pos>, h0: set<Pos>, newCells: set<Pos>, r1: set<Pos>, bombSet: set<Pos>, stepped: int)
    requires r0 !! h0 && newCells <= h0 && r1 == r0 + newCells
    requires stepped == |newCells| && newCells !! bombSet && r0 !! bombSet
    ensures |r1| == |r0| + stepped && r1 !! bombSet
  {
  }

  /** What a step on p did, given the hidden, flagged and revealed cells
      before it. `trail` lists the cells it opened, in order: none unless p
      was a hidden cell without a bomb, only p when that cell holds a digit,
      and otherwise a chain from p that spreads through blank cells only.
      The opened region is closed (no blank in it keeps a hidden safe
      neighbour), no bomb is opened, the opened cells move from hidden to
      revealed and the flags stay. */
  ghost predicate Opened(tab: array2<char>, p: Pos, h0: set<Pos>, f0: set<Pos>, r0: set<Pos>,
                         h1: set<Pos>, f1: set<Pos>, r1: set<Pos>, trail: seq<Pos>)
    reads tab
  {
    (trail == [] <==> !(p in h0 && p !in Bombs(tab))) &&
    (trail != [] ==> trail[0] == p) &&
    (trail != [] && !Blank(tab, p) ==> trail == [p]) &&
    Distinct(trail) && Chained(tab, trail) &&
    Elems(trail) !! Bombs(tab) &&
    Elems(trail) <= h0 && h1 == h0 - Elems(trail) && f1 == f0 && (forall q :: q in r1 <==> q in r0 || q in trail) &&
    Closed(tab, Elems(trail), h1)
  }

  /** Step's postconditions, stated over the cell sets before (h0, f0, r0)
      and after (h1, f1, r1) the step, make up `Opened`. */
  lemma StepOpened(tab: array2<char>, p: Pos, h0: set<Pos>, f0: set<Pos>, r0: set<Pos>,
                   h1: set<Pos>, f1: set<Pos>, r1: set<Pos>, trail: seq<Pos>)
    requires trail == [] <==> !(p in h0 && p !in Bombs(tab))
    requires trail != [] ==> trail[0] == p
    requires trail != [] && !Blank(tab, p) ==> trail == [p]
    requires Distinct(trail) && Chained(tab, trail) && Elems(trail) !! Bombs(tab)
    requires Elems(trail) == h0 - h1 && h1 <= h0 && f1 == f0 && r1 == r0 + Elems(trail)
    requires Closed(tab, Elems(trail), h1)
    ensures Opened(tab, p, h0, f0, r0, h1, f1, r1, trail)
  {
  }

  /** The cells a step opens were hidden and hold no bomb, and are listed
      once each: the count of revealed cells grows by their number, and a
      field with no bomb revealed keeps none revealed. */
  lemma OpenedCount(tab: array2<char>, p: Pos, h0: set<Pos>, f0: set<Pos>, r0: set<Pos>,
                    h1: set<Pos>, f1: set<Pos>, r1: set<Pos>, trail: seq<Pos>)
    requires Opened(tab, p, h0, f0, r0, h1, f1, r1, trail)
    requires r0 !! h0 && r0 !! Bombs(tab)
    ensures |r1| == |r0| + |trail| && r1 !! Bombs(tab)
  {
    DistinctCard(trail);
    Tally(r0, h0, Elems(trail), r1, Bombs(tab), |trail|);
  }

  /** What Mark on p did to the hidden, flagged and revealed cells (h0, f0,
      r0 before, h1, f1, r1 after): a hidden p is now flagged, a flagged p
      hidden again, and otherwise nothing changed; revealed cells never
      change. */
  predicate Marked(p: Pos, h0: set<Pos>, f0: set<Pos>, r0: set<Pos>, h1: set<Pos>, f1: set<Pos>, r1: set<Pos>) {
    r1 == r0 &&
    (p in h0 ==> h1 == h0 - {p} && f1 == f0 + {p}) &&
    (p in f0 ==> h1 == h0 + {p} && f1 == f0 - {p}) &&
    (p !in h0 + f0 ==> h1 == h0 && f1 == f0)
  }

  /** The cursor after a movement key (cursweep.c:533-595): the arrows move
      one cell and 'd', 'a', 'w', 's' four, never past the field's edge;
      any other event leaves the cursor where it is. */
  function Moved(ev: Event, y: int, x: int, lin: int, col: int): (cursor: (int, int))
    requires 1 <= y <= lin && 0 <= x < col
    ensures 1 <= cursor.0 <= lin && 0 <= cursor.1 < col
    ensures ev.RightKey? || ev.FarRightKey? ==> cursor == (y, Min(x + (if ev.RightKey? then 1 else 4), col - 1))
    ensures ev.LeftKey? || ev.FarLeftKey? ==> cursor == (y, Max(x - (if ev.LeftKey? then 1 else 4), 0))
    ensures ev.UpKey? || ev.FarUpKey? ==> cursor == (Max(y - (if ev.UpKey? then 1 else 4), 1), x)
    ensures ev.DownKey? || ev.FarDownKey? ==> cursor == (Min(y + (if ev.DownKey? then 1 else 4), lin), x)
  {
    match ev
    case RightKey => (y, MoveRight(x, col, 1))
    case FarRightKey => (y, MoveRight(x, col, 4))
    case LeftKey => (y, MoveLeft(x, col, 1))
    case FarLeftKey => (y, MoveLeft(x, col, 4))
    case UpKey => (MoveUp(y, lin, 1), x)
    case FarUpKey => (MoveUp(y, lin, 4), x)
    case DownKey => (MoveDown(y, lin, 1), x)
    case FarDownKey => (MoveDown(y, lin, 4), x)
    case _ => (y, x)
  }

  /** The part of the game one input can change: the cursor, `cont`, and
      the hidden, flagged and revealed cells. */
  datatype Snapshot = Snapshot(y: int, x: int, cont: int, hidden: set<Pos>, flagged: set<Pos>, revealed: set<Pos>)

  /** What the surroundings check reports on the cell under the cursor in
      state s: nothing unless that cell is revealed, an abort when a bomb
      around it is not flagged, and otherwise its hidden neighbours. */
  ghost function Inspected(tab: array2<char>, s: Snapshot): CheckResult
    reads tab
  {
    var p := (s.y - 1, s.x);
    if p !in s.revealed then NotRevealed
    else if Around(Bombs(tab) - s.flagged, p) != {} then Aborted
    else Highlight(Around(s.hidden, p))
  }

  /** The input left the cells and `cont` as they were. */
  predicate Still(s: Snapshot, t: Snapshot, trail: seq<Pos>) {
    t.cont == s.cont && t.hidden == s.hidden && t.flagged == s.flagged && t.revealed == s.revealed && trail == []
  }

  /** The cell under the cursor was marked. */
  predicate MarkedAt(s: Snapshot, t: Snapshot, status: Status, trail: seq<Pos>) {
    t.cont == s.cont && trail == [] && status == Playing &&
    Marked((t.y - 1, t.x), s.hidden, s.flagged, s.revealed, t.hidden, t.flagged, t.revealed)
  }

  /** The player stepped on the cell under the cursor: the game is lost
      exactly when that cell was a hidden bomb, and otherwise `cont` grows by
      the number of cells opened. */
  ghost predicate SteppedAt(tab: array2<char>, s: Snapshot, t: Snapshot, status: Status, trail: seq<Pos>)
    reads tab
  {
    var p := (t.y - 1, t.x);
    t.cont == s.cont + |trail| &&
    Opened(tab, p, s.hidden, s.flagged, s.revealed, t.hidden, t.flagged, t.revealed, trail) &&
    status == if p in s.hidden && p in Bombs(tab) then Exploded else Playing
  }

  /** A step depends only on `cont` and the cells before it, not on where
      the cursor was. */
  lemma SteppedFrom(tab: array2<char>, s: Snapshot, s1: Snapshot, t: Snapshot, status: Status, trail: seq<Pos>)
    requires SteppedAt(tab, s1, t, status, trail)
    requires s1.cont == s.cont && s1.hidden == s.hidden && s1.flagged == s.flagged && s1.revealed == s.revealed
    ensures SteppedAt(tab, s, t, status, trail)
  {
  }

  /** What a click on the cell under the cursor did: a right click marks, a
      double left click checks, a left click steps and any other click does
      nothing. */
  ghost predicate Clicked(tab: array2<char>, clicked1: bool, clicked3: bool, doubleClicked1: bool,
                          s: Snapshot, t: Snapshot, status: Status, trail: seq<Pos>)
    reads tab
  {
    if clicked3 then MarkedAt(s, t, status, trail)
    else if doubleClicked1 then Still(s, t, trail) && status == Checked(Inspected(tab, t))
    else if clicked1 then SteppedAt(tab, s, t, status, trail)
    else Still(s, t, trail) && status == Playing
  }

  /** What a click does depends only on `cont` and the cells before it, not
      on where the cursor was. */
  lemma ClickedFrom(tab: array2<char>, clicked1: bool, clicked3: bool, doubleClicked1: bool,
                    s: Snapshot, s1: Snapshot, t: Snapshot, status: Status, trail: seq<Pos>)
    requires Clicked(tab, clicked1, clicked3, doubleClicked1, s1, t, status, trail)
    requires s1.cont == s.cont && s1.hidden == s.hidden && s1.flagged == s.flagged && s1.revealed == s.revealed
    ensures Clicked(tab, clicked1, clicked3, doubleClicked1, s, t, status, trail)
  {
    if !clicked3 && !doubleClicked1 && clicked1 {
      SteppedFrom(tab, s, s1, t, status, trail);
    }
  }

  /** One pass of the main loop's switch (cursweep.c:481-599) on a lin x col
      field, taking the game from s to t; `trail` lists the cells a step
      opened. A click off the field is ignored; on the field it moves the
      cursor, and then a right click marks, a double left click checks, a
      left click steps and any other click does nothing more. */
  ghost predicate Effect(tab: array2<char>, lin: int, col: int, ev: Event, s: Snapshot, t: Snapshot,
                         status: Status, trail: seq<Pos>)
    reads tab
  {
    match ev
    case Click(ex, ey, clicked1, clicked3, doubleClicked1) =>
      if !MouseOnField(ex, ey, lin, col) then
        t.y == s.y && t.x == s.x && Still(s, t, trail) && status == Playing
      else
        t.y == ey && t.x == ex && Clicked(tab, clicked1, clicked3, doubleClicked1, s, t, status, trail)
    case StepKey => t.y == s.y && t.x == s.x && SteppedAt(tab, s, t, status, trail)
    case MarkKey => t.y == s.y && t.x == s.x && MarkedAt(s, t, status, trail)
    case CheckKey => t.y == s.y && t.x == s.x && Still(s, t, trail) && status == Checked(Inspected(tab, t))
    case QuitKey => t.y == s.y && t.x == s.x && Still(s, t, trail) && status == Quitting
    case HelpKey => t.y == s.y && t.x == s.x && Still(s, t, trail) && status == Playing
    case OtherKey => t.y == s.y && t.x == s.x && Still(s, t, trail) && status == Playing
    case RightKey | FarRightKey | LeftKey | FarLeftKey | UpKey | FarUpKey | DownKey | FarDownKey =>
      1 <= s.y <= lin && 0 <= s.x < col && (t.y, t.x) == Moved(ev, s.y, s.x, lin, col) &&
      Still(s, t, trail) && status == Playing
  }

  /** The game quits on 'q' and on no other input. */
  lemma Quits(tab: array2<char>, lin: int, col: int, ev: Event, s: Snapshot, t: Snapshot, status: Status, trail: seq<Pos>)
    requires Effect(tab, lin, col, ev, s, t, status, trail)
    ensures status == Quitting <==> ev == QuitKey
  {
  }

  /** An input that ends the game, by exploding or quitting, leaves the cells
      and `cont` as they were; one that explodes leaves the cursor on a
      hidden bomb. */
  lemma Ended(tab: array2<char>, lin: int, col: int, ev: Event, s: Snapshot, t: Snapshot, status: Status, trail: seq<Pos>)
    requires Effect(tab, lin, col, ev, s, t, status, trail)
    requires status == Exploded || status == Quitting
    ensures t.cont == s.cont && t.hidden == s.hidden && t.flagged == s.flagged && t.revealed == s.revealed
    ensures status == Exploded ==> (t.y - 1, t.x) in t.hidden && (t.y - 1, t.x) in Bombs(tab)
  {
    assert trail == [];
    assert Elems(trail) == {};
  }

  /** In a run, an input quits exactly when it is a 'q'. An input that ends
      the game leaves `cont` and the cells as they were, and one that
      explodes leaves the cursor on a hidden bomb. */
  lemma StepsEnded(tab: array2<char>, lin: int, col: int, events: seq<Event>, history: seq<Snapshot>,
                   statuses: seq<Status>, trails: seq<seq<Pos>>)
    requires Steps(tab, lin, col, events, history, statuses, trails)
    ensures forall k :: 0 <= k < |events| ==> (statuses[k] == Quitting <==> events[k] == QuitKey)
    ensures forall k :: 0 <= k < |events| && (statuses[k] == Exploded || statuses[k] == Quitting) ==>
              history[k + 1].cont == history[k].cont
    ensures forall k :: 0 <= k < |events| && statuses[k] == Exploded ==>
              (history[k + 1].y - 1, history[k + 1].x) in history[k + 1].hidden &&
              (history[k + 1].y - 1, history[k + 1].x) in Bombs(tab)
  {
    forall k | 0 <= k < |events|
      ensures statuses[k] == Quitting <==> events[k] == QuitKey
      ensures statuses[k] == Exploded || statuses[k] == Quitting ==> history[k + 1].cont == history[k].cont
      ensures statuses[k] == Exploded ==>
                (history[k + 1].y - 1, history[k + 1].x) in history[k + 1].hidden &&
                (history[k + 1].y - 1, history[k + 1].x) in Bombs(tab)
    {
      assert Effect(tab, lin, col, events[k], history[k], history[k + 1], statuses[k], trails[k]);
      Quits(tab, lin, col, events[k], history[k], history[k + 1], statuses[k], trails[k]);
      if statuses[k] == Exploded || statuses[k] == Quitting {
        Ended(tab, lin, col, events[k], history[k], history[k + 1], statuses[k], trails[k]);
      }
    }
  }

  /** How a run of the main loop ends. If no input before the last ended the
      game and the loop test (`cont` below `goal`) held before each, then
      the last input quit exactly when it was a 'q', and 'q' is not among
      the earlier inputs. If the last input ended the game, the loop test
      still holds in the final state, and if it exploded, the final cursor
      is on a hidden bomb. */
  lemma RunEnded(tab: array2<char>, lin: int, col: int, events: seq<Event>, history: seq<Snapshot>,
                 statuses: seq<Status>, trails: seq<seq<Pos>>, goal: int)
    requires Steps(tab, lin, col, events, history, statuses, trails) && events != []
    requires forall k :: 0 <= k < |events| ==> history[k].cont < goal
    requires forall k :: 0 <= k < |events| - 1 ==> statuses[k] != Exploded && statuses[k] != Quitting
    ensures var m := |events|; statuses[m - 1] == Quitting <==> events[m - 1] == QuitKey
    ensures var m := |events|; QuitKey !in events[..m - 1]
    ensures var m := |events|; statuses[m - 1] == Exploded || statuses[m - 1] == Quitting ==> history[m].cont < goal
    ensures var m := |events|; statuses[m - 1] == Exploded ==>
              (history[m].y - 1, history[m].x) in history[m].hidden && (history[m].y - 1, history[m].x) in Bombs(tab)
  {
    StepsEnded(tab, lin, col, events, history, statuses, trails);
    var earlier := events[..|events| - 1];
    forall k | 0 <= k < |earlier|
      ensures earlier[k] != QuitKey
    {
      assert statuses[k] != Quitting;
    }
  }

  /** Where main's getch (cursweep.c:481) reads after the key at n: the key
      typed after a '?' is read by Help's own getch (cursweep.c:63), which
      closes the panel, so main skips it. */
  function Next(events: seq<Event>, n: nat): (m: nat)
    requires n < |events|
    ensures n < m <= |events|
  {
    if events[n] == HelpKey && n + 1 < |events| then n + 2 else n + 1
  }

  /** The inputs main's loop receives out of the keys typed from position n
      on. */
  function KeysFrom(events: seq<Event>, n: nat): seq<Event>
    requires n <= |events|
    decreases |events| - n
  {
    if n == |events| then [] else [events[n]] + KeysFrom(events, Next(events, n))
  }

  /** Main receives no more inputs than keys are typed, and only keys that
      were typed. */
  lemma {:induction false} KeysTyped(events: seq<Event>, n: nat)
    requires n <= |events|
    ensures |KeysFrom(events, n)| <= |events| - n
    ensures forall e :: e in KeysFrom(events, n) ==> e in events[n..]
    decreases |events| - n
  {
    if n < |events| {
      KeysTyped(events, Next(events, n));
    }
  }

  /** Without a '?', main receives exactly the keys typed, in order. */
  lemma {:induction false} KeysWithoutHelp(events: seq<Event>, n: nat)
    requires n <= |events| && HelpKey !in events[n..]
    ensures KeysFrom(events, n) == events[n..]
    decreases |events| - n
  {
    if n < |events| {
      assert events[n] in events[n..];
      assert events[n + 1..] == events[n..][1..];
      KeysWithoutHelp(events, n + 1);
    }
  }

  /** The inputs main's loop receives out of all the keys typed. */
  function Keys(events: seq<Event>): seq<Event>
  {
    KeysFrom(events, 0)
  }

  /** Reading one more input keeps `seen` a prefix of what main receives. */
  lemma KeysStep(events: seq<Event>, n: nat, seen: seq<Event>)
    requires n < |events| && seen + KeysFrom(events, n) == Keys(events)
    ensures (seen + [events[n]]) + KeysFrom(events, Next(events, n)) == Keys(events)
  {
  }

  /** What main has received so far was received from the keys typed. */
  lemma KeysPrefix(events: seq<Event>, n: nat, seen: seq<Event>)
    requires n <= |events| && seen + KeysFrom(events, n) == Keys(events)
    ensures forall e :: e in seen ==> e in Keys(events) && e in events
    ensures n == |events| ==> seen == Keys(events)
  {
    assert events[0..] == events;
    KeysTyped(events, 0);
    forall e | e in seen
      ensures e in Keys(events)
    {
      var i :| 0 <= i < |seen| && seen[i] == e;
      assert Keys(events)[i] == e;
    }
  }

  /** After '?', the 'q' that closes the help panel does not quit. */
  lemma HelpThenQuit()
    ensures Keys([HelpKey, QuitKey]) == [HelpKey]
    ensures QuitKey !in Keys([HelpKey, QuitKey])
  {
  }

  /** `history` is a run of the main loop over `events`: history[k + 1] is
      the state events[k] led to from history[k], with status statuses[k]
      and trails[k] the cells it opened. */
  ghost predicate Steps(tab: array2<char>, lin: int, col: int, events: seq<Event>, history: seq<Snapshot>,
                        statuses: seq<Status>, trails: seq<seq<Pos>>)
    reads tab
  {
    |history| == |events| + 1 && |statuses| == |events| && |trails| == |events| &&
    forall k {:trigger Effect(tab, lin, col, events[k], history[k], history[k + 1], statuses[k], trails[k])} ::
      0 <= k < |events| ==> Effect(tab, lin, col, events[k], history[k], history[k + 1], statuses[k], trails[k])
  }

  /** One more input extends a run. */
  lemma StepsSnoc(tab: array2<char>, lin: int, col: int, events: seq<Event>, history: seq<Snapshot>,
                  statuses: seq<Status>, trails: seq<seq<Pos>>,
                  ev: Event, t: Snapshot, status: Status, trail: seq<Pos>)
    requires Steps(tab, lin, col, events, history, statuses, trails)
    requires Effect(tab, lin, col, ev, history[|events|], t, status, trail)
    ensures Steps(tab, lin, col, events + [ev], history + [t], statuses + [status], trails + [trail])
  {
  }
}
