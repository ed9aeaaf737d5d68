/** The surroundings check of a revealed cell (cursweep.c:281-407). The
    source re-colours hidden neighbours on screen and changes nothing else;
    here it is a query that says whether the check went through and, if so,
    which neighbours it would highlight. */
module Surroundings {
  import opened Grid
  import opened Board
  import opened Screen

  datatype CheckResult =
    | NotRevealed                 // the cell shows '*' or 'B': nothing happens
    | Aborted                     // a neighbouring bomb is not flagged
    | Highlight(cells: set<Pos>)  // the hidden neighbours drawn in green

  /** The cell whose screen character the source reads for direction k. With
      `asWritten`, direction 7 (down-right) reads screen (y + 1, y + 1), that
      is tab cell (i + 1, i + 2), as cursweep.c:351 does; otherwise it reads
      the neighbour itself, (i + 1, j + 1), as the tab test on line 352 does. */
  function Probe(p: Pos, k: int, asWritten: bool): Pos
    requires 0 <= k < 8
  {
    if asWritten && k == 7 then (p.0 + 1, p.0 + 2) else Shift(p, k)
  }

  /** The screen shows 'B' at q: a flagged cell of the field. */
  predicate ShowsFlag(vis: array2<Visibility>, q: Pos)
    reads vis
  {
    InField(vis.Length0, vis.Length1, q) && vis[q.0, q.1] == Flagged
  }

  /** The abort test of cursweep.c:291-356 over directions k..7: some
      neighbour on the field holds a bomb while the probed screen cell does
      not show a flag. Read as intended, this holds exactly when some bomb
      in those directions is not flagged. */
  function AbortFrom(tab: array2<char>, vis: array2<Visibility>, p: Pos, k: int, asWritten: bool): (found: bool)
    reads tab, vis
    requires vis.Length0 == tab.Length0 && vis.Length1 == tab.Length1
    requires 0 <= k <= 8
    decreases 8 - k
    ensures !asWritten ==>
      (found <==> exists q :: q in Bombs(tab) - FlaggedCells(vis) && Adjacent(p, q) && DirIndex(p, q) >= k)
  {
    if k == 8 then
      false
    else
      var q := Shift(p, k);
      var here := InField(tab.Length0, tab.Length1, q) && tab[q.0, q.1] == 'B' && !ShowsFlag(vis, Probe(p, k, asWritten));
      var rest := AbortFrom(tab, vis, p, k + 1, asWritten);
      DirIndexShift(p, k);
      assert !asWritten ==> (here <==> q in Bombs(tab) - FlaggedCells(vis));
      here || rest
  }

  /** The hidden neighbours on the field in directions k..7: the cells
      re-drawn in green by cursweep.c:359-400. */
  function HiddenFrom(vis: array2<Visibility>, p: Pos, k: int): (cells: set<Pos>)
    reads vis
    requires 0 <= k <= 8
    decreases 8 - k
    ensures forall q :: q in cells <==> q in HiddenCells(vis) && Adjacent(p, q) && DirIndex(p, q) >= k
  {
    if k == 8 then
      {}
    else
      var q := Shift(p, k);
      var rest := HiddenFrom(vis, p, k + 1);
      DirIndexShift(p, k);
      if InField(vis.Length0, vis.Length1, q) && vis[q.0, q.1] == Hidden then {q} + rest else rest
  }

  function CheckWith(tab: array2<char>, vis: array2<Visibility>, i: int, j: int, asWritten: bool): CheckResult
    reads tab, vis
    requires vis.Length0 == tab.Length0 && vis.Length1 == tab.Length1
    requires InField(tab.Length0, tab.Length1, (i, j))
  {
    if vis[i, j] != Revealed then NotRevealed
    else if AbortFrom(tab, vis, (i, j), 0, asWritten) then Aborted
    else Highlight(HiddenFrom(vis, (i, j), 0))
  }

  /** Check on cell (i, j) as intended: only a revealed cell is checked; it
      aborts when a bomb around it is not flagged, and otherwise highlights
      exactly its hidden neighbours. Nothing on the screen or in tab changes. */
  function Check(tab: array2<char>, vis: array2<Visibility>, i: int, j: int): (res: CheckResult)
    reads tab, vis
    requires vis.Length0 == tab.Length0 && vis.Length1 == tab.Length1
    requires InField(tab.Length0, tab.Length1, (i, j))
    ensures res == NotRevealed <==> vis[i, j] != Revealed
    ensures res == Aborted <==> vis[i, j] == Revealed && Around(Bombs(tab) - FlaggedCells(vis), (i, j)) != {}
    ensures res.Highlight? ==> res.cells == Around(HiddenCells(vis), (i, j))
  {
    var res := CheckWith(tab, vis, i, j, false);
    var p := (i, j);
    assert AbortFrom(tab, vis, p, 0, false) <==> Around(Bombs(tab) - FlaggedCells(vis), p) != {} by {
      if AbortFrom(tab, vis, p, 0, false) {
        var q :| q in Bombs(tab) - FlaggedCells(vis) && Adjacent(p, q) && DirIndex(p, q) >= 0;
        assert q in Around(Bombs(tab) - FlaggedCells(vis), p);
      }
    }
    assert HiddenFrom(vis, p, 0) == Around(HiddenCells(vis), p);
    res
  }

  /** Check as cursweep.c:351 has it, probing the wrong screen cell for the
      down-right neighbour. */
  function CheckAsWritten(tab: array2<char>, vis: array2<Visibility>, i: int, j: int): (res: CheckResult)
    reads tab, vis
    requires vis.Length0 == tab.Length0 && vis.Length1 == tab.Length1
    requires InField(tab.Length0, tab.Length1, (i, j))
    ensures res == NotRevealed <==> vis[i, j] != Revealed
    ensures res.Highlight? ==> res.cells == Around(HiddenCells(vis), (i, j))
  {
    var p := (i, j);
    assert HiddenFrom(vis, p, 0) == Around(HiddenCells(vis), p);
    CheckWith(tab, vis, i, j, true)
  }

  /** On a 10 x 10 field, a revealed cell in the top row at column 5 whose
      only bomb neighbour, down-right, is flagged: the as-written check reads
      the hidden cell (1, 2) instead of the flag at (1, 6) and aborts, while
      the intended check goes through. */
  lemma Line351Misread(tab: array2<char>, vis: array2<Visibility>)
    requires tab.Length0 == 10 && tab.Length1 == 10 && vis.Length0 == 10 && vis.Length1 == 10
    requires vis[0, 5] == Revealed && vis[1, 2] == Hidden
    requires tab[1, 6] == 'B' && vis[1, 6] == Flagged
    requires tab[0, 4] != 'B' && tab[0, 6] != 'B' && tab[1, 4] != 'B' && tab[1, 5] != 'B'
    ensures CheckAsWritten(tab, vis, 0, 5) == Aborted
    ensures Check(tab, vis, 0, 5).Highlight?
  {
    assert AbortFrom(tab, vis, (0, 5), 7, true);
    assert AbortFrom(tab, vis, (0, 5), 6, true);
    assert AbortFrom(tab, vis, (0, 5), 5, true);
    assert AbortFrom(tab, vis, (0, 5), 4, true);
    assert AbortFrom(tab, vis, (0, 5), 3, true);
    assert AbortFrom(tab, vis, (0, 5), 2, true);
    assert AbortFrom(tab, vis, (0, 5), 1, true);
    assert AbortFrom(tab, vis, (0, 5), 0, true);
    forall q | q in Around(Bombs(tab) - FlaggedCells(vis), (0, 5))
      ensures false
    {
      var k := DirIndex((0, 5), q);
    }
  }
}
