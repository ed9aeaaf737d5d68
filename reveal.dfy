/** Stepping on a cell, with the flood fill that opens the whole blank
    region around a '0' (cursweep.c:241-279). */
module Reveal {
  import opened Grid
  import opened Board
  import opened Screen

  /** No cell of `region` that holds '0' has a hidden neighbour other than a
      bomb: the flood fill has gone on past every blank it opened. */
  ghost predicate Closed(tab: array2<char>, region: set<Pos>, hid: set<Pos>)
    reads tab
  {
    forall p, q ::
      (p in region && q in hid && Adjacent(p, q) && InField(tab.Length0, tab.Length1, p) && tab[p.0, p.1] == '0')
      ==> q in Bombs(tab)
  }

  /** Hiding fewer cells keeps a region closed, and the region opened by a
      nested step joins the one opened so far. */
  lemma ClosedJoin(tab: array2<char>, region: set<Pos>, hb: set<Pos>, ha: set<Pos>)
    requires ha <= hb
    requires Closed(tab, region, hb)
    requires Closed(tab, hb - ha, ha)
    ensures Closed(tab, region + (hb - ha), ha)
  {
  }

  /** A cell whose eight neighbours are all opened or bombs closes the region. */
  lemma ClosedCentre(tab: array2<char>, p: Pos, region: set<Pos>, hid: set<Pos>)
    requires Closed(tab, region, hid)
    requires Swept(p, 8, hid, Bombs(tab))
    ensures Closed(tab, region + {p}, hid)
  {
    forall q | q in hid && Adjacent(p, q)
      ensures q in Bombs(tab)
    {
      var k := DirIndex(p, q);
    }
  }

  /** p is a cell of the field that holds '0'. */
  ghost predicate Blank(tab: array2<char>, p: Pos)
    reads tab
  {
    InField(tab.Length0, tab.Length1, p) && tab[p.0, p.1] == '0'
  }

  /** trail[k] is a neighbour of a blank that comes before it in `trail`. */
  ghost predicate HangsOff(tab: array2<char>, trail: seq<Pos>, k: int)
    reads tab
    requires 0 <= k < |trail|
  {
    exists m :: 0 <= m < k && Blank(tab, trail[m]) && Adjacent(trail[m], trail[k])
  }

  /** Every cell of `trail` is a neighbour of `root` or of a blank opened
      before it: the trail spreads from `root` through blanks only. */
  ghost predicate ChainedFrom(tab: array2<char>, root: Pos, trail: seq<Pos>)
    reads tab
  {
    forall k :: 0 <= k < |trail| ==> Adjacent(root, trail[k]) || HangsOff(tab, trail, k)
  }

  /** Every cell of `trail` after the first is a neighbour of a blank opened before it. */
  ghost predicate Chained(tab: array2<char>, trail: seq<Pos>)
    reads tab
  {
    forall k :: 0 < k < |trail| ==> HangsOff(tab, trail, k)
  }

  /** A blank followed by cells that spread from it is a chain. */
  lemma ChainStart(tab: array2<char>, root: Pos, rest: seq<Pos>)
    requires Blank(tab, root) && ChainedFrom(tab, root, rest)
    ensures Chained(tab, [root] + rest)
  {
    var t := [root] + rest;
    forall k | 0 < k < |t|
      ensures HangsOff(tab, t, k)
    {
      assert t[k] == rest[k - 1];
      if Adjacent(root, rest[k - 1]) {
        assert Blank(tab, t[0]) && Adjacent(t[0], t[k]);
      } else {
        var m :| 0 <= m < k - 1 && Blank(tab, rest[m]) && Adjacent(rest[m], rest[k - 1]);
        assert t[m + 1] == rest[m];
      }
    }
  }

  /** A chain that starts next to `root` extends cells spreading from `root`. */
  lemma ChainJoin(tab: array2<char>, root: Pos, a: seq<Pos>, b: seq<Pos>)
    requires ChainedFrom(tab, root, a) && Chained(tab, b)
    requires b != [] ==> Adjacent(root, b[0])
    ensures ChainedFrom(tab, root, a + b)
  {
    var t := a + b;
    forall k | 0 <= k < |t|
      ensures Adjacent(root, t[k]) || HangsOff(tab, t, k)
    {
      if k < |a| {
        assert t[k] == a[k];
        if !Adjacent(root, a[k]) {
          var m :| 0 <= m < k && Blank(tab, a[m]) && Adjacent(a[m], a[k]);
          assert t[m] == a[m];
        }
      } else if k > |a| {
        var k' := k - |a|;
        assert t[k] == b[k'];
        assert HangsOff(tab, b, k');
        var m :| 0 <= m < k' && Blank(tab, b[m]) && Adjacent(b[m], b[k']);
        assert t[|a| + m] == b[m];
      } else {
        assert t[k] == b[0];
      }
    }
  }

  /** Every neighbour of p in the first k directions is off the hidden set or a bomb. */
  ghost predicate Swept(p: Pos, k: int, hid: set<Pos>, bombs: set<Pos>) {
    forall d :: 0 <= d < k && d < 8 ==> Shift(p, d) !in hid || Shift(p, d) in bombs
  }

  /** Steps on cell (i, j) of the field (tab row i is screen row i + 1).
      Returns 0 when the cell is not hidden (already revealed, flagged, or
      off the field, where the screen never shows '*'), -1 when it hides a
      bomb, and 1 after revealing it; a revealed '0' then steps on all eight
      neighbours in turn. `stepped` is the caller's counter plus the number
      of cells this call opened; the ghost `trail` lists those cells in the
      order they were opened. */
  method Step(tab: array2<char>, vis: array2<Visibility>, i: int, j: int, stepped0: int)
    returns (r: int, stepped: int, ghost trail: seq<Pos>)
    requires vis.Length0 == tab.Length0 && vis.Length1 == tab.Length1
    modifies vis
    decreases HiddenCells(vis), 2
    ensures r == if (i, j) !in old(HiddenCells(vis)) then 0 else if (i, j) in Bombs(tab) then -1 else 1
    ensures r != 1 ==> unchanged(vis) && trail == []
    ensures r == 1 ==> trail != [] && trail[0] == (i, j)
    ensures r == 1 && tab[i, j] != '0' ==> trail == [(i, j)]
    ensures Chained(tab, trail)
    ensures Elems(trail) == old(HiddenCells(vis)) - HiddenCells(vis)
    ensures Distinct(trail) && stepped == stepped0 + |trail|
    ensures HiddenCells(vis) <= old(HiddenCells(vis))
    ensures FlaggedCells(vis) == old(FlaggedCells(vis))
    ensures RevealedCells(vis) == old(RevealedCells(vis)) + Elems(trail)
    ensures Elems(trail) !! Bombs(tab)
    ensures Closed(tab, Elems(trail), HiddenCells(vis))
  {
    if !(0 <= i < vis.Length0 && 0 <= j < vis.Length1) || vis[i, j] != Hidden {
      return 0, stepped0, [];
    }
    if tab[i, j] == 'B' {
      return -1, stepped0, [];
    }
    if tab[i, j] == '0' {
      stepped, trail := OpenBlank(tab, vis, i, j, stepped0);
    } else {
      stepped, trail := OpenNumber(tab, vis, i, j, stepped0);
    }
    r := 1;
  }

  /** Reveals the hidden cell (i, j), which holds a digit '1'..'8', and
      counts it (cursweep.c:254-262). */
  method OpenNumber(tab: array2<char>, vis: array2<Visibility>, i: int, j: int, stepped0: int)
    returns (stepped: int, ghost trail: seq<Pos>)
    requires vis.Length0 == tab.Length0 && vis.Length1 == tab.Length1
    requires (i, j) in HiddenCells(vis) && (i, j) !in Bombs(tab) && tab[i, j] != '0'
    modifies vis
    ensures trail == [(i, j)]
    ensures Elems(trail) == old(HiddenCells(vis)) - HiddenCells(vis)
    ensures Distinct(trail) && stepped == stepped0 + |trail|
    ensures HiddenCells(vis) <= old(HiddenCells(vis))
    ensures FlaggedCells(vis) == old(FlaggedCells(vis))
    ensures RevealedCells(vis) == old(RevealedCells(vis)) + Elems(trail)
    ensures Elems(trail) !! Bombs(tab)
    ensures Closed(tab, Elems(trail), HiddenCells(vis))
  {
    ghost var h0 := HiddenCells(vis);
    Uncover(vis, i, j);
    RemoveOne(h0, (i, j));
    stepped, trail := stepped0 + 1, [(i, j)];
    assert Elems(trail) == {(i, j)};
  }

  /** Reveals the hidden cell (i, j), which holds '0', counts it, and steps
      on its eight neighbours (cursweep.c:254-274). */
  method OpenBlank(tab: array2<char>, vis: array2<Visibility>, i: int, j: int, stepped0: int)
    returns (stepped: int, ghost trail: seq<Pos>)
    requires vis.Length0 == tab.Length0 && vis.Length1 == tab.Length1
    requires (i, j) in HiddenCells(vis) && (i, j) !in Bombs(tab) && tab[i, j] == '0'
    modifies vis
    decreases HiddenCells(vis), 1
    ensures trail != [] && trail[0] == (i, j)
    ensures Chained(tab, trail)
    ensures Elems(trail) == old(HiddenCells(vis)) - HiddenCells(vis)
    ensures Distinct(trail) && stepped == stepped0 + |trail|
    ensures HiddenCells(vis) <= old(HiddenCells(vis))
    ensures FlaggedCells(vis) == old(FlaggedCells(vis))
    ensures RevealedCells(vis) == old(RevealedCells(vis)) + Elems(trail)
    ensures Elems(trail) !! Bombs(tab)
    ensures Closed(tab, Elems(trail), HiddenCells(vis))
  {
    ghost var bombs := Bombs(tab);
    ghost var h0, r0 := HiddenCells(vis), RevealedCells(vis);
    Uncover(vis, i, j);
    ghost var h1, r1 := HiddenCells(vis), RevealedCells(vis);
    RemoveOne(h0, (i, j));
    assert Elems([(i, j)]) == {(i, j)};
    ghost var rest;
    stepped, rest := StepAround(tab, vis, i, j, stepped0 + 1, h0);
    ghost var h2, r2 := HiddenCells(vis), RevealedCells(vis);
    ClosedCentre(tab, (i, j), Elems(rest), h2);
    Accumulate(h0, h1, h2, r0, r1, r2, bombs, [(i, j)], rest);
    ChainStart(tab, (i, j), rest);
    trail := [(i, j)] + rest;
  }

  /** The eight steps around a revealed '0', in the source's order
      (cursweep.c:264-273); their results are ignored. `bound` is the hidden
      set before the '0' was revealed, which strictly contains the current one. */
  method StepAround(tab: array2<char>, vis: array2<Visibility>, i: int, j: int, stepped0: int,
                    ghost bound: set<Pos>)
    returns (stepped: int, ghost trail: seq<Pos>)
    requires vis.Length0 == tab.Length0 && vis.Length1 == tab.Length1
    requires HiddenCells(vis) < bound
    modifies vis
    decreases bound, 0
    ensures ChainedFrom(tab, (i, j), trail)
    ensures Elems(trail) == old(HiddenCells(vis)) - HiddenCells(vis)
    ensures Distinct(trail) && stepped == stepped0 + |trail|
    ensures HiddenCells(vis) <= old(HiddenCells(vis))
    ensures FlaggedCells(vis) == old(FlaggedCells(vis))
    ensures RevealedCells(vis) == old(RevealedCells(vis)) + Elems(trail)
    ensures Elems(trail) !! Bombs(tab)
    ensures Swept((i, j), 8, HiddenCells(vis), Bombs(tab))
    ensures Closed(tab, Elems(trail), HiddenCells(vis))
  {
    ghost var bombs := Bombs(tab);
    ghost var h1 := HiddenCells(vis);
    ghost var r1 := RevealedCells(vis);
    stepped, trail := stepped0, [];
    assert Elems(trail) == {};
    for k := 0 to 8
      invariant ChainedFrom(tab, (i, j), trail)
      invariant Elems(trail) == h1 - HiddenCells(vis)
      invariant Distinct(trail) && stepped == stepped0 + |trail|
      invariant HiddenCells(vis) <= h1
      invariant FlaggedCells(vis) == old(FlaggedCells(vis))
      invariant RevealedCells(vis) == r1 + Elems(trail)
      invariant Elems(trail) !! bombs
      invariant Swept((i, j), k, HiddenCells(vis), bombs)
      invariant Closed(tab, Elems(trail), HiddenCells(vis))
    {
      var q := Shift((i, j), k);
      ghost var hb := HiddenCells(vis);
      ghost var rb := RevealedCells(vis);
      var res, s, t := Step(tab, vis, q.0, q.1, stepped);
      ghost var ha := HiddenCells(vis);
      Accumulate(h1, hb, ha, r1, rb, RevealedCells(vis), bombs, trail, t);
      SweptMore((i, j), k, hb, ha, bombs);
      ClosedJoin(tab, Elems(trail), hb, ha);
      ShiftAdjacent((i, j), k);
      ChainJoin(tab, (i, j), trail, t);
      stepped, trail := s, trail + t;
    }
  }

  /** Bookkeeping for one nested step: the trail so far, `ta`, opened the
      cells h1 - hb; the nested step's trail `t` opened hb - ha. */
  lemma Accumulate(h1: set<Pos>, hb: set<Pos>, ha: set<Pos>, r1: set<Pos>, rb: set<Pos>, ra: set<Pos>,
                   bombs: set<Pos>, ta: seq<Pos>, t: seq<Pos>)
    requires ha <= hb <= h1
    requires Elems(ta) == h1 - hb && Elems(t) == hb - ha && Distinct(ta) && Distinct(t)
    requires rb == r1 + Elems(ta) && ra == rb + Elems(t)
    requires Elems(ta) !! bombs && Elems(t) !! bombs
    ensures Elems(ta + t) == Elems(ta) + Elems(t) == h1 - ha
    ensures Distinct(ta + t)
    ensures ra == r1 + Elems(ta + t)
    ensures Elems(ta + t) !! bombs
  {
    DistinctConcat(ta, t);
  }

  lemma RemoveOne(h: set<Pos>, p: Pos)
    requires p in h
    ensures h - (h - {p}) == {p}
  {
  }

  lemma SweptMore(p: Pos, k: int, hb: set<Pos>, ha: set<Pos>, bombs: set<Pos>)
    requires 0 <= k < 8 && ha <= hb
    requires Swept(p, k, hb, bombs)
    requires Shift(p, k) !in ha || Shift(p, k) in bombs
    ensures Swept(p, k + 1, ha, bombs)
  {
  }
}
