/** The hidden truth of the field: the `tab` grid of characters, where 'B' is
    a bomb and '0'..'8' is the number of bombs around a cell, and the three
    steps that build it (InitTab, InitBombs, InitNumbers). */
module Board {
  import opened Grid

  /** The cells of tab that hold a bomb. */
  function Bombs(tab: array2<char>): set<Pos>
    reads tab
  {
    set r, c | 0 <= r < tab.Length0 && 0 <= c < tab.Length1 && tab[r, c] == 'B' :: (r, c)
  }

  /** Bombs lie on the field. */
  lemma BombsInField(tab: array2<char>)
    ensures Bombs(tab) <= Cells(tab.Length0, tab.Length1)
  {
  }

  /** tab holds only bombs and zeros: the state between InitTab and InitNumbers. */
  ghost predicate BombsAndZeros(tab: array2<char>)
    reads tab
  {
    forall r, c :: 0 <= r < tab.Length0 && 0 <= c < tab.Length1 ==> tab[r, c] == 'B' || tab[r, c] == '0'
  }

  /** Every non-bomb cell holds '0' plus the number of bombs around it. */
  ghost predicate Numbered(tab: array2<char>)
    reads tab
  {
    forall r, c :: 0 <= r < tab.Length0 && 0 <= c < tab.Length1 && tab[r, c] != 'B' ==>
      tab[r, c] as int == '0' as int + |Around(Bombs(tab), (r, c))|
  }

  /** A numbered cell shows a digit '0'..'8'. */
  lemma NumberedDigit(tab: array2<char>, r: int, c: int)
    requires Numbered(tab)
    requires 0 <= r < tab.Length0 && 0 <= c < tab.Length1 && tab[r, c] != 'B'
    ensures '0' <= tab[r, c] <= '8'
    ensures tab[r, c] == '0' <==> Around(Bombs(tab), (r, c)) == {}
  {
    AroundAtMostEight(Bombs(tab), (r, c));
  }

  /** Allocates a lin x col tab with '0' everywhere (cursweep.c:77-98). */
  method InitTab(lin: nat, col: nat) returns (tab: array2<char>)
    ensures fresh(tab) && tab.Length0 == lin && tab.Length1 == col
    ensures forall r, c :: 0 <= r < lin && 0 <= c < col ==> tab[r, c] == '0'
    ensures Bombs(tab) == {}
  {
    tab := new char[lin, col];
    for i := 0 to lin
      invariant forall r, c :: 0 <= r < i && 0 <= c < col ==> tab[r, c] == '0'
    {
      for j := 0 to col
        invariant forall r, c :: 0 <= r < i && 0 <= c < col ==> tab[r, c] == '0'
        invariant forall c :: 0 <= c < j ==> tab[i, c] == '0'
      {
        tab[i, j] := '0';
      }
    }
  }

  /** The cell picked by one pair of rand() results: row rand() % lin, column rand() % col. */
  function DrawCell(lin: int, col: int, d: (nat, nat)): (p: Pos)
    requires lin > 0 && col > 0
    ensures InField(lin, col, p)
  {
    (d.0 % lin, d.1 % col)
  }

  /** The cells a sequence of rand() pairs picks, in order. */
  function DrawnCells(lin: int, col: int, draws: seq<(nat, nat)>): seq<Pos>
    requires lin > 0 && col > 0
  {
    seq(|draws|, k requires 0 <= k < |draws| => DrawCell(lin, col, draws[k]))
  }

  /** The cells of s in order of first appearance, each once. */
  function Firsts(s: seq<Pos>): (f: seq<Pos>)
    ensures Distinct(f)
    ensures Elems(f) == Elems(s)
  {
    if s == [] then []
    else
      var init, last := s[..|s| - 1], s[|s| - 1];
      assert s == init + [last] && Elems(s) == Elems(init) + {last};
      var f := Firsts(init);
      if last in init then f
      else
        assert last !in Elems(f);
        assert Elems(f + [last]) == Elems(f) + {last};
        f + [last]
  }

  /** Taking first appearances of a prefix gives a prefix of the first appearances. */
  lemma {:induction false} FirstsPrefix(s: seq<Pos>, t: nat)
    requires t <= |s|
    ensures |Firsts(s[..t])| <= |Firsts(s)|
    ensures Firsts(s[..t]) == Firsts(s)[..|Firsts(s[..t])|]
  {
    if t == |s| {
      assert s[..t] == s;
    } else {
      var init := s[..|s| - 1];
      assert s[..t] == init[..t];
      FirstsPrefix(init, t);
    }
  }

  /** Extending a prefix by one cell adds that cell to its first appearances exactly when it is new. */
  lemma FirstsSnoc(s: seq<Pos>, t: nat)
    requires 0 < t <= |s|
    ensures s[t - 1] in Elems(s[..t - 1]) ==> Firsts(s[..t]) == Firsts(s[..t - 1])
    ensures s[t - 1] !in Elems(s[..t - 1]) ==> Firsts(s[..t]) == Firsts(s[..t - 1]) + [s[t - 1]]
  {
    assert s[..t][..t - 1] == s[..t - 1];
  }

  /** Draws that only repeat cells already among the first appearances
      change nothing. */
  lemma {:induction false} SkipDrawn(s: seq<Pos>, t0: nat, t: nat)
    requires t0 <= t <= |s|
    requires forall u :: t0 <= u < t ==> s[u] in Elems(s[..t0])
    ensures Firsts(s[..t]) == Firsts(s[..t0])
  {
    if t > t0 {
      SkipDrawn(s, t0, t - 1);
      var x := s[t - 1];
      assert x in s[..t0];
      var k :| 0 <= k < t0 && s[..t0][k] == x;
      assert s[..t - 1][k] == x;
      FirstsSnoc(s, t);
    }
  }

  /** While fewer than n distinct cells are used and the draws name at
      least n, some later draw picks a new cell. */
  lemma FreeDrawExists(s: seq<Pos>, t0: nat, n: nat)
    requires t0 <= |s| && |Firsts(s[..t0])| < n <= |Firsts(s)|
    ensures exists u :: t0 <= u < |s| && s[u] !in Elems(s[..t0])
  {
    assert s[..|s|] == s;
    if forall u :: t0 <= u < |s| ==> s[u] in Elems(s[..t0]) {
      SkipDrawn(s, t0, |s|);
    }
  }

  /** The draw that ends a rejection loop adds its cell to the first appearances. */
  lemma NextBomb(s: seq<Pos>, t0: nat, t: nat)
    requires t0 < t <= |s|
    requires forall u :: t0 <= u < t - 1 ==> s[u] in Elems(s[..t0])
    requires s[t - 1] !in Elems(s[..t0])
    ensures Firsts(s[..t]) == Firsts(s[..t0]) + [s[t - 1]]
  {
    SkipDrawn(s, t0, t - 1);
    assert s[t - 1] !in Elems(s[..t - 1]) by {
      forall k | 0 <= k < t - 1
        ensures s[k] != s[t - 1]
      {
        if k < t0 {
          assert s[..t0][k] == s[k];
        }
      }
    }
    FirstsSnoc(s, t);
  }

  /** The do-while loop of InitBombs (cursweep.c:111-114): takes draws from
      position t0 on until one picks a cell without a bomb, which some draw
      from t0 on is known to do. `cells` are the cells the draws name.
      Returns that cell and the position after its draw; every draw it
      passed over landed on a bomb. */
  method DrawFreeCell(tab: array2<char>, draws: seq<(nat, nat)>, t0: nat, ghost cells: seq<Pos>)
    returns (i: int, j: int, t: nat)
    requires tab.Length0 > 0 && tab.Length1 > 0 && cells == DrawnCells(tab.Length0, tab.Length1, draws)
    requires exists u :: t0 <= u < |cells| && cells[u] !in Bombs(tab)
    ensures t0 < t <= |cells|
    ensures (i, j) == cells[t - 1] && (i, j) !in Bombs(tab)
    ensures forall u :: t0 <= u < t - 1 ==> cells[u] in Bombs(tab)
  {
    var lin, col := tab.Length0, tab.Length1;
    i, j := DrawCell(lin, col, draws[t0]).0, DrawCell(lin, col, draws[t0]).1;
    t := t0 + 1;
    while tab[i, j] == 'B'
      invariant t0 < t <= |draws|
      invariant (i, j) == cells[t - 1]
      invariant forall u :: t0 <= u < t - 1 ==> cells[u] in Bombs(tab)
      invariant exists u :: t - 1 <= u < |cells| && cells[u] !in Bombs(tab)
      decreases |draws| - t
    {
      i, j := DrawCell(lin, col, draws[t]).0, DrawCell(lin, col, draws[t]).1;
      t := t + 1;
    }
  }

  /** Places `bombs` bombs by rejection sampling (cursweep.c:102-117): each
      bomb takes draws until one lands on a cell without a bomb. The random
      numbers are the caller's `draws`, which must name at least `bombs`
      distinct cells. */
  method InitBombs(tab: array2<char>, bombs: nat, draws: seq<(nat, nat)>)
    requires tab.Length0 > 0 && tab.Length1 > 0
    requires forall r, c :: 0 <= r < tab.Length0 && 0 <= c < tab.Length1 ==> tab[r, c] == '0'
    requires bombs <= |Firsts(DrawnCells(tab.Length0, tab.Length1, draws))|
    modifies tab
    ensures Bombs(tab) == Elems(Firsts(DrawnCells(tab.Length0, tab.Length1, draws))[..bombs])
    ensures |Bombs(tab)| == bombs
    ensures BombsAndZeros(tab)
  {
    var lin, col := tab.Length0, tab.Length1;
    ghost var cells := DrawnCells(lin, col, draws);
    assert cells[..|cells|] == cells;
    assert Bombs(tab) == {};
    var t := 0;
    for bomb := 0 to bombs
      invariant t <= |draws|
      invariant BombsAndZeros(tab)
      invariant Bombs(tab) == Elems(Firsts(cells[..t]))
      invariant |Firsts(cells[..t])| == bomb
    {
      FreeDrawExists(cells, t, bombs);
      ghost var t0 := t;
      var i, j;
      i, j, t := DrawFreeCell(tab, draws, t, cells);
      NextBomb(cells, t0, t);
      ghost var before := Bombs(tab);
      tab[i, j] := 'B';
      assert Bombs(tab) == before + {(i, j)};
      assert Elems(Firsts(cells[..t0]) + [(i, j)]) == before + {(i, j)};
    }
    FirstsPrefix(cells, t);
    DistinctCard(Firsts(cells)[..bombs]);
  }

  /** The bombs among `bombs` that InitNumbers has visited before (i, j) in row-major order. */
  function VisitedBefore(bombs: set<Pos>, i: int, j: int): set<Pos> {
    set b | b in bombs && (b.0 < i || (b.0 == i && b.1 < j))
  }

  /** Adding one new cell to s raises the count around p by one exactly when that cell lies around p. */
  lemma AroundInsert(s: set<Pos>, b: Pos, p: Pos)
    requires b !in s
    ensures |Around(s + {b}, p)| == |Around(s, p)| + (if Adjacent(p, b) then 1 else 0)
  {
    if Adjacent(p, b) {
      assert Around(s + {b}, p) == Around(s, p) + {b};
    } else {
      assert Around(s + {b}, p) == Around(s, p);
    }
  }

  /** A count digit plus one; anything else is left as it is. */
  function Bumped(ch: char): char
  {
    if '0' <= ch < '8' then (ch as int + 1) as char else ch
  }

  /** The state of tab while InitNumbers runs, with the bombs before (i, j)
      in row-major order counted. */
  ghost predicate CountedBefore(tab: array2<char>, bombs: set<Pos>, i: int, j: int)
    reads tab
  {
    && (forall b :: b in bombs ==> InField(tab.Length0, tab.Length1, b))
    && (forall r, c :: 0 <= r < tab.Length0 && 0 <= c < tab.Length1 ==> (tab[r, c] == 'B' <==> (r, c) in bombs))
    && (forall r, c :: 0 <= r < tab.Length0 && 0 <= c < tab.Length1 && (r, c) !in bombs ==>
          tab[r, c] as int == '0' as int + |Around(VisitedBefore(bombs, i, j), (r, c))|)
  }

  /** Before a bomb is counted, no cell around it has reached eight yet. */
  lemma RoomAround(tab: array2<char>, bombs: set<Pos>, i: int, j: int)
    requires CountedBefore(tab, bombs, i, j)
    requires 0 <= i < tab.Length0 && 0 <= j < tab.Length1 && (i, j) in bombs
    ensures forall r, c :: 0 <= r < tab.Length0 && 0 <= c < tab.Length1 && Adjacent((i, j), (r, c)) && tab[r, c] != 'B' ==>
      '0' <= tab[r, c] < '8'
  {
    var visited := VisitedBefore(bombs, i, j);
    forall r, c | 0 <= r < tab.Length0 && 0 <= c < tab.Length1 && Adjacent((i, j), (r, c)) && tab[r, c] != 'B'
      ensures '0' <= tab[r, c] < '8'
    {
      AroundInsert(visited, (i, j), (r, c));
      AroundAtMostEight(visited + {(i, j)}, (r, c));
    }
  }

  /** The work InitNumbers does for a bomb at (i, j) (cursweep.c:130-145):
      each of the eight cells around it that lies on the field and is not a
      bomb counts one more bomb. The source writes the eight cases out, each
      guarded by the edge test of its direction; here they are one loop over
      the directions in the same order, with the field test in place of the
      edge tests. */
  method BumpAround(tab: array2<char>, i: int, j: int)
    requires 0 <= i < tab.Length0 && 0 <= j < tab.Length1
    requires forall r, c :: 0 <= r < tab.Length0 && 0 <= c < tab.Length1 && Adjacent((i, j), (r, c)) && tab[r, c] != 'B' ==>
      '0' <= tab[r, c] < '8'
    modifies tab
    ensures forall r, c :: 0 <= r < tab.Length0 && 0 <= c < tab.Length1 ==>
      tab[r, c] == if Adjacent((i, j), (r, c)) && old(tab[r, c]) != 'B' then Bumped(old(tab[r, c])) else old(tab[r, c])
  {
    for k := 0 to 8
      invariant forall r, c :: 0 <= r < tab.Length0 && 0 <= c < tab.Length1 ==>
        tab[r, c] == if Visited((i, j), (r, c), k) && old(tab[r, c]) != 'B' then Bumped(old(tab[r, c])) else old(tab[r, c])
    {
      var p := Shift((i, j), k);
      forall q ensures Visited((i, j), q, k + 1) <==> Visited((i, j), q, k) || q == p {
        VisitedNext((i, j), q, k);
      }
      BumpCell(tab, p.0, p.1);
    }
  }

  /** Bumps cell (r, c) when it lies on the field and is not a bomb. */
  method BumpCell(tab: array2<char>, r: int, c: int)
    modifies tab
    ensures forall r', c' :: 0 <= r' < tab.Length0 && 0 <= c' < tab.Length1 ==>
      tab[r', c'] == if (r', c') == (r, c) && old(tab[r', c']) != 'B' then Bumped(old(tab[r', c'])) else old(tab[r', c'])
  {
    if 0 <= r < tab.Length0 && 0 <= c < tab.Length1 && tab[r, c] != 'B' {
      tab[r, c] := Bumped(tab[r, c]);
    }
  }

  /** q is one of the neighbours of p in the first k directions. */
  predicate Visited(p: Pos, q: Pos, k: int) {
    Adjacent(p, q) && DirIndex(p, q) < k
  }

  lemma VisitedNext(p: Pos, q: Pos, k: int)
    requires 0 <= k < 8
    ensures Visited(p, q, k + 1) <==> Visited(p, q, k) || q == Shift(p, k)
  {
    DirIndexShift(p, k);
  }

  /** Before InitNumbers visits any cell, a tab of bombs and zeros counts nothing. */
  lemma CountedNone(tab: array2<char>)
    requires BombsAndZeros(tab)
    ensures CountedBefore(tab, Bombs(tab), 0, 0)
  {
    assert VisitedBefore(Bombs(tab), 0, 0) == {};
  }

  /** Passing a cell that is not a bomb, or the end of a row, changes no count. */
  lemma CountedPass(tab: array2<char>, bombs: set<Pos>, i: int, j: int)
    requires CountedBefore(tab, bombs, i, j)
    requires 0 <= i < tab.Length0 && 0 <= j <= tab.Length1
    requires j < tab.Length1 ==> (i, j) !in bombs
    ensures j < tab.Length1 ==> CountedBefore(tab, bombs, i, j + 1)
    ensures j == tab.Length1 ==> CountedBefore(tab, bombs, i + 1, 0)
  {
    if j < tab.Length1 {
      assert VisitedBefore(bombs, i, j + 1) == VisitedBefore(bombs, i, j);
    } else {
      assert VisitedBefore(bombs, i, j) == VisitedBefore(bombs, i + 1, 0);
    }
  }

  /** Once every row is visited, the count is complete. */
  lemma CountedAll(tab: array2<char>, bombs: set<Pos>)
    requires CountedBefore(tab, bombs, tab.Length0, 0)
    ensures Bombs(tab) == bombs
    ensures Numbered(tab)
  {
    assert VisitedBefore(bombs, tab.Length0, 0) == bombs;
  }

  /** InitNumbers at a bomb (i, j) (cursweep.c:129-146): after the cells
      around it are bumped, the bombs up to and including (i, j) are counted. */
  method CountBomb(tab: array2<char>, i: int, j: int, ghost bombs: set<Pos>)
    requires 0 <= i < tab.Length0 && 0 <= j < tab.Length1 && (i, j) in bombs
    requires CountedBefore(tab, bombs, i, j)
    modifies tab
    ensures CountedBefore(tab, bombs, i, j + 1)
  {
    RoomAround(tab, bombs, i, j);
    BumpAround(tab, i, j);
    var visited := VisitedBefore(bombs, i, j);
    assert VisitedBefore(bombs, i, j + 1) == visited + {(i, j)};
    forall r, c | 0 <= r < tab.Length0 && 0 <= c < tab.Length1 && (r, c) !in bombs
      ensures tab[r, c] as int == '0' as int + |Around(visited + {(i, j)}, (r, c))|
    {
      AroundInsert(visited, (i, j), (r, c));
      AroundAtMostEight(visited + {(i, j)}, (r, c));
    }
  }

  /** Writes into every non-bomb cell the number of bombs around it
      (cursweep.c:121-149): for each bomb, in row-major order, every
      non-bomb cell around it that lies on the field counts one more. */
  method InitNumbers(tab: array2<char>)
    requires BombsAndZeros(tab)
    modifies tab
    ensures Bombs(tab) == old(Bombs(tab))
    ensures Numbered(tab)
  {
    ghost var bombs := Bombs(tab);
    var lin, col := tab.Length0, tab.Length1;
    CountedNone(tab);
    for i := 0 to lin
      invariant CountedBefore(tab, bombs, i, 0)
    {
      for j := 0 to col
        invariant CountedBefore(tab, bombs, i, j)
      {
        // if there's a bomb, every cell around it learns of it
        if tab[i, j] == 'B' {
          CountBomb(tab, i, j, bombs);
        } else {
          CountedPass(tab, bombs, i, j);
        }
      }
      CountedPass(tab, bombs, i, col);
    }
    CountedAll(tab, bombs);
  }
}
