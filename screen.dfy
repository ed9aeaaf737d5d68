/** What the player sees of each cell. The source keeps this only as the
    character drawn on the terminal: '*' for a hidden cell, 'B' for a flagged
    one, a digit or a blank for a revealed one. Here it is an explicit grid
    of the same size as tab, row 0 being the field's first row. */
module Screen {
  import opened Grid

  datatype Visibility = Hidden | Flagged | Revealed

  /** The toggle of Mark: '*' becomes 'B', 'B' becomes '*', anything else stays. */
  function Toggled(v: Visibility): (w: Visibility)
    ensures v == Revealed <==> w == Revealed
    ensures v != Revealed ==> w != v
  {
    match v
    case Hidden => Flagged
    case Flagged => Hidden
    case Revealed => Revealed
  }

  /** Toggling twice gives back the original visibility. */
  lemma ToggledTwice(v: Visibility)
    ensures Toggled(Toggled(v)) == v
  {
  }

  function HiddenCells(vis: array2<Visibility>): set<Pos>
    reads vis
  {
    set r, c | 0 <= r < vis.Length0 && 0 <= c < vis.Length1 && vis[r, c] == Hidden :: (r, c)
  }

  function FlaggedCells(vis: array2<Visibility>): set<Pos>
    reads vis
  {
    set r, c | 0 <= r < vis.Length0 && 0 <= c < vis.Length1 && vis[r, c] == Flagged :: (r, c)
  }

  function RevealedCells(vis: array2<Visibility>): set<Pos>
    reads vis
  {
    set r, c | 0 <= r < vis.Length0 && 0 <= c < vis.Length1 && vis[r, c] == Revealed :: (r, c)
  }

  /** The three kinds of cell split the field: every cell is of exactly one kind. */
  lemma Partition(vis: array2<Visibility>)
    ensures HiddenCells(vis) + FlaggedCells(vis) + RevealedCells(vis) == Cells(vis.Length0, vis.Length1)
    ensures HiddenCells(vis) !! FlaggedCells(vis)
    ensures HiddenCells(vis) !! RevealedCells(vis)
    ensures FlaggedCells(vis) !! RevealedCells(vis)
  {
    forall p | p in Cells(vis.Length0, vis.Length1)
      ensures p in HiddenCells(vis) + FlaggedCells(vis) + RevealedCells(vis)
    {
      match vis[p.0, p.1]
      case Hidden => assert p in HiddenCells(vis);
      case Flagged => assert p in FlaggedCells(vis);
      case Revealed => assert p in RevealedCells(vis);
    }
  }

  /** No cell is both hidden and revealed. */
  lemma HiddenNotRevealed(vis: array2<Visibility>)
    ensures HiddenCells(vis) !! RevealedCells(vis)
  {
  }

  /** Revealed cells lie on the field. */
  lemma RevealedInField(vis: array2<Visibility>)
    ensures RevealedCells(vis) <= Cells(vis.Length0, vis.Length1)
  {
  }

  /** Draws a lin x col field of hidden cells (cursweep.c:153-162). */
  method FieldCreate(lin: nat, col: nat) returns (vis: array2<Visibility>)
    ensures fresh(vis) && vis.Length0 == lin && vis.Length1 == col
    ensures HiddenCells(vis) == Cells(lin, col)
    ensures FlaggedCells(vis) == {} && RevealedCells(vis) == {}
  {
    vis := new Visibility[lin, col];
    for i := 0 to lin
      invariant forall r, c :: 0 <= r < i && 0 <= c < col ==> vis[r, c] == Hidden
    {
      for j := 0 to col
        invariant forall r, c :: 0 <= r < i && 0 <= c < col ==> vis[r, c] == Hidden
        invariant forall c :: 0 <= c < j ==> vis[i, c] == Hidden
      {
        vis[i, j] := Hidden;
      }
    }
    Partition(vis);
    assert FlaggedCells(vis) == {} && RevealedCells(vis) == {};
  }

  /** Flags a hidden cell or unflags a flagged one (cursweep.c:166-183); a
      revealed cell, or a position off the field, is left alone. */
  method Mark(vis: array2<Visibility>, i: int, j: int)
    modifies vis
    ensures forall r, c :: 0 <= r < vis.Length0 && 0 <= c < vis.Length1 ==>
      vis[r, c] == if (r, c) == (i, j) then Toggled(old(vis[r, c])) else old(vis[r, c])
    ensures RevealedCells(vis) == old(RevealedCells(vis))
    ensures (i, j) in old(HiddenCells(vis)) ==>
      HiddenCells(vis) == old(HiddenCells(vis)) - {(i, j)} && FlaggedCells(vis) == old(FlaggedCells(vis)) + {(i, j)}
    ensures (i, j) in old(FlaggedCells(vis)) ==>
      HiddenCells(vis) == old(HiddenCells(vis)) + {(i, j)} && FlaggedCells(vis) == old(FlaggedCells(vis)) - {(i, j)}
    ensures (i, j) !in old(HiddenCells(vis)) + old(FlaggedCells(vis)) ==> unchanged(vis)
  {
    if 0 <= i < vis.Length0 && 0 <= j < vis.Length1 {
      var v := vis[i, j];
      if v == Flagged {
        vis[i, j] := Hidden;
      } else if v == Hidden {
        vis[i, j] := Flagged;
      }
      assert RevealedCells(vis) == old(RevealedCells(vis));
    }
  }

  /** Reveals one hidden cell: the source draws its digit (or a blank) over the '*'. */
  method Uncover(vis: array2<Visibility>, i: int, j: int)
    requires 0 <= i < vis.Length0 && 0 <= j < vis.Length1 && vis[i, j] == Hidden
    modifies vis
    ensures HiddenCells(vis) == old(HiddenCells(vis)) - {(i, j)}
    ensures FlaggedCells(vis) == old(FlaggedCells(vis))
    ensures RevealedCells(vis) == old(RevealedCells(vis)) + {(i, j)}
  {
    vis[i, j] := Revealed;
  }
}
