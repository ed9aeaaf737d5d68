/** Cursor movement and mouse-position validation from the main loop
    (cursweep.c:489-595). The cursor is kept in screen coordinates, as in the
    source: column x in 0..col-1 and row y in 1..lin, where screen row y shows
    tab row y - 1. The arrow keys move by one cell and 'w', 'a', 's', 'd' by
    `n` = 4, and every move stops at the edge of the field. */
module Cursor {

  function Min(a: int, b: int): int { if a <= b then a else b }
  function Max(a: int, b: int): int { if a >= b then a else b }

  /** KEY_RIGHT (n = 1) and 'd' (n = 4), cursweep.c:533-547. */
  function MoveRight(x: int, col: int, n: int): (x': int)
    requires 0 <= x < col && 1 <= n
    ensures 0 <= x' < col
    ensures x' == Min(x + n, col - 1)
  {
    if x < col - 1 then (if x > col - 1 - n then col - 1 else x + n) else x
  }

  /** KEY_LEFT (n = 1) and 'a' (n = 4), cursweep.c:549-563. */
  function MoveLeft(x: int, col: int, n: int): (x': int)
    requires 0 <= x < col && 1 <= n
    ensures 0 <= x' < col
    ensures x' == Max(x - n, 0)
  {
    if x > 0 then (if x < n then 0 else x - n) else x
  }

  /** KEY_UP (n = 1) and 'w' (n = 4), cursweep.c:565-579. */
  function MoveUp(y: int, lin: int, n: int): (y': int)
    requires 1 <= y <= lin && 1 <= n
    ensures 1 <= y' <= lin
    ensures y' == Max(y - n, 1)
  {
    if y > 1 then (if y < n + 1 then 1 else y - n) else y
  }

  /** KEY_DOWN (n = 1) and 's' (n = 4), cursweep.c:581-595. */
  function MoveDown(y: int, lin: int, n: int): (y': int)
    requires 1 <= y <= lin && 1 <= n
    ensures 1 <= y' <= lin
    ensures y' == Min(y + n, lin)
  {
    if y < lin then (if y > lin - n then lin else y + n) else y
  }

  /** Moving right and then back left by the same step returns to the start
      unless the first move stopped at the right edge. */
  lemma RightThenLeft(x: int, col: int, n: int)
    requires 0 <= x < col && 1 <= n && x + n <= col - 1
    ensures MoveLeft(MoveRight(x, col, n), col, n) == x
  {
  }

  /** The mouse test of cursweep.c:493 as written: a click is ignored when
      event.x > col, event.y < 1 or event.y > lin. */
  predicate MouseOnFieldAsWritten(ex: int, ey: int, lin: int, col: int) {
    !(ex > col || ey < 1 || ey > lin)
  }

  /** The evidently intended test: the click must land on the field, whose
      last column is col - 1. */
  predicate MouseOnField(ex: int, ey: int, lin: int, col: int) {
    !(ex > col - 1 || ey < 1 || ey > lin)
  }

  /** The intended test admits exactly the clicks on a cell of the field
      (mouse columns are never negative). */
  lemma MouseOnFieldExact(ex: int, ey: int, lin: int, col: int)
    requires 0 <= ex
    ensures MouseOnField(ex, ey, lin, col) <==> 0 <= ey - 1 < lin && 0 <= ex < col
  {
  }

  /** The test as written lets a click in column col through, one past the
      field's last column, where the cursor then sits off the field. */
  lemma MouseAsWrittenAdmitsColumnCol(lin: int, col: int)
    requires 1 <= lin
    ensures MouseOnFieldAsWritten(col, 1, lin, col)
    ensures !MouseOnField(col, 1, lin, col)
  {
  }
}
