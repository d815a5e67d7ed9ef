/**
 The playing field: a 20 x 10 grid of cells, 0 for empty and 1..7 for a cell
 locked by the catalog shape of that number. Collision of a placed matrix
 with the field, and the lock that writes a piece into it.
 */
module Grid {
  import opened Shapes

  const Width := 10
  const Height := 20

  type Row = seq<int>
  type Board = seq<Row>

  /** Height rows of Width cells each. */
  predicate WellFormed(b: Board) {
    |b| == Height && forall r :: 0 <= r < |b| ==> |b[r]| == Width
  }

  /** Every cell is empty or the number of a catalog shape. */
  predicate CellsInRange(b: Board) {
    forall r, c :: 0 <= r < |b| && 0 <= c < |b[r]| ==> 0 <= b[r][c] <= |Catalog|
  }

  function EmptyRow(): (row: Row)
    ensures |row| == Width && forall c :: 0 <= c < Width ==> row[c] == 0
  {
    seq(Width, _ => 0)
  }

  /** The field the game starts with. */
  function EmptyBoard(): (b: Board)
    ensures WellFormed(b) && CellsInRange(b)
    ensures forall r, c :: 0 <= r < Height && 0 <= c < Width ==> b[r][c] == 0
  {
    seq(Height, _ => EmptyRow())
  }

  /**
   A cell a filled piece cell may not occupy: at or below the bottom row,
   left of column 0, at or past column Width, or already locked. Rows above
   the top are not considered: the game never places a piece there.
   */
  predicate Blocked(b: Board, row: int, col: int)
    requires WellFormed(b) && row >= 0
  {
    row >= Height || col < 0 || col >= Width || b[row][col] != 0
  }

  /** Some filled cell of m, with its top-left corner at column x and row y, is blocked. */
  predicate Collides(b: Board, m: Matrix, x: int, y: int)
    requires WellFormed(b) && IsRectangular(m) && y >= 0
  {
    exists i, j :: 0 <= i < |m| && 0 <= j < |m[0]| && m[i][j] != 0 && Blocked(b, y + i, x + j)
  }

  /** The scan over the matrix, row by row, that stops at the first blocked filled cell. */
  method ScanCollision(b: Board, m: Matrix, x: int, y: int) returns (hit: bool)
    requires WellFormed(b) && IsRectangular(m) && y >= 0
    ensures hit == Collides(b, m, x, y)
  {
    var i := 0;
    while i < |m|
      invariant 0 <= i <= |m|
      invariant forall i', j :: 0 <= i' < i && 0 <= j < |m[0]| && m[i'][j] != 0 ==> !Blocked(b, y + i', x + j)
    {
      var j := 0;
      while j < |m[0]|
        invariant 0 <= j <= |m[0]|
        invariant forall i', j' :: 0 <= i' < i && 0 <= j' < |m[0]| && m[i'][j'] != 0 ==> !Blocked(b, y + i', x + j')
        invariant forall j' :: 0 <= j' < j && m[i][j'] != 0 ==> !Blocked(b, y + i, x + j')
      {
        if m[i][j] != 0 && (y + i >= Height || x + j < 0 || x + j >= Width || b[y + i][x + j] != 0) {
          assert Blocked(b, y + i, x + j);
          return true;
        }
        j := j + 1;
      }
      i := i + 1;
    }
    return false;
  }

  /** Every filled cell of m, placed at (x, y), lies on the field. */
  predicate InBounds(m: Matrix, x: int, y: int)
    requires IsRectangular(m)
  {
    forall i, j :: 0 <= i < |m| && 0 <= j < |m[0]| && m[i][j] != 0 ==>
      0 <= y + i < Height && 0 <= x + j < Width
  }

  /** A placement that does not collide lies on the field and covers only empty cells. */
  lemma FreeIsInBounds(b: Board, m: Matrix, x: int, y: int)
    requires WellFormed(b) && IsRectangular(m) && y >= 0
    requires !Collides(b, m, x, y)
    ensures InBounds(m, x, y)
    ensures forall i, j :: 0 <= i < |m| && 0 <= j < |m[0]| && m[i][j] != 0 ==> b[y + i][x + j] == 0
  {
    forall i, j | 0 <= i < |m| && 0 <= j < |m[0]| && m[i][j] != 0
      ensures 0 <= y + i < Height && 0 <= x + j < Width && b[y + i][x + j] == 0
    {
      assert !Blocked(b, y + i, x + j);
    }
  }

  /** On an empty field a placement collides exactly when it leaves the field. */
  lemma EmptyBoardCollision(m: Matrix, x: int, y: int)
    requires IsRectangular(m) && y >= 0
    ensures Collides(EmptyBoard(), m, x, y) <==> !InBounds(m, x, y)
  {
    var b := EmptyBoard();
    if !InBounds(m, x, y) {
      var i, j :| 0 <= i < |m| && 0 <= j < |m[0]| && m[i][j] != 0 &&
        !(0 <= y + i < Height && 0 <= x + j < Width);
      assert Blocked(b, y + i, x + j);
    }
  }

  /** The cell at row r, column c is under a filled cell of m placed at (x, y). */
  predicate Covers(m: Matrix, x: int, y: int, r: int, c: int)
    requires IsRectangular(m)
  {
    0 <= r - y < |m| && 0 <= c - x < |m[0]| && m[r - y][c - x] != 0
  }

  /** The field after writing v into every cell under a filled cell of m placed at (x, y). */
  function Stamp(b: Board, m: Matrix, x: int, y: int, v: int): (r: Board)
    requires WellFormed(b) && IsRectangular(m)
    ensures WellFormed(r)
  {
    seq(Height, row requires 0 <= row < Height =>
      seq(Width, col requires 0 <= col < Width =>
        if Covers(m, x, y, row, col) then v else b[row][col]))
  }

  /**
   Locking writes v exactly under the piece's filled cells and leaves every
   other cell as it was.
   */
  lemma StampCells(b: Board, m: Matrix, x: int, y: int, v: int)
    requires WellFormed(b) && IsRectangular(m) && InBounds(m, x, y)
    ensures forall i, j :: 0 <= i < |m| && 0 <= j < |m[0]| && m[i][j] != 0 ==> Stamp(b, m, x, y, v)[y + i][x + j] == v
    ensures forall r, c :: 0 <= r < Height && 0 <= c < Width && !Covers(m, x, y, r, c) ==> Stamp(b, m, x, y, v)[r][c] == b[r][c]
  {
    var s := Stamp(b, m, x, y, v);
    forall i, j | 0 <= i < |m| && 0 <= j < |m[0]| && m[i][j] != 0
      ensures s[y + i][x + j] == v
    {
      assert Covers(m, x, y, y + i, x + j);
    }
  }

  /** Locking a catalog number keeps every cell in range. */
  lemma StampInRange(b: Board, m: Matrix, x: int, y: int, v: int)
    requires WellFormed(b) && CellsInRange(b) && IsRectangular(m)
    requires 1 <= v <= |Catalog|
    ensures CellsInRange(Stamp(b, m, x, y, v))
  {
  }

  /** Once locked with a non-zero value, the piece collides with itself at that spot. */
  lemma StampOccupies(b: Board, m: Matrix, x: int, y: int, v: int)
    requires WellFormed(b) && IsRectangular(m) && InBounds(m, x, y) && y >= 0
    requires v != 0
    requires exists i, j :: 0 <= i < |m| && 0 <= j < |m[0]| && m[i][j] != 0
    ensures Collides(Stamp(b, m, x, y, v), m, x, y)
  {
    var i, j :| 0 <= i < |m| && 0 <= j < |m[0]| && m[i][j] != 0;
    StampCells(b, m, x, y, v);
    assert Blocked(Stamp(b, m, x, y, v), y + i, x + j);
  }
}
