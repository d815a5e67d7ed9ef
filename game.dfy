/**
 The game state machine: the locked field, the falling piece (its matrix and
 the field position of its top-left cell), the score and whether play goes
 on. Key presses and the gravity tick are methods; the shape drawn for the
 next piece is a parameter.
 */
module Game {
  import opened Shapes
  import opened Grid
  import opened Lines

  /**
   Playing until a freshly spawned piece collides (GameOver), or until a lock
   cannot find the piece's matrix in the catalog to number its cells
   (LookupFailed: the list lookup raises and the program stops).
   */
  datatype Status = Playing | GameOver | LookupFailed

  /** The key presses the game reacts to; any other key is ignored. */
  datatype Key = Left | Right | Down | Up | OtherKey

  /** Points per cleared row. */
  const RowScore := 100

  /** Column of a new piece's left edge: the piece is centred on the field. */
  function SpawnX(m: Matrix): int
    requires |m| > 0
  {
    Width / 2 - |m[0]| / 2
  }

  /** Every catalog shape spawns in column 3 or 4 and fits on an empty field. */
  lemma SpawnFits(k: nat)
    requires k < |Catalog|
    ensures 3 <= SpawnX(Catalog[k]) <= 4
    ensures !Collides(EmptyBoard(), Catalog[k], SpawnX(Catalog[k]), 0)
  {
    var m := Catalog[k];
    CatalogShapes(k);
    EmptyBoardCollision(m, SpawnX(m), 0);
  }

  /** The straight piece spawns in column 3 and fits on an empty field. */
  lemma SpawnStraight()
    ensures SpawnX([[1, 1, 1, 1]]) == 3
    ensures !Collides(EmptyBoard(), [[1, 1, 1, 1]], 3, 0)
  {
    assert Catalog[6] == [[1, 1, 1, 1]];
    SpawnFits(6);
  }

  class TetrisGame {
    var board: Board
    var piece: Matrix
    var x: int
    var y: int
    var score: int
    var status: Status

    /**
     The field keeps its size and holds only catalog numbers; the piece is a
     shape below the top edge; the score is a non-negative multiple of 100.
     While playing, the piece either fits where it is or has just been moved
     one row down into a collision by gravity, in which case the row above
     fits (gravity does not look before it moves).
     */
    ghost predicate Valid()
      reads this
    {
      WellFormed(board) && CellsInRange(board) && IsShape(piece) && y >= 0 &&
      score >= 0 && score % RowScore == 0 &&
      (status == Playing ==>
        !Collides(board, piece, x, y) || (y >= 1 && !Collides(board, piece, x, y - 1)))
    }

    /** An empty field, the first piece centred at the top, no points. */
    constructor (first: nat)
      requires first < |Catalog|
      ensures Valid() && status == Playing
      ensures board == EmptyBoard() && piece == Catalog[first]
      ensures x == SpawnX(Catalog[first]) && y == 0 && score == 0
    {
      board := EmptyBoard();
      piece := Catalog[first];
      x, y := SpawnX(Catalog[first]), 0;
      score := 0;
      status := Playing;
      SpawnFits(first);
    }

    /** The current piece at the current position collides. */
    method IsCollision() returns (hit: bool)
      requires WellFormed(board) && IsRectangular(piece) && y >= 0
      ensures hit == Collides(board, piece, x, y)
    {
      hit := ScanCollision(board, piece, x, y);
    }

    /** A candidate matrix at the current position collides. */
    method IsCollisionWithRotated(rotated: Matrix) returns (hit: bool)
      requires WellFormed(board) && IsRectangular(rotated) && y >= 0
      ensures hit == Collides(board, rotated, x, y)
    {
      hit := ScanCollision(board, rotated, x, y);
    }

    /**
     Writes the piece's catalog number plus one into the cells under its
     filled cells. The piece must be a catalog matrix (the number is found by
     looking the matrix up) and must lie on the field.
     */
    method JoinPiece()
      requires WellFormed(board) && IsRectangular(piece) && InBounds(piece, x, y)
      requires piece in Catalog
      modifies this`board
      ensures board == Stamp(old(board), piece, x, y, CatalogIndex(piece).value + 1)
    {
      var shapeIndex := CatalogIndex(piece).value + 1;
      ghost var b0 := board;
      var i := 0;
      while i < |piece|
        invariant 0 <= i <= |piece|
        invariant WellFormed(board)
        invariant forall r, c :: 0 <= r < Height && 0 <= c < Width ==>
          board[r][c] == if r - y < i && Covers(piece, x, y, r, c) then shapeIndex else b0[r][c]
      {
        var j := 0;
        while j < |piece[0]|
          invariant 0 <= j <= |piece[0]|
          invariant WellFormed(board)
          invariant forall r, c :: 0 <= r < Height && 0 <= c < Width ==>
            board[r][c] ==
              if (r - y < i || (r - y == i && c - x < j)) && Covers(piece, x, y, r, c) then shapeIndex else b0[r][c]
        {
          if piece[i][j] != 0 {
            board := board[y + i := board[y + i][x + j := shapeIndex]];
          }
          j := j + 1;
        }
        i := i + 1;
      }
      ghost var spec := Stamp(b0, piece, x, y, shapeIndex);
      assert forall r :: 0 <= r < Height ==> board[r] == spec[r];
    }

    /** The first pass of line clearing: the full rows, scanned from the top. */
    method FullRows() returns (linesToClear: seq<int>)
      requires WellFormed(board)
      ensures ListsFullRows(board, linesToClear, Height)
    {
      linesToClear := [];
      var r := 0;
      while r < Height
        invariant 0 <= r <= Height
        invariant ListsFullRows(board, linesToClear, r)
      {
        if IsFull(board[r]) {
          linesToClear := linesToClear + [r];
        }
        r := r + 1;
      }
    }

    /**
     Collects the full rows in one scan from the top, then for each of them,
     in that order, removes the row at that index, inserts an empty row at
     the top and adds 100 points.
     */
    method CheckLines()
      requires WellFormed(board)
      modifies this`board, this`score
      ensures board == ClearLines(old(board))
      ensures score == old(score) + RowScore * CountFull(old(board))
    {
      var linesToClear := FullRows();
      ghost var b0 := board;
      var t := 0;
      while t < |linesToClear|
        invariant 0 <= t <= |linesToClear|
        invariant board == RemoveAll(b0, linesToClear, t)
        invariant score == old(score) + RowScore * t
      {
        var l := linesToClear[t];
        board := board[..l] + board[l + 1..];  // pop row l
        board := [EmptyRow()] + board;         // insert an empty row at the top
        score := score + RowScore;
        t := t + 1;
      }
      RemoveAllClears(b0, linesToClear);
    }

    /** Left arrow: one column left, undone if the piece then collides. */
    method MoveLeft()
      requires Valid() && status == Playing
      modifies this`x
      ensures Valid()
      ensures x == if Collides(board, piece, old(x) - 1, y) then old(x) else old(x) - 1
    {
      x := x - 1;
      var hit := IsCollision();
      if hit {
        x := x + 1;
      }
    }

    /** Right arrow: one column right, undone if the piece then collides. */
    method MoveRight()
      requires Valid() && status == Playing
      modifies this`x
      ensures Valid()
      ensures x == if Collides(board, piece, old(x) + 1, y) then old(x) else old(x) + 1
    {
      x := x + 1;
      var hit := IsCollision();
      if hit {
        x := x - 1;
      }
    }

    /** Down arrow: one row down, undone if the piece then collides; never locks. */
    method SoftDrop()
      requires Valid() && status == Playing
      modifies this`y
      ensures Valid()
      ensures y == if Collides(board, piece, x, old(y) + 1) then old(y) else old(y) + 1
    {
      y := y + 1;
      var hit := IsCollision();
      if hit {
        y := y - 1;
      }
    }

    /** Up arrow: the quarter-turned matrix replaces the piece only if it fits in place. */
    method RotateCmd()
      requires Valid() && status == Playing
      modifies this`piece
      ensures Valid()
      ensures piece == if Collides(board, Rotated(old(piece)), x, y) then old(piece) else Rotated(old(piece))
    {
      var rotated := RotatePiece(piece);
      var hit := IsCollisionWithRotated(rotated);
      if !hit {
        piece := rotated;
      }
    }

    /** One key press, dispatched as the event loop does. */
    method KeyDown(key: Key)
      requires Valid() && status == Playing
      modifies this`x, this`y, this`piece
      ensures Valid()
      ensures key != Left && key != Right ==> x == old(x)
      ensures key != Down ==> y == old(y)
      ensures key != Up ==> piece == old(piece)
      ensures key == Left ==> x == if Collides(board, piece, old(x) - 1, y) then old(x) else old(x) - 1
      ensures key == Right ==> x == if Collides(board, piece, old(x) + 1, y) then old(x) else old(x) + 1
      ensures key == Down ==> y == if Collides(board, piece, x, old(y) + 1) then old(y) else old(y) + 1
      ensures key == Up ==>
        piece == if Collides(board, Rotated(old(piece)), x, y) then old(piece) else Rotated(old(piece))
    {
      match key
      case Left => MoveLeft();
      case Right => MoveRight();
      case Down => SoftDrop();
      case Up => RotateCmd();
      case OtherKey =>
    }

    /**
     The lock branch of the timed fall, entered after the piece has been moved
     back up to a row where it fits: look up its catalog number, write it into
     the field, clear and score full rows, then spawn shape nextShape centred
     at the top and end play if it collides there.
     */
    method LockAndSpawn(nextShape: nat)
      requires WellFormed(board) && CellsInRange(board) && IsShape(piece) && y >= 0
      requires score >= 0 && score % RowScore == 0
      requires status == Playing && !Collides(board, piece, x, y) && nextShape < |Catalog|
      modifies this
      ensures Valid() && score >= old(score)
      ensures old(piece) !in Catalog ==>
        board == old(board) && piece == old(piece) && x == old(x) && y == old(y) &&
        score == old(score) && status == LookupFailed
      ensures old(piece) in Catalog ==>
        var locked := Stamp(old(board), old(piece), old(x), old(y), CatalogIndex(old(piece)).value + 1);
        board == ClearLines(locked) && score == old(score) + RowScore * CountFull(locked) &&
        piece == Catalog[nextShape] && x == SpawnX(Catalog[nextShape]) && y == 0 &&
        (status == GameOver <==> Collides(board, piece, x, y)) && status != LookupFailed
    {
      if piece !in Catalog {
        // the colour lookup raises before any cell is written
        status := LookupFailed;
        return;
      }
      FreeIsInBounds(board, piece, x, y);
      ghost var before, v, s0 := board, CatalogIndex(piece).value + 1, score;
      JoinPiece();
      StampInRange(before, piece, x, y, v);
      ghost var locked := board;
      assert locked == Stamp(before, piece, x, y, v);
      CheckLines();
      ClearLinesShape(locked);
      assert board == ClearLines(locked) && score == s0 + RowScore * CountFull(locked);
      Spawn(nextShape);
    }

    /**
     The next piece, shape nextShape, enters centred at the top; play ends
     when it collides there.
     */
    method Spawn(nextShape: nat)
      requires WellFormed(board) && CellsInRange(board) && score >= 0 && score % RowScore == 0
      requires status == Playing && nextShape < |Catalog|
      modifies this`piece, this`x, this`y, this`status
      ensures Valid()
      ensures piece == Catalog[nextShape] && x == SpawnX(Catalog[nextShape]) && y == 0
      ensures status == GameOver <==> Collides(board, piece, x, y)
      ensures status != LookupFailed
    {
      piece := Catalog[nextShape];
      CatalogShapes(nextShape);
      x, y := SpawnX(piece), 0;
      var over := IsCollision();
      if over {
        status := GameOver;
      }
    }

    /**
     The timed fall. If the piece does not collide where it is, it moves one
     row down without looking at that row. Otherwise it moves back up one
     row and is locked there (LockAndSpawn).
     */
    method GravityTick(nextShape: nat)
      requires Valid() && status == Playing && nextShape < |Catalog|
      modifies this
      ensures Valid()
      ensures score >= old(score)
      ensures !Collides(old(board), old(piece), old(x), old(y)) ==>
        board == old(board) && piece == old(piece) && x == old(x) && y == old(y) + 1 &&
        score == old(score) && status == Playing
      ensures Collides(old(board), old(piece), old(x), old(y)) && old(piece) !in Catalog ==>
        board == old(board) && piece == old(piece) && x == old(x) && y == old(y) - 1 &&
        score == old(score) && status == LookupFailed
      ensures Collides(old(board), old(piece), old(x), old(y)) && old(piece) in Catalog ==>
        var locked := Stamp(old(board), old(piece), old(x), old(y) - 1, CatalogIndex(old(piece)).value + 1);
        board == ClearLines(locked) && score == old(score) + RowScore * CountFull(locked) &&
        piece == Catalog[nextShape] && x == SpawnX(Catalog[nextShape]) && y == 0 &&
        (status == GameOver <==> Collides(board, piece, x, y)) && status != LookupFailed
    {
      var hit := IsCollision();
      if !hit {
        y := y + 1;
      } else {
        y := y - 1;
        LockAndSpawn(nextShape);
      }
    }
  }
}
