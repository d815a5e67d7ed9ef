/**
 The shape catalog and the rotation transform of the falling-block game.

 A shape is a matrix of cells; a cell is filled when it is non-zero (the
 catalog only uses 0 and 1). Rotation turns a matrix 90 degrees clockwise
 into a fresh matrix and leaves its argument alone (sequences are values).
 */
module Shapes {

  type Matrix = seq<seq<int>>

  datatype Option<T> = None | Some(value: T)

  /** At least one row (the game reads the width from row 0), all rows equally long. */
  predicate IsRectangular(m: Matrix) {
    |m| > 0 && forall i :: 0 <= i < |m| ==> |m[i]| == |m[0]|
  }

  /** A rectangular matrix with at least one column: what every piece is. */
  predicate IsShape(m: Matrix) {
    IsRectangular(m) && |m[0]| > 0
  }

  /** The seven shapes, in catalog order (T, S, Z, J, L, O, I). */
  const Catalog: seq<Matrix> := [
    [[1, 1, 1],
     [0, 1, 0]],
    [[0, 1, 1],
     [1, 1, 0]],
    [[1, 1, 0],
     [0, 1, 1]],
    [[1, 0, 0],
     [1, 1, 1]],
    [[0, 0, 1],
     [1, 1, 1]],
    [[1, 1],
     [1, 1]],
    [[1, 1, 1, 1]]
  ]

  /** Every catalog entry is a shape of at most 2 rows and at most 4 columns. */
  lemma CatalogShapes(k: nat)
    requires k < |Catalog|
    ensures IsShape(Catalog[k])
    ensures |Catalog[k]| <= 2 && 2 <= |Catalog[k][0]| <= 4
  {
  }

  /**
   The 90-degree clockwise rotation: an R x C matrix becomes a C x R matrix in
   which the cell at row x, column R-1-y holds what the input held at row y,
   column x.
   */
  function Rotated(m: Matrix): (r: Matrix)
    requires IsRectangular(m)
    ensures |r| == |m[0]|
    ensures forall c :: 0 <= c < |r| ==> |r[c]| == |m|
    ensures IsShape(m) ==> IsShape(r)
  {
    seq(|m[0]|, c requires 0 <= c < |m[0]| => seq(|m|, k requires 0 <= k < |m| => m[|m| - 1 - k][c]))
  }

  /** Where each input cell lands: row y, column x goes to row x, column R-1-y. */
  lemma RotatedCell(m: Matrix, y: int, x: int)
    requires IsRectangular(m)
    requires 0 <= y < |m| && 0 <= x < |m[0]|
    ensures Rotated(m)[x][|m| - 1 - y] == m[y][x]
  {
  }

  /** The nested loops that fill a zeroed C x R matrix cell by cell. */
  method RotatePiece(piece: Matrix) returns (rotated: Matrix)
    requires IsRectangular(piece)
    ensures rotated == Rotated(piece)
  {
    var rows, cols := |piece|, |piece[0]|;
    rotated := seq(cols, _ => seq(rows, _ => 0));
    var y := 0;
    while y < rows
      invariant 0 <= y <= rows
      invariant |rotated| == cols
      invariant forall c :: 0 <= c < cols ==> |rotated[c]| == rows
      invariant forall c, k :: 0 <= c < cols && 0 <= k < rows ==>
        rotated[c][k] == if rows - 1 - k < y then piece[rows - 1 - k][c] else 0
    {
      var x := 0;
      while x < cols
        invariant 0 <= x <= cols
        invariant |rotated| == cols
        invariant forall c :: 0 <= c < cols ==> |rotated[c]| == rows
        invariant forall c, k :: 0 <= c < cols && 0 <= k < rows ==>
          rotated[c][k] ==
            if rows - 1 - k < y || (rows - 1 - k == y && c < x) then piece[rows - 1 - k][c] else 0
      {
        rotated := rotated[x := rotated[x][rows - y - 1 := piece[y][x]]];
        x := x + 1;
      }
      y := y + 1;
    }
    ghost var spec := Rotated(piece);
    assert forall c :: 0 <= c < cols ==> rotated[c] == spec[c];
  }

  /** Two rotations turn a shape upside down and mirror it: a half turn. */
  lemma HalfTurn(m: Matrix)
    requires IsShape(m)
    ensures var h := Rotated(Rotated(m));
      |h| == |m| &&
      (forall i :: 0 <= i < |h| ==> |h[i]| == |m[0]|) &&
      (forall i, j :: 0 <= i < |m| && 0 <= j < |m[0]| ==> h[i][j] == m[|m| - 1 - i][|m[0]| - 1 - j])
  {
    var q := Rotated(m);
    var h := Rotated(q);
    forall i, j | 0 <= i < |m| && 0 <= j < |m[0]|
      ensures h[i][j] == m[|m| - 1 - i][|m[0]| - 1 - j]
    {
      // q[c][k] == m[|m|-1-k][c], and h[i][j] == q[|q|-1-j][i]
      assert h[i][j] == q[|m[0]| - 1 - j][i];
    }
  }

  /** Four quarter turns give back the original matrix. */
  lemma FullTurn(m: Matrix)
    requires IsShape(m)
    ensures Rotated(Rotated(Rotated(Rotated(m)))) == m
  {
    var h := Rotated(Rotated(m));
    HalfTurn(m);
    HalfTurn(h);
    HalfTwiceIsIdentity(m, h, Rotated(Rotated(h)));
  }

  /** Mirroring rows and columns twice restores every cell. */
  lemma HalfTwiceIsIdentity(m: Matrix, h: Matrix, f: Matrix)
    requires IsShape(m) && |h| == |m| && |f| == |m|
    requires forall i :: 0 <= i < |m| ==> |h[i]| == |m[0]| && |f[i]| == |m[0]|
    requires forall i, j :: 0 <= i < |m| && 0 <= j < |m[0]| ==> h[i][j] == m[|m| - 1 - i][|m[0]| - 1 - j]
    requires forall i, j :: 0 <= i < |m| && 0 <= j < |m[0]| ==> f[i][j] == h[|m| - 1 - i][|m[0]| - 1 - j]
    ensures f == m
  {
    forall i | 0 <= i < |m| ensures f[i] == m[i] {
      forall j | 0 <= j < |m[i]| ensures f[i][j] == m[i][j] {
        assert f[i][j] == h[|m| - 1 - i][|m[0]| - 1 - j];
      }
    }
  }

  /** S, Z, O and I are unchanged by a half turn. */
  lemma HalfTurnSymmetric(k: nat)
    requires k == 1 || k == 2 || k == 5 || k == 6
    ensures Rotated(Rotated(Catalog[k])) == Catalog[k]
  {
    var s := Catalog[k];
    HalfTurn(s);
    var h := Rotated(Rotated(s));
    if k == 6 {
      assert h[0] == s[0];
    } else {
      assert h[0] == s[0] && h[1] == s[1];
    }
  }

  /**
   A quarter turn keeps a shape in the catalog only for the square O: every
   other shape is at least three columns wide, so its rotation has at least
   three rows, and no catalog entry has more than two.
   */
  lemma RotationLeavesCatalog(k: nat)
    requires k < |Catalog|
    ensures Rotated(Catalog[k]) in Catalog <==> k == 5
  {
    var r := Rotated(Catalog[k]);
    if k == 5 {
      assert r[0] == [1, 1] && r[1] == [1, 1];
      assert r == Catalog[5];
    } else {
      assert |r| >= 3;
      forall j | 0 <= j < |Catalog| ensures Catalog[j] != r {
        CatalogShapes(j);
      }
    }
  }

  /** Linear search of the catalog from position i, as a list's index lookup does. */
  function IndexFrom(m: Matrix, i: nat): (r: Option<nat>)
    requires i <= |Catalog|
    ensures r.Some? ==> i <= r.value < |Catalog| && Catalog[r.value] == m
    ensures r.Some? ==> forall j :: i <= j < r.value ==> Catalog[j] != m
    ensures r.None? ==> forall j :: i <= j < |Catalog| ==> Catalog[j] != m
    decreases |Catalog| - i
  {
    if i == |Catalog| then None
    else if Catalog[i] == m then Some(i)
    else IndexFrom(m, i + 1)
  }

  /** The first catalog position holding m, or None when m is not in the catalog. */
  function CatalogIndex(m: Matrix): (r: Option<nat>)
    ensures r.None? <==> m !in Catalog
    ensures r.Some? ==> r.value < |Catalog| && Catalog[r.value] == m
  {
    IndexFrom(m, 0)
  }
}
