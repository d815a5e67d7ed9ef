/**
 Line clearing: the rows whose every cell is locked disappear, the remaining
 rows keep their order and sink to the bottom, and one empty row per cleared
 row is added at the top.
 */
module Lines {
  import opened Shapes
  import opened Grid

  /** Every cell of the row is non-zero. */
  predicate IsFull(row: Row) {
    forall c :: 0 <= c < |row| ==> row[c] != 0
  }

  /** The rows of b that are not full, in their original order. */
  function NonFullRows(b: Board): (r: Board)
    ensures |r| <= |b|
  {
    if b == [] then [] else (if IsFull(b[0]) then [] else [b[0]]) + NonFullRows(b[1..])
  }

  /** How many rows of b are full: the ones the filter drops. */
  function CountFull(b: Board): nat {
    |b| - |NonFullRows(b)|
  }

  /** No kept row is full. */
  lemma {:induction false} NonFullRowsNotFull(b: Board)
    ensures forall k :: 0 <= k < |NonFullRows(b)| ==> !IsFull(NonFullRows(b)[k])
  {
    if b != [] {
      NonFullRowsNotFull(b[1..]);
      var head: Board := if IsFull(b[0]) then [] else [b[0]];
      var n := NonFullRows(b);
      forall k | 0 <= k < |n| ensures !IsFull(n[k]) {
        if k >= |head| { assert n[k] == NonFullRows(b[1..])[k - |head|]; }
      }
    }
  }

  /** Every kept row is a row of the input. */
  lemma {:induction false} NonFullRowsFrom(b: Board)
    ensures forall k :: 0 <= k < |NonFullRows(b)| ==> NonFullRows(b)[k] in b
  {
    if b != [] {
      NonFullRowsFrom(b[1..]);
      var head: Board := if IsFull(b[0]) then [] else [b[0]];
      var n := NonFullRows(b);
      forall k | 0 <= k < |n| ensures n[k] in b {
        if k < |head| { assert n[k] == b[0]; } else { assert n[k] == NonFullRows(b[1..])[k - |head|]; }
      }
    }
  }

  function EmptyRows(n: nat): (r: Board)
    ensures |r| == n
  {
    seq(n, _ => EmptyRow())
  }

  /** The field after line clearing: an empty row per full row, then the other rows. */
  function ClearLines(b: Board): Board {
    EmptyRows(CountFull(b)) + NonFullRows(b)
  }

  /** Filtering and counting distribute over concatenation. */
  lemma {:induction false} AppendRows(a: Board, c: Board)
    ensures NonFullRows(a + c) == NonFullRows(a) + NonFullRows(c)
    ensures CountFull(a + c) == CountFull(a) + CountFull(c)
  {
    if a == [] {
      assert a + c == c;
    } else {
      var head: Board := if IsFull(a[0]) then [] else [a[0]];
      assert (a + c)[0] == a[0] && (a + c)[1..] == a[1..] + c;
      AppendRows(a[1..], c);
      assert NonFullRows(a + c) == head + (NonFullRows(a[1..]) + NonFullRows(c));
    }
  }

  /** A field without full rows is left alone by the filter. */
  lemma {:induction false} NoFullRows(b: Board)
    requires forall k :: 0 <= k < |b| ==> !IsFull(b[k])
    ensures NonFullRows(b) == b && CountFull(b) == 0
  {
    if b != [] {
      NoFullRows(b[1..]);
    }
  }

  /** The empty row has a zero cell, so it is never full. */
  lemma EmptyRowNotFull()
    ensures !IsFull(EmptyRow())
  {
    assert EmptyRow()[0] == 0;
  }

  /** Clearing keeps the field Height x Width with every cell in range. */
  lemma ClearLinesShape(b: Board)
    requires WellFormed(b)
    ensures WellFormed(ClearLines(b))
    ensures CellsInRange(b) ==> CellsInRange(ClearLines(b))
  {
    var e, n := EmptyRows(CountFull(b)), NonFullRows(b);
    var r := ClearLines(b);
    NonFullRowsFrom(b);
    assert |r| == Height;
    forall k | 0 <= k < |r| ensures |r[k]| == Width && (CellsInRange(b) ==> forall c :: 0 <= c < Width ==> 0 <= r[k][c] <= |Catalog|) {
      if k >= |e| {
        assert r[k] == n[k - |e|];
        assert r[k] in b;
        var s :| 0 <= s < |b| && b[s] == r[k];
      }
    }
  }

  /** After clearing no row is full: every full row was removed. */
  lemma ClearLinesLeavesNoFullRow(b: Board)
    ensures forall k :: 0 <= k < |ClearLines(b)| ==> !IsFull(ClearLines(b)[k])
  {
    var e, n := EmptyRows(CountFull(b)), NonFullRows(b);
    EmptyRowNotFull();
    NonFullRowsNotFull(b);
    forall k | 0 <= k < |e + n| ensures !IsFull((e + n)[k]) {
      if k < |e| { assert (e + n)[k] == EmptyRow(); } else { assert (e + n)[k] == n[k - |e|]; }
    }
  }

  /** Clearing a cleared field changes nothing. */
  lemma ClearLinesIdempotent(b: Board)
    ensures ClearLines(ClearLines(b)) == ClearLines(b)
  {
    ClearLinesLeavesNoFullRow(b);
    NoFullRows(ClearLines(b));
    assert EmptyRows(0) + ClearLines(b) == ClearLines(b);
  }

  /** A row that is not full, for instance one missing a single cell, survives clearing. */
  lemma {:induction false} NonFullRowSurvives(b: Board, k: nat)
    requires k < |b| && !IsFull(b[k])
    ensures b[k] in NonFullRows(b) && b[k] in ClearLines(b)
  {
    if k > 0 {
      NonFullRowSurvives(b[1..], k - 1);
    }
  }

  /** lines lists, in increasing order, exactly the full rows of b above row n. */
  ghost predicate ListsFullRows(b: Board, lines: seq<int>, n: int) {
    (forall t :: 0 <= t < |lines| ==> 0 <= lines[t] < n && lines[t] < |b| && IsFull(b[lines[t]])) &&
    (forall s, t :: 0 <= s < t < |lines| ==> lines[s] < lines[t]) &&
    (forall r :: 0 <= r < n && r < |b| && IsFull(b[r]) ==> r in lines)
  }

  /** The row the scan resumes at after the first t listed rows: just below the t-th. */
  function ResumeRow(lines: seq<int>, t: nat): int
    requires t <= |lines|
  {
    if t == 0 then 0 else lines[t - 1] + 1
  }

  /**
   Between the row after the t-th listed row and the next listed row (or the
   bottom) no row is full.
   */
  lemma GapNotFull(b: Board, lines: seq<int>, t: nat, p: nat)
    requires ListsFullRows(b, lines, |b|) && t <= |lines|
    requires p == ResumeRow(lines, t)
    ensures t < |lines| ==> p <= lines[t]
    ensures forall r :: p <= r < |b| && (t < |lines| ==> r < lines[t]) ==> !IsFull(b[r])
  {
    forall r | p <= r < |b| && (t < |lines| ==> r < lines[t])
      ensures !IsFull(b[r])
    {
      forall s | 0 <= s < |lines| ensures lines[s] != r {
        if s < t - 1 {
          assert lines[s] < lines[t - 1];
        } else if s > t {
          assert lines[t] < lines[s];
        }
      }
      assert r !in lines;
    }
  }

  /**
   The field part-way through the removals: t empty rows on top, the
   non-full rows of b above row p, then b from row p on untouched.
   */
  ghost predicate PartlyCleared(board: Board, b: Board, t: nat, p: int) {
    0 <= p <= |b| && |NonFullRows(b[..p])| + t == p &&
    board == EmptyRows(t) + (NonFullRows(b[..p]) + b[p..])
  }

  /** Keeping the rows before l + 1, when rows p..l-1 are not full and row l is. */
  lemma PrefixStep(b: Board, p: nat, l: nat)
    requires p <= l < |b| && IsFull(b[l])
    requires forall r :: p <= r < l ==> !IsFull(b[r])
    ensures NonFullRows(b[..l + 1]) == NonFullRows(b[..p]) + b[p..l]
  {
    assert b[..l + 1] == b[..p] + (b[p..l] + [b[l]]);
    AppendRows(b[..p], b[p..l] + [b[l]]);
    AppendRows(b[p..l], [b[l]]);
    NoFullRows(b[p..l]);
    assert NonFullRows([b[l]]) == [];
  }

  /**
   Popping index l of e + (n + b[p..]), where e and n together are p rows long,
   takes row l of b out of the tail; the empty row goes on top of e.
   */
  lemma PopInTail(e: Board, n: Board, b: Board, p: nat, l: nat)
    requires |e| + |n| == p <= l < |b|
    ensures (e + (n + b[p..]))[l] == b[l]
    ensures PopInsert(e + (n + b[p..]), l) == ([EmptyRow()] + e) + ((n + b[p..l]) + b[l + 1..])
  {
    var w := e + (n + b[p..]);
    assert w[..l] == e + (n + b[p..l]);
    assert w[l + 1..] == b[l + 1..];
  }

  /**
   Removing the next full row l: in the part-way field it still sits at index
   l (what went above it is as many rows as it was), so popping index l and
   inserting an empty row at the top advances the part-way state past l.
   */
  lemma PopStep(board: Board, b: Board, t: nat, p: nat, l: nat)
    requires PartlyCleared(board, b, t, p)
    requires p <= l < |b| && IsFull(b[l])
    requires forall r :: p <= r < l ==> !IsFull(b[r])
    ensures l < |board| && board[l] == b[l]
    ensures PartlyCleared(PopInsert(board, l), b, t + 1, l + 1)
  {
    var e, n := EmptyRows(t), NonFullRows(b[..p]);
    PopInTail(e, n, b, p, l);
    PrefixStep(b, p, l);
    assert [EmptyRow()] + e == EmptyRows(t + 1);
  }

  /** Splitting the field at row p splits the filter and the count. */
  lemma SplitAt(b: Board, p: nat)
    requires p <= |b|
    ensures NonFullRows(b) == NonFullRows(b[..p]) + NonFullRows(b[p..])
    ensures CountFull(b) == CountFull(b[..p]) + CountFull(b[p..])
  {
    assert b == b[..p] + b[p..];
    AppendRows(b[..p], b[p..]);
  }

  /** Rows p and below contain no full row, so the filter keeps all of them. */
  lemma NoFullRowsFrom(b: Board, p: nat)
    requires p <= |b|
    requires forall r :: p <= r < |b| ==> !IsFull(b[r])
    ensures NonFullRows(b[p..]) == b[p..]
  {
    NoFullRows(b[p..]);
  }

  /** When the filter keeps every row from p on, the part-way field is the cleared field. */
  lemma KeptTailClears(board: Board, b: Board, t: nat, p: nat)
    requires PartlyCleared(board, b, t, p)
    requires NonFullRows(b[p..]) == b[p..]
    ensures board == ClearLines(b) && t == CountFull(b)
  {
    var e, n, rest := EmptyRows(t), NonFullRows(b[..p]), b[p..];
    SplitAt(b, p);
    assert NonFullRows(b) == n + rest;
  }

  /** Once no full row is left from p on, the part-way field is the cleared field. */
  lemma FinishClear(board: Board, b: Board, t: nat, p: nat)
    requires PartlyCleared(board, b, t, p)
    requires forall r :: p <= r < |b| ==> !IsFull(b[r])
    ensures board == ClearLines(b) && t == CountFull(b)
  {
    NoFullRowsFrom(b, p);
    KeptTailClears(board, b, t, p);
  }

  /** Removing row l and inserting an empty row at the top. */
  function PopInsert(b: Board, l: int): (r: Board)
    requires 0 <= l < |b|
    ensures |r| == |b|
  {
    [EmptyRow()] + (b[..l] + b[l + 1..])
  }

  /**
   The field after the first t of the listed rows are removed, one after the
   other, each at the index listed.
   */
  function RemoveAll(b: Board, lines: seq<int>, t: nat): (r: Board)
    requires t <= |lines| && forall i :: 0 <= i < |lines| ==> 0 <= lines[i] < |b|
    ensures |r| == |b|
  {
    if t == 0 then b else PopInsert(RemoveAll(b, lines, t - 1), lines[t - 1])
  }

  /** Before any removal the field is its own part-way state. */
  lemma StartClear(b: Board)
    ensures PartlyCleared(b, b, 0, 0)
  {
    assert b[..0] == [] && b[0..] == b;
  }

  /** One more pop/insert of the next full row l advances the part-way state past l. */
  lemma AdvanceClear(prev: Board, b: Board, t: nat, p: nat, l: nat)
    requires PartlyCleared(prev, b, t, p)
    requires p <= l < |b| && IsFull(b[l])
    requires forall r :: p <= r < l ==> !IsFull(b[r])
    ensures PartlyCleared(PopInsert(prev, l), b, t + 1, l + 1)
  {
    PopStep(prev, b, t, p, l);
  }

  /**
   The t-th removal: when the t-th listed row is full and no row between the
   previous resume row and it is, the first t removals leave the part-way
   field just below it.
   */
  lemma RemoveAllStep(b: Board, lines: seq<int>, t: nat)
    requires forall i :: 0 <= i < |lines| ==> 0 <= lines[i] < |b|
    requires 0 < t <= |lines| && ResumeRow(lines, t - 1) <= lines[t - 1] && IsFull(b[lines[t - 1]])
    requires forall r :: ResumeRow(lines, t - 1) <= r < lines[t - 1] ==> !IsFull(b[r])
    requires PartlyCleared(RemoveAll(b, lines, t - 1), b, t - 1, ResumeRow(lines, t - 1))
    ensures PartlyCleared(RemoveAll(b, lines, t), b, t, ResumeRow(lines, t))
  {
    AdvanceClear(RemoveAll(b, lines, t - 1), b, t - 1, ResumeRow(lines, t - 1), lines[t - 1]);
  }

  /** After the first t removals the field is in the part-way state past the t-th full row. */
  lemma {:induction false} RemoveAllPartly(b: Board, lines: seq<int>, t: nat)
    requires ListsFullRows(b, lines, |b|) && t <= |lines|
    ensures PartlyCleared(RemoveAll(b, lines, t), b, t, ResumeRow(lines, t))
  {
    if t == 0 {
      StartClear(b);
    } else {
      RemoveAllPartly(b, lines, t - 1);
      GapNotFull(b, lines, t - 1, ResumeRow(lines, t - 1));
      RemoveAllStep(b, lines, t);
    }
  }

  /**
   Removing the listed full rows in increasing order, each at its original
   index, clears the field: no row is skipped and no other row is removed.
   */
  lemma RemoveAllClears(b: Board, lines: seq<int>)
    requires ListsFullRows(b, lines, |b|)
    ensures RemoveAll(b, lines, |lines|) == ClearLines(b) && |lines| == CountFull(b)
  {
    var t := |lines|;
    var p := ResumeRow(lines, t);
    RemoveAllPartly(b, lines, t);
    GapNotFull(b, lines, t, p);
    FinishClear(RemoveAll(b, lines, t), b, t, p);
  }

  /**
   With exactly one full row f, clearing removes it, shifts rows 0..f-1 down
   by one and leaves the rows below f where they were: the scan lists f alone,
   and a single pop/insert at f is the whole clear.
   */
  lemma SingleFullRow(b: Board, f: nat)
    requires f < |b| && IsFull(b[f])
    requires forall k :: 0 <= k < |b| && k != f ==> !IsFull(b[k])
    ensures ClearLines(b) == [EmptyRow()] + b[..f] + b[f + 1..]
  {
    var lines := [f];
    assert ListsFullRows(b, lines, |b|);
    RemoveAllClears(b, lines);
    assert RemoveAll(b, lines, 1) == PopInsert(b, f);
  }
}
