/** The proof of the compactor's outer loop: after the columns of the box
    before x have been scanned the board is ProgressBoard of the board it
    started from, and the scan of column x moves it on to column x + 1. */
module Compaction {
  import opened Board
  import opened Gravity
  import opened Scan

  /** Board A with the columns of box b before x compacted, the column
      collapse having started at hollow (or not yet, with -1). */
  ghost function ProgressBoard(A: seq<Byte>, w: nat, h: nat, b: Box, x: nat, hollow: int): (t: seq<Byte>)
    requires |A| == w * h && b.maxy < h && x <= w
    ensures |t| == w * h
  {
    seq(w * h, i requires 0 <= i < w * h =>
      IdxOfPosition(w, h, i);
      Progress(A, w, h, b.minx, b.maxy, x, hollow, i % w, i / w))
  }

  /** Cell (c, r) of ProgressBoard is Progress at (c, r). */
  lemma ProgressCell(A: seq<Byte>, w: nat, h: nat, b: Box, x: nat, hollow: int, c: nat, r: nat)
    requires |A| == w * h && b.maxy < h && x <= w && c < w && r < h
    ensures ProgressBoard(A, w, h, b, x, hollow)[Idx(w, h, c, r)] == Progress(A, w, h, b.minx, b.maxy, x, hollow, c, r)
  {
  }

  /** Board D is board A compacted up to column x. */
  ghost predicate CompactState(D: seq<Byte>, A: seq<Byte>, w: nat, h: nat, b: Box, x: nat, hollow: int)
  {
    |A| == w * h && b.maxx < w && b.maxy < h && x <= w &&
    D == ProgressBoard(A, w, h, b, x, hollow)
  }

  /** The compactor's loop variables before column x of box b: maxx is the
      last column to visit, hollow the column the collapse started from (or
      -1), and xMark the next column to fill (or -1 while there is none). */
  ghost predicate Sweep(A: seq<Byte>, w: nat, h: nat, b: Box, x: nat, xMark: int, maxx: nat, hollow: int)
  {
    |A| == w * h && b.maxx < w && b.maxy < h && b.minx <= x <= w &&
    (x <= maxx + 1 || x == b.minx) &&
    maxx == (if hollow == -1 then b.maxx else w - 1) &&
    hollow == (var H := Hollow(A, w, h, b); if 0 <= H < x then H else -1) &&
    (hollow != -1 ==> b.maxy == h - 1 && b.minx <= hollow) &&
    xMark == (if hollow == -1 then -1 else hollow + |Packed(A, w, h, h, hollow + 1, x)|)
  }

  /** Nothing has been compacted before the scan reaches the box. */
  lemma CompactStart(A: seq<Byte>, w: nat, h: nat, b: Box)
    requires |A| == w * h && b.minx <= w && b.maxx < w && b.maxy < h
    ensures CompactState(A, A, w, h, b, b.minx, -1)
    ensures Sweep(A, w, h, b, b.minx, -1, b.maxx, -1)
  {
    forall c: nat, r: nat | c < w && r < h
      ensures A[Idx(w, h, c, r)] == ProgressBoard(A, w, h, b, b.minx, -1)[Idx(w, h, c, r)]
    {
      ProgressCell(A, w, h, b, b.minx, -1, c, r);
    }
    BoardsEqual(A, ProgressBoard(A, w, h, b, b.minx, -1), w, h);
  }

  /** Before its scan, column x still holds what it held at the start. */
  lemma ColumnUntouched(D: seq<Byte>, A: seq<Byte>, w: nat, h: nat, b: Box, x: nat, hollow: int, n: nat)
    requires CompactState(D, A, w, h, b, x, hollow) && x < w && n <= h
    ensures Col(D, w, h, x, n) == Col(A, w, h, x, n)
  {
    forall r | 0 <= r < n
      ensures Col(D, w, h, x, n)[r] == Col(A, w, h, x, n)[r]
    {
      ProgressCell(A, w, h, b, x, hollow, x, r);
    }
  }

  /** Before any column has emptied, the scan settles column x in place. The
      settled column's bottom cell (when the box reaches the bottom row) is
      EMPTY exactly when the column held no tile. */
  lemma SettledInPlace(D: seq<Byte>, D': seq<Byte>, A: seq<Byte>, w: nat, h: nat, b: Box, x: nat)
    requires CompactState(D, A, w, h, b, x, -1) && b.minx <= x < w
    requires ScanState(D', D, w, h, x, x, b.maxy, 0)
    ensures CompactState(D', A, w, h, b, x + 1, -1)
    ensures b.maxy == h - 1 ==> (D'[Idx(w, h, x, h - 1)] == EMPTY <==> Tiles(Col(A, w, h, x, h)) == [])
  {
    var col := Col(A, w, h, x, b.maxy + 1);
    ColumnUntouched(D, A, w, h, b, x, -1, b.maxy + 1);
    assert col[0..] == col;
    var P := ProgressBoard(A, w, h, b, x + 1, -1);
    forall c: nat, r: nat | c < w && r < h
      ensures D'[Idx(w, h, c, r)] == P[Idx(w, h, c, r)]
    {
      ScanCell(D, w, h, x, x, b.maxy, 0, c, r);
      ProgressCell(A, w, h, b, x, -1, c, r);
      ProgressCell(A, w, h, b, x + 1, -1, c, r);
    }
    BoardsEqual(D', P, w, h);
    if b.maxy == h - 1 {
      SettleBottom(col);
      ScanCell(D, w, h, x, x, b.maxy, 0, x, h - 1);
    }
  }

  /** A column found without a tile becomes the hollow the collapse starts from. */
  lemma HollowStarts(D: seq<Byte>, A: seq<Byte>, w: nat, h: nat, b: Box, x: nat)
    requires CompactState(D, A, w, h, b, x + 1, -1) && b.minx <= x < w && b.maxy == h - 1
    requires Tiles(Col(A, w, h, x, h)) == []
    ensures CompactState(D, A, w, h, b, x + 1, x)
  {
    var col := Col(A, w, h, x, h);
    var P := ProgressBoard(A, w, h, b, x + 1, x);
    forall c: nat, r: nat | c < w && r < h
      ensures D[Idx(w, h, c, r)] == P[Idx(w, h, c, r)]
    {
      ProgressCell(A, w, h, b, x + 1, -1, c, r);
      ProgressCell(A, w, h, b, x + 1, x, c, r);
      if c == x {
        SettleAt(col, r);
      }
    }
    BoardsEqual(D, P, w, h);
  }

  /** While the collapse runs, the next packed column goes to xMark: it lies
      left of x and is EMPTY in every scanned row. */
  lemma TargetReady(D: seq<Byte>, A: seq<Byte>, w: nat, h: nat, b: Box, x: nat, hollow: nat, xMark: int)
    requires CompactState(D, A, w, h, b, x, hollow) && b.minx <= hollow < x < w && b.maxy == h - 1
    requires xMark == hollow + |Packed(A, w, h, h, hollow + 1, x)|
    ensures 0 <= xMark < x && TargetClear(D, w, h, x, xMark, b.maxy)
  {
    forall r | 0 <= r <= b.maxy
      ensures D[Idx(w, h, xMark, r)] == EMPTY
    {
      ProgressCell(A, w, h, b, x, hollow, xMark, r);
    }
  }

  /** While the collapse runs, scanning column x moves it, settled, to xMark
      and leaves it EMPTY; xMark moves on exactly when the column held a tile. */
  lemma MovedLeft(D: seq<Byte>, D': seq<Byte>, A: seq<Byte>, w: nat, h: nat, b: Box, x: nat, hollow: nat, xMark: nat)
    requires CompactState(D, A, w, h, b, x, hollow) && b.minx <= hollow <= xMark < x < w && b.maxy == h - 1
    requires xMark == hollow + |Packed(A, w, h, h, hollow + 1, x)|
    requires ScanState(D', D, w, h, x, xMark, b.maxy, 0)
    ensures CompactState(D', A, w, h, b, x + 1, hollow)
    ensures D'[Idx(w, h, x, h - 1)] == EMPTY
    ensures hollow + |Packed(A, w, h, h, hollow + 1, x + 1)| ==
      xMark + if Tiles(Col(A, w, h, x, h)) != [] then 1 else 0
  {
    var col := Col(A, w, h, x, h);
    ColumnUntouched(D, A, w, h, b, x, hollow, h);
    PackedStep(A, w, h, hollow, x);
    var P := ProgressBoard(A, w, h, b, x + 1, hollow);
    forall c: nat, r: nat | c < w && r < h
      ensures D'[Idx(w, h, c, r)] == P[Idx(w, h, c, r)]
    {
      ProgressCell(A, w, h, b, x, hollow, c, r);
      ProgressCell(A, w, h, b, x + 1, hollow, c, r);
      ScanCell(D, w, h, x, xMark, b.maxy, 0, c, r);
      MovedLeftCell(D, A, w, h, b, x, hollow, xMark, c, r, D'[Idx(w, h, c, r)]);
    }
    BoardsEqual(D', P, w, h);
    ScanCell(D, w, h, x, xMark, b.maxy, 0, x, h - 1);
  }

  /** The packed columns up to x + 1 are those up to x, and column x settled
      when it holds a tile. */
  lemma PackedStep(A: seq<Byte>, w: nat, h: nat, hollow: nat, x: nat)
    requires |A| == w * h && hollow < x < w
    ensures var col := Col(A, w, h, x, h);
      Packed(A, w, h, h, hollow + 1, x + 1) ==
      Packed(A, w, h, h, hollow + 1, x) + if Tiles(col) != [] then [Settle(col)] else []
  {
  }

  /** Cell (c, r) of the board after column x moved to xMark: d', the scan's
      value there, is the progress board's cell one column on. */
  lemma MovedLeftCell(D: seq<Byte>, A: seq<Byte>, w: nat, h: nat, b: Box, x: nat, hollow: nat, xMark: nat, c: nat, r: nat, d': Byte)
    requires |A| == w * h && |D| == w * h && b.minx <= hollow <= xMark < x < w && b.maxy == h - 1
    requires xMark == hollow + |Packed(A, w, h, h, hollow + 1, x)|
    requires c < w && r < h
    requires D[Idx(w, h, c, r)] == Progress(A, w, h, b.minx, b.maxy, x, hollow, c, r)
    requires d' == Scanning(D, w, h, x, xMark, b.maxy, 0, c, r)
    requires Col(D, w, h, x, h) == Col(A, w, h, x, h)
    requires var col := Col(A, w, h, x, h);
      Packed(A, w, h, h, hollow + 1, x + 1) ==
      Packed(A, w, h, h, hollow + 1, x) + if Tiles(col) != [] then [Settle(col)] else []
    ensures d' == Progress(A, w, h, b.minx, b.maxy, x + 1, hollow, c, r)
  {
    var col := Col(A, w, h, x, h);
    if c == xMark {
      assert Col(D, w, h, x, b.maxy + 1)[0..] == col;
      ProgressAtMark(A, w, h, b, x, hollow, xMark, r);
    } else if c == x {
      assert d' == EMPTY;
    } else {
      assert d' == D[Idx(w, h, c, r)];
      ProgressUnmoved(A, w, h, b, x, hollow, xMark, c, r);
    }
  }

  /** Once column x has moved, cell r of column xMark is row r of column x
      settled. */
  lemma ProgressAtMark(A: seq<Byte>, w: nat, h: nat, b: Box, x: nat, hollow: nat, xMark: nat, r: nat)
    requires |A| == w * h && b.minx <= hollow <= xMark < x < w && b.maxy == h - 1 && r < h
    requires xMark == hollow + |Packed(A, w, h, h, hollow + 1, x)|
    requires var col := Col(A, w, h, x, h);
      Packed(A, w, h, h, hollow + 1, x + 1) ==
      Packed(A, w, h, h, hollow + 1, x) + if Tiles(col) != [] then [Settle(col)] else []
    ensures Progress(A, w, h, b.minx, b.maxy, x + 1, hollow, xMark, r) == Settle(Col(A, w, h, x, h))[r]
  {
    SettleAt(Col(A, w, h, x, h), r);
  }

  /** Moving column x to xMark changes no other column than those two. */
  lemma ProgressUnmoved(A: seq<Byte>, w: nat, h: nat, b: Box, x: nat, hollow: nat, xMark: nat, c: nat, r: nat)
    requires |A| == w * h && b.minx <= hollow <= xMark < x < w && b.maxy == h - 1 && c < w && r < h
    requires c != x && c != xMark
    requires xMark == hollow + |Packed(A, w, h, h, hollow + 1, x)|
    requires var col := Col(A, w, h, x, h);
      Packed(A, w, h, h, hollow + 1, x + 1) ==
      Packed(A, w, h, h, hollow + 1, x) + if Tiles(col) != [] then [Settle(col)] else []
    ensures Progress(A, w, h, b.minx, b.maxy, x + 1, hollow, c, r) == Progress(A, w, h, b.minx, b.maxy, x, hollow, c, r)
  {
    var p, p' := Packed(A, w, h, h, hollow + 1, x), Packed(A, w, h, h, hollow + 1, x + 1);
    if hollow <= c < x && c - hollow < |p| {
      assert p'[c - hollow] == p[c - hollow];
    }
  }

  /** Column x, not after the first column without a tile, is that column
      exactly when the box reaches the bottom row and x holds no tile. */
  lemma HollowTrack(A: seq<Byte>, w: nat, h: nat, b: Box, x: nat)
    requires |A| == w * h && b.maxx < w && b.maxy < h && b.minx <= x <= b.maxx
    requires Hollow(A, w, h, b) == -1 || Hollow(A, w, h, b) >= x
    ensures (b.maxy == h - 1 && Tiles(Col(A, w, h, x, h)) == []) <==> Hollow(A, w, h, b) == x
  {
  }

  /** When the outer loop stops, the board is the compacted board. */
  lemma CompactDone(D: seq<Byte>, A: seq<Byte>, w: nat, h: nat, b: Box, x: nat, xMark: int, maxx: nat, hollow: int)
    requires Sweep(A, w, h, b, x, xMark, maxx, hollow) && maxx < x
    requires CompactState(D, A, w, h, b, x, hollow)
    ensures D == Compacted(A, w, h, b)
  {
    assert hollow == Hollow(A, w, h, b);
    assert x == ScanEnd(A, w, h, b) || (x == b.minx && b.maxx < b.minx);
    forall c: nat, r: nat | c < w && r < h
      ensures D[Idx(w, h, c, r)] == Compacted(A, w, h, b)[Idx(w, h, c, r)]
    {
      ProgressCell(A, w, h, b, x, hollow, c, r);
      CompactedCell(A, w, h, b, c, r);
    }
    BoardsEqual(D, Compacted(A, w, h, b), w, h);
  }
}
