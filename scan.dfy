/** The compactor's state part way through its scan of a column, and how one
    row of the scan moves it on: the board as a function of the board before
    the scan, the column, the target column and the rows done. */
module Scan {
  import opened Board
  import opened Gravity

  /** Cell (c, r) while the compactor settles column x into column tx: rows
      n .. maxy are done, and there tx holds those rows of x settled while x
      itself, when it is not tx, is EMPTY. */
  ghost function Scanning(A: seq<Byte>, w: nat, h: nat, x: nat, tx: nat, maxy: nat, n: nat, c: nat, r: nat): Byte
    requires |A| == w * h && x < w && tx < w && maxy < h && n <= maxy + 1 && c < w && r < h
  {
    if r < n || r > maxy || (c != x && c != tx) then A[Idx(w, h, c, r)]
    else if c == tx then Settle(Col(A, w, h, x, maxy + 1)[n..])[r - n]
    else EMPTY
  }

  /** One row y of the column scan that moves nothing: cell y of column x is
      EMPTY, or it is a tile with no gap below it that stays in its column. */
  lemma ScanningStill(A: seq<Byte>, w: nat, h: nat, x: nat, tx: nat, maxy: nat, y: nat, c: nat, r: nat)
    requires |A| == w * h && x < w && tx < w && maxy < h && y <= maxy && c < w && r < h
    requires TargetClear(A, w, h, x, tx, maxy)
    requires var col := Col(A, w, h, x, maxy + 1);
      var rest := col[y + 1..];
      col[y] == EMPTY || (|Tiles(rest)| == |rest| && tx == x)
    ensures Scanning(A, w, h, x, tx, maxy, y, c, r) == Scanning(A, w, h, x, tx, maxy, y + 1, c, r)
  {
    var col := Col(A, w, h, x, maxy + 1);
    var rest := col[y + 1..];
    assert col[y..] == [col[y]] + rest;
    if col[y] == EMPTY {
      SettleConsEmpty(rest);
    } else {
      SettleConsFull(col[y], rest);
    }
    if y <= r <= maxy && (c == x || c == tx) {
      if c == tx {
        if tx != x && r == y {
          assert Scanning(A, w, h, x, tx, maxy, y + 1, c, r) == EMPTY;
        }
      }
    }
  }

  /** One row y of the column scan that moves a tile: cell y of column x is a
      tile, and it trades places with the EMPTY cell k rows below it in the
      target column, k being the number of EMPTY cells among the done rows. */
  lemma ScanningSwap(A: seq<Byte>, w: nat, h: nat, x: nat, tx: nat, maxy: nat, y: nat, c: nat, r: nat)
    requires |A| == w * h && x < w && tx < w && maxy < h && y <= maxy && c < w && r < h
    requires TargetClear(A, w, h, x, tx, maxy)
    requires var col := Col(A, w, h, x, maxy + 1);
      var rest := col[y + 1..];
      col[y] != EMPTY && (|Tiles(rest)| < |rest| || tx != x)
    ensures var col := Col(A, w, h, x, maxy + 1);
      var rest := col[y + 1..];
      var moveY := y + |rest| - |Tiles(rest)|;
      moveY <= maxy &&
      Scanning(A, w, h, x, tx, maxy, y + 1, tx, moveY) == EMPTY &&
      Scanning(A, w, h, x, tx, maxy, y, c, r) ==
        if c == tx && r == moveY then col[y]
        else if c == x && r == y then EMPTY
        else Scanning(A, w, h, x, tx, maxy, y + 1, c, r)
  {
    var col := Col(A, w, h, x, maxy + 1);
    var rest := col[y + 1..];
    var k := |rest| - |Tiles(rest)|;
    assert col[y..] == [col[y]] + rest;
    assert ([col[y]] + rest)[1..] == rest;
    assert Tiles(col[y..]) == [col[y]] + Tiles(rest);
    if k > 0 {
      SettleAt(rest, k - 1);
    }
    if c == tx && y <= r <= maxy {
      SettleAt(col[y..], r - y);
      if r > y {
        SettleAt(rest, r - y - 1);
      }
    }
  }

  /** The scan's marks after row y, from those before it: yMark moves to the
      first EMPTY cell, then up one row per tile placed; the column has a tile
      once row y or a done row has one. */
  lemma MarkStep(col: seq<Byte>, y: nat)
    requires y < |col|
    ensures var rest := col[y + 1..];
      Mark(col[y..], y - 1) ==
        (if col[y] == EMPTY then (if Mark(rest, y) == -1 then y else Mark(rest, y))
         else if Mark(rest, y) == -1 then -1 else Mark(rest, y) - 1)
    ensures (Tiles(col[y..]) != []) == (col[y] != EMPTY || Tiles(col[y + 1..]) != [])
  {
    var rest := col[y + 1..];
    assert col[y..] == [col[y]] + rest;
    assert ([col[y]] + rest)[1..] == rest;
  }

  /** Board A part way through the scan of column x into column tx: rows
      n .. maxy are done. */
  ghost function ScanBoard(A: seq<Byte>, w: nat, h: nat, x: nat, tx: nat, maxy: nat, n: nat): (t: seq<Byte>)
    requires |A| == w * h && x < w && tx < w && maxy < h && n <= maxy + 1
    ensures |t| == |A|
  {
    seq(w * h, i requires 0 <= i < w * h =>
      IdxOfPosition(w, h, i); Scanning(A, w, h, x, tx, maxy, n, i % w, i / w))
  }

  lemma ScanCell(A: seq<Byte>, w: nat, h: nat, x: nat, tx: nat, maxy: nat, n: nat, c: nat, r: nat)
    requires |A| == w * h && x < w && tx < w && maxy < h && n <= maxy + 1 && c < w && r < h
    ensures ScanBoard(A, w, h, x, tx, maxy, n)[Idx(w, h, c, r)] == Scanning(A, w, h, x, tx, maxy, n, c, r)
  {
  }

  /** Board D is board A part way through the scan of column x into column
      tx: rows n .. maxy are done. */
  ghost predicate ScanState(D: seq<Byte>, A: seq<Byte>, w: nat, h: nat, x: nat, tx: nat, maxy: nat, n: nat)
  {
    |A| == w * h && x < w && tx < w && maxy < h && n <= maxy + 1 &&
    D == ScanBoard(A, w, h, x, tx, maxy, n)
  }

  /** Before the scan no row is done and the board is as it was. */
  lemma ScanStart(A: seq<Byte>, w: nat, h: nat, x: nat, tx: nat, maxy: nat)
    requires |A| == w * h && x < w && tx < w && maxy < h
    ensures ScanState(A, A, w, h, x, tx, maxy, maxy + 1)
  {
    var t := ScanBoard(A, w, h, x, tx, maxy, maxy + 1);
    forall c: nat, r: nat | c < w && r < h
      ensures A[Idx(w, h, c, r)] == t[Idx(w, h, c, r)]
    {
      ScanCell(A, w, h, x, tx, maxy, maxy + 1, c, r);
    }
    BoardsEqual(A, t, w, h);
  }

  /** Before the scan, the target column, when it is not x itself, is EMPTY
      in the rows the scan covers. */
  ghost predicate TargetClear(A: seq<Byte>, w: nat, h: nat, x: nat, tx: nat, maxy: nat)
    requires |A| == w * h && tx < w && maxy < h
  {
    tx != x ==> forall r :: 0 <= r <= maxy ==> A[Idx(w, h, tx, r)] == EMPTY
  }

  /** A scan row that moves nothing has the board already in its next state. */
  lemma StillScan(D: seq<Byte>, A: seq<Byte>, w: nat, h: nat, x: nat, tx: nat, maxy: nat, y: nat)
    requires ScanState(D, A, w, h, x, tx, maxy, y + 1) && TargetClear(A, w, h, x, tx, maxy)
    requires var rest := Col(A, w, h, x, maxy + 1)[y + 1..];
      A[Idx(w, h, x, y)] == EMPTY || (|Tiles(rest)| == |rest| && tx == x)
    ensures ScanState(D, A, w, h, x, tx, maxy, y)
  {
    var t := ScanBoard(A, w, h, x, tx, maxy, y);
    forall c: nat, r: nat | c < w && r < h
      ensures D[Idx(w, h, c, r)] == t[Idx(w, h, c, r)]
    {
      ScanCell(A, w, h, x, tx, maxy, y + 1, c, r);
      ScanCell(A, w, h, x, tx, maxy, y, c, r);
      ScanningStill(A, w, h, x, tx, maxy, y, c, r);
    }
    BoardsEqual(D, t, w, h);
  }

  /** A scan row that moves a tile: swapping the tile at row y of column x with
      the cell moveY of the target column puts the board in its next state. */
  lemma SwappedScan(D: seq<Byte>, A: seq<Byte>, w: nat, h: nat, x: nat, tx: nat, maxy: nat, y: nat, moveY: nat)
    requires ScanState(D, A, w, h, x, tx, maxy, y + 1) && TargetClear(A, w, h, x, tx, maxy)
    requires var rest := Col(A, w, h, x, maxy + 1)[y + 1..];
      A[Idx(w, h, x, y)] != EMPTY && (|Tiles(rest)| < |rest| || tx != x) &&
      moveY == y + |rest| - |Tiles(rest)|
    ensures moveY <= maxy
    ensures var a, b := Idx(w, h, tx, moveY), Idx(w, h, x, y);
      ScanState(D[a := D[b]][b := D[a]], A, w, h, x, tx, maxy, y)
  {
    ScanningSwap(A, w, h, x, tx, maxy, y, 0, 0);
    var a, b := Idx(w, h, tx, moveY), Idx(w, h, x, y);
    var t := ScanBoard(A, w, h, x, tx, maxy, y);
    forall c: nat, r: nat | c < w && r < h
      ensures D[a := D[b]][b := D[a]][Idx(w, h, c, r)] == t[Idx(w, h, c, r)]
    {
      ScanCell(A, w, h, x, tx, maxy, y + 1, c, r);
      ScanCell(A, w, h, x, tx, maxy, y, c, r);
      ScanningSwap(A, w, h, x, tx, maxy, y, c, r);
      var i := Idx(w, h, c, r);
      if i == a {
        assert c == tx && r == moveY;
      } else if i == b {
        assert c == x && r == y;
      } else {
        assert D[a := D[b]][b := D[a]][i] == D[i];
      }
    }
    BoardsEqual(D[a := D[b]][b := D[a]], t, w, h);
  }

  /** The scan's lowest EMPTY row still to fill, for the scanned rows rest
      that lie below row y: -1 while rest holds no EMPTY cell. */
  function Mark(rest: seq<Byte>, y: int): int
  {
    var k := |rest| - |Tiles(rest)|;
    if k == 0 then -1 else y + k
  }

}
