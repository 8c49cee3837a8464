/** What compaction does to a board after a clear, stated declaratively:
    gravity settles each scanned column inside the disturbed rows, and when the
    clear reached the bottom row, columns holding tiles slide left over the
    first column that became empty. */
module Gravity {
  import opened Board

  /** The tiles (non-EMPTY cells) of a column segment, top to bottom. */
  function Tiles(col: seq<Byte>): (t: seq<Byte>)
    ensures |t| <= |col|
  {
    if col == [] then []
    else
      assert col == [col[0]] + col[1..];
      (if col[0] == EMPTY then [] else [col[0]]) + Tiles(col[1..])
  }

  /** No tile is EMPTY. */
  lemma {:induction false} TilesNotEmpty(col: seq<Byte>)
    ensures forall i :: 0 <= i < |Tiles(col)| ==> Tiles(col)[i] != EMPTY
  {
    if col != [] {
      TilesNotEmpty(col[1..]);
    }
  }

  /** n EMPTY cells. */
  function Blanks(n: nat): (b: seq<Byte>)
    ensures |b| == n && forall i :: 0 <= i < n ==> b[i] == EMPTY
  {
    seq(n, _ => EMPTY)
  }

  /** No tile of the segment sits above an EMPTY cell. */
  predicate Settled(col: seq<Byte>)
  {
    forall i, j :: 0 <= i < j < |col| && col[i] != EMPTY ==> col[j] != EMPTY
  }

  /** A column segment after gravity: the EMPTY cells on top, the tiles below
      them in their original top-to-bottom order. */
  function Settle(col: seq<Byte>): (r: seq<Byte>)
    ensures |r| == |col|
  {
    Blanks(|col| - |Tiles(col)|) + Tiles(col)
  }

  /** Gravity leaves no tile above an EMPTY cell. */
  lemma SettleSettled(col: seq<Byte>)
    ensures Settled(Settle(col))
  {
    TilesNotEmpty(col);
  }

  /** Cell j of a settled segment: EMPTY in the top rows, one per EMPTY cell
      of the segment, then the tiles in order. */
  lemma SettleAt(col: seq<Byte>, j: nat)
    requires j < |col|
    ensures var k := |col| - |Tiles(col)|;
      Settle(col)[j] == if j < k then EMPTY else Tiles(col)[j - k]
  {
  }

  lemma {:induction false} TilesOfTiles(t: seq<Byte>)
    requires forall i :: 0 <= i < |t| ==> t[i] != EMPTY
    ensures Tiles(t) == t
  {
    if t != [] {
      TilesOfTiles(t[1..]);
    }
  }

  lemma {:induction false} TilesAppend(a: seq<Byte>, b: seq<Byte>)
    ensures Tiles(a + b) == Tiles(a) + Tiles(b)
  {
    if a != [] {
      assert (a + b)[1..] == a[1..] + b;
      TilesAppend(a[1..], b);
    } else {
      assert a + b == b;
    }
  }

  /** Gravity keeps the tiles and their order. */
  lemma SettleKeepsTiles(col: seq<Byte>)
    ensures Tiles(Settle(col)) == Tiles(col)
  {
    var n := |col| - |Tiles(col)|;
    TilesAppend(Blanks(n), Tiles(col));
    TilesNotEmpty(col);
    TilesOfTiles(Tiles(col));
    BlanksHaveNoTiles(n);
  }

  lemma {:induction false} BlanksHaveNoTiles(n: nat)
    ensures Tiles(Blanks(n)) == []
  {
    if n > 0 {
      assert Blanks(n)[1..] == Blanks(n - 1);
      BlanksHaveNoTiles(n - 1);
    }
  }

  /** A segment holds its tiles and as many EMPTY cells as it lacks tiles. */
  lemma {:induction false} TilesAndBlanks(col: seq<Byte>)
    ensures multiset(col) == multiset(Tiles(col)) + multiset(Blanks(|col| - |Tiles(col)|))
  {
    if col != [] {
      var rest := col[1..];
      assert col == [col[0]] + rest;
      TilesAndBlanks(rest);
      var k := |rest| - |Tiles(rest)|;
      if col[0] == EMPTY {
        assert Tiles(col) == Tiles(rest);
        assert Blanks(k + 1) == [EMPTY] + Blanks(k);
      } else {
        assert Tiles(col) == [col[0]] + Tiles(rest);
      }
    }
  }

  /** Gravity only moves cells: the segment keeps its multiset of values. */
  lemma SettlePermutes(col: seq<Byte>)
    ensures multiset(Settle(col)) == multiset(col)
  {
    TilesAndBlanks(col);
  }

  /** Settling twice is settling once. */
  lemma SettleIdempotent(col: seq<Byte>)
    ensures Settle(Settle(col)) == Settle(col)
  {
    SettleKeepsTiles(col);
  }

  /** The bottom cell of a settled segment is EMPTY exactly when the segment held no tile. */
  lemma SettleBottom(col: seq<Byte>)
    requires |col| > 0
    ensures Settle(col)[|col| - 1] == EMPTY <==> Tiles(col) == []
  {
    var t := Tiles(col);
    if t != [] {
      TilesNotEmpty(col);
      assert Settle(col)[|col| - 1] == t[|t| - 1];
    }
  }

  /** An EMPTY cell on top of a segment stays on top of it when settling. */
  lemma SettleConsEmpty(rest: seq<Byte>)
    ensures Settle([EMPTY] + rest) == [EMPTY] + Settle(rest)
  {
    var col := [EMPTY] + rest;
    assert col[1..] == rest;
    var k := |rest| - |Tiles(rest)|;
    assert Tiles(col) == Tiles(rest);
    assert Blanks(k + 1) == [EMPTY] + Blanks(k);
  }

  /** A tile on top of a segment with no EMPTY cell stays on top of it. */
  lemma SettleConsFull(c: Byte, rest: seq<Byte>)
    requires c != EMPTY && |Tiles(rest)| == |rest|
    ensures Settle([c] + rest) == [c] + Settle(rest)
  {
    var col := [c] + rest;
    assert col[1..] == rest;
    assert Tiles(col) == [c] + Tiles(rest);
    assert Settle(rest) == Tiles(rest);
    assert Settle(col) == Tiles(col);
  }

  /** Rows 0 .. n-1 of column x of a row-major w-by-h board, top first. */
  function Col(s: seq<Byte>, w: nat, h: nat, x: nat, n: nat): (col: seq<Byte>)
    requires |s| == w * h && x < w && n <= h
    ensures |col| == n && forall r {:trigger col[r]} :: 0 <= r < n ==> col[r] == s[Idx(w, h, x, r)]
  {
    seq(n, r requires 0 <= r < n => s[Idx(w, h, x, r)])
  }

  /** The first column in lo .. hi whose rows 0 .. n-1 hold no tile, or -1. */
  function FirstHollow(s: seq<Byte>, w: nat, h: nat, n: nat, lo: nat, hi: nat): (c: int)
    requires |s| == w * h && n <= h && hi < w
    ensures c == -1 ==> forall k :: lo <= k <= hi ==> Tiles(Col(s, w, h, k, n)) != []
    ensures c != -1 ==>
      lo <= c <= hi && Tiles(Col(s, w, h, c, n)) == [] &&
      forall k :: lo <= k < c ==> Tiles(Col(s, w, h, k, n)) != []
    decreases hi + 1 - lo
  {
    if lo > hi then -1
    else if Tiles(Col(s, w, h, lo, n)) == [] then lo
    else FirstHollow(s, w, h, n, lo + 1, hi)
  }

  /** The settled columns among lo .. hi-1 that hold a tile, left to right. */
  function Packed(s: seq<Byte>, w: nat, h: nat, n: nat, lo: nat, hi: nat): (p: seq<seq<Byte>>)
    requires |s| == w * h && n <= h && hi <= w
    ensures |p| <= if lo <= hi then hi - lo else 0
    ensures forall j :: 0 <= j < |p| ==> |p[j]| == n && Settled(p[j]) && Tiles(p[j]) != []
    decreases hi
  {
    if hi <= lo then []
    else
      var col := Col(s, w, h, hi - 1, n);
      SettleKeepsTiles(col);
      SettleSettled(col);
      Packed(s, w, h, n, lo, hi - 1) + if Tiles(col) != [] then [Settle(col)] else []
  }

  /** The bounding box of a set of cleared cells, as the compactor computes it:
      smallest and largest column and largest row. */
  datatype Box = Box(minx: nat, maxx: nat, maxy: nat)

  /** b is the bounding box of hints, starting from minx = w, maxx = 0, maxy = 0. */
  ghost predicate IsBoundingBox(hints: set<Point>, w: nat, b: Box)
  {
    (forall p :: p in hints ==> b.minx <= p.x <= b.maxx && p.y <= b.maxy) &&
    (hints == {} ==> b == Box(w, 0, 0)) &&
    (hints != {} ==>
      (exists p :: p in hints && p.x == b.minx) &&
      (exists p :: p in hints && p.x == b.maxx) &&
      (exists p :: p in hints && p.y == b.maxy))
  }

  /** The box after taking one more cell p into account. */
  function Extend(b: Box, p: Point): Box
  {
    Box(if p.x < b.minx then p.x else b.minx,
        if p.x > b.maxx then p.x else b.maxx,
        if p.y > b.maxy then p.y else b.maxy)
  }

  /** Extending the bounding box of done by a cell p gives that of done + {p}. */
  lemma BoundingBoxExtend(done: set<Point>, w: nat, b: Box, p: Point)
    requires IsBoundingBox(done, w, b) && p.x < w
    ensures IsBoundingBox(done + {p}, w, Extend(b, p))
  {
    var b' := Extend(b, p);
    if done == {} {
      assert done + {p} == {p};
      assert b' == Box(p.x, p.x, p.y);
    } else {
      var q1 :| q1 in done && q1.x == b.minx;
      var q2 :| q2 in done && q2.x == b.maxx;
      var q3 :| q3 in done && q3.y == b.maxy;
      assert b'.minx == (if p.x < b.minx then p else q1).x;
      assert b'.maxx == (if p.x > b.maxx then p else q2).x;
      assert b'.maxy == (if p.y > b.maxy then p else q3).y;
    }
  }

  lemma {:induction false} BoundingBoxExists(hints: set<Point>, w: nat, h: nat)
    requires forall p :: p in hints ==> InBounds(p, w, h)
    ensures exists b :: IsBoundingBox(hints, w, b)
    decreases hints
  {
    if hints != {} {
      var p :| p in hints;
      var rest := hints - {p};
      BoundingBoxExists(rest, w, h);
      var b :| IsBoundingBox(rest, w, b);
      BoundingBoxExtend(rest, w, b, p);
      assert rest + {p} == hints;
    } else {
      assert IsBoundingBox(hints, w, Box(w, 0, 0));
    }
  }

  /** A set of cells has one bounding box. */
  lemma BoundingBoxUnique(hints: set<Point>, w: nat, b1: Box, b2: Box)
    requires IsBoundingBox(hints, w, b1) && IsBoundingBox(hints, w, b2)
    ensures b1 == b2
  {
    if hints != {} {
      var p1 :| p1 in hints && p1.x == b1.minx;
      var p2 :| p2 in hints && p2.x == b2.minx;
      var q1 :| q1 in hints && q1.x == b1.maxx;
      var q2 :| q2 in hints && q2.x == b2.maxx;
      var r1 :| r1 in hints && r1.y == b1.maxy;
      var r2 :| r2 in hints && r2.y == b2.maxy;
    }
  }

  /** The bounding box of a set of cells of a w-by-h board lies on the board. */
  lemma BoundingBoxOnBoard(hints: set<Point>, w: nat, h: nat, b: Box)
    requires w > 0 && h > 0 && forall p :: p in hints ==> InBounds(p, w, h)
    requires IsBoundingBox(hints, w, b)
    ensures b.minx <= w && b.maxx < w && b.maxy < h
  {
    if hints != {} {
      var p1 :| p1 in hints && p1.x == b.minx;
      var p2 :| p2 in hints && p2.x == b.maxx;
      var p3 :| p3 in hints && p3.y == b.maxy;
    }
  }

  /** The bounding box of a set of cells of a w-by-h board. */
  ghost function Bounds(hints: set<Point>, w: nat, h: nat): (b: Box)
    requires w > 0 && h > 0 && forall p :: p in hints ==> InBounds(p, w, h)
    ensures IsBoundingBox(hints, w, b)
    ensures b.minx <= w && b.maxx < w && b.maxy < h
  {
    BoundingBoxExists(hints, w, h);
    var b :| IsBoundingBox(hints, w, b);
    BoundingBoxOnBoard(hints, w, h, b);
    b
  }

  /** Cell (c, r) once columns minx .. x-1 of board s have been compacted in
      rows 0 .. maxy. With hollow == -1 every such column is settled in place;
      with hollow >= 0 the columns from hollow on hold the settled columns of
      hollow+1 .. x-1 that have a tile, packed left, and EMPTY after them. */
  ghost function Progress(s: seq<Byte>, w: nat, h: nat, minx: nat, maxy: nat, x: nat, hollow: int, c: nat, r: nat): Byte
    requires |s| == w * h && maxy < h && x <= w && c < w && r < h
  {
    if c < minx || r > maxy || c >= x then s[Idx(w, h, c, r)]
    else if hollow < 0 || c < hollow then Settle(Col(s, w, h, c, maxy + 1))[r]
    else
      var p := Packed(s, w, h, maxy + 1, hollow + 1, x);
      if c - hollow < |p| then p[c - hollow][r] else EMPTY
  }

  /** The empty column that starts the leftward collapse, or -1: only a clear
      that reached the bottom row can empty a whole column. */
  ghost function Hollow(s: seq<Byte>, w: nat, h: nat, b: Box): int
    requires |s| == w * h && b.maxx < w && b.maxy < h
  {
    if b.maxy == h - 1 then FirstHollow(s, w, h, h, b.minx, b.maxx) else -1
  }

  /** One past the last column the compactor visits: maxx + 1, or the whole
      width once a column collapse has started. */
  ghost function ScanEnd(s: seq<Byte>, w: nat, h: nat, b: Box): nat
    requires |s| == w * h && b.maxx < w && b.maxy < h
  {
    if Hollow(s, w, h, b) < 0 then b.maxx + 1 else w
  }

  /** Cell (c, r) of board s after compaction over bounding box b. */
  ghost function CompactedAt(s: seq<Byte>, w: nat, h: nat, b: Box, c: nat, r: nat): Byte
    requires |s| == w * h && b.maxx < w && b.maxy < h && c < w && r < h
  {
    Progress(s, w, h, b.minx, b.maxy, ScanEnd(s, w, h, b), Hollow(s, w, h, b), c, r)
  }

  /** Board s after compaction over bounding box b. */
  ghost function Compacted(s: seq<Byte>, w: nat, h: nat, b: Box): (t: seq<Byte>)
    requires |s| == w * h && b.maxx < w && b.maxy < h
    ensures |t| == |s|
  {
    seq(w * h, i requires 0 <= i < w * h =>
      IdxOfPosition(w, h, i);
      CompactedAt(s, w, h, b, i % w, i / w))
  }

  /** Cell (c, r) of the compacted board is CompactedAt. */
  lemma CompactedCell(s: seq<Byte>, w: nat, h: nat, b: Box, c: nat, r: nat)
    requires |s| == w * h && b.maxx < w && b.maxy < h && c < w && r < h
    ensures Compacted(s, w, h, b)[Idx(w, h, c, r)] == CompactedAt(s, w, h, b, c, r)
  {
  }

  /** Compaction leaves alone every column left of the box, every row below it,
      and, unless a column collapse starts, every column right of it. */
  lemma CompactedLocal(s: seq<Byte>, w: nat, h: nat, b: Box, c: nat, r: nat)
    requires |s| == w * h && b.maxx < w && b.maxy < h && c < w && r < h
    requires c < b.minx || r > b.maxy || c >= ScanEnd(s, w, h, b)
    ensures CompactedAt(s, w, h, b, c, r) == s[Idx(w, h, c, r)]
    ensures b.maxy < h - 1 ==> ScanEnd(s, w, h, b) == b.maxx + 1
  {
  }

  /** In every scanned column, no tile sits above an EMPTY cell in rows 0 .. maxy. */
  lemma CompactedSettled(s: seq<Byte>, w: nat, h: nat, b: Box, c: nat, r1: nat, r2: nat)
    requires |s| == w * h && b.maxx < w && b.maxy < h
    requires b.minx <= c < ScanEnd(s, w, h, b) && r1 < r2 <= b.maxy
    requires CompactedAt(s, w, h, b, c, r1) != EMPTY
    ensures CompactedAt(s, w, h, b, c, r2) != EMPTY
  {
    var hollow := Hollow(s, w, h, b);
    if hollow >= 0 && c >= hollow {
      var p := Packed(s, w, h, b.maxy + 1, hollow + 1, w);
      assert c - hollow < |p|;
      assert Settled(p[c - hollow]);
    } else {
      SettleSettled(Col(s, w, h, c, b.maxy + 1));
    }
  }

  /** When the clear reached the bottom row, a scanned column left EMPTY at the
      bottom (inside the box or in the columns the collapse scans beyond it)
      is followed only by wholly EMPTY columns: the columns that still hold
      tiles have slid left of it. */
  lemma CompactedCollapsed(s: seq<Byte>, w: nat, h: nat, b: Box, c1: nat, c2: nat, r: nat)
    requires |s| == w * h && b.maxx < w && b.maxy == h - 1
    requires b.minx <= c1 < ScanEnd(s, w, h, b) && c1 < c2 < w && r < h
    requires CompactedAt(s, w, h, b, c1, h - 1) == EMPTY
    ensures CompactedAt(s, w, h, b, c2, r) == EMPTY
  {
    HollowBefore(s, w, h, b, c1);
    var hollow: nat := Hollow(s, w, h, b);
    PastPacked(s, w, h, b, hollow, c1);
    CollapsedAt(s, w, h, b, hollow, c2, r);
  }

  /** Once the collapse has started at hollow, a column at or after it that
      is EMPTY at the bottom lies past the packed columns. */
  lemma PastPacked(s: seq<Byte>, w: nat, h: nat, b: Box, hollow: nat, c: nat)
    requires |s| == w * h && b.maxx < w && b.maxy == h - 1 && c < w
    requires hollow == Hollow(s, w, h, b) && hollow <= c
    requires CompactedAt(s, w, h, b, c, h - 1) == EMPTY
    ensures c - hollow >= |Packed(s, w, h, h, hollow + 1, w)|
  {
    CollapsedAt(s, w, h, b, hollow, c, h - 1);
    if c - hollow < |Packed(s, w, h, h, hollow + 1, w)| {
      PackedBottom(s, w, h, hollow + 1, w, c - hollow);
      assert false;
    }
  }

  /** Once the collapse has started at hollow, cell (c, r) of a column at or
      after it is that of the packed column c - hollow, or EMPTY past the
      packed columns. */
  lemma CollapsedAt(s: seq<Byte>, w: nat, h: nat, b: Box, hollow: nat, c: nat, r: nat)
    requires |s| == w * h && b.maxx < w && b.maxy == h - 1 && c < w && r < h
    requires hollow == Hollow(s, w, h, b) && hollow <= c
    ensures CompactedAt(s, w, h, b, c, r) ==
      if c - hollow < |Packed(s, w, h, h, hollow + 1, w)| then Packed(s, w, h, h, hollow + 1, w)[c - hollow][r] else EMPTY
  {
    assert ScanEnd(s, w, h, b) == w && b.minx <= hollow;
    assert CompactedAt(s, w, h, b, c, r) == Progress(s, w, h, b.minx, b.maxy, w, hollow, c, r);
  }

  /** Every packed column holds a tile in its bottom row. */
  lemma PackedBottom(s: seq<Byte>, w: nat, h: nat, lo: nat, hi: nat, j: nat)
    requires |s| == w * h && hi <= w && h > 0 && j < |Packed(s, w, h, h, lo, hi)|
    ensures Packed(s, w, h, h, lo, hi)[j][h - 1] != EMPTY
  {
    var col := Packed(s, w, h, h, lo, hi)[j];
    if col[h - 1] == EMPTY {
      SettleBottomSettled(col);
      assert false;
    }
  }

  /** A scanned column left EMPTY at the bottom lies at or after the first
      column the collapse starts from. */
  lemma HollowBefore(s: seq<Byte>, w: nat, h: nat, b: Box, c1: nat)
    requires |s| == w * h && b.maxx < w && b.maxy == h - 1 && b.minx <= c1 < ScanEnd(s, w, h, b)
    requires CompactedAt(s, w, h, b, c1, h - 1) == EMPTY
    ensures 0 <= Hollow(s, w, h, b) <= c1
  {
    var hollow := Hollow(s, w, h, b);
    if hollow < 0 || c1 < hollow {
      var col := Col(s, w, h, c1, h);
      assert CompactedAt(s, w, h, b, c1, h - 1) == Settle(col)[h - 1];
      SettleBottom(col);
      assert false;
    }
  }

  /** A settled segment whose bottom cell is EMPTY holds no tile. */
  lemma SettleBottomSettled(col: seq<Byte>)
    requires |col| > 0 && Settled(col) && col[|col| - 1] == EMPTY
    ensures Tiles(col) == []
  {
    TilesAllEmpty(col);
  }

  lemma {:induction false} TilesAllEmpty(col: seq<Byte>)
    requires forall i :: 0 <= i < |col| - 1 && col[i] != EMPTY ==> col[|col| - 1] != EMPTY
    requires |col| > 0 ==> col[|col| - 1] == EMPTY
    ensures Tiles(col) == []
  {
    if col != [] {
      TilesAllEmpty(col[1..]);
    }
  }
}
