/** The puzzle grid engine: a width-by-height board of colour cells stored row
    major in one flat array, with the region finder (Test), the match resolver
    (Match), the compactor (Compact) and re-randomisation (Randomize). */
module PuzzleEngine {
  import opened Board
  import opened Region
  import opened Gravity
  import opened Scan
  import opened Compaction

  /** Board s with every cell of region set to EMPTY. */
  ghost function Cleared(s: seq<Byte>, w: nat, h: nat, region: set<Point>): (t: seq<Byte>)
    requires |s| == w * h && w > 0
    ensures |t| == |s|
    ensures forall x: nat, y: nat :: x < w && y < h ==>
      t[Idx(w, h, x, y)] == if Point(x, y) in region then EMPTY else s[Idx(w, h, x, y)]
  {
    seq(|s|, i requires 0 <= i < |s| => if Point(i % w, i / w) in region then EMPTY else s[i])
  }

  /** Number of cells of s that hold a tile (are not EMPTY). */
  function TileCount(s: seq<Byte>): nat
  {
    |s| - multiset(s)[EMPTY]
  }

  /** Clearing one more cell p of the board. */
  lemma ClearedStep(s: seq<Byte>, w: nat, h: nat, region: set<Point>, p: Point)
    requires |s| == w * h && w > 0 && InBounds(p, w, h)
    ensures Cleared(s, w, h, region + {p}) == Cleared(s, w, h, region)[Idx(w, h, p.x, p.y) := EMPTY]
  {
    var t, t' := Cleared(s, w, h, region), Cleared(s, w, h, region + {p});
    var u := t[Idx(w, h, p.x, p.y) := EMPTY];
    forall x: nat, y: nat | x < w && y < h
      ensures t'[Idx(w, h, x, y)] == u[Idx(w, h, x, y)]
    {
      assert (Point(x, y) == p) == (Idx(w, h, x, y) == Idx(w, h, p.x, p.y));
    }
    BoardsEqual(t', u, w, h);
  }

  /** Clearing a region of tiles removes exactly as many tiles as it has cells. */
  lemma {:induction false} ClearedCount(s: seq<Byte>, w: nat, h: nat, region: set<Point>)
    requires |s| == w * h && w > 0
    requires forall p :: p in region ==> InBounds(p, w, h) && ColourAt(s, w, h, p) != EMPTY
    ensures TileCount(Cleared(s, w, h, region)) == TileCount(s) - |region|
    decreases region
  {
    if region == {} {
      assert Cleared(s, w, h, region) == s;
    } else {
      var p :| p in region;
      var rest := region - {p};
      ClearedCount(s, w, h, rest);
      ClearedStep(s, w, h, rest, p);
      assert rest + {p} == region;
      var t := Cleared(s, w, h, rest);
      assert t[Idx(w, h, p.x, p.y)] != EMPTY;
    }
  }

  /** One step of the bounding-box loop: cell p moves from rest to done. */
  lemma BoundingBoxStep(hints: set<Point>, done: set<Point>, rest: set<Point>, w: nat, h: nat, b: Box, p: Point)
    requires forall q :: q in hints ==> InBounds(q, w, h)
    requires done + rest == hints && done !! rest && p in rest
    requires IsBoundingBox(done, w, b)
    ensures (done + {p}) + (rest - {p}) == hints && (done + {p}) !! (rest - {p})
    ensures |rest - {p}| < |rest|
    ensures IsBoundingBox(done + {p}, w, Extend(b, p))
  {
    assert InBounds(p, w, h);
    BoundingBoxExtend(done, w, b, p);
  }

  class Puzzle {
    const width: nat
    const height: nat
    const colors: Byte
    const data: array<Byte>

    /** The board has its dimensions and one cell per coordinate. */
    ghost predicate Shaped()
    {
      1 <= width && 1 <= height && 1 <= colors && data.Length == width * height
    }

    /** Shaped, and every cell is EMPTY or a colour below colors. */
    ghost predicate Valid()
      reads data
    {
      Shaped() && Palette(data[..], colors)
    }

    /** A w-by-h board with c colours; rolls[i] is the value rand() gives for cell i. */
    constructor (w: nat, h: nat, c: Byte, rolls: seq<nat>)
      requires 1 <= w && 1 <= h && 1 <= c && |rolls| == w * h
      ensures Valid() && fresh(data)
      ensures width == w && height == h && colors == c && data.Length == w * h
      ensures forall i :: 0 <= i < data.Length ==> data[i] == rolls[i] % c && data[i] != EMPTY
    {
      width, height, colors := w, h, c;
      data := new Byte[w * h](_ => EMPTY);
      new;
      Randomize(rolls);
    }

    /** A w-by-h board with the default number of colours. */
    constructor WithDefaultColors(w: nat, h: nat, rolls: seq<nat>)
      requires 1 <= w && 1 <= h && |rolls| == w * h
      ensures Valid() && fresh(data)
      ensures width == w && height == h && colors == DEFAULT_COLORS && data.Length == w * h
      ensures forall i :: 0 <= i < data.Length ==> data[i] == rolls[i] % DEFAULT_COLORS && data[i] != EMPTY
    {
      width, height, colors := w, h, DEFAULT_COLORS;
      data := new Byte[w * h](_ => EMPTY);
      new;
      Randomize(rolls);
    }

    /** Every cell gets a fresh colour in [0, colors): cell i gets rolls[i] mod colors. */
    method Randomize(rolls: seq<nat>)
      requires Shaped() && |rolls| == data.Length
      modifies data
      ensures Valid()
      ensures forall i :: 0 <= i < data.Length ==> data[i] == rolls[i] % colors && data[i] != EMPTY
    {
      for i := 0 to data.Length
        invariant forall k :: 0 <= k < i ==> data[k] == rolls[k] % colors
      {
        data[i] := rolls[i] % colors;
      }
    }

    /** The cell at column x, row y: EMPTY or a colour below colors. */
    function At(x: nat, y: nat): (c: Byte)
      reads data
      requires Valid() && x < width && y < height
      ensures c == EMPTY || c < colors
    {
      data[Idx(width, height, x, y)]
    }

    /** The region finder: a breadth-first search from (x, y) over 4-neighbours
        of the same colour. Answers the whole component, or the empty set when
        the cell is EMPTY or the component is that one cell. */
    method Test(x: nat, y: nat) returns (visited: set<Point>)
      requires Valid() && x < width && y < height
      ensures visited == Matched(data[..], width, height, Point(x, y))
    {
      ghost var s := data[..];
      var o := Point(x, y);
      var colour := data[Idx(width, height, x, y)];
      if colour == EMPTY {
        return {};
      }
      var queue := [o];
      visited := {o};
      ghost var done: set<Point> := {};
      while queue != []
        invariant Searching(s, o, visited) && Frontier(queue, visited, done)
        invariant forall p, q ::
          (p in done && Adjacent(p, q) && InBounds(q, width, height) &&
           ColourAt(s, width, height, q) == colour) ==> q in visited
        decreases Unvisited(visited), |queue|
      {
        var p := queue[0];
        queue := queue[1..];
        done := done + {p};
        queue, visited := Expand(s, o, p, queue, visited, done);
      }
      assert ClosedUnder(s, width, height, colour, visited);
      ComponentLeast(s, width, height, o, visited);
      assert visited == Component(s, width, height, o);
      if |visited| == 1 {
        visited := {};
      }
    }

    /** The match resolver: the region at (x, y) is cleared and the board
        compacted around it; answers the region's size, or 1 when there is
        no region there. */
    method Match(x: nat, y: nat) returns (n: nat)
      requires Valid() && x < width && y < height
      modifies data
      ensures Valid()
      ensures var m := Matched(old(data[..]), width, height, Point(x, y));
        if m == {} then n == 1 && data[..] == old(data[..])
        else
          n == |m| && TileCount(data[..]) == TileCount(old(data[..])) - n &&
          data[..] == Compacted(Cleared(old(data[..]), width, height, m), width, height, Bounds(m, width, height))
    {
      var matched := Test(x, y);
      MatchedIsRegion(data[..], width, height, Point(x, y));
      if |matched| <= 1 {
        return 1;
      }
      ghost var A := data[..];
      Clear(matched);
      ghost var B := data[..];
      Compact(matched);
      ClearedCount(A, width, height, matched);
      n := |matched|;
    }

    /** Every cell of region is set to EMPTY, one at a time. */
    method Clear(region: set<Point>)
      requires Valid() && forall p :: p in region ==> InBounds(p, width, height)
      modifies data
      ensures Valid() && data[..] == Cleared(old(data[..]), width, height, region)
    {
      ghost var A := data[..];
      var rest := region;
      while rest != {}
        invariant rest <= region && Valid()
        invariant data[..] == Cleared(A, width, height, region - rest)
        decreases |rest|
      {
        var p :| p in rest;
        var i := Idx(width, height, p.x, p.y);
        ClearedStep(A, width, height, region - rest, p);
        data[i] := EMPTY;
        assert region - (rest - {p}) == (region - rest) + {p};
        rest := rest - {p};
      }
      assert region - rest == region;
    }

    /** The bounding box of hints, as compact computes it (smallest and
        largest column, largest row). */
    method BoundingBox(hints: set<Point>) returns (b: Box)
      requires Shaped() && forall p :: p in hints ==> InBounds(p, width, height)
      ensures b == Bounds(hints, width, height)
    {
      b := Box(width, 0, 0);
      var rest := hints;
      ghost var done: set<Point> := {};
      while rest != {}
        invariant done + rest == hints && done !! rest
        invariant IsBoundingBox(done, width, b)
        decreases |rest|
      {
        var p :| p in rest;
        BoundingBoxStep(hints, done, rest, width, height, b, p);
        b := Extend(b, p);
        rest := rest - {p};
        done := done + {p};
      }
      BoundingBoxUnique(hints, width, b, Bounds(hints, width, height));
    }

    /** The compactor: within the bounding box of hints, each column from minx
        to maxx is settled; once a column that reaches the bottom row is found
        without a tile, every later column holding a tile slides left onto the
        first free column, up to the right edge of the board. */
    method Compact(hints: set<Point>)
      requires Valid() && forall p :: p in hints ==> InBounds(p, width, height)
      modifies data
      ensures Valid() && multiset(data[..]) == multiset(old(data[..]))
      ensures data[..] == Compacted(old(data[..]), width, height, Bounds(hints, width, height))
    {
      var b := BoundingBox(hints);
      CompactBox(b);
    }

    /** The compactor's outer loop over the columns of box b. */
    method CompactBox(b: Box)
      requires Valid() && b.maxx < width && b.maxy < height && b.minx <= width
      modifies data
      ensures Valid() && multiset(data[..]) == multiset(old(data[..]))
      ensures data[..] == Compacted(old(data[..]), width, height, b)
    {
      ghost var A := data[..];
      ghost var hollow := -1;
      var maxx := b.maxx;
      var xMark := -1;
      var x := b.minx;
      CompactStart(A, width, height, b);
      while x <= maxx
        invariant Compacting(A, b, x, xMark, maxx, hollow)
        decreases width - x
      {
        x, xMark, maxx, hollow := CompactColumn(A, b, x, xMark, maxx, hollow);
      }
      CompactDone(data[..], A, width, height, b, x, xMark, maxx, hollow);
    }

    /** The compactor's outer loop at column x of box b of board A: the loop
        variables agree with the sweep so far, and the board, a rearrangement
        of A, is A with the columns before x done. */
    ghost predicate Compacting(A: seq<Byte>, b: Box, x: nat, xMark: int, maxx: nat, hollow: int)
      reads this, data
    {
      Valid() && multiset(data[..]) == multiset(A) &&
      Sweep(A, width, height, b, x, xMark, maxx, hollow) &&
      CompactState(data[..], A, width, height, b, x, hollow)
    }

    /** One pass of the compactor's outer loop, over column x of box b of
        board A; x' is the next column. */
    method CompactColumn(ghost A: seq<Byte>, b: Box, x: nat, xMark: int, maxx: nat, ghost hollow: int)
      returns (x': nat, xMark': int, maxx': nat, ghost hollow': int)
      requires Compacting(A, b, x, xMark, maxx, hollow) && x <= maxx
      modifies data
      ensures x' == x + 1 && Compacting(A, b, x', xMark', maxx', hollow')
    {
      x' := x + 1;
      if xMark == -1 {
        var found := SettleInPlace(A, b, x);
        if found {
          assert Packed(A, width, height, height, x + 1, x + 1) == [];
          xMark', maxx', hollow' := x, width - 1, x;
        } else {
          xMark', maxx', hollow' := -1, maxx, -1;
        }
      } else {
        xMark' := MoveLeft(A, b, x, xMark, hollow);
        maxx', hollow' := maxx, hollow;
      }
    }

    /** A pass of the compactor's outer loop before any column has emptied:
        column x is settled in place, and found tells whether it is the first
        column without a tile in a box that reaches the bottom row. */
    method SettleInPlace(ghost A: seq<Byte>, b: Box, x: nat) returns (found: bool)
      requires Valid() && CompactState(data[..], A, width, height, b, x, -1) && b.minx <= x <= b.maxx
      requires Hollow(A, width, height, b) == -1 || Hollow(A, width, height, b) >= x
      modifies data
      ensures Valid() && multiset(data[..]) == multiset(old(data[..]))
      ensures found <==> Hollow(A, width, height, b) == x
      ensures found ==> CompactState(data[..], A, width, height, b, x + 1, x)
      ensures !found ==> CompactState(data[..], A, width, height, b, x + 1, -1)
    {
      ghost var D := data[..];
      ColumnUntouched(D, A, width, height, b, x, -1, b.maxy + 1);
      var movedOne := SettleColumn(x, -1, b.maxy);
      SettledInPlace(D, data[..], A, width, height, b, x);
      HollowTrack(A, width, height, b, x);
      found := b.maxy == height - 1 && data[Idx(width, height, x, height - 1)] == EMPTY;
      if found {
        HollowStarts(data[..], A, width, height, b, x);
      }
    }

    /** A pass of the compactor's outer loop once the collapse has started at
        hollow: column x moves, settled, to column xMark, and xMark moves on
        when the column held a tile. */
    method MoveLeft(ghost A: seq<Byte>, b: Box, x: nat, xMark: int, ghost hollow: nat) returns (xMark': int)
      requires Valid() && CompactState(data[..], A, width, height, b, x, hollow)
      requires b.minx <= hollow < x < width && b.maxy == height - 1
      requires xMark == hollow + |Packed(A, width, height, height, hollow + 1, x)|
      modifies data
      ensures Valid() && multiset(data[..]) == multiset(old(data[..]))
      ensures xMark' == hollow + |Packed(A, width, height, height, hollow + 1, x + 1)|
      ensures CompactState(data[..], A, width, height, b, x + 1, hollow)
    {
      ghost var D := data[..];
      TargetReady(D, A, width, height, b, x, hollow, xMark);
      ColumnUntouched(D, A, width, height, b, x, hollow, height);
      var movedOne := SettleColumn(x, xMark, b.maxy);
      ghost var D' := data[..];
      MovedLeft(D, D', A, width, height, b, x, hollow, xMark);
      assert movedOne <==> Tiles(Col(A, width, height, x, height)) != [];
      assert D'[Idx(width, height, x, height - 1)] == EMPTY;
      xMark' := xMark;
      if data[Idx(width, height, x, height - 1)] != EMPTY || movedOne {
        xMark' := xMark + 1;
      }
    }

    /** Gravity in one column, as the inner loop of the compactor does it:
        rows maxy down to 0 of column x are scanned bottom up; yMark is the
        lowest EMPTY cell still to fill. With xMark == -1 the tiles fall in
        place; otherwise they land, settled, in the EMPTY column xMark and
        column x is left EMPTY. */
    method SettleColumn(x: nat, xMark: int, maxy: nat) returns (movedOne: bool)
      requires Valid() && x < width && maxy < height
      requires xMark == -1 || (0 <= xMark < x && TargetClear(data[..], width, height, x, xMark, maxy))
      modifies data
      ensures Valid() && multiset(data[..]) == multiset(old(data[..]))
      ensures ScanState(data[..], old(data[..]), width, height, x, if xMark == -1 then x else xMark, maxy, 0)
      ensures xMark != -1 ==> (movedOne <==> Tiles(Col(old(data[..]), width, height, x, maxy + 1)) != [])
    {
      ghost var A := data[..];
      ghost var col := Col(A, width, height, x, maxy + 1);
      var tx: nat := if xMark == -1 then x else xMark;
      var yMark := -1;
      movedOne := false;
      var y: int := maxy;
      ScanStart(A, width, height, x, tx, maxy);
      while y >= 0
        invariant -1 <= y <= maxy
        invariant Valid() && multiset(data[..]) == multiset(A)
        invariant ScanState(data[..], A, width, height, x, tx, maxy, y + 1)
        invariant yMark == Mark(col[y + 1..], y)
        invariant xMark != -1 ==> (movedOne <==> Tiles(col[y + 1..]) != [])
      {
        yMark, movedOne := ScanRow(A, x, xMark, tx, maxy, y, yMark, movedOne);
        y := y - 1;
      }
      assert col[0..] == col;
    }

    /** Row y of the column scan of SettleColumn, on board A as it was before
        the scan: an EMPTY cell becomes the mark when there is none; a tile
        moves to the target column tx, to the mark's row (moving the mark up
        one) or to its own row when there is no mark. */
    method ScanRow(ghost A: seq<Byte>, x: nat, xMark: int, tx: nat, maxy: nat, y: nat, yMark: int, movedOne: bool)
      returns (yMark': int, movedOne': bool)
      requires Valid() && y <= maxy
      requires ScanState(data[..], A, width, height, x, tx, maxy, y + 1)
      requires (xMark == -1 && tx == x) || (xMark == tx && tx != x && TargetClear(A, width, height, x, tx, maxy))
      requires yMark == Mark(Col(A, width, height, x, maxy + 1)[y + 1..], y)
      modifies data
      ensures Valid() && multiset(data[..]) == multiset(old(data[..]))
      ensures ScanState(data[..], A, width, height, x, tx, maxy, y)
      ensures yMark' == Mark(Col(A, width, height, x, maxy + 1)[y..], y - 1)
      ensures xMark != -1 ==> (movedOne' <==> movedOne || Col(A, width, height, x, maxy + 1)[y] != EMPTY)
    {
      ghost var col := Col(A, width, height, x, maxy + 1);
      MarkStep(col, y);
      yMark', movedOne' := yMark, movedOne;
      var cell := data[Idx(width, height, x, y)];
      ScanCell(A, width, height, x, tx, maxy, y + 1, x, y);
      if yMark == -1 && cell == EMPTY {
        yMark' := y;
        StillScan(data[..], A, width, height, x, tx, maxy, y);
      } else if (yMark != -1 || xMark != -1) && cell != EMPTY {
        var moveY := if yMark == -1 then y else yMark;
        Drop(A, x, tx, maxy, y, moveY);
        if yMark != -1 {
          yMark' := yMark - 1;
        }
        movedOne' := true;
      } else {
        StillScan(data[..], A, width, height, x, tx, maxy, y);
      }
    }

    /** The swap of a scan row: the tile at row y of column x trades places
        with the EMPTY cell at row moveY of the target column tx. */
    method Drop(ghost A: seq<Byte>, x: nat, tx: nat, maxy: nat, y: nat, moveY: nat)
      requires Valid() && y <= maxy
      requires ScanState(data[..], A, width, height, x, tx, maxy, y + 1) && TargetClear(A, width, height, x, tx, maxy)
      requires var rest := Col(A, width, height, x, maxy + 1)[y + 1..];
        A[Idx(width, height, x, y)] != EMPTY && (|Tiles(rest)| < |rest| || tx != x) &&
        moveY == y + |rest| - |Tiles(rest)|
      modifies data
      ensures Valid() && multiset(data[..]) == multiset(old(data[..]))
      ensures ScanState(data[..], A, width, height, x, tx, maxy, y)
    {
      ghost var D := data[..];
      SwappedScan(D, A, width, height, x, tx, maxy, y, moveY);
      var a, b := Idx(width, height, tx, moveY), Idx(width, height, x, y);
      PaletteSwap(D, colors, a, b);
      SwapPermutes(D, a, b);
      data[a], data[b] := data[b], data[a];
      assert data[..] == D[a := D[b]][b := D[a]];
    }

    /** The search from o so far: o is visited, and every visited cell is on
        the board and reachable from o. */
    ghost predicate Searching(s: seq<Byte>, o: Point, visited: set<Point>)
    {
      |s| == width * height && InBounds(o, width, height) &&
      o in visited && visited <= Component(s, width, height, o)
    }

    /** The loop body of Test for dequeued cell p: its left, right, upper and
        lower neighbours are checked in that order, after which every in-bounds
        neighbour of p with the origin's colour is visited. */
    method Expand(ghost s: seq<Byte>, o: Point, p: Point, queue: seq<Point>, visited: set<Point>, ghost done: set<Point>)
      returns (queue': seq<Point>, visited': set<Point>)
      requires Shaped() && s == data[..] && Searching(s, o, visited) && p in visited
      requires Frontier(queue, visited, done)
      ensures Searching(s, o, visited') && Frontier(queue', visited', done) && visited <= visited'
      ensures Unvisited(visited') <= Unvisited(visited)
      ensures Unvisited(visited') == Unvisited(visited) ==> queue' == queue && visited' == visited
      ensures forall q :: (Adjacent(p, q) && InBounds(q, width, height) &&
        ColourAt(s, width, height, q) == ColourAt(s, width, height, o)) ==> q in visited'
    {
      var q1, v1 := Enqueue(s, o, p, p.x as int - 1, p.y, queue, visited, done);
      var q2, v2 := Enqueue(s, o, p, p.x + 1, p.y, q1, v1, done);
      var q3, v3 := Enqueue(s, o, p, p.x, p.y as int - 1, q2, v2, done);
      queue', visited' := Enqueue(s, o, p, p.x, p.y + 1, q3, v3, done);
      NeighboursChecked(s, o, p, v1, v2, v3, visited');
    }

    /** Cell (nx, ny) when it is on the board and has the origin's colour:
        the cell a neighbour check must visit, if any. */
    ghost function Wanted(s: seq<Byte>, o: Point, nx: int, ny: int): set<Point>
      requires |s| == width * height && InBounds(o, width, height)
    {
      if 0 <= nx < width && 0 <= ny < height &&
         ColourAt(s, width, height, Point(nx, ny)) == ColourAt(s, width, height, o)
      then {Point(nx, ny)} else {}
    }

    /** Once the left, right, upper and lower neighbours of p have been
        checked, every same-colour neighbour of p is visited. */
    lemma NeighboursChecked(s: seq<Byte>, o: Point, p: Point, v1: set<Point>, v2: set<Point>, v3: set<Point>, v4: set<Point>)
      requires |s| == width * height && InBounds(o, width, height)
      requires Wanted(s, o, p.x - 1, p.y) <= v1 && Wanted(s, o, p.x + 1, p.y) <= v2
      requires Wanted(s, o, p.x, p.y - 1) <= v3 && Wanted(s, o, p.x, p.y + 1) <= v4
      requires v1 <= v2 <= v3 <= v4
      ensures forall q :: (Adjacent(p, q) && InBounds(q, width, height) &&
        ColourAt(s, width, height, q) == ColourAt(s, width, height, o)) ==> q in v4
    {
      forall q | Adjacent(p, q) && InBounds(q, width, height) &&
        ColourAt(s, width, height, q) == ColourAt(s, width, height, o)
        ensures q in v4
      {
        AdjacentCases(p, q);
        assert q in Wanted(s, o, q.x, q.y);
      }
    }

    /** Number of cells of the board the search has not visited. */
    ghost function Unvisited(visited: set<Point>): nat
    {
      |AllPoints(width, height) - visited|
    }

    /** Every queued cell is visited, and every visited cell is queued or done. */
    ghost predicate Frontier(queue: seq<Point>, visited: set<Point>, done: set<Point>)
    {
      (forall i :: 0 <= i < |queue| ==> queue[i] in visited) &&
      (forall q :: q in visited ==> q in done || q in queue)
    }

    /** One neighbour check of the search from visited cell p: (nx, ny) joins
        the back of the queue and the visited set when it is on the board, not
        yet visited and of the origin's colour. */
    method Enqueue(ghost s: seq<Byte>, o: Point, p: Point, nx: int, ny: int,
                   queue: seq<Point>, visited: set<Point>, ghost done: set<Point>)
      returns (queue': seq<Point>, visited': set<Point>)
      requires Shaped() && s == data[..] && Searching(s, o, visited) && p in visited
      requires Frontier(queue, visited, done)
      requires ((nx == p.x - 1 || nx == p.x + 1) && ny == p.y) || (nx == p.x && (ny == p.y - 1 || ny == p.y + 1))
      ensures Searching(s, o, visited') && Frontier(queue', visited', done) && visited <= visited'
      ensures Unvisited(visited') <= Unvisited(visited)
      ensures Unvisited(visited') == Unvisited(visited) ==> queue' == queue && visited' == visited
      ensures visited' == visited + Wanted(s, o, nx, ny)
      ensures Wanted(s, o, nx, ny) <= visited ==> queue' == queue
      ensures !(Wanted(s, o, nx, ny) <= visited) ==> 0 <= nx && 0 <= ny && queue' == queue + [Point(nx, ny)]
    {
      queue', visited' := queue, visited;
      if 0 <= nx < width && 0 <= ny < height {
        var q := Point(nx, ny);
        var cell := data[Idx(width, height, nx, ny)];
        WantedCell(s, o, q);
        if q !in visited && cell == data[Idx(width, height, o.x, o.y)] {
          EnqueueNew(s, o, p, q, queue, visited, done);
          queue' := queue + [q];
          visited' := visited + {q};
        }
      }
    }

    /** An on-board cell is wanted exactly when it has the origin's colour. */
    lemma WantedCell(s: seq<Byte>, o: Point, q: Point)
      requires |s| == width * height && InBounds(o, width, height) && InBounds(q, width, height)
      ensures Wanted(s, o, q.x, q.y) ==
        if s[Idx(width, height, q.x, q.y)] == s[Idx(width, height, o.x, o.y)] then {q} else {}
    {
    }

    /** Proof step of Enqueue: visiting and queueing a new same-colour
        neighbour q of p keeps the search invariant and the frontier, and
        leaves fewer cells unvisited. */
    lemma EnqueueNew(s: seq<Byte>, o: Point, p: Point, q: Point, queue: seq<Point>, visited: set<Point>, done: set<Point>)
      requires |s| == width * height && Searching(s, o, visited) && p in visited && q !in visited
      requires Frontier(queue, visited, done)
      requires Adjacent(p, q) && InBounds(q, width, height)
      requires s[Idx(width, height, q.x, q.y)] == s[Idx(width, height, o.x, o.y)]
      ensures Searching(s, o, visited + {q}) && Frontier(queue + [q], visited + {q}, done)
      ensures Unvisited(visited + {q}) < Unvisited(visited)
    {
      Visit(s, o, p, q, visited);
      FrontierPush(queue, visited, done, q);
    }

    /** Pushing a cell on the queue as it is visited keeps the frontier. */
    lemma FrontierPush(queue: seq<Point>, visited: set<Point>, done: set<Point>, q: Point)
      requires Frontier(queue, visited, done)
      ensures Frontier(queue + [q], visited + {q}, done)
    {
      var queue' := queue + [q];
      assert forall i :: 0 <= i < |queue| ==> queue'[i] == queue[i];
      assert q == queue'[|queue|];
    }

    /** Proof step of Test: a same-colour neighbour q of a visited cell p is
        reachable from the origin and is a new coordinate of the board. */
    lemma Visit(s: seq<Byte>, o: Point, p: Point, q: Point, visited: set<Point>)
      requires |s| == width * height && InBounds(o, width, height)
      requires p in Component(s, width, height, o) && q !in visited
      requires Adjacent(p, q) && InBounds(q, width, height)
      requires ColourAt(s, width, height, q) == ColourAt(s, width, height, o)
      ensures q in Component(s, width, height, o)
      ensures Unvisited(visited + {q}) < Unvisited(visited)
    {
      ConnectedStep(s, width, height, o, p, q);
      assert q in AllPoints(width, height) by { assert q == Point(q.x, q.y); }
      assert AllPoints(width, height) - visited == (AllPoints(width, height) - (visited + {q})) + {q};
    }
  }
}
