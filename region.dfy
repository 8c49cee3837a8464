/** What a region of the board is: the cells reachable from an origin through
    4-adjacent cells of the origin's colour. */
module Region {
  import opened Board

  /** The colour held by in-bounds cell p of a row-major board. */
  function ColourAt(s: seq<Byte>, w: nat, h: nat, p: Point): Byte
    requires |s| == w * h && InBounds(p, w, h)
  {
    s[Idx(w, h, p.x, p.y)]
  }

  /** p and q share an edge (no diagonals). */
  predicate Adjacent(p: Point, q: Point)
  {
    (p.x == q.x && (p.y + 1 == q.y || q.y + 1 == p.y)) ||
    (p.y == q.y && (p.x + 1 == q.x || q.x + 1 == p.x))
  }

  /** The four neighbours of p: left, right, above, below. */
  lemma AdjacentCases(p: Point, q: Point)
    requires Adjacent(p, q)
    ensures (p.x >= 1 && q == Point(p.x - 1, p.y)) || q == Point(p.x + 1, p.y) ||
            (p.y >= 1 && q == Point(p.x, p.y - 1)) || q == Point(p.x, p.y + 1)
  {
  }

  /** A walk from path[0] to its last point through in-bounds cells of colour c,
      each step to an adjacent cell. */
  ghost predicate IsPath(s: seq<Byte>, w: nat, h: nat, c: Byte, path: seq<Point>)
    requires |s| == w * h
  {
    |path| > 0 &&
    (forall i :: 0 <= i < |path| ==> InBounds(path[i], w, h) && ColourAt(s, w, h, path[i]) == c) &&
    (forall i :: 0 <= i < |path| - 1 ==> Adjacent(path[i], path[i + 1]))
  }

  /** q is reachable from in-bounds origin o through cells of o's colour. */
  ghost predicate Connected(s: seq<Byte>, w: nat, h: nat, o: Point, q: Point)
    requires |s| == w * h && InBounds(o, w, h)
  {
    exists path :: IsPath(s, w, h, ColourAt(s, w, h, o), path) && path[0] == o && path[|path| - 1] == q
  }

  /** The 4-connected same-colour component of the board that contains o:
      it holds o itself. */
  ghost function Component(s: seq<Byte>, w: nat, h: nat, o: Point): (c: set<Point>)
    requires |s| == w * h && InBounds(o, w, h)
    ensures o in c
  {
    ConnectedSelf(s, w, h, o);
    assert o in AllPoints(w, h) by { assert o == Point(o.x, o.y); }
    set q | q in AllPoints(w, h) && Connected(s, w, h, o, q)
  }

  /** What the region finder answers at o: nothing at an EMPTY cell, nothing
      for a component of one cell, otherwise the whole component. */
  ghost function Matched(s: seq<Byte>, w: nat, h: nat, o: Point): (m: set<Point>)
    requires |s| == w * h && InBounds(o, w, h)
    ensures |m| != 1
    ensures m != {} <==> ColourAt(s, w, h, o) != EMPTY && |Component(s, w, h, o)| > 1
    ensures m != {} ==> o in m
  {
    if ColourAt(s, w, h, o) == EMPTY then {}
    else
      var c := Component(s, w, h, o);
      if |c| == 1 then {} else c
  }

  /** S contains every in-bounds neighbour of its members that has colour c. */
  ghost predicate ClosedUnder(s: seq<Byte>, w: nat, h: nat, c: Byte, S: set<Point>)
    requires |s| == w * h
  {
    forall p, q :: p in S && Adjacent(p, q) && InBounds(q, w, h) && ColourAt(s, w, h, q) == c ==> q in S
  }

  /** A point next to a reachable point, in bounds and of the origin's colour, is reachable. */
  lemma ConnectedStep(s: seq<Byte>, w: nat, h: nat, o: Point, p: Point, q: Point)
    requires |s| == w * h && InBounds(o, w, h)
    requires Connected(s, w, h, o, p)
    requires Adjacent(p, q) && InBounds(q, w, h) && ColourAt(s, w, h, q) == ColourAt(s, w, h, o)
    ensures Connected(s, w, h, o, q)
  {
    var path :| IsPath(s, w, h, ColourAt(s, w, h, o), path) && path[0] == o && path[|path| - 1] == p;
    var longer := path + [q];
    assert IsPath(s, w, h, ColourAt(s, w, h, o), longer) && longer[0] == o && longer[|longer| - 1] == q;
  }

  /** The origin is reachable from itself through a one-cell walk. */
  lemma ConnectedSelf(s: seq<Byte>, w: nat, h: nat, o: Point)
    requires |s| == w * h && InBounds(o, w, h)
    ensures Connected(s, w, h, o, o)
  {
    assert IsPath(s, w, h, ColourAt(s, w, h, o), [o]);
  }

  /** Every member of the component is in bounds and has the origin's colour. */
  lemma ComponentMonochrome(s: seq<Byte>, w: nat, h: nat, o: Point, q: Point)
    requires |s| == w * h && InBounds(o, w, h)
    requires q in Component(s, w, h, o)
    ensures InBounds(q, w, h) && ColourAt(s, w, h, q) == ColourAt(s, w, h, o)
  {
    var path :| IsPath(s, w, h, ColourAt(s, w, h, o), path) && path[0] == o && path[|path| - 1] == q;
    assert path[|path| - 1] in path;
  }

  /** The component is closed: no member has a same-colour neighbour outside it. */
  lemma ComponentClosed(s: seq<Byte>, w: nat, h: nat, o: Point)
    requires |s| == w * h && InBounds(o, w, h)
    ensures ClosedUnder(s, w, h, ColourAt(s, w, h, o), Component(s, w, h, o))
  {
    var c := ColourAt(s, w, h, o);
    forall p, q | p in Component(s, w, h, o) && Adjacent(p, q) && InBounds(q, w, h) && ColourAt(s, w, h, q) == c
      ensures q in Component(s, w, h, o)
    {
      ConnectedStep(s, w, h, o, p, q);
      assert q in AllPoints(w, h) by { assert q == Point(q.x, q.y); }
    }
  }

  /** The component is the least closed set holding the origin: any set that
      contains o and is closed under same-colour adjacency contains all of it. */
  lemma ComponentLeast(s: seq<Byte>, w: nat, h: nat, o: Point, S: set<Point>)
    requires |s| == w * h && InBounds(o, w, h)
    requires o in S && ClosedUnder(s, w, h, ColourAt(s, w, h, o), S)
    ensures Component(s, w, h, o) <= S
  {
    var c := ColourAt(s, w, h, o);
    forall q | q in Component(s, w, h, o) ensures q in S {
      var path :| IsPath(s, w, h, c, path) && path[0] == o && path[|path| - 1] == q;
      var i := 0;
      while i < |path| - 1
        invariant 0 <= i < |path|
        invariant path[i] in S
      {
        assert Adjacent(path[i], path[i + 1]);
        assert InBounds(path[i + 1], w, h) && ColourAt(s, w, h, path[i + 1]) == c;
        i := i + 1;
      }
    }
  }

  /** The region finder never answers with a single cell, and what it answers
      is the whole component: in bounds, one colour, closed under adjacency. */
  lemma MatchedIsRegion(s: seq<Byte>, w: nat, h: nat, o: Point)
    requires |s| == w * h && InBounds(o, w, h)
    ensures var m := Matched(s, w, h, o);
      |m| != 1 &&
      (m != {} ==> o in m && ColourAt(s, w, h, o) != EMPTY && m == Component(s, w, h, o)) &&
      (forall q :: q in m ==> InBounds(q, w, h) && ColourAt(s, w, h, q) == ColourAt(s, w, h, o)) &&
      ClosedUnder(s, w, h, ColourAt(s, w, h, o), m)
  {
    var m := Matched(s, w, h, o);
    if m != {} {
      ComponentClosed(s, w, h, o);
      forall q | q in m ensures InBounds(q, w, h) && ColourAt(s, w, h, q) == ColourAt(s, w, h, o) {
        ComponentMonochrome(s, w, h, o, q);
      }
    }
  }

  /** A cell none of whose in-bounds neighbours has its colour is no match. */
  lemma IsolatedCellNoMatch(s: seq<Byte>, w: nat, h: nat, o: Point)
    requires |s| == w * h && InBounds(o, w, h)
    requires forall q :: Adjacent(o, q) && InBounds(q, w, h) ==> ColourAt(s, w, h, q) != ColourAt(s, w, h, o)
    ensures Matched(s, w, h, o) == {}
  {
    var c := ColourAt(s, w, h, o);
    ComponentLeast(s, w, h, o, {o});
    assert Component(s, w, h, o) == {o};
  }
}
