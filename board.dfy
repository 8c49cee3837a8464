/** Cells, coordinates and the row-major index arithmetic of the puzzle board,
    and the coordinate-pair hash used by the region sets. */
module Board {

  /** One cell of the board: an 8-bit value, a colour identifier or EMPTY. */
  type Byte = x: int | 0 <= x < 256

  /** An unsigned 32-bit integer. */
  type U32 = x: int | 0 <= x < 0x1_0000_0000

  /** Sentinel value of a cleared cell. */
  const EMPTY: Byte := 255

  /** Number of colours a board gets when the caller does not say. */
  const DEFAULT_COLORS: Byte := 5

  /** Every cell of s is EMPTY or a colour below colors. */
  predicate Palette(s: seq<Byte>, colors: Byte)
  {
    forall i :: 0 <= i < |s| ==> s[i] == EMPTY || s[i] < colors
  }

  /** Swapping two cells keeps every cell within the palette. */
  lemma PaletteSwap(s: seq<Byte>, colors: Byte, a: nat, b: nat)
    requires Palette(s, colors) && a < |s| && b < |s|
    ensures Palette(s[a := s[b]][b := s[a]], colors)
  {
  }

  /** Swapping two cells moves values without creating or losing any. */
  lemma SwapPermutes(s: seq<Byte>, a: nat, b: nat)
    requires a < |s| && b < |s|
    ensures multiset(s[a := s[b]][b := s[a]]) == multiset(s)
  {
  }

  /** A grid coordinate: column x, row y (row 0 is the top row). */
  datatype Point = Point(x: nat, y: nat)

  predicate InBounds(p: Point, w: nat, h: nat)
  {
    p.x < w && p.y < h
  }

  /** Every coordinate of a w-by-h board. */
  ghost function AllPoints(w: nat, h: nat): set<Point>
  {
    set x: nat, y: nat | x < w && y < h :: Point(x, y)
  }

  /** Row-major position of cell (x, y): row y starts at y * w. The position
      lies inside the w * h cells and gives back its column and row. */
  function Idx(w: nat, h: nat, x: nat, y: nat): (i: nat)
    requires x < w && y < h
    ensures i < w * h
    ensures i % w == x && i / w == y
  {
    IdxDivMod(w, h, x, y);
    y * w + x
  }

  lemma IdxDivMod(w: nat, h: nat, x: nat, y: nat)
    requires x < w && y < h
    ensures y * w + x < w * h
    ensures (y * w + x) % w == x && (y * w + x) / w == y
  {
    MulMonotone(y + 1, h, w);
    DivModUnique(y * w + x, w, y, x);
  }

  /** Every position of a w-by-h board is the index of exactly one cell. */
  lemma IdxOfPosition(w: nat, h: nat, i: nat)
    requires i < w * h
    ensures w > 0 && i % w < w && i / w < h
    ensures Idx(w, h, i % w, i / w) == i
  {
    assert w > 0;
    if i / w >= h {
      MulMonotone(h, i / w, w);
      assert false;
    }
  }

  /** Two boards that agree on every coordinate are equal. */
  lemma BoardsEqual(s: seq<Byte>, t: seq<Byte>, w: nat, h: nat)
    requires |s| == w * h && |t| == w * h
    requires forall c: nat, r: nat :: c < w && r < h ==> s[Idx(w, h, c, r)] == t[Idx(w, h, c, r)]
    ensures s == t
  {
    forall i | 0 <= i < |s|
      ensures s[i] == t[i]
    {
      IdxOfPosition(w, h, i);
    }
  }

  lemma MulMonotone(a: nat, b: nat, c: nat)
    requires a <= b
    ensures a * c <= b * c
  {
    assert b * c == a * c + (b - a) * c;
  }

  lemma DivModUnique(i: int, w: int, q: int, m: int)
    requires w > 0 && 0 <= m < w && i == q * w + m
    ensures i / w == q && i % w == m
  {
    var q', m' := i / w, i % w;
    if q' < q {
      MulMonotone(1, q - q', w);
      assert false;
    } else if q < q' {
      MulMonotone(1, q' - q, w);
      assert false;
    }
  }

  /** The hash of a coordinate pair: the first coordinate in the high 32 bits
      of a 64-bit word, the second in the low 32 bits. */
  function PairHash(first: bv32, second: bv32): (hash: bv64)
    ensures (hash >> 32) as bv32 == first
    ensures (hash & 0xFFFF_FFFF) as bv32 == second
  {
    ((first as bv64) << 32) | (second as bv64)
  }

  /** Distinct pairs never share a hash (with a 64-bit size_t). */
  lemma PairHashInjective(a: bv32, b: bv32, c: bv32, d: bv32)
    requires PairHash(a, b) == PairHash(c, d)
    ensures a == c && b == d
  {
  }
}
