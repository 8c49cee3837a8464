/** The colour modulator: a colour that sweeps back and forth between a low
    and a high RGBA colour, one step per frame. */
module Modulation {
  import opened Board

  /** A signed 32-bit integer. */
  type I32 = x: int | -0x8000_0000 <= x < 0x8000_0000

  /** The largest speed for which update's arithmetic stays inside 32-bit
      signed integers: 255 * (speed - 1) and 2 * speed - 2 both fit. */
  const MAX_SPEED: int := 8421505

  /** A colour: red, green, blue and alpha bytes. */
  datatype Rgba = Rgba(r: Byte, g: Byte, b: Byte, a: Byte)

  /** Byte k of a packed 32-bit word, (word >> 8k) & 0xFF: shifting right
      by 8 bits is taking the quotient by 256, masking with 0xFF the
      remainder. */
  function Channel(word: nat, k: nat): (c: Byte)
  {
    if k == 0 then word % 256 else Channel(word / 256, k - 1)
  }

  /** A packed word read as red (byte 0), green, blue, alpha (byte 3):
      packing the four bytes again gives the word back. */
  function Unpack(word: U32): (c: Rgba)
    ensures Pack(c) == word
  {
    ChannelsPack(word);
    Rgba(Channel(word, 0), Channel(word, 1), Channel(word, 2), Channel(word, 3))
  }

  /** A colour packed back into one word, red in the low byte: the sum of
      channel k shifted left by 8k bits. */
  function Pack(c: Rgba): (word: U32)
  {
    c.r + 256 * (c.g + 256 * (c.b + 256 * c.a))
  }

  /** The four bytes of a word, packed again, give the word. */
  lemma ChannelsPack(word: U32)
    ensures Pack(Rgba(Channel(word, 0), Channel(word, 1), Channel(word, 2), Channel(word, 3))) == word
  {
    var q1 := word / 256;
    var q2 := q1 / 256;
    var q3 := q2 / 256;
    assert word == 256 * q1 + word % 256;
    assert q1 == 256 * q2 + q1 % 256;
    assert q2 == 256 * q3 + q2 % 256;
    assert q3 < 256;
    DivModUnique(q3, 256, 0, q3);
    assert Channel(word, 1) == q1 % 256 by {
      assert Channel(word, 1) == Channel(q1, 0);
    }
    assert Channel(word, 2) == q2 % 256 by {
      assert Channel(word, 2) == Channel(q1, 1) == Channel(q2, 0);
    }
    assert Channel(word, 3) == q3 by {
      assert Channel(word, 3) == Channel(q1, 2) == Channel(q2, 1) == Channel(q3, 0);
    }
  }

  /** Packing a colour and unpacking the word gives the colour back. */
  lemma UnpackPack(c: Rgba)
    ensures Unpack(Pack(c)) == c
  {
    var hi3: int := c.a;
    var hi2: int := c.b + 256 * hi3;
    var hi1: int := c.g + 256 * hi2;
    DivModUnique(Pack(c), 256, hi1, c.r);
    DivModUnique(hi1, 256, hi2, c.g);
    DivModUnique(hi2, 256, hi3, c.b);
    DivModUnique(hi3, 256, 0, c.a);
    assert Channel(Pack(c), 1) == Channel(hi1, 0);
    assert Channel(Pack(c), 2) == Channel(hi1, 1) == Channel(hi2, 0);
    assert Channel(Pack(c), 3) == Channel(hi1, 2) == Channel(hi2, 1) == Channel(hi3, 0);
  }

  /** C++ integer division: the quotient rounded toward zero. */
  function TruncDiv(a: int, d: int): (q: int)
    requires d > 0
    ensures a >= 0 ==> 0 <= q && q * d <= a < q * d + d
    ensures a < 0 ==> q <= 0 && q * d - d < a <= q * d
  {
    TruncDivBounds(a, d);
    if a >= 0 then a / d else -((-a) / d)
  }

  lemma TruncDivBounds(a: int, d: int)
    requires d > 0
    ensures a >= 0 ==> 0 <= a / d && (a / d) * d <= a < (a / d) * d + d
    ensures a < 0 ==> var q := (-a) / d; 0 <= q && (-q) * d - d < a <= (-q) * d
  {
    if a >= 0 {
      DivBounds(a, d);
    } else {
      var q := (-a) / d;
      DivBounds(-a, d);
      assert (-q) * d == -(q * d);
    }
  }

  /** The quotient of n by d, rounded down, times d lies within d of n. */
  lemma DivBounds(n: nat, d: int)
    requires d > 0
    ensures 0 <= n / d && (n / d) * d <= n < (n / d) * d + d
  {
    var q, m := n / d, n % d;
    assert n == q * d + m && 0 <= m < d;
  }

  /** The counter's period: update goes round 2 * speed - 2 values. */
  function Period(speed: int): int
  {
    2 * speed - 2
  }

  /** What update does to the counter: one step round the period. */
  function NextCount(count: int, speed: int): (next: int)
    requires 2 <= speed && 0 <= count < Period(speed)
    ensures 0 <= next < Period(speed)
    ensures next == if count + 1 == Period(speed) then 0 else count + 1
  {
    ModStep(count, Period(speed));
    DivModUnique(count, Period(speed), 0, count);
    (count + 1) % Period(speed)
  }

  /** k updates from count. */
  function Advance(count: int, speed: int, k: nat): (c: int)
    requires 2 <= speed && 0 <= count < Period(speed)
    ensures 0 <= c < Period(speed)
  {
    if k == 0 then count else NextCount(Advance(count, speed, k - 1), speed)
  }

  /** k updates move the counter k places round the period. */
  lemma {:induction false} AdvanceMod(count: int, speed: int, k: nat)
    requires 2 <= speed && 0 <= count < Period(speed)
    ensures Advance(count, speed, k) == (count + k) % Period(speed)
  {
    if k > 0 {
      var p, n: nat := Period(speed), count + k - 1;
      AdvanceMod(count, speed, k - 1);
      var prev := Advance(count, speed, k - 1);
      assert prev == n % p;
      ModStep(n, p);
      assert Advance(count, speed, k) == if prev + 1 == p then 0 else prev + 1;
    }
  }

  /** Adding one to n adds one to its remainder, wrapping at m. */
  lemma ModStep(n: nat, m: int)
    requires m > 0
    ensures (n + 1) % m == if n % m + 1 == m then 0 else n % m + 1
  {
    var q, c := n / m, n % m;
    assert n == q * m + c;
    if c + 1 < m {
      DivModUnique(n + 1, m, q, c + 1);
    } else {
      assert n + 1 == (q + 1) * m;
      DivModUnique(n + 1, m, q + 1, 0);
    }
  }

  /** A full period of updates brings the counter back. */
  lemma AdvancePeriod(count: int, speed: int)
    requires 2 <= speed && 0 <= count < Period(speed)
    ensures Advance(count, speed, Period(speed)) == count
  {
    AdvanceShift(count, speed, 0);
  }

  /** Updates repeat with the period: k + Period(speed) updates leave the
      counter where k updates do. */
  lemma AdvanceShift(count: int, speed: int, k: nat)
    requires 2 <= speed && 0 <= count < Period(speed)
    ensures Advance(count, speed, k + Period(speed)) == Advance(count, speed, k)
  {
    AdvanceMod(count, speed, k);
    AdvanceMod(count, speed, k + Period(speed));
    ModPlus(count + k, Period(speed));
  }

  /** Adding the modulus leaves the remainder unchanged. */
  lemma ModPlus(n: nat, m: int)
    requires m > 0
    ensures (n + m) % m == n % m
  {
    var q, c := n / m, n % m;
    assert n == q * m + c;
    assert n + m == (q + 1) * m + c;
    DivModUnique(n + m, m, q + 1, c);
  }

  /** The interpolation step for counter value count: count / speed picks the
      rising or the falling half, count % speed the place in it. */
  function Step(count: int, speed: int): (step: int)
    requires 2 <= speed && 0 <= count < Period(speed)
    ensures 0 <= step < speed
  {
    var decrease := count / speed != 0;
    var step := count % speed;
    if decrease then speed - 2 - step else step
  }

  /** The step is a triangle wave: it rises 0, 1, .., speed - 1 and falls
      back speed - 2, .., 1 as the counter goes round. */
  lemma StepIsTriangle(count: int, speed: int)
    requires 2 <= speed && 0 <= count < Period(speed)
    ensures Step(count, speed) == if count < speed then count else Period(speed) - count
  {
    if count >= speed {
      DivModUnique(count, speed, 1, count - speed);
    } else {
      DivModUnique(count, speed, 0, count);
    }
  }

  /** One channel at step of speed: lo + (hi - lo) * step / speed with C++
      division. It lies between lo and hi, is lo at step 0, and, as step stays
      below speed, reaches hi only when lo == hi. */
  function Lerp(lo: Byte, hi: Byte, step: int, speed: int): (c: Byte)
    requires 0 <= step < speed
    ensures lo <= hi ==> lo <= c <= hi
    ensures hi <= lo ==> hi <= c <= lo
    ensures step == 0 ==> c == lo
    ensures c == hi ==> lo == hi
  {
    var q := TruncDiv((hi - lo) * step, speed);
    LerpBounds(lo, hi, step, speed, q);
    lo + q
  }

  lemma LerpBounds(lo: Byte, hi: Byte, step: int, speed: int, q: int)
    requires 0 <= step < speed && q == TruncDiv((hi - lo) * step, speed)
    ensures lo <= hi ==> 0 <= q <= hi - lo
    ensures hi <= lo ==> hi - lo <= q <= 0
    ensures q == hi - lo ==> lo == hi
  {
    var st: nat := step;
    if lo <= hi {
      var d: nat := hi - lo;
      MulMonotone(0, d, st);
      assert (hi - lo) * step == d * st;
      QuotientBound(d, st, speed);
    } else {
      var d: nat := lo - hi;
      MulMonotone(0, d, st);
      NegMul(d, st);
      assert (hi - lo) * step == -(d * st);
      QuotientBound(d, st, speed);
    }
  }

  lemma NegMul(x: int, y: int)
    ensures (-x) * y == -(x * y)
  {
  }

  /** A fraction step / speed below one of d, rounded down, is below d
      unless d is 0. */
  lemma QuotientBound(d: nat, step: nat, speed: int)
    requires step < speed
    ensures 0 <= (d * step) / speed <= d
    ensures d > 0 ==> (d * step) / speed < d
  {
    var q := (d * step) / speed;
    MulMonotone(step + 1, speed, d);
    assert (step + 1) * d == d * step + d && speed * d == d * speed;
    assert q * speed <= d * step;
    if d > 0 && q >= d {
      MulMonotone(d, q, speed);
      assert false;
    }
  }

  /** Every channel of the colour at step of speed: the colour lies between
      low and high and is low at step 0. */
  function Blend(low: Rgba, high: Rgba, step: int, speed: int): (c: Rgba)
    requires 0 <= step < speed
    ensures Between(c, low, high)
    ensures step == 0 ==> c == low
  {
    Rgba(Lerp(low.r, high.r, step, speed), Lerp(low.g, high.g, step, speed),
         Lerp(low.b, high.b, step, speed), Lerp(low.a, high.a, step, speed))
  }

  /** c lies between low and high, channel by channel. */
  predicate Between(c: Rgba, low: Rgba, high: Rgba)
  {
    (low.r <= c.r <= high.r || high.r <= c.r <= low.r) &&
    (low.g <= c.g <= high.g || high.g <= c.g <= low.g) &&
    (low.b <= c.b <= high.b || high.b <= c.b <= low.b) &&
    (low.a <= c.a <= high.a || high.a <= c.a <= low.a)
  }

  /** The colour after k >= 1 updates from counter value count is the blend
      at the counter's step, so it too repeats with the period. */
  lemma ColourPeriodic(low: Rgba, high: Rgba, count: int, speed: int, k: nat)
    requires 2 <= speed && 0 <= count < Period(speed)
    ensures Blend(low, high, Step(Advance(count, speed, k + Period(speed)), speed), speed)
         == Blend(low, high, Step(Advance(count, speed, k), speed), speed)
  {
    AdvanceShift(count, speed, k);
  }

  /** Right after construction or set the colour is the min colour, the blend
      at step 0, while the counter starts half way, at speed / 2. So the first
      update jumps to step speed / 2 + 1, and a full period later the step is
      speed / 2 again, not 0: the starting colour is not part of the sweep. */
  lemma StartMidSweep(speed: int)
    requires 3 <= speed
    ensures 0 <= TruncDiv(speed, 2) < Period(speed)
    ensures Step(NextCount(TruncDiv(speed, 2), speed), speed) == TruncDiv(speed, 2) + 1
    ensures Step(Advance(TruncDiv(speed, 2), speed, Period(speed)), speed) == TruncDiv(speed, 2)
  {
    var half := TruncDiv(speed, 2);
    AdvancePeriod(half, speed);
    DivModUnique(half, speed, 0, half);
    DivModUnique(half + 1, speed, 0, half + 1);
  }

  /** The modulator's state. The source keeps each colour as four separate
      byte fields (r, g, b, a; minr, ..; maxr, ..); here each colour is one
      Rgba field. */
  class ColorModulation {
    var colour: Rgba
    var low: Rgba
    var high: Rgba
    var speed: I32
    var count: I32

    /** update may run: the speed gives a positive period without overflow,
        and the counter lies inside the period. */
    predicate Ready()
      reads this
    {
      2 <= speed <= MAX_SPEED && 0 <= count < Period(speed)
    }

    /** A modulator from packed colours min and max at speed spd. */
    constructor (modulateMin: U32, modulateMax: U32, spd: I32)
      ensures colour == low == Unpack(modulateMin) && high == Unpack(modulateMax)
      ensures speed == spd && count == TruncDiv(spd, 2)
      ensures 2 <= spd <= MAX_SPEED ==> Ready()
    {
      low := Unpack(modulateMin);
      colour := low;
      high := Unpack(modulateMax);
      speed := spd;
      count := TruncDiv(spd, 2);
    }

    /** Restart the sweep between packed colours min and max at speed spd. */
    method Set(min: U32, max: U32, spd: I32)
      modifies this
      ensures colour == low == Unpack(min) && high == Unpack(max)
      ensures speed == spd && count == TruncDiv(spd, 2)
      ensures 2 <= spd <= MAX_SPEED ==> Ready()
    {
      low := Unpack(min);
      colour := low;
      high := Unpack(max);
      speed := spd;
      count := TruncDiv(spd, 2);
    }

    /** One frame: the counter steps round its period and every channel is
        set to its point of the sweep between low and high. */
    method Update()
      requires Ready()
      modifies this
      ensures Ready() && speed == old(speed) && low == old(low) && high == old(high)
      ensures count == NextCount(old(count), speed)
      ensures colour == Blend(low, high, Step(count, speed), speed)
      ensures Between(colour, low, high)
    {
      count := NextCount(count, speed);
      colour := Blend(low, high, Step(count, speed), speed);
    }
  }
}
