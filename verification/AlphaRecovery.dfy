/** Recovering coverage and colour from two renders, over white and over black: the
    pixel loop of packaging/icon/rasterize.py, with exact division. */
module AlphaRecovery {
  import opened Basics
  import opened Bytes

  /** Python's `round` of n / d: to nearest, ties to even. */
  function Round(n: nat, d: nat): (r: nat)
    requires d > 0
  {
    var q, m := n / d, n % d;
    if 2 * m < d || (2 * m == d && q % 2 == 0) then q else q + 1
  }

  function Clamp(x: int): (r: Byte) {
    if x < 0 then 0 else if x > 255 then 255 else x
  }

  /** No byte is nearer. */
  lemma ClampIsNearest(x: int, b: Byte)
    ensures Abs(x - Clamp(x)) <= Abs(x - b)
  {
  }

  /** `r` is an integer nearest to n / d. */
  predicate Nearest(n: int, d: nat, r: int) {
    2 * Abs(r * d - n) <= d
  }

  lemma RoundIsNearest(n: nat, d: nat)
    requires d > 0
    ensures Nearest(n, d, Round(n, d))
    ensures 2 * Abs(Round(n, d) * d - n) == d ==> Round(n, d) % 2 == 0
  {
    var q, m := n / d, n % d;
    assert n == q * d + m;
    assert (q + 1) * d == q * d + d;
  }

  // ----- the code's pixel

  /** The sum of the three estimates of the coverage, rounded; before clamping. */
  function RawAlpha(white: seq<Byte>, black: seq<Byte>): (a: int)
    requires |white| >= 3 && |black| >= 3
  {
    (Estimate(white[0], black[0]) + Estimate(white[1], black[1]) + Estimate(white[2], black[2]) + 1) / 3
  }

  function Estimate(white: int, black: int): int { 255 - (white - black) }

  /** Rounding noise: the coverage is the whole number nearest to the mean of what the three
      channels say, 255 less the difference of the two renders each. So channels that are
      each one off, but not all the same way, still give the coverage. */
  lemma RawAlphaIsMean(white: seq<Byte>, black: seq<Byte>)
    requires |white| >= 3 && |black| >= 3
    ensures var less := (white[0] as int + white[1] + white[2]) - (black[0] as int + black[1] + black[2]);
            -1 <= 3 * (255 - RawAlpha(white, black)) - less <= 1
  {
  }

  function Scaled(b: nat): nat { b * 255 }

  function Colour(black: Byte, a: nat): (c: Byte)
    requires a > 0
  {
    Clamp(Round(Scaled(black), a))
  }

  /** The four bytes written for a pixel. */
  function Pixel(white: seq<Byte>, black: seq<Byte>): (px: seq<Byte>)
    requires |white| >= 3 && |black| >= 3
    ensures |px| == 4
  {
    var a := Clamp(RawAlpha(white, black));
    if a == 0 then [0, 0, 0, 0]
    else [Colour(black[0], a), Colour(black[1], a), Colour(black[2], a), a]
  }

  // ----- what the renders are

  /** A pixel of straight colour `c` and coverage `a` over the two backdrops, each
      channel rounded to a nearest byte. */
  predicate Rendered(c: int, a: int, white: int, black: int) {
    Nearest(c * a, 255, black) && Nearest(c * a + 255 * (255 - a), 255, white)
  }

  /** The two renders of a channel differ by exactly what shines through. */
  lemma Difference(c: Byte, a: Byte, white: Byte, black: Byte)
    requires Rendered(c, a, white, black)
    ensures white == black + 255 - a && black <= a
  {
    Times(c, 255, a);
    DifferenceOf(c * a, a, white, black);
  }

  /** The same with the product as a number of its own. */
  lemma DifferenceOf(ca: int, a: Byte, white: Byte, black: Byte)
    requires ca <= 255 * a
    requires 2 * Abs(black * 255 - ca) <= 255 && 2 * Abs(white * 255 - (ca + 255 * (255 - a))) <= 255
    ensures white == black + 255 - a && black <= a
  {
    var gap := white - black - (255 - a);
    assert 2 * Abs(255 * gap) <= 510;
  }

  /** A recovered channel: it composites to the very bytes rendered, and lies within
      255 / (2 a) + 1/2 of the original. */
  predicate Faithful(c: int, a: int, white: int, black: int, r: int) {
    Rendered(r, a, white, black) && 2 * (a * Abs(r - c)) <= 255 + a
  }

  /** The recovered channel, before any clamp. */
  lemma Recovered(c: Byte, a: Byte, white: Byte, black: Byte)
    requires Rendered(c, a, white, black) && a > 0
    ensures Round(Scaled(black), a) <= 255 && Faithful(c, a, white, black, Round(Scaled(black), a))
  {
    Difference(c, a, white, black);
    RoundIsNearest(Scaled(black), a);
    RoundBelow(black, a);
    var r := Round(Scaled(black), a);
    Errors(c * a, r * a, white, black, a);
    AbsScale(r, c, a);
  }

  /** The same with the products as numbers of their own. */
  lemma Errors(ca: int, ra: int, white: int, black: int, a: int)
    requires 2 * Abs(black * 255 - ca) <= 255 && 2 * Abs(ra - black * 255) <= a <= 255
    requires white == black + 255 - a
    ensures 2 * Abs(black * 255 - ra) <= 255
    ensures 2 * Abs(white * 255 - (ra + 255 * (255 - a))) <= 255
    ensures 2 * Abs(ra - ca) <= 255 + a
  {
  }

  lemma AbsScale(x: int, y: int, a: nat)
    ensures Abs(x * a - y * a) == a * Abs(x - y)
  {
    assert x * a - y * a == a * (x - y);
    if x >= y {
      assert a * (x - y) >= 0;
    } else {
      assert a * (x - y) == -(a * (y - x)) && a * (y - x) >= 0;
    }
  }

  lemma RoundBelow(b: nat, a: nat)
    requires a > 0 && b <= a
    ensures Round(Scaled(b), a) <= 255
  {
    var n := Scaled(b);
    var q, m := n / a, n % a;
    assert n == q * a + m;
    assert n <= 255 * a;
    if q >= 255 {
      Times(255, q, a);
      assert m == 0 && q * a == 255 * a;
      if q > 255 { Times(256, q, a); }
    }
  }

  lemma Times(x: int, y: int, a: nat)
    requires x <= y
    ensures x * a <= y * a
  {
  }

  /** For every colour and coverage: alpha comes back exactly, no clamp fires, the
      recovered pixel composites to the very bytes rendered, and each channel is
      within 255 / (2 a) + 1/2 of the original. */
  lemma PixelIsRecovered(c: seq<Byte>, a: Byte, white: seq<Byte>, black: seq<Byte>)
    requires |c| == 3 && |white| >= 3 && |black| >= 3
    requires forall k | 0 <= k < 3 :: Rendered(c[k], a, white[k], black[k])
    ensures RawAlpha(white, black) == a == Pixel(white, black)[3]
    ensures a > 0 ==> forall k | 0 <= k < 3 ::
              && Pixel(white, black)[k] == Round(Scaled(black[k]), a)
              && Faithful(c[k], a, white[k], black[k], Pixel(white, black)[k])
    ensures a == 0 ==> forall k | 0 <= k < 3 :: Rendered(Pixel(white, black)[k], a, white[k], black[k])
  {
    forall k | 0 <= k < 3 ensures white[k] == black[k] + 255 - a && black[k] <= a {
      Difference(c[k], a, white[k], black[k]);
    }
    if a > 0 {
      forall k | 0 <= k < 3
        ensures Round(Scaled(black[k]), a) <= 255 && Faithful(c[k], a, white[k], black[k], Round(Scaled(black[k]), a))
      {
        Recovered(c[k], a, white[k], black[k]);
      }
    }
  }

  // ----- the loop

  /** The pixels of two buffers of `chw` and `chb` bytes each. */
  function PixelOf(white: seq<Byte>, black: seq<Byte>, chw: nat, chb: nat, i: nat): seq<Byte>
    requires chw >= 3 && chb >= 3 && i * chw + 3 <= |white| && i * chb + 3 <= |black|
  {
    Pixel(white[i * chw..i * chw + 3], black[i * chb..i * chb + 3])
  }

  lemma Bounds(n: nat, ch: nat, size: nat, i: nat)
    requires i < n && ch >= 3 && n * ch <= size
    ensures i * ch + 3 <= size
  {
    Times(i + 1, n, ch);
    assert (i + 1) * ch == i * ch + ch;
  }

  /** The first `m` pixels of the output are written. */
  ghost predicate Painted(px: seq<Byte>, white: seq<Byte>, black: seq<Byte>, chw: nat, chb: nat, m: nat)
    requires chw >= 3 && chb >= 3
  {
    forall i | 0 <= i < m ::
      && i * chw + 3 <= |white| && i * chb + 3 <= |black| && 4 * i + 4 <= |px|
      && px[4 * i..4 * i + 4] == PixelOf(white, black, chw, chb, i)
  }

  lemma PaintedNext(px: seq<Byte>, was: seq<Byte>, white: seq<Byte>, black: seq<Byte>, chw: nat, chb: nat, m: nat)
    requires chw >= 3 && chb >= 3 && Painted(was, white, black, chw, chb, m)
    requires |px| == |was| >= 4 * m + 4 && px[..4 * m] == was[..4 * m]
    requires m * chw + 3 <= |white| && m * chb + 3 <= |black|
    requires px[4 * m..4 * m + 4] == PixelOf(white, black, chw, chb, m)
    ensures Painted(px, white, black, chw, chb, m + 1)
  {
    forall i | 0 <= i < m ensures px[4 * i..4 * i + 4] == was[4 * i..4 * i + 4] {
      assert px[4 * i..4 * i + 4] == px[..4 * m][4 * i..4 * i + 4];
      assert was[4 * i..4 * i + 4] == was[..4 * m][4 * i..4 * i + 4];
    }
  }

  /** The pixel loop over two buffers, each with its own channel count. */
  method RecoverPixels(white: seq<Byte>, black: seq<Byte>, chw: nat, chb: nat, n: nat) returns (px: array<Byte>)
    requires chw >= 3 && chb >= 3 && n * chw <= |white| && n * chb <= |black|
    ensures fresh(px) && px.Length == 4 * n && Painted(px[..], white, black, chw, chb, n)
  {
    px := new Byte[4 * n](_ => 0);
    for i := 0 to n
      invariant Painted(px[..], white, black, chw, chb, i)
      invariant forall k | 4 * i <= k < 4 * n :: px[k] == 0
    {
      Bounds(n, chw, |white|, i);
      Bounds(n, chb, |black|, i);
      ghost var was := px[..];
      RecoverOne(px, white[i * chw..i * chw + 3], black[i * chb..i * chb + 3], 4 * i);
      PaintedNext(px[..], was, white, black, chw, chb, i);
      forall k | 4 * i + 4 <= k < 4 * n ensures px[k] == 0 {
        assert px[k] == px[4 * i + 4..][k - 4 * i - 4] && was[k] == was[4 * i + 4..][k - 4 * i - 4];
      }
    }
  }

  /** The sum loop, then rounding and clamping. */
  method AlphaOf(white: seq<Byte>, black: seq<Byte>) returns (alpha: Byte)
    requires |white| == 3 && |black| == 3
    ensures alpha == Clamp(RawAlpha(white, black))
  {
    var a := 0;
    for c := 0 to 3
      invariant a == (if c > 0 then Estimate(white[0], black[0]) else 0)
                   + (if c > 1 then Estimate(white[1], black[1]) else 0)
                   + if c > 2 then Estimate(white[2], black[2]) else 0
    {
      a := a + Estimate(white[c], black[c]);
    }
    alpha := Clamp((a + 1) / 3);
  }

  method RecoverOne(px: array<Byte>, white: seq<Byte>, black: seq<Byte>, o: nat)
    requires |white| == 3 && |black| == 3 && o + 4 <= px.Length
    requires forall k | o <= k < px.Length :: px[k] == 0
    modifies px
    ensures px[..o] == old(px[..o]) && px[o + 4..] == old(px[o + 4..])
    ensures px[o..o + 4] == Pixel(white, black)
  {
    var alpha := AlphaOf(white, black);
    px[o + 3] := alpha;
    if alpha != 0 {
      for c := 0 to 3
        invariant px[..o] == old(px[..o]) && px[o + 4..] == old(px[o + 4..]) && px[o + 3] == alpha
        invariant forall k | 0 <= k < c :: px[o + k] == Colour(black[k], alpha)
      {
        px[o + c] := Clamp(Round(Scaled(black[c]), alpha));
      }
      assert px[o + 0] == Colour(black[0], alpha);
      assert px[o + 1] == Colour(black[1], alpha);
      assert px[o + 2] == Colour(black[2], alpha);
    }
    FourBytes(px[o..o + 4], Pixel(white, black));
  }

  lemma FourBytes(a: seq<Byte>, b: seq<Byte>)
    requires |a| == |b| == 4 && a[0] == b[0] && a[1] == b[1] && a[2] == b[2] && a[3] == b[3]
    ensures a == b
  {
  }
}
