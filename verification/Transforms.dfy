/** The two stages of par2repair/forney.rs as they are computed: the first by cyclic
    convolution of segments over an odd root of unity, the second by splitting the exponent
    into its residues. */
module Transforms {
  import opened Basics
  import opened CharTwo
  import opened Vandermonde
  import opened Sums

  // ----- cyclic convolution

  /** A transform of `b` entries, at point `k`. */
  function Transform<E(!new)>(f: Field<E>, w: E, b: nat, h: nat -> E, k: nat): E {
    Sum(f, b, Waves(f, w, h, k))
  }

  function Waves<E(!new)>(f: Field<E>, w: E, h: nat -> E, k: nat): nat -> E {
    (r: nat) => f.mul(Power(f, w, k * r), h(r))
  }

  /** Shifted by `m` and summed over all points, a full transform gives one entry back. */
  lemma Inversion<E(!new)>(f: Field<E>, w: E, n: nat, y: nat -> E, m: nat, u: nat, rows: nat -> E)
    requires f.Lawful() && IsRoot(f, w, n) && u < n && m + u == n
    requires forall k: nat | k < n :: rows(k) == f.mul(Power(f, w, k * m), Transform(f, w, n, y, k))
    ensures Sum(f, n, rows) == y(u)
  {
    InversionRows(f, w, n, y, m, rows);
    InversionColumns(f, w, n, y, m, u);
    RowsAreColumns(f, n, n, rows, InversionGrid(f, w, y, m), OnlyAt(f, y, u));
    SumOne(f, n, OnlyAt(f, y, u), u);
  }

  function InversionGrid<E(!new)>(f: Field<E>, w: E, y: nat -> E, m: nat): (nat, nat) -> E {
    (k: nat, r: nat) => f.mul(y(r), Power(f, w, k * (m + r)))
  }

  function OnlyAt<E(!new)>(f: Field<E>, y: nat -> E, u: nat): nat -> E {
    (r: nat) => if r == u then y(u) else f.zero
  }

  lemma InversionRows<E(!new)>(f: Field<E>, w: E, n: nat, y: nat -> E, m: nat, rows: nat -> E)
    requires f.Lawful()
    requires forall k: nat | k < n :: rows(k) == f.mul(Power(f, w, k * m), Transform(f, w, n, y, k))
    ensures forall k: nat | k < n :: rows(k) == Sum(f, n, RowOf(InversionGrid(f, w, y, m), k))
  {
    forall k: nat | k < n ensures rows(k) == Sum(f, n, RowOf(InversionGrid(f, w, y, m), k)) {
      InversionRow(f, w, n, y, m, k, RowOf(InversionGrid(f, w, y, m), k));
    }
  }

  lemma InversionColumns<E(!new)>(f: Field<E>, w: E, n: nat, y: nat -> E, m: nat, u: nat)
    requires f.Lawful() && IsRoot(f, w, n) && u < n && m + u == n
    ensures forall r: nat | r < n :: OnlyAt(f, y, u)(r) == Sum(f, n, ColumnOf(InversionGrid(f, w, y, m), r))
  {
    forall r: nat | r < n ensures OnlyAt(f, y, u)(r) == Sum(f, n, ColumnOf(InversionGrid(f, w, y, m), r)) {
      InversionColumn(f, w, n, y(r), m, r, u, ColumnOf(InversionGrid(f, w, y, m), r));
    }
  }

  lemma OneResidue(n: nat, m: nat, u: nat, r: nat)
    requires u < n && r < n && m + u == n
    ensures (m + r) % n == 0 <==> r == u
  {
    if (m + r) % n == 0 {
      var b := (m + r) / n;
      assert m + r == n * b;
      assert r - u == n * (b - 1);
      FarApart(n, b - 1);
    }
  }

  lemma InversionRow<E(!new)>(f: Field<E>, w: E, n: nat, y: nat -> E, m: nat, k: nat, scaled: nat -> E)
    requires f.Lawful() && forall r: nat | r < n :: scaled(r) == f.mul(y(r), Power(f, w, k * (m + r)))
    ensures f.mul(Power(f, w, k * m), Transform(f, w, n, y, k)) == Sum(f, n, scaled)
  {
    var c := Power(f, w, k * m);
    forall r: nat | r < n ensures scaled(r) == f.mul(c, Waves(f, w, y, k)(r)) {
      PowerOfSum(f, w, k, m, r);
      var p := Power(f, w, k * r);
      assert f.At(y(r), f.mul(c, p), p) && f.At(c, p, y(r));
    }
    SumScales(f, n, c, Waves(f, w, y, k), scaled);
  }

  lemma PowerOfSum<E(!new)>(f: Field<E>, w: E, k: nat, m: nat, r: nat)
    requires f.Lawful()
    ensures Power(f, w, k * (m + r)) == f.mul(Power(f, w, k * m), Power(f, w, k * r))
  {
    assert k * (m + r) == k * m + k * r;
    PowerAdds(f, w, k * m, k * r);
  }

  lemma InversionColumn<E(!new)>(f: Field<E>, w: E, n: nat, c: E, m: nat, r: nat, u: nat, h: nat -> E)
    requires f.Lawful() && IsRoot(f, w, n) && u < n && r < n && m + u == n
    requires forall k: nat | k < n :: h(k) == f.mul(c, Power(f, w, k * (m + r)))
    ensures Sum(f, n, h) == if r == u then c else f.zero
  {
    SumScales(f, n, c, Steps(f, w, m + r), h);
    RootsCancel(f, w, n, m + r);
    assert f.At(c, f.one, f.one) && f.At(c, f.zero, f.zero);
    OneResidue(n, m, u, r);
  }

  /** One output of a cyclic convolution, by way of the spectra: transform both, multiply
      point by point, transform back with exponent `m`. */
  function Spectral<E(!new)>(f: Field<E>, w: E, n: nat, b: nat, x: nat -> E, y: nat -> E, m: nat): E {
    Sum(f, n, SpectralTerms(f, w, n, b, x, y, m))
  }

  function SpectralTerms<E(!new)>(f: Field<E>, w: E, n: nat, b: nat, x: nat -> E, y: nat -> E, m: nat): nat -> E {
    (k: nat) => f.mul(Power(f, w, k * m), f.mul(Transform(f, w, b, x, k), Transform(f, w, n, y, k)))
  }

  /** With at most `v + 1` entries on the left nothing wraps around: the way back to output
      `v` gives the sum of `x[r] y[v - r]`. */
  lemma Convolves<E(!new)>(f: Field<E>, w: E, n: nat, b: nat, x: nat -> E, y: nat -> E, m: nat, v: nat,
      product: nat -> E)
    requires f.Lawful() && IsRoot(f, w, n) && v < n && b <= v + 1 && m + v == n
    requires forall r: nat | r < b :: product(r) == f.mul(x(r), y(v - r))
    ensures Spectral(f, w, n, b, x, y, m) == Sum(f, b, product)
  {
    SpectralRows(f, w, n, b, x, y, m);
    SpectralColumns(f, w, n, b, x, y, m, v, product);
    RowsAreColumns(f, n, b, SpectralTerms(f, w, n, b, x, y, m), SpectralGrid(f, w, n, x, y, m), product);
  }

  /** The terms one by one, points down and entries across. */
  function SpectralGrid<E(!new)>(f: Field<E>, w: E, n: nat, x: nat -> E, y: nat -> E, m: nat): (nat, nat) -> E {
    (k: nat, r: nat) => f.mul(x(r), f.mul(Power(f, w, k * (m + r)), Transform(f, w, n, y, k)))
  }

  lemma SpectralRows<E(!new)>(f: Field<E>, w: E, n: nat, b: nat, x: nat -> E, y: nat -> E, m: nat)
    requires f.Lawful()
    ensures var h := SpectralGrid(f, w, n, x, y, m);
            forall k: nat | k < n :: SpectralTerms(f, w, n, b, x, y, m)(k) == Sum(f, b, RowOf(h, k))
  {
    var h := SpectralGrid(f, w, n, x, y, m);
    forall k: nat | k < n ensures SpectralTerms(f, w, n, b, x, y, m)(k) == Sum(f, b, RowOf(h, k)) {
      SpectralRow(f, w, m, b, x, Transform(f, w, n, y, k), k, RowOf(h, k));
    }
  }

  lemma SpectralColumns<E(!new)>(f: Field<E>, w: E, n: nat, b: nat, x: nat -> E, y: nat -> E, m: nat, v: nat,
      product: nat -> E)
    requires f.Lawful() && IsRoot(f, w, n) && v < n && b <= v + 1 && m + v == n
    requires forall r: nat | r < b :: product(r) == f.mul(x(r), y(v - r))
    ensures var h := SpectralGrid(f, w, n, x, y, m); forall r: nat | r < b :: product(r) == Sum(f, n, ColumnOf(h, r))
  {
    var h := SpectralGrid(f, w, n, x, y, m);
    forall r: nat | r < b ensures product(r) == Sum(f, n, ColumnOf(h, r)) {
      SpectralColumn(f, w, n, x(r), y, m + r, v - r, ColumnOf(h, r));
    }
  }

  lemma SpectralRow<E(!new)>(f: Field<E>, w: E, m: nat, b: nat, x: nat -> E, z: E, k: nat, h: nat -> E)
    requires f.Lawful() && forall r: nat | r < b :: h(r) == f.mul(x(r), f.mul(Power(f, w, k * (m + r)), z))
    ensures f.mul(Power(f, w, k * m), f.mul(Transform(f, w, b, x, k), z)) == Sum(f, b, h)
  {
    var c := Power(f, w, k * m);
    var s := Transform(f, w, b, x, k);
    assert f.At(s, z, z) && f.At(c, z, s);
    forall r: nat | r < b ensures h(r) == f.mul(f.mul(c, z), Waves(f, w, x, k)(r)) {
      SpectralEntry(f, w, m, x(r), z, k, r);
    }
    SumScales(f, b, f.mul(c, z), Waves(f, w, x, k), h);
  }

  lemma SpectralEntry<E(!new)>(f: Field<E>, w: E, m: nat, x: E, z: E, k: nat, r: nat)
    requires f.Lawful()
    ensures f.mul(x, f.mul(Power(f, w, k * (m + r)), z))
         == f.mul(f.mul(Power(f, w, k * m), z), f.mul(Power(f, w, k * r), x))
  {
    PowerOfSum(f, w, k, m, r);
    FourFactors(f, x, Power(f, w, k * m), Power(f, w, k * r), z);
  }

  lemma FourFactors<E(!new)>(f: Field<E>, x: E, c: E, p: E, z: E)
    requires f.Lawful()
    ensures f.mul(x, f.mul(f.mul(c, p), z)) == f.mul(f.mul(c, z), f.mul(p, x))
  {
    assert f.At(c, p, z) && f.At(p, z, z) && f.At(c, z, p);
    MulSwap(f, x, f.mul(c, z), p);
    assert f.At(x, p, p);
  }

  function BackTerms<E(!new)>(f: Field<E>, w: E, n: nat, y: nat -> E, m: nat): nat -> E {
    (k: nat) => f.mul(Power(f, w, k * m), Transform(f, w, n, y, k))
  }

  lemma SpectralColumn<E(!new)>(f: Field<E>, w: E, n: nat, c: E, y: nat -> E, m: nat, u: nat, h: nat -> E)
    requires f.Lawful() && IsRoot(f, w, n) && u < n && m + u == n
    requires forall k: nat | k < n :: h(k) == f.mul(c, f.mul(Power(f, w, k * m), Transform(f, w, n, y, k)))
    ensures Sum(f, n, h) == f.mul(c, y(u))
  {
    var inner := BackTerms(f, w, n, y, m);
    SumScales(f, n, c, inner, h);
    Inversion(f, w, n, y, m, u, inner);
  }

  // ----- stage one, by segments

  /** An entry, zero past the end. */
  function Entry<E(!new)>(f: Field<E>, v: seq<E>, i: nat): E {
    if i < |v| then v[i] else f.zero
  }

  /** Input segment `j` of `b` syndromes. */
  function Segment<E(!new)>(f: Field<E>, s: seq<E>, b: nat, j: nat): nat -> E {
    (r: nat) => Entry(f, s, j * b + r)
  }

  /** The reversed kernel of distance `d`: `R_d[w] = p[d b + 2 b - 1 - w]`. */
  function Kernel<E(!new)>(f: Field<E>, p: seq<E>, b: nat, d: nat): nat -> E {
    (w: nat) => if w < d * b + 2 * b then Entry(f, p, d * b + 2 * b - 1 - w) else f.zero
  }

  /** Output `t` of segment `i`: the products of spectra, of the input segments that are left
      and the kernels, are summed point by point and transformed back once. */
  function Output<E(!new)>(f: Field<E>, w: E, s: seq<E>, p: seq<E>, b: nat, segments: nat, i: nat, t: nat): E
    requires i < segments && t < b
  {
    Sum(f, 2 * b - 1, OutputTerms(f, w, s, p, b, segments - i, i, t))
  }

  function OutputTerms<E(!new)>(f: Field<E>, w: E, s: seq<E>, p: seq<E>, b: nat, left: nat, i: nat, t: nat): nat -> E
    requires b > 0
  {
    (k: nat) => f.mul(Power(f, w, k * (t + 1)), Spectrum(f, w, s, p, b, left, i, k))
  }

  /** The exponent of the way back to output `v`, `-k v` modulo the length. */
  lemma WayBack<E(!new)>(f: Field<E>, w: E, n: nat, k: nat, v: nat, m: nat)
    requires f.Lawful() && n > 0 && Power(f, w, n) == f.one && m + v == n
    ensures Power(f, w, (n - k * v % n) % n) == Power(f, w, k * m)
  {
    Opposite(n, k, v, m);
    PowerPeriod(f, w, n, k * m, k * m % n, k * m / n);
  }

  lemma Opposite(n: nat, k: nat, v: nat, m: nat)
    requires n > 0 && m + v == n
    ensures k * m % n == (n - k * v % n) % n
  {
    assert k * m + k * v == n * k;
    OppositeResidues(n, k, k * m, k * v);
  }

  lemma OppositeResidues(n: nat, k: nat, x: nat, y: nat)
    requires n > 0 && x + y == n * k
    ensures x % n == (n - y % n) % n
  {
    var q, r := Divided(y, n);
    OppositeParts(n, k, x, q, r);
    ResidueIs(0, n, 0, 0);
    if r > 0 {
      ResidueIs(n - r, n, 0, n - r);
    } else {
      ResidueIs(n, n, 1, 0);
    }
  }

  lemma OppositeParts(n: nat, k: nat, x: nat, q: nat, r: nat)
    requires r < n && x + (n * q + r) == n * k
    ensures x % n == if r == 0 then 0 else n - r
  {
    if r == 0 {
      assert n * (k - q) == n * k - n * q;
      ResidueIs(x, n, k - q, 0);
    } else {
      assert n * (k - q - 1) == n * k - n * q - n;
      ResidueIs(x, n, k - q - 1, n - r);
    }
  }

  lemma ResidueIs(x: nat, n: nat, a: int, c: nat)
    requires c < n && x == n * a + c
    ensures x % n == c
  {
    var b := x / n;
    assert x == n * b + x % n;
    assert c - x % n == n * (b - a);
    FarApart(n, b - a);
  }

  /** The product of two spectra at a point. */
  function Pair<E(!new)>(f: Field<E>, w: E, s: seq<E>, p: seq<E>, b: nat, i: nat, j: nat, k: nat): E
    requires b > 0
  {
    f.mul(Transform(f, w, b, Segment(f, s, b, j), k), Transform(f, w, 2 * b - 1, Kernel(f, p, b, i + j), k))
  }

  function Pairs<E(!new)>(f: Field<E>, w: E, s: seq<E>, p: seq<E>, b: nat, i: nat, k: nat): nat -> E
    requires b > 0
  {
    (j: nat) => Pair(f, w, s, p, b, i, j, k)
  }

  function Spectrum<E(!new)>(f: Field<E>, w: E, s: seq<E>, p: seq<E>, b: nat, left: nat, i: nat, k: nat): E
    requires b > 0
  {
    Sum(f, left, Pairs(f, w, s, p, b, i, k))
  }

  /** One term of the Hankel sum `d` places down. */
  function Term<E(!new)>(f: Field<E>, s: seq<E>, p: seq<E>, d: nat): nat -> E {
    (n: nat) => f.mul(Entry(f, s, n), Entry(f, p, n + d + 1))
  }

  lemma {:induction false} DotIsSum<E(!new)>(f: Field<E>, s: seq<E>, q: seq<E>, h: nat -> E)
    requires f.Lawful() && |s| == |q| && forall n: nat | n < |s| :: h(n) == f.mul(s[n], q[n])
    ensures Dot(f, s, q) == Sum(f, |s|, h)
    decreases |s|
  {
    if s != [] {
      var m := |s| - 1;
      DotIsSum(f, s[..m], q[..m], h);
      DotSnoc(f, s[..m], s[m], q[..m], q[m]);
      assert s[..m] + [s[m]] == s && q[..m] + [q[m]] == q;
    }
  }

  lemma {:induction false} DotSnoc<E(!new)>(f: Field<E>, s: seq<E>, a: E, q: seq<E>, c: E)
    requires f.Lawful() && |s| == |q|
    ensures Dot(f, s + [a], q + [c]) == f.add(Dot(f, s, q), f.mul(a, c))
  {
    var ac := f.mul(a, c);
    if s == [] {
      assert (s + [a])[1..] == [] && (q + [c])[1..] == [];
      assert f.At(ac, f.zero, f.zero) && f.At(f.zero, ac, ac);
    } else {
      assert (s + [a])[1..] == s[1..] + [a] && (q + [c])[1..] == q[1..] + [c];
      DotSnoc(f, s[1..], a, q[1..], c);
      assert f.At(f.mul(s[0], q[0]), Dot(f, s[1..], q[1..]), ac);
    }
  }

  lemma {:induction false} HankelAt<E(!new)>(f: Field<E>, s: seq<E>, p: seq<E>, d: nat)
    requires |s| == |p| && d < |s|
    ensures Hankel(f, s, p)[d] == Dot(f, s[..|s| - d], p[d..])
    decreases d
  {
    if d > 0 {
      var init := s[..|s| - 1];
      HankelAt(f, init, p[1..], d - 1);
      assert init[..|init| - (d - 1)] == s[..|s| - d] && p[1..][d - 1..] == p[d..];
    } else {
      assert s[..|s|] == s && p[0..] == p;
    }
  }

  lemma HankelIsSum<E(!new)>(f: Field<E>, s: seq<E>, p: seq<E>, d: nat)
    requires f.Lawful() && |p| == |s| + 1 && d < |s|
    ensures Hankel(f, s, p[1..])[d] == Sum(f, |s| - d, Term(f, s, p, d))
  {
    HankelAt(f, s, p[1..], d);
    var head, tail := s[..|s| - d], p[1..][d..];
    forall n: nat | n < |head| ensures Term(f, s, p, d)(n) == f.mul(head[n], tail[n]) {
      TermAt(f, s, p, d, n);
    }
    DotIsSum(f, head, tail, Term(f, s, p, d));
  }

  lemma TermAt<E(!new)>(f: Field<E>, s: seq<E>, p: seq<E>, d: nat, n: nat)
    requires |p| == |s| + 1 && n + d < |s|
    ensures Term(f, s, p, d)(n) == f.mul(s[..|s| - d][n], p[1..][d..][n])
  {
    assert s[..|s| - d][n] == s[n];
    assert p[1..][d..][n] == p[1..][d + n] == p[n + d + 1];
  }

  /** One pair of segments gives one block of the sum. */
  lemma PairIsBlock<E(!new)>(f: Field<E>, w: E, s: seq<E>, p: seq<E>, b: nat, i: nat, t: nat, j: nat, block: nat -> E)
    requires f.Lawful() && t < b && IsRoot(f, w, 2 * b - 1)
    requires forall r: nat | r < b :: block(r) == Term(f, s, p, i * b + t)(j * b + r)
    ensures Spectral(f, w, 2 * b - 1, b, Segment(f, s, b, j), Kernel(f, p, b, i + j), t + 1) == Sum(f, b, block)
  {
    var x, y, v: nat := Segment(f, s, b, j), Kernel(f, p, b, i + j), 2 * b - 2 - t;
    forall r: nat | r < b ensures block(r) == f.mul(x(r), y(v - r)) {
      KernelIndex(b, i, j, t, r);
    }
    Convolves(f, w, 2 * b - 1, b, x, y, t + 1, v, block);
  }

  lemma KernelIndex(b: nat, i: nat, j: nat, t: nat, r: nat)
    requires t < b && r < b
    ensures var v: nat := 2 * b - 2 - t - r;
            v < (i + j) * b + 2 * b && (i + j) * b + 2 * b - 1 - v == j * b + r + (i * b + t) + 1
  {
    assert (i + j) * b == i * b + j * b;
  }

  /** The segments are summed before or after the way back. */
  lemma OutputIsPairs<E(!new)>(f: Field<E>, w: E, s: seq<E>, p: seq<E>, b: nat, segments: nat, i: nat, t: nat,
      pairs: nat -> E)
    requires f.Lawful() && i < segments && t < b
    requires forall j: nat | j < segments - i ::
               pairs(j) == Spectral(f, w, 2 * b - 1, b, Segment(f, s, b, j), Kernel(f, p, b, i + j), t + 1)
    ensures Output(f, w, s, p, b, segments, i, t) == Sum(f, segments - i, pairs)
  {
    var n: nat, left: nat := 2 * b - 1, segments - i;
    OutputRows(f, w, s, p, b, left, i, t);
    forall j: nat | j < left ensures pairs(j) == Sum(f, n, ColumnOf(OutputGrid(f, w, s, p, b, i, t), j)) {
      OutputColumn(f, w, s, p, b, i, j, t, ColumnOf(OutputGrid(f, w, s, p, b, i, t), j));
    }
    RowsAreColumns(f, n, left, OutputTerms(f, w, s, p, b, left, i, t), OutputGrid(f, w, s, p, b, i, t), pairs);
  }

  function OutputGrid<E(!new)>(f: Field<E>, w: E, s: seq<E>, p: seq<E>, b: nat, i: nat, t: nat): (nat, nat) -> E
    requires b > 0
  {
    (k: nat, j: nat) => f.mul(Power(f, w, k * (t + 1)), Pair(f, w, s, p, b, i, j, k))
  }

  lemma OutputRows<E(!new)>(f: Field<E>, w: E, s: seq<E>, p: seq<E>, b: nat, left: nat, i: nat, t: nat)
    requires f.Lawful() && b > 0
    ensures var h := OutputGrid(f, w, s, p, b, i, t);
            forall k: nat | k < 2 * b - 1 :: OutputTerms(f, w, s, p, b, left, i, t)(k) == Sum(f, left, RowOf(h, k))
  {
    var h := OutputGrid(f, w, s, p, b, i, t);
    forall k: nat | k < 2 * b - 1 ensures OutputTerms(f, w, s, p, b, left, i, t)(k) == Sum(f, left, RowOf(h, k)) {
      SumScales(f, left, Power(f, w, k * (t + 1)), Pairs(f, w, s, p, b, i, k), RowOf(h, k));
    }
  }

  lemma OutputColumn<E(!new)>(f: Field<E>, w: E, s: seq<E>, p: seq<E>, b: nat, i: nat, j: nat, t: nat, h: nat -> E)
    requires b > 0
    requires forall k: nat | k < 2 * b - 1 :: h(k) == f.mul(Power(f, w, k * (t + 1)), Pair(f, w, s, p, b, i, j, k))
    ensures Sum(f, 2 * b - 1, h)
         == Spectral(f, w, 2 * b - 1, b, Segment(f, s, b, j), Kernel(f, p, b, i + j), t + 1)
  {
    var terms := SpectralTerms(f, w, 2 * b - 1, b, Segment(f, s, b, j), Kernel(f, p, b, i + j), t + 1);
    forall k: nat | k < 2 * b - 1 ensures h(k) == terms(k) {
    }
    SumSame(f, 2 * b - 1, h, terms);
  }

  /** Stage one: for a root of odd order `2 b - 1` and any number of segments that cover the
      syndromes, every output is the entry of the Hankel product. */
  lemma SegmentsGiveHankel<E(!new)>(f: Field<E>, w: E, s: seq<E>, p: seq<E>, b: nat, segments: nat, i: nat, t: nat)
    requires f.Lawful() && i < segments && t < b && i * b + t < |s| <= segments * b && |p| == |s| + 1
    requires IsRoot(f, w, 2 * b - 1)
    ensures Output(f, w, s, p, b, segments, i, t) == Hankel(f, s, p[1..])[i * b + t]
  {
    var left: nat := segments - i;
    var term := Term(f, s, p, i * b + t);
    var pairs := BlockSums(f, term, b);
    forall j: nat | j < left
      ensures pairs(j) == Spectral(f, w, 2 * b - 1, b, Segment(f, s, b, j), Kernel(f, p, b, i + j), t + 1)
    {
      PairIsBlock(f, w, s, p, b, i, t, j, BlockOf(term, b, j));
    }
    OutputIsPairs(f, w, s, p, b, segments, i, t, pairs);
    SumBlocks(f, left, b, term);
    BlocksCover(segments, i, b, t, |s|);
    BlocksAreHankel(f, s, p, i * b + t, left * b);
  }

  lemma BlocksCover(segments: nat, i: nat, b: nat, t: nat, m: nat)
    requires i < segments && i * b + t < m <= segments * b
    ensures m - (i * b + t) <= (segments - i) * b
  {
    assert (segments - i) * b == segments * b - i * b;
  }

  lemma BlocksAreHankel<E(!new)>(f: Field<E>, s: seq<E>, p: seq<E>, d: nat, n: nat)
    requires f.Lawful() && |p| == |s| + 1 && d < |s| && |s| - d <= n
    ensures Sum(f, n, Term(f, s, p, d)) == Hankel(f, s, p[1..])[d]
  {
    forall k: nat | |s| - d <= k < n ensures Term(f, s, p, d)(k) == f.zero {
      assert f.At(Entry(f, s, k), f.zero, f.zero);
    }
    SumCut(f, n, |s| - d, Term(f, s, p, d));
    HankelIsSum(f, s, p, d);
  }

  // ----- stage two, by residues of the exponent

  /** `g` has period `a b`, and `b i + a j` is one modulo it. */
  ghost predicate Splits<E(!new)>(f: Field<E>, g: E, a: nat, b: nat, i: nat, j: nat) {
    a > 0 && b > 0 && Power(f, g, a * b) == f.one && exists c: nat :: b * i + a * j == 1 + a * b * c
  }

  /** The power of `g^(b i)` the tables of the first half hold for exponents `k` and `t`. */
  function Half<E(!new)>(f: Field<E>, g: E, a: nat, b: nat, i: nat, k: nat, t: nat): E
    requires a > 0
  {
    Power(f, Power(f, g, b * i), k % a * (t % a) % a)
  }

  lemma HalfIs<E(!new)>(f: Field<E>, g: E, a: nat, b: nat, i: nat, k: nat, t: nat)
    requires f.Lawful() && a > 0 && Power(f, g, a * b) == f.one
    ensures Half(f, g, a, b, i, k, t) == Power(f, g, b * i * (k * t))
  {
    var x := k % a * (t % a) % a;
    var z := ProductResidue(k, t, a);
    PowerTimes(f, g, b * i, x);
    Widen(a, b, i, x, z, k * t);
    PowerPeriod(f, g, a * b, b * i * (k * t), x * (b * i), i * z);
  }

  lemma Widen(a: nat, b: nat, i: nat, x: nat, z: nat, y: nat)
    requires y == x + a * z
    ensures b * i * y == x * (b * i) + a * b * (i * z)
  {
    assert b * i * y == b * i * x + b * i * (a * z);
    assert b * i * (a * z) == a * b * (i * z);
  }

  lemma ProductResidue(k: nat, t: nat, a: nat) returns (z: nat)
    requires a > 0
    ensures k * t == k % a * (t % a) % a + a * z
  {
    var k0, k1 := Divided(k, a);
    var t0, t1 := Divided(t, a);
    var c, r := Divided(k1 * t1, a);
    z := k0 * t + k1 * t0 + c;
    ProductParts(a, k, k0, k1, t, t0, t1, c, r);
  }

  lemma Divided(x: nat, a: nat) returns (q: nat, r: nat)
    requires a > 0
    ensures x == a * q + r && r == x % a
  {
    q, r := x / a, x % a;
  }

  lemma ProductParts(a: nat, k: nat, k0: nat, k1: nat, t: nat, t0: nat, t1: nat, c: nat, r: nat)
    requires k == a * k0 + k1 && t == a * t0 + t1 && k1 * t1 == a * c + r
    ensures k * t == r + a * (k0 * t + k1 * t0 + c)
  {
    assert (a * k0 + k1) * t == a * k0 * t + k1 * t;
    assert k1 * (a * t0 + t1) == k1 * (a * t0) + k1 * t1;
    assert k1 * (a * t0) == a * (k1 * t0) && a * k0 * t == a * (k0 * t);
    assert a * (k0 * t + k1 * t0 + c) == a * (k0 * t) + a * (k1 * t0) + a * c;
  }

  /** The two halves together are the whole power. */
  lemma HalvesJoin<E(!new)>(f: Field<E>, g: E, a: nat, b: nat, i: nat, j: nat, k: nat, t: nat, z: nat)
    requires f.Lawful() && Splits(f, g, a, b, i, j) && z == k * t
    ensures f.mul(Half(f, g, b, a, j, k, t), Half(f, g, a, b, i, k, t)) == Power(f, g, z)
  {
    var x, y, n, m := HalvesExponents(f, g, a, b, i, j, k, t, z);
    JoinPowers(f, g, n, x, y, z, m, Half(f, g, b, a, j, k, t), Half(f, g, a, b, i, k, t));
  }

  lemma HalvesExponents<E(!new)>(f: Field<E>, g: E, a: nat, b: nat, i: nat, j: nat, k: nat, t: nat, z: nat)
    returns (x: nat, y: nat, n: nat, m: nat)
    requires f.Lawful() && Splits(f, g, a, b, i, j) && z == k * t
    ensures Half(f, g, b, a, j, k, t) == Power(f, g, x) && Half(f, g, a, b, i, k, t) == Power(f, g, y)
    ensures Power(f, g, n) == f.one && x + y == z + n * m
  {
    y := HalfExponent(f, g, a, b, i, k, t);
    x := HalfExponent(f, g, b, a, j, k, t);
    n, m := JointExponent(f, g, a, b, i, j, z, x, y);
  }

  lemma HalfExponent<E(!new)>(f: Field<E>, g: E, a: nat, b: nat, i: nat, k: nat, t: nat) returns (x: nat)
    requires f.Lawful() && a > 0 && (Power(f, g, a * b) == f.one || Power(f, g, b * a) == f.one)
    ensures x == b * i * (k * t) && Half(f, g, a, b, i, k, t) == Power(f, g, x)
  {
    assert a * b == b * a;
    HalfIs(f, g, a, b, i, k, t);
    x := b * i * (k * t);
  }

  lemma JointExponent<E(!new)>(f: Field<E>, g: E, a: nat, b: nat, i: nat, j: nat, z: nat, x: nat, y: nat)
    returns (n: nat, m: nat)
    requires Splits(f, g, a, b, i, j) && x == a * j * z && y == b * i * z
    ensures Power(f, g, n) == f.one && x + y == z + n * m
  {
    var c: nat :| b * i + a * j == 1 + a * b * c;
    n, m := a * b, c * z;
    JoinExponents(a, b, i, j, n, c, z, x, y);
  }

  lemma JoinPowers<E(!new)>(f: Field<E>, g: E, n: nat, x: nat, y: nat, z: nat, c: nat, u: E, v: E)
    requires f.Lawful() && Power(f, g, n) == f.one && x + y == z + n * c
    requires u == Power(f, g, x) && v == Power(f, g, y)
    ensures f.mul(u, v) == Power(f, g, z)
  {
    PowerAdds(f, g, x, y);
    PowerPeriod(f, g, n, x + y, z, c);
  }

  lemma JoinExponents(a: nat, b: nat, i: nat, j: nat, n: nat, c: nat, z: nat, x: nat, y: nat)
    requires b * i + a * j == 1 + n * c && x == a * j * z && y == b * i * z
    ensures x + y == z + n * (c * z)
  {
    assert x + y == (b * i + a * j) * z;
    assert (1 + n * c) * z == z + n * c * z;
  }

  /** The partial row of one residue: the entries of `t` with that residue modulo `b`. */
  function Partial<E(!new)>(f: Field<E>, g: E, a: nat, b: nat, i: nat, k: nat, t: seq<E>, rounds: nat, residue: nat): E
    requires a > 0
  {
    Sum(f, rounds, PartialTerms(f, g, a, b, i, k, t, residue))
  }

  function PartialTerms<E(!new)>(f: Field<E>, g: E, a: nat, b: nat, i: nat, k: nat, t: seq<E>, residue: nat): nat -> E
    requires a > 0
  {
    (q: nat) => f.mul(Half(f, g, a, b, i, k, q * b + residue), Entry(f, t, q * b + residue))
  }

  /** Stage two: each partial row once, with its own power of the other half. */
  function Evaluated<E(!new)>(f: Field<E>, g: E, a: nat, b: nat, i: nat, j: nat, scale: E, k: nat, t: seq<E>,
      rounds: nat): E
    requires a > 0 && b > 0
  {
    Sum(f, b, EvaluatedTerms(f, g, a, b, i, j, scale, k, t, rounds))
  }

  function EvaluatedTerms<E(!new)>(f: Field<E>, g: E, a: nat, b: nat, i: nat, j: nat, scale: E, k: nat, t: seq<E>,
      rounds: nat): nat -> E
    requires a > 0 && b > 0
  {
    (residue: nat) =>
      f.mul(f.mul(scale, Half(f, g, b, a, j, k, residue)), Partial(f, g, a, b, i, k, t, rounds, residue))
  }

  lemma {:induction false} EvalIsSum<E(!new)>(f: Field<E>, t: seq<E>, z: E, h: nat -> E)
    requires f.Lawful() && forall n: nat | n < |t| :: h(n) == f.mul(Power(f, z, n), t[n])
    ensures Eval(f, t, z) == Sum(f, |t|, h)
    decreases |t|
  {
    if t != [] {
      var m := |t| - 1;
      EvalIsSum(f, t[..m], z, h);
      EvalSnoc(f, t[..m], t[m], z);
      assert t[..m] + [t[m]] == t;
    }
  }

  lemma {:induction false} EvalSnoc<E(!new)>(f: Field<E>, p: seq<E>, a: E, z: E)
    requires f.Lawful()
    ensures Eval(f, p + [a], z) == f.add(Eval(f, p, z), f.mul(Power(f, z, |p|), a))
  {
    if p == [] {
      EvalCons(f, a, [], z);
      assert [a] + [] == [] + [a] && p + [a] == [a];
      assert f.At(z, f.zero, f.zero) && f.At(a, f.zero, f.zero) && f.At(a, f.one, f.one) && f.At(f.zero, a, a);
    } else {
      assert (p + [a])[1..] == p[1..] + [a];
      EvalSnoc(f, p[1..], a, z);
      var e, y := Eval(f, p[1..], z), f.mul(Power(f, z, |p| - 1), a);
      assert f.At(z, e, y) && f.At(z, Power(f, z, |p| - 1), a) && f.At(p[0], f.mul(z, e), f.mul(z, y));
    }
  }

  /** Stage two is the value of `t` at `g^k`, scaled, for any number of rounds that covers it. */
  lemma EvaluatedIsEval<E(!new)>(f: Field<E>, g: E, a: nat, b: nat, i: nat, j: nat, scale: E, k: nat, t: seq<E>,
      rounds: nat)
    requires f.Lawful() && Splits(f, g, a, b, i, j) && |t| <= rounds * b
    ensures Evaluated(f, g, a, b, i, j, scale, k, t, rounds) == f.mul(scale, Eval(f, t, Power(f, g, k)))
  {
    var z := Power(f, g, k);
    var term := (n: nat) => f.mul(Power(f, z, n), Entry(f, t, n));
    var h := (residue: nat, q: nat) => f.mul(scale, term(q * b + residue));
    var rows := EvaluatedTerms(f, g, a, b, i, j, scale, k, t, rounds);
    forall residue: nat | residue < b ensures rows(residue) == Sum(f, rounds, RowOf(h, residue)) {
      PartialRow(f, g, a, b, i, j, scale, k, t, rounds, residue, RowOf(h, residue));
    }
    RowsOfRounds(f, b, rounds, scale, term, rows, h);
    RoundsAreEval(f, t, z, rounds * b, term);
  }

  /** The rows, one for each residue, make up the whole sum. */
  lemma RowsOfRounds<E(!new)>(f: Field<E>, b: nat, rounds: nat, scale: E, term: nat -> E, rows: nat -> E,
      h: (nat, nat) -> E)
    requires f.Lawful() && forall residue: nat, q: nat :: h(residue, q) == f.mul(scale, term(q * b + residue))
    requires forall residue: nat | residue < b :: rows(residue) == Sum(f, rounds, RowOf(h, residue))
    ensures Sum(f, b, rows) == f.mul(scale, Sum(f, rounds * b, term))
  {
    var columns := (q: nat) => f.mul(scale, BlockSums(f, term, b)(q));
    forall q: nat | q < rounds ensures columns(q) == Sum(f, b, ColumnOf(h, q)) {
      SumScales(f, b, scale, BlockOf(term, b, q), ColumnOf(h, q));
      assert BlockSums(f, term, b)(q) == Sum(f, b, BlockOf(term, b, q));
    }
    RowsAreColumns(f, b, rounds, rows, h, columns);
    SumScales(f, rounds, scale, BlockSums(f, term, b), columns);
    SumBlocks(f, rounds, b, term);
  }

  lemma RoundsAreEval<E(!new)>(f: Field<E>, t: seq<E>, z: E, n: nat, term: nat -> E)
    requires f.Lawful() && |t| <= n && forall m: nat :: term(m) == f.mul(Power(f, z, m), Entry(f, t, m))
    ensures Sum(f, n, term) == Eval(f, t, z)
  {
    forall m: nat | |t| <= m < n ensures term(m) == f.zero {
      assert f.At(Power(f, z, m), f.zero, f.zero);
    }
    SumCut(f, n, |t|, term);
    EvalIsSum(f, t, z, term);
  }

  lemma PartialRow<E(!new)>(f: Field<E>, g: E, a: nat, b: nat, i: nat, j: nat, scale: E, k: nat, t: seq<E>, rounds: nat,
      residue: nat, h: nat -> E)
    requires f.Lawful() && Splits(f, g, a, b, i, j) && residue < b
    requires forall q: nat | q < rounds ::
               h(q) == f.mul(scale, f.mul(Power(f, Power(f, g, k), q * b + residue), Entry(f, t, q * b + residue)))
    ensures f.mul(f.mul(scale, Half(f, g, b, a, j, k, residue)), Partial(f, g, a, b, i, k, t, rounds, residue))
         == Sum(f, rounds, h)
  {
    var c := f.mul(scale, Half(f, g, b, a, j, k, residue));
    var inner := PartialTerms(f, g, a, b, i, k, t, residue);
    forall q: nat | q < rounds ensures h(q) == f.mul(c, inner(q)) {
      PartialTerm(f, g, a, b, i, j, scale, k, q * b + residue, residue, q, Entry(f, t, q * b + residue));
    }
    SumScales(f, rounds, c, inner, h);
  }

  lemma PartialTerm<E(!new)>(f: Field<E>, g: E, a: nat, b: nat, i: nat, j: nat, scale: E, k: nat, t: nat, residue: nat,
      q: nat, x: E)
    requires f.Lawful() && Splits(f, g, a, b, i, j) && residue < b && t == q * b + residue
    ensures f.mul(scale, f.mul(Power(f, Power(f, g, k), t), x))
         == f.mul(f.mul(scale, Half(f, g, b, a, j, k, residue)), f.mul(Half(f, g, a, b, i, k, t), x))
  {
    HalfOfResidue(f, g, a, b, j, k, t, residue, q);
    HalvesJoin(f, g, a, b, i, j, k, t, k * t);
    PowerOfPower(f, g, k, t);
    var u, v := Half(f, g, b, a, j, k, residue), Half(f, g, a, b, i, k, t);
    assert f.At(u, v, x) && f.At(scale, u, f.mul(v, x));
  }

  lemma HalfOfResidue<E(!new)>(f: Field<E>, g: E, a: nat, b: nat, j: nat, k: nat, t: nat, residue: nat, q: nat)
    requires residue < b && t == q * b + residue
    ensures Half(f, g, b, a, j, k, t) == Half(f, g, b, a, j, k, residue)
  {
    assert q * b == b * q;
    ResidueIs(t, b, q, residue);
    ResidueIs(residue, b, 0, residue);
  }

  lemma PowerOfPower<E(!new)>(f: Field<E>, g: E, k: nat, t: nat)
    requires f.Lawful()
    ensures Power(f, Power(f, g, k), t) == Power(f, g, k * t)
  {
    PowerTimes(f, g, k, t);
    assert t * k == k * t;
  }
}
