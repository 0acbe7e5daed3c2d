/** The transform network of par2repair/forney.rs: 255 = 3 * 5 * 17 without twiddle factors,
    pruned at the source on the way there and at the destination on the way back. Arenas are
    functions of the residues modulo 3, 5 and 17. */
module MixedRadix {
  import opened Basics
  import opened CharTwo
  import opened Sums
  import opened Vandermonde
  import opened Transforms

  const CONV := 255

  /** `gt_natural`: 85, 51 and 120 are one modulo their own radix and zero modulo the others. */
  function Natural(a: nat, b: nat, c: nat): (n: nat)
    ensures n < CONV
  {
    (85 * a + 51 * b + 120 * c) % CONV
  }

  lemma NaturalResidues(a: nat, b: nat, c: nat)
    requires a < 3 && b < 5 && c < 17
    ensures var n := Natural(a, b, c); n % 3 == a && n % 5 == b && n % 17 == c
  {
    var q, n := Divided(85 * a + 51 * b + 120 * c, CONV);
    ResidueIs(n, 3, 28 * a + 17 * b + 40 * c - 85 * q, a);
    ResidueIs(n, 5, 17 * a + 10 * b + 24 * c - 51 * q, b);
    ResidueIs(n, 17, 5 * a + 3 * b + 7 * c - 15 * q, c);
  }

  lemma OneNatural(n: nat)
    requires n < CONV
    ensures Natural(n % 3, n % 5, n % 17) == n
  {
    var x, a := Divided(n, 3);
    var y, b := Divided(n, 5);
    var z, c := Divided(n, 17);
    ResidueIs(85 * a + 51 * b + 120 * c, CONV, n - x - y - 8 * z, n);
  }

  // ----- sums by residue classes

  /** The entries of one residue class, others zero. */
  function Only<E(!new)>(f: Field<E>, radix: nat, r: nat, h: nat -> E): nat -> E
    requires radix > 0
  {
    (n: nat) => if n % radix == r then h(n) else f.zero
  }

  function Weighted<E(!new)>(f: Field<E>, radix: nat, c: nat -> E, h: nat -> E): nat -> E
    requires radix > 0
  {
    (n: nat) => f.mul(c(n % radix), h(n))
  }

  function ClassGrid<E(!new)>(f: Field<E>, radix: nat, c: nat -> E, h: nat -> E): (nat, nat) -> E
    requires radix > 0
  {
    (r: nat, n: nat) => if n % radix == r then f.mul(c(r), h(n)) else f.zero
  }

  /** One radix: each class with its own coefficient. */
  function Stage<E(!new)>(f: Field<E>, radix: nat, c: nat -> E, parts: nat -> E): E {
    Sum(f, radix, StageTerms(f, c, parts))
  }

  function StageTerms<E(!new)>(f: Field<E>, c: nat -> E, parts: nat -> E): nat -> E {
    (r: nat) => f.mul(c(r), parts(r))
  }

  /** Summing the classes one by one, each with its coefficient, is summing once with the
      coefficient of the class each entry is in. */
  lemma StageGathers<E(!new)>(f: Field<E>, radix: nat, n: nat, c: nat -> E, h: nat -> E, parts: nat -> E)
    requires f.Lawful() && radix > 0 && forall r: nat | r < radix :: parts(r) == Sum(f, n, Only(f, radix, r, h))
    ensures Stage(f, radix, c, parts) == Sum(f, n, Weighted(f, radix, c, h))
  {
    var grid := ClassGrid(f, radix, c, h);
    forall r: nat | r < radix ensures StageTerms(f, c, parts)(r) == Sum(f, n, RowOf(grid, r)) {
      ClassRow(f, radix, n, c, h, r, RowOf(grid, r));
    }
    forall k: nat | k < n ensures Weighted(f, radix, c, h)(k) == Sum(f, radix, ColumnOf(grid, k)) {
      SumOne(f, radix, ColumnOf(grid, k), k % radix);
    }
    RowsAreColumns(f, radix, n, StageTerms(f, c, parts), grid, Weighted(f, radix, c, h));
  }

  lemma ClassRow<E(!new)>(f: Field<E>, radix: nat, n: nat, c: nat -> E, h: nat -> E, r: nat, row: nat -> E)
    requires f.Lawful() && radix > 0
    requires forall k: nat | k < n :: row(k) == if k % radix == r then f.mul(c(r), h(k)) else f.zero
    ensures f.mul(c(r), Sum(f, n, Only(f, radix, r, h))) == Sum(f, n, row)
  {
    assert f.At(c(r), f.zero, f.zero);
    SumScales(f, n, c(r), Only(f, radix, r, h), row);
  }

  /** Picking a class and weighing by another residue can be done in either order. */
  lemma OnlyWeighted<E(!new)>(f: Field<E>, radix: nat, c: nat -> E, other: nat, r: nat, h: nat -> E, n: nat)
    requires f.Lawful() && radix > 0 && other > 0
    ensures Sum(f, n, Weighted(f, radix, c, Only(f, other, r, h)))
         == Sum(f, n, Only(f, other, r, Weighted(f, radix, c, h)))
  {
    forall k: nat | k < n
      ensures Weighted(f, radix, c, Only(f, other, r, h))(k) == Only(f, other, r, Weighted(f, radix, c, h))(k)
    {
      assert f.At(c(k % radix), f.zero, f.zero);
    }
    SumSame(f, n, Weighted(f, radix, c, Only(f, other, r, h)), Only(f, other, r, Weighted(f, radix, c, h)));
  }

  // ----- the way there

  /** `dft_matrix`, forward: the coefficient for output `k` and input `n` of one radix. */
  function Ahead<E(!new)>(f: Field<E>, w: E, idem: nat, k: nat): nat -> E {
    (n: nat) => Power(f, w, idem * k * n % CONV)
  }

  /** `dft17_sparse`: the input entries of one class modulo 3 and 5. */
  function Radix17<E(!new)>(f: Field<E>, w: E, b: nat, x: nat -> E, k: nat, a: nat): nat -> E {
    (m: nat) => Sum(f, b, Only(f, 5, m, Only(f, 3, a, Weighted(f, 17, Ahead(f, w, 120, k), x))))
  }

  /** `dft5`. */
  function Radix5<E(!new)>(f: Field<E>, w: E, b: nat, x: nat -> E, k5: nat, k17: nat): nat -> E {
    (a: nat) => Stage(f, 5, Ahead(f, w, 51, k5), Radix17(f, w, b, x, k17, a))
  }

  /** `dft3_to_natural`, at point `k` of the spectrum. */
  function Mixed<E(!new)>(f: Field<E>, w: E, b: nat, x: nat -> E, k: nat): E {
    Stage(f, 3, Ahead(f, w, 85, k % 3), Radix5(f, w, b, x, k % 5, k % 17))
  }

  /** The three coefficients together. */
  function Joined<E(!new)>(f: Field<E>, w: E, x: nat -> E, k: nat): nat -> E {
    Weighted(f, 3, Ahead(f, w, 85, k % 3),
      Weighted(f, 5, Ahead(f, w, 51, k % 5), Weighted(f, 17, Ahead(f, w, 120, k % 17), x)))
  }

  /** The network computes the transform. */
  lemma MixedIsTransform<E(!new)>(f: Field<E>, w: E, b: nat, x: nat -> E, k: nat)
    requires f.Lawful() && Power(f, w, CONV) == f.one
    ensures Mixed(f, w, b, x, k) == Transform(f, w, b, x, k)
  {
    var y := Weighted(f, 17, Ahead(f, w, 120, k % 17), x);
    var z := Weighted(f, 5, Ahead(f, w, 51, k % 5), y);
    forall a: nat | a < 3
      ensures Radix5(f, w, b, x, k % 5, k % 17)(a) == Sum(f, b, Only(f, 3, a, z))
    {
      StageGathers(f, 5, b, Ahead(f, w, 51, k % 5), Only(f, 3, a, y), Radix17(f, w, b, x, k % 17, a));
      OnlyWeighted(f, 5, Ahead(f, w, 51, k % 5), 3, a, y, b);
    }
    StageGathers(f, 3, b, Ahead(f, w, 85, k % 3), z, Radix5(f, w, b, x, k % 5, k % 17));
    forall n: nat | n < b ensures Joined(f, w, x, k)(n) == Waves(f, w, x, k)(n) {
      JoinedAt(f, w, x, k, n);
    }
    SumSame(f, b, Joined(f, w, x, k), Waves(f, w, x, k));
  }

  lemma JoinedAt<E(!new)>(f: Field<E>, w: E, x: nat -> E, k: nat, n: nat)
    requires f.Lawful() && Power(f, w, CONV) == f.one
    ensures Joined(f, w, x, k)(n) == Waves(f, w, x, k)(n)
  {
    ThreeParts(f, w, k, n, k * n, x(n));
  }

  /** A coefficient of one radix is the full power to its idempotent. */
  lemma AheadIs<E(!new)>(f: Field<E>, w: E, idem: nat, radix: nat, u: nat, k: nat, n: nat)
    requires f.Lawful() && Power(f, w, CONV) == f.one && radix > 0 && idem * radix == CONV * u
    ensures Power(f, w, idem * (k % radix) * (n % radix) % CONV) == Power(f, w, idem * (k * n))
  {
    var z := Idempotent(idem, radix, u, k, n);
    var e := idem * (k % radix) * (n % radix);
    PowerMod(f, w, CONV, e);
    PowerPeriod(f, w, CONV, idem * (k * n), e, z);
  }

  lemma Idempotent(idem: nat, radix: nat, u: nat, k: nat, n: nat) returns (z: nat)
    requires radix > 0 && idem * radix == CONV * u
    ensures idem * (k * n) == idem * (k % radix) * (n % radix) + CONV * z
  {
    var y := ProductParts2(k, n, radix);
    z := u * y;
    Regrouped(idem, radix, u, k % radix * (n % radix), y, k * n);
  }

  lemma ProductParts2(k: nat, n: nat, radix: nat) returns (y: nat)
    requires radix > 0
    ensures k * n == k % radix * (n % radix) + radix * y
  {
    var k0, k1 := Divided(k, radix);
    var n0, n1 := Divided(n, radix);
    y := k0 * n + k1 * n0;
    ProductParts(radix, k, k0, k1, n, n0, n1, 0, k1 * n1);
  }

  lemma Regrouped(idem: nat, radix: nat, u: nat, p: nat, y: nat, kn: nat)
    requires idem * radix == CONV * u && kn == p + radix * y
    ensures idem * kn == idem * p + CONV * (u * y)
  {
    assert idem * kn == idem * p + idem * (radix * y);
    assert idem * (radix * y) == idem * radix * y;
    assert CONV * u * y == CONV * (u * y);
  }

  lemma ThreeParts<E(!new)>(f: Field<E>, w: E, k: nat, n: nat, z: nat, x: E)
    requires f.Lawful() && Power(f, w, CONV) == f.one && z == k * n
    ensures f.mul(Ahead(f, w, 85, k % 3)(n % 3),
              f.mul(Ahead(f, w, 51, k % 5)(n % 5), f.mul(Ahead(f, w, 120, k % 17)(n % 17), x)))
         == f.mul(Power(f, w, z), x)
  {
    var a := AheadAt(f, w, 85, 3, 1, k, n, z);
    var b := AheadAt(f, w, 51, 5, 1, k, n, z);
    var c := AheadAt(f, w, 120, 17, 8, k, n, z);
    PowersTimes(f, w, z, a, b, c, x);
  }

  lemma AheadAt<E(!new)>(f: Field<E>, w: E, idem: nat, radix: nat, u: nat, k: nat, n: nat, z: nat) returns (a: E)
    requires f.Lawful() && Power(f, w, CONV) == f.one && radix > 0 && idem * radix == CONV * u && z == k * n
    ensures a == Ahead(f, w, idem, k % radix)(n % radix) == Power(f, w, idem * z)
  {
    AheadIs(f, w, idem, radix, u, k, n);
    a := Power(f, w, idem * z);
  }

  lemma PowersTimes<E(!new)>(f: Field<E>, w: E, z: nat, a: E, b: E, c: E, x: E)
    requires f.Lawful() && Power(f, w, CONV) == f.one
    requires a == Power(f, w, 85 * z) && b == Power(f, w, 51 * z) && c == Power(f, w, 120 * z)
    ensures f.mul(a, f.mul(b, f.mul(c, x))) == f.mul(Power(f, w, z), x)
  {
    ThreePowers(f, w, z);
    ThreeTimes(f, a, b, c, x);
  }

  /** 85 and 51 and 120 make one, modulo 255. */
  lemma ThreePowers<E(!new)>(f: Field<E>, w: E, z: nat)
    requires f.Lawful() && Power(f, w, CONV) == f.one
    ensures f.mul(Power(f, w, 85 * z), f.mul(Power(f, w, 51 * z), Power(f, w, 120 * z))) == Power(f, w, z)
  {
    PowerAdds(f, w, 51 * z, 120 * z);
    PowerAdds(f, w, 85 * z, 171 * z);
    PowerPeriod(f, w, CONV, 256 * z, z, z);
  }

  lemma ThreeTimes<E(!new)>(f: Field<E>, a: E, b: E, c: E, x: E)
    requires f.Lawful()
    ensures f.mul(a, f.mul(b, f.mul(c, x))) == f.mul(f.mul(a, f.mul(b, c)), x)
  {
    assert f.At(b, c, x) && f.At(a, f.mul(b, c), x);
  }

  // ----- the way back

  /** `dft_matrix`, inverse: the exponent is negated. */
  function Astern<E(!new)>(f: Field<E>, w: E, idem: nat, n: nat): nat -> E {
    (k: nat) => Power(f, w, (CONV - idem * k * n % CONV) % CONV)
  }

  /** `idft3_from_natural`: residue `a` of the output, from the natural spectrum. */
  function Back3<E(!new)>(f: Field<E>, w: E, a: nat, hat: nat -> E, k17: nat): nat -> E {
    (k5: nat) => Stage(f, 3, Astern(f, w, 85, a), FromNatural(hat, k5, k17))
  }

  function FromNatural<E(!new)>(hat: nat -> E, k5: nat, k17: nat): nat -> E {
    (k3: nat) => hat(Natural(k3, k5, k17))
  }

  function Back5<E(!new)>(f: Field<E>, w: E, a: nat, b: nat, hat: nat -> E): nat -> E {
    (k17: nat) => Stage(f, 5, Astern(f, w, 51, b), Back3(f, w, a, hat, k17))
  }

  /** `idft17_pruned`: output `v` of the way back. */
  function MixedBack<E(!new)>(f: Field<E>, w: E, hat: nat -> E, v: nat): E {
    Stage(f, 17, Astern(f, w, 120, v % 17), Back5(f, w, v % 3, v % 5, hat))
  }

  /** A point of the spectrum is alone in its three classes. */
  lemma AloneInClass<E(!new)>(f: Field<E>, hat: nat -> E, a: nat, b: nat, c: nat)
    requires f.Lawful() && a < 3 && b < 5 && c < 17
    ensures hat(Natural(a, b, c)) == Sum(f, CONV, Only(f, 3, a, Only(f, 5, b, Only(f, 17, c, hat))))
  {
    var h, k := Only(f, 3, a, Only(f, 5, b, Only(f, 17, c, hat))), Natural(a, b, c);
    NaturalResidues(a, b, c);
    forall n: nat | n < CONV && n != k ensures h(n) == f.zero {
      OneNatural(n);
    }
    SumOne(f, CONV, h, k);
  }

  function JoinedBack<E(!new)>(f: Field<E>, w: E, hat: nat -> E, v: nat): nat -> E {
    Weighted(f, 17, Astern(f, w, 120, v % 17),
      Weighted(f, 5, Astern(f, w, 51, v % 5), Weighted(f, 3, Astern(f, w, 85, v % 3), hat)))
  }

  lemma BackGathers<E(!new)>(f: Field<E>, w: E, hat: nat -> E, v: nat)
    requires f.Lawful()
    ensures MixedBack(f, w, hat, v) == Sum(f, CONV, JoinedBack(f, w, hat, v))
  {
    var c3, c5, c17 := Astern(f, w, 85, v % 3), Astern(f, w, 51, v % 5), Astern(f, w, 120, v % 17);
    var y, z := Weighted(f, 3, c3, hat), Weighted(f, 5, c5, Weighted(f, 3, c3, hat));
    forall k17: nat | k17 < 17 ensures Back5(f, w, v % 3, v % 5, hat)(k17) == Sum(f, CONV, Only(f, 17, k17, z)) {
      forall k5: nat | k5 < 5
        ensures Back3(f, w, v % 3, hat, k17)(k5) == Sum(f, CONV, Only(f, 5, k5, Only(f, 17, k17, y)))
      {
        BackThree(f, w, v % 3, hat, k5, k17);
      }
      StageGathers(f, 5, CONV, c5, Only(f, 17, k17, y), Back3(f, w, v % 3, hat, k17));
      OnlyWeighted(f, 5, c5, 17, k17, y, CONV);
    }
    StageGathers(f, 17, CONV, c17, z, Back5(f, w, v % 3, v % 5, hat));
  }

  lemma BackThree<E(!new)>(f: Field<E>, w: E, a: nat, hat: nat -> E, k5: nat, k17: nat)
    requires f.Lawful() && k5 < 5 && k17 < 17
    ensures Back3(f, w, a, hat, k17)(k5)
         == Sum(f, CONV, Only(f, 5, k5, Only(f, 17, k17, Weighted(f, 3, Astern(f, w, 85, a), hat))))
  {
    var c := Astern(f, w, 85, a);
    var h := Only(f, 5, k5, Only(f, 17, k17, hat));
    forall k3: nat | k3 < 3 ensures FromNatural(hat, k5, k17)(k3) == Sum(f, CONV, Only(f, 3, k3, h)) {
      AloneInClass(f, hat, k3, k5, k17);
    }
    StageGathers(f, 3, CONV, c, h, FromNatural(hat, k5, k17));
    var inside := Only(f, 5, k5, Only(f, 17, k17, Weighted(f, 3, c, hat)));
    forall n: nat | n < CONV ensures Weighted(f, 3, c, h)(n) == inside(n) {
      assert f.At(c(n % 3), f.zero, f.zero);
    }
    SumSame(f, CONV, Weighted(f, 3, c, h), inside);
  }

  /** The way back of the network is the way back: output `v` with the exponents negated. */
  lemma MixedBackIs<E(!new)>(f: Field<E>, w: E, hat: nat -> E, v: nat, m: nat, terms: nat -> E)
    requires f.Lawful() && Power(f, w, CONV) == f.one && m + v == CONV
    requires forall k: nat | k < CONV :: terms(k) == f.mul(Power(f, w, k * m), hat(k))
    ensures MixedBack(f, w, hat, v) == Sum(f, CONV, terms)
  {
    BackGathers(f, w, hat, v);
    forall k: nat | k < CONV ensures JoinedBack(f, w, hat, v)(k) == terms(k) {
      JoinedBackAt(f, w, hat, v, m, k);
    }
    SumSame(f, CONV, JoinedBack(f, w, hat, v), terms);
  }

  lemma JoinedBackAt<E(!new)>(f: Field<E>, w: E, hat: nat -> E, v: nat, m: nat, k: nat)
    requires f.Lawful() && Power(f, w, CONV) == f.one && m + v == CONV
    ensures JoinedBack(f, w, hat, v)(k) == f.mul(Power(f, w, k * m), hat(k))
  {
    ThreeBack(f, w, k, v, m, k * m, hat(k));
  }

  lemma ThreeBack<E(!new)>(f: Field<E>, w: E, k: nat, v: nat, m: nat, z: nat, x: E)
    requires f.Lawful() && Power(f, w, CONV) == f.one && m + v == CONV && z == k * m
    ensures f.mul(Astern(f, w, 120, v % 17)(k % 17),
              f.mul(Astern(f, w, 51, v % 5)(k % 5), f.mul(Astern(f, w, 85, v % 3)(k % 3), x)))
         == f.mul(Power(f, w, z), x)
  {
    var a := AsternAt(f, w, 85, 3, 1, k, v, m, z);
    var b := AsternAt(f, w, 51, 5, 1, k, v, m, z);
    var c := AsternAt(f, w, 120, 17, 8, k, v, m, z);
    PowersTimes(f, w, z, a, b, c, x);
    OtherOrder(f, a, b, c, x);
  }

  lemma OtherOrder<E(!new)>(f: Field<E>, a: E, b: E, c: E, x: E)
    requires f.Lawful()
    ensures f.mul(c, f.mul(b, f.mul(a, x))) == f.mul(a, f.mul(b, f.mul(c, x)))
  {
    MulSwap(f, b, a, x);
    MulSwap(f, c, a, f.mul(b, x));
    MulSwap(f, c, b, x);
  }

  lemma AsternAt<E(!new)>(f: Field<E>, w: E, idem: nat, radix: nat, u: nat, k: nat, v: nat, m: nat, z: nat)
    returns (a: E)
    requires f.Lawful() && Power(f, w, CONV) == f.one && radix > 0 && idem * radix == CONV * u && m + v == CONV
    requires z == k * m
    ensures a == Astern(f, w, idem, v % radix)(k % radix) == Power(f, w, idem * z)
  {
    AsternIs(f, w, idem, radix, u, k, v, m);
    a := Power(f, w, idem * z);
  }

  lemma AsternIs<E(!new)>(f: Field<E>, w: E, idem: nat, radix: nat, u: nat, k: nat, v: nat, m: nat)
    requires f.Lawful() && Power(f, w, CONV) == f.one && radix > 0 && idem * radix == CONV * u && m + v == CONV
    ensures Power(f, w, (CONV - idem * (k % radix) * (v % radix) % CONV) % CONV) == Power(f, w, idem * (k * m))
  {
    var z := Idempotent(idem, radix, u, k, v);
    var e := idem * (k % radix) * (v % radix);
    NegatedExponent(idem, k, v, m, e, z);
    var i := idem * (k * m);
    OppositeResidues(CONV, idem * k - z, i, e);
    PowerMod(f, w, CONV, i);
  }

  lemma NegatedExponent(idem: nat, k: nat, v: nat, m: nat, e: nat, z: nat)
    requires idem * (k * v) == e + CONV * z && m + v == CONV
    ensures idem * k >= z && idem * (k * m) + e == CONV * (idem * k - z)
  {
    assert idem * (k * m) + idem * (k * v) == idem * k * CONV;
    FarApart(CONV, idem * k - z);
  }

  // ----- stage one with the network

  /** The products at a point, with the spectra of the segments from the network. */
  function NetworkPairs<E(!new)>(f: Field<E>, w: E, s: seq<E>, p: seq<E>, b: nat, i: nat, k: nat): nat -> E {
    (j: nat) => f.mul(Mixed(f, w, b, Segment(f, s, b, j), k), Transform(f, w, CONV, Kernel(f, p, b, i + j), k))
  }

  /** The spectrum of an output segment. */
  function NetworkSpectrum<E(!new)>(f: Field<E>, w: E, s: seq<E>, p: seq<E>, b: nat, left: nat, i: nat): nat -> E {
    (k: nat) => Sum(f, left, NetworkPairs(f, w, s, p, b, i, k))
  }

  lemma NetworkPoint<E(!new)>(f: Field<E>, w: E, s: seq<E>, p: seq<E>, b: nat, left: nat, i: nat, k: nat)
    requires f.Lawful() && Power(f, w, CONV) == f.one && 2 * b - 1 == CONV
    ensures NetworkSpectrum(f, w, s, p, b, left, i)(k) == Spectrum(f, w, s, p, b, left, i, k)
  {
    NetworkSums(f, w, s, p, b, left, i, k, NetworkPairs(f, w, s, p, b, i, k), Pairs(f, w, s, p, b, i, k));
  }

  lemma NetworkSums<E(!new)>(f: Field<E>, w: E, s: seq<E>, p: seq<E>, b: nat, left: nat, i: nat, k: nat,
      network: nat -> E, pairs: nat -> E)
    requires f.Lawful() && Power(f, w, CONV) == f.one && 2 * b - 1 == CONV
    requires network == NetworkPairs(f, w, s, p, b, i, k) && pairs == Pairs(f, w, s, p, b, i, k)
    ensures Sum(f, left, network) == Sum(f, left, pairs)
  {
    forall j: nat | j < left ensures network(j) == pairs(j) {
      NetworkPair(f, w, s, p, b, i, k, j);
    }
    SumSame(f, left, network, pairs);
  }

  lemma NetworkPair<E(!new)>(f: Field<E>, w: E, s: seq<E>, p: seq<E>, b: nat, i: nat, k: nat, j: nat)
    requires f.Lawful() && Power(f, w, CONV) == f.one && 2 * b - 1 == CONV
    ensures NetworkPairs(f, w, s, p, b, i, k)(j) == Pairs(f, w, s, p, b, i, k)(j)
  {
    MixedIsTransform(f, w, b, Segment(f, s, b, j), k);
  }

  /** Stage one as it is computed by default: segments through the network, point by point
      against the kernels, and back through the network, give the Hankel product. */
  lemma NetworkGivesHankel<E(!new)>(f: Field<E>, w: E, s: seq<E>, p: seq<E>, b: nat, segments: nat, i: nat, t: nat)
    requires f.Lawful() && i < segments && t < b && i * b + t < |s| <= segments * b && |p| == |s| + 1
    requires 2 * b - 1 == CONV && IsRoot(f, w, CONV)
    ensures MixedBack(f, w, NetworkSpectrum(f, w, s, p, b, segments - i, i), CONV - 1 - t)
         == Hankel(f, s, p[1..])[i * b + t]
  {
    NetworkOutput(f, w, s, p, b, segments - i, i, t);
    SegmentsGiveHankel(f, w, s, p, b, segments, i, t);
  }

  lemma NetworkOutput<E(!new)>(f: Field<E>, w: E, s: seq<E>, p: seq<E>, b: nat, left: nat, i: nat, t: nat)
    requires f.Lawful() && Power(f, w, CONV) == f.one && 2 * b - 1 == CONV && t < b
    ensures MixedBack(f, w, NetworkSpectrum(f, w, s, p, b, left, i), CONV - 1 - t)
         == Sum(f, CONV, OutputTerms(f, w, s, p, b, left, i, t))
  {
    var hat, terms := NetworkSpectrum(f, w, s, p, b, left, i), OutputTerms(f, w, s, p, b, left, i, t);
    NetworkTerms(f, w, s, p, b, left, i, t, hat, terms);
    MixedBackIs(f, w, hat, CONV - 1 - t, t + 1, terms);
  }

  lemma NetworkTerms<E(!new)>(f: Field<E>, w: E, s: seq<E>, p: seq<E>, b: nat, left: nat, i: nat, t: nat,
      hat: nat -> E, terms: nat -> E)
    requires f.Lawful() && Power(f, w, CONV) == f.one && 2 * b - 1 == CONV
    requires hat == NetworkSpectrum(f, w, s, p, b, left, i) && terms == OutputTerms(f, w, s, p, b, left, i, t)
    ensures forall k: nat | k < CONV :: terms(k) == f.mul(Power(f, w, k * (t + 1)), hat(k))
  {
    forall k: nat | k < CONV ensures terms(k) == f.mul(Power(f, w, k * (t + 1)), hat(k)) {
      NetworkPoint(f, w, s, p, b, left, i, k);
    }
  }
}
