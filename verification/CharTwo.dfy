/** Fields of characteristic 2, where subtraction is addition, and polynomials over them:
    the algebra under the repair solve of crates/nzbkit-base/src/par2repair. */
module CharTwo {
  import opened Basics

  datatype Field<!E(==,!new)> = Field(zero: E, one: E, add: (E, E) -> E, mul: (E, E) -> E, inv: E -> E) {
    /** The laws, at three elements. */
    predicate At(a: E, b: E, c: E) {
      && add(a, b) == add(b, a) && add(add(a, b), c) == add(a, add(b, c))
      && add(a, zero) == a && add(a, a) == zero
      && mul(a, b) == mul(b, a) && mul(mul(a, b), c) == mul(a, mul(b, c))
      && mul(a, one) == a && mul(a, zero) == zero
      && mul(a, add(b, c)) == add(mul(a, b), mul(a, c))
      && (a != zero ==> mul(a, inv(a)) == one)
    }

    ghost predicate Lawful() {
      one != zero && forall a: E, b: E, c: E :: At(a, b, c)
    }
  }

  // ----- sums and products

  lemma AddSwap<E(!new)>(f: Field<E>, a: E, b: E, c: E, d: E)
    requires f.Lawful()
    ensures f.add(f.add(a, b), f.add(c, d)) == f.add(f.add(a, c), f.add(b, d))
  {
    assert f.At(a, b, f.add(c, d)) && f.At(b, c, d) && f.At(c, b, d) && f.At(a, c, f.add(b, d));
  }

  lemma Cancel<E(!new)>(f: Field<E>, a: E, b: E)
    requires f.Lawful()
    ensures f.add(f.add(a, b), b) == a && f.add(b, f.add(b, a)) == a
    ensures f.add(a, b) == f.zero <==> a == b
  {
    assert f.At(a, b, b) && f.At(b, b, a) && f.At(a, f.zero, f.zero) && f.At(f.add(a, b), b, b);
    assert f.At(f.zero, a, a) && f.At(b, a, a) && f.At(f.zero, b, b) && f.At(b, f.zero, a);
  }

  lemma MulSwap<E(!new)>(f: Field<E>, a: E, b: E, c: E)
    requires f.Lawful()
    ensures f.mul(a, f.mul(b, c)) == f.mul(b, f.mul(a, c))
  {
    assert f.At(a, b, c) && f.At(b, a, c);
  }

  lemma Spread<E(!new)>(f: Field<E>, a: E, b: E, c: E)
    requires f.Lawful()
    ensures f.mul(f.add(a, b), c) == f.add(f.mul(a, c), f.mul(b, c))
  {
    assert f.At(c, a, b) && f.At(f.add(a, b), c, c) && f.At(a, c, c) && f.At(b, c, c);
  }

  /** There are no zero divisors. */
  lemma NonZero<E(!new)>(f: Field<E>, a: E, b: E)
    requires f.Lawful()
    ensures f.mul(a, b) == f.zero <==> a == f.zero || b == f.zero
  {
    assert f.At(a, b, b) && f.At(b, a, a) && f.At(a, f.zero, b);
    if a != f.zero {
      var i := f.inv(a);
      assert f.At(i, a, b) && f.At(a, i, b) && f.At(b, f.one, a) && f.At(f.one, b, a) && f.At(i, f.zero, a);
    }
  }

  // ----- polynomials, lowest coefficient first

  function Eval<E(!new)>(f: Field<E>, p: seq<E>, z: E): E {
    if p == [] then f.zero else f.add(p[0], f.mul(z, Eval(f, p[1..], z)))
  }

  /** `c + (z + g) p`, with the carry `c` into the lowest coefficient. */
  function Carry<E(!new)>(f: Field<E>, p: seq<E>, g: E, c: E): (r: seq<E>)
    ensures |r| == |p| + 1
  {
    if p == [] then [c] else [f.add(c, f.mul(g, p[0]))] + Carry(f, p[1..], g, p[0])
  }

  function TimesRoot<E(!new)>(f: Field<E>, p: seq<E>, g: E): (r: seq<E>)
    ensures |r| == |p| + 1
  {
    Carry(f, p, g, f.zero)
  }

  lemma EvalCons<E(!new)>(f: Field<E>, a: E, p: seq<E>, z: E)
    ensures Eval(f, [a] + p, z) == f.add(a, f.mul(z, Eval(f, p, z)))
  {
    assert ([a] + p)[1..] == p;
  }

  lemma {:induction false} EvalCarry<E(!new)>(f: Field<E>, p: seq<E>, g: E, c: E, z: E)
    requires f.Lawful()
    ensures Eval(f, Carry(f, p, g, c), z) == f.add(c, f.mul(f.add(z, g), Eval(f, p, z)))
  {
    if p == [] {
      EvalCons(f, c, [], z);
      NothingMore([c]);
      assert f.At(z, c, c) && f.At(f.add(z, g), c, c) && f.At(c, c, c);
    } else {
      EvalCarry(f, p[1..], g, p[0], z);
      EvalCons(f, f.add(c, f.mul(g, p[0])), Carry(f, p[1..], g, p[0]), z);
      CarryStep(f, c, g, z, p[0], Eval(f, p[1..], z));
    }
  }

  /** `(c + g a) + z (a + (z + g) e) == c + (z + g) (a + z e)`. */
  lemma CarryStep<E(!new)>(f: Field<E>, c: E, g: E, z: E, a: E, e: E)
    requires f.Lawful()
    ensures f.add(f.add(c, f.mul(g, a)), f.mul(z, f.add(a, f.mul(f.add(z, g), e))))
         == f.add(c, f.mul(f.add(z, g), f.add(a, f.mul(z, e))))
  {
    var zg := f.add(z, g);
    MulSwap(f, z, zg, e);
    assert f.At(z, a, f.mul(zg, e)) && f.At(zg, a, f.mul(z, e));
    Spread(f, z, g, a);
    var ga, za, ze := f.mul(g, a), f.mul(z, a), f.mul(zg, f.mul(z, e));
    assert f.At(c, ga, f.add(za, ze)) && f.At(ga, za, ze) && f.At(ga, za, za);
  }

  // ----- the polynomial with given roots

  function Product<E(!new)>(f: Field<E>, roots: seq<E>): (p: seq<E>)
    ensures |p| == |roots| + 1
  {
    if roots == [] then [f.one] else TimesRoot(f, Product(f, roots[..|roots| - 1]), roots[|roots| - 1])
  }

  lemma EvalProduct<E(!new)>(f: Field<E>, roots: seq<E>, z: E)
    requires f.Lawful() && roots != []
    ensures Eval(f, Product(f, roots), z)
         == f.mul(f.add(z, roots[|roots| - 1]), Eval(f, Product(f, roots[..|roots| - 1]), z))
  {
    var g, p := roots[|roots| - 1], Product(f, roots[..|roots| - 1]);
    EvalCarry(f, p, g, f.zero, z);
    var v := f.mul(f.add(z, g), Eval(f, p, z));
    assert f.At(v, f.zero, f.zero);
  }

  /** Its roots are the given ones, and no others. */
  lemma {:induction false} RootsOf<E(!new)>(f: Field<E>, roots: seq<E>, z: E)
    requires f.Lawful()
    ensures Eval(f, Product(f, roots), z) == f.zero <==> z in roots
    decreases |roots|
  {
    if roots == [] {
      EvalCons(f, f.one, [], z);
      NothingMore([f.one]);
      assert f.At(z, f.zero, f.zero) && f.At(f.one, f.zero, f.zero);
    } else {
      var init, g := roots[..|roots| - 1], roots[|roots| - 1];
      RootsOf(f, init, z);
      EvalProduct(f, roots, z);
      NonZero(f, f.add(z, g), Eval(f, Product(f, init), z));
      Cancel(f, z, g);
      assert roots == init + [g];
    }
  }

  // ----- dividing by a root

  /** Synthetic division of `p` by `z + g`: coefficient `i` is what is above the `i`th
      coefficient of `p`, at `g`. */
  function Quotient<E(!new)>(f: Field<E>, p: seq<E>, g: E): (q: seq<E>)
    requires p != []
    ensures |q| == |p| - 1
  {
    if |p| == 1 then [] else [Eval(f, p[1..], g)] + Quotient(f, p[1..], g)
  }

  lemma {:induction false} QuotientAt<E(!new)>(f: Field<E>, p: seq<E>, g: E, i: nat)
    requires i + 1 < |p|
    ensures Quotient(f, p, g)[i] == Eval(f, p[i + 1..], g)
  {
    if i > 0 {
      QuotientAt(f, p[1..], g, i - 1);
      assert p[1..][i..] == p[i + 1..];
    }
  }

  /** Division with remainder: `p == p(g) + (z + g) q`. */
  lemma {:induction false} Division<E(!new)>(f: Field<E>, p: seq<E>, g: E, z: E)
    requires f.Lawful() && p != []
    ensures Eval(f, p, z) == f.add(Eval(f, p, g), f.mul(f.add(z, g), Eval(f, Quotient(f, p, g), z)))
  {
    var rest := p[1..];
    if rest == [] {
      assert Eval(f, rest, z) == Eval(f, rest, g) == f.zero;
      assert f.At(z, p[0], p[0]) && f.At(g, p[0], p[0]) && f.At(p[0], p[0], p[0]) && f.At(f.add(z, g), z, z);
    } else {
      Division(f, rest, g, z);
      var e, q := Eval(f, rest, g), Eval(f, Quotient(f, rest, g), z);
      EvalCons(f, e, Quotient(f, rest, g), z);
      DivisionStep(f, p[0], g, z, e, q);
    }
  }

  /** `a + z (e + (z + g) q) == (a + g e) + (z + g) (e + z q)`. */
  lemma DivisionStep<E(!new)>(f: Field<E>, a: E, g: E, z: E, e: E, q: E)
    requires f.Lawful()
    ensures f.add(a, f.mul(z, f.add(e, f.mul(f.add(z, g), q))))
         == f.add(f.add(a, f.mul(g, e)), f.mul(f.add(z, g), f.add(e, f.mul(z, q))))
  {
    CarryStep(f, f.add(a, f.mul(g, e)), g, z, e, q);
    Cancel(f, a, f.mul(g, e));
  }

  /** The quotient by one root vanishes at every other. */
  lemma QuotientVanishes<E(!new)>(f: Field<E>, roots: seq<E>, g: E, h: E)
    requires f.Lawful() && g in roots && h in roots && g != h
    ensures Eval(f, Quotient(f, Product(f, roots), g), h) == f.zero
  {
    var p := Product(f, roots);
    Division(f, p, g, h);
    RootsOf(f, roots, g);
    RootsOf(f, roots, h);
    var v := f.mul(f.add(h, g), Eval(f, Quotient(f, p, g), h));
    assert f.At(f.zero, v, v) && f.At(v, f.zero, v);
    NonZero(f, f.add(h, g), Eval(f, Quotient(f, p, g), h));
    Cancel(f, h, g);
  }

  // ----- the derivative

  /** The value of the quotient by `z + g` at `g` itself. */
  function Slope<E(!new)>(f: Field<E>, p: seq<E>, g: E): E
    requires p != []
  {
    Eval(f, Quotient(f, p, g), g)
  }

  lemma SlopeCons<E(!new)>(f: Field<E>, a: E, p: seq<E>, g: E)
    requires p != []
    ensures Slope(f, [a] + p, g) == f.add(Eval(f, p, g), f.mul(g, Slope(f, p, g)))
  {
    assert ([a] + p)[1..] == p;
    EvalCons(f, Eval(f, p, g), Quotient(f, p, g), g);
  }

  /** The product rule: `((z + h) p)' == p + (z + h) p'`. */
  lemma {:induction false} SlopeCarry<E(!new)>(f: Field<E>, p: seq<E>, h: E, c: E, g: E)
    requires f.Lawful() && p != []
    ensures Slope(f, Carry(f, p, h, c), g)
         == f.add(Eval(f, p, g), f.mul(f.add(g, h), Slope(f, p, g)))
  {
    var rest := p[1..];
    var more := Carry(f, rest, h, p[0]);
    SlopeCons(f, f.add(c, f.mul(h, p[0])), more, g);
    EvalCarry(f, rest, h, p[0], g);
    var e := Eval(f, rest, g);
    var gh := f.add(g, h);
    if rest == [] {
      assert more == [p[0]];
      assert Quotient(f, more, g) == [] && Quotient(f, p, g) == [];
      assert f.At(gh, p[0], p[0]) && f.At(g, p[0], p[0]) && f.At(p[0], p[0], p[0]);
    } else {
      SlopeCarry(f, rest, h, p[0], g);
      assert p == [p[0]] + rest;
      SlopeCons(f, p[0], rest, g);
      SlopeStep(f, p[0], g, gh, e, Slope(f, rest, g));
    }
  }

  /** `(a + w e) + g (e + w d) == (a + g e) + w (e + g d)`. */
  lemma SlopeStep<E(!new)>(f: Field<E>, a: E, g: E, w: E, e: E, d: E)
    requires f.Lawful()
    ensures f.add(f.add(a, f.mul(w, e)), f.mul(g, f.add(e, f.mul(w, d))))
         == f.add(f.add(a, f.mul(g, e)), f.mul(w, f.add(e, f.mul(g, d))))
  {
    MulSwap(f, g, w, d);
    assert f.At(g, e, f.mul(w, d)) && f.At(w, e, f.mul(g, d));
    AddSwap(f, a, f.mul(w, e), f.mul(g, e), f.mul(w, f.mul(g, d)));
  }

  /** The derivative at a root is nonzero exactly when the root is simple. */
  lemma {:induction false} SimpleRoot<E(!new)>(f: Field<E>, roots: seq<E>, c: nat)
    requires f.Lawful() && c < |roots|
    ensures Slope(f, Product(f, roots), roots[c]) == f.zero <==>
              exists j :: 0 <= j < |roots| && j != c && roots[j] == roots[c]
    decreases |roots|
  {
    var init, h, g := roots[..|roots| - 1], roots[|roots| - 1], roots[c];
    var p := Product(f, init);
    SlopeCarry(f, p, h, f.zero, g);
    RootsOf(f, init, g);
    Cancel(f, g, h);
    var e, s := Eval(f, p, g), Slope(f, p, g);
    NonZero(f, f.add(g, h), s);
    var d := f.mul(f.add(g, h), s);
    assert f.At(e, f.zero, f.zero) && f.At(f.zero, s, s) && f.At(d, f.zero, e) && f.At(f.zero, d, e);
    assert forall j | 0 <= j < |init| :: roots[j] == init[j];
    if c == |roots| - 1 {
      assert f.At(s, f.zero, s);
    } else {
      SimpleRoot(f, init, c);
      assert g in init;
    }
  }
}
