/** The repair solve over consecutive recovery exponents: the explicit inverse of
    `invert_vandermonde` (crates/nzbkit-base/src/par2repair/linalg.rs), and the two-stage
    back-substitution that replaces it (par2repair/forney.rs). */
module Vandermonde {
  import opened Basics
  import opened CharTwo

  // ----- vectors

  function Dot<E(!new)>(f: Field<E>, a: seq<E>, b: seq<E>): E
    requires |a| == |b|
  {
    if a == [] then f.zero else f.add(f.mul(a[0], b[0]), Dot(f, a[1..], b[1..]))
  }

  function Scale<E(!new)>(f: Field<E>, s: E, v: seq<E>): (r: seq<E>)
    ensures |r| == |v|
  {
    if v == [] then [] else [f.mul(s, v[0])] + Scale(f, s, v[1..])
  }

  function Plus<E(!new)>(f: Field<E>, a: seq<E>, b: seq<E>): (r: seq<E>)
    requires |a| == |b|
    ensures |r| == |a|
  {
    if a == [] then [] else [f.add(a[0], b[0])] + Plus(f, a[1..], b[1..])
  }

  function Zeros<E(!new)>(f: Field<E>, m: nat): (r: seq<E>)
    ensures |r| == m
  {
    if m == 0 then [] else [f.zero] + Zeros(f, m - 1)
  }

  lemma {:induction false} ZerosAt<E(!new)>(f: Field<E>, m: nat, i: nat)
    requires i < m
    ensures Zeros(f, m)[i] == f.zero
  {
    if i > 0 {
      ZerosAt(f, m - 1, i - 1);
    }
  }

  lemma {:induction false} ScaleAt<E(!new)>(f: Field<E>, s: E, v: seq<E>, i: nat)
    requires i < |v|
    ensures Scale(f, s, v)[i] == f.mul(s, v[i])
  {
    if i > 0 {
      ScaleAt(f, s, v[1..], i - 1);
    }
  }

  lemma {:induction false} PlusAt<E(!new)>(f: Field<E>, a: seq<E>, b: seq<E>, i: nat)
    requires i < |a| == |b|
    ensures Plus(f, a, b)[i] == f.add(a[i], b[i])
  {
    if i > 0 {
      PlusAt(f, a[1..], b[1..], i - 1);
    }
  }

  lemma {:induction false} DotZeros<E(!new)>(f: Field<E>, a: seq<E>)
    requires f.Lawful()
    ensures Dot(f, a, Zeros(f, |a|)) == f.zero
  {
    if a != [] {
      DotZeros(f, a[1..]);
      assert f.At(a[0], f.zero, f.zero) && f.At(f.zero, f.zero, f.zero);
    }
  }

  lemma {:induction false} DotPlus<E(!new)>(f: Field<E>, a: seq<E>, b: seq<E>, c: seq<E>)
    requires f.Lawful() && |a| == |b| == |c|
    ensures Dot(f, a, Plus(f, b, c)) == f.add(Dot(f, a, b), Dot(f, a, c))
  {
    if a == [] {
      assert f.At(f.zero, f.zero, f.zero);
    } else {
      DotPlus(f, a[1..], b[1..], c[1..]);
      assert f.At(a[0], b[0], c[0]);
      AddSwap(f, f.mul(a[0], b[0]), f.mul(a[0], c[0]), Dot(f, a[1..], b[1..]), Dot(f, a[1..], c[1..]));
    }
  }

  lemma {:induction false} DotScale<E(!new)>(f: Field<E>, a: seq<E>, s: E, b: seq<E>)
    requires f.Lawful() && |a| == |b|
    ensures Dot(f, a, Scale(f, s, b)) == f.mul(s, Dot(f, a, b))
    ensures Dot(f, Scale(f, s, a), b) == f.mul(s, Dot(f, a, b))
  {
    if a == [] {
      assert f.At(s, f.zero, f.zero);
    } else {
      DotScale(f, a[1..], s, b[1..]);
      MulSwap(f, a[0], s, b[0]);
      assert f.At(s, a[0], b[0]) && f.At(s, f.mul(a[0], b[0]), Dot(f, a[1..], b[1..]));
    }
  }

  // ----- the repair matrix

  /** A column of the matrix: `w`, `w g`, `w g^2`, ... */
  function Column<E(!new)>(f: Field<E>, g: E, w: E, m: nat): (r: seq<E>)
    ensures |r| == m
  {
    if m == 0 then [] else [w] + Column(f, g, f.mul(w, g), m - 1)
  }

  /** The syndromes: the matrix with these columns, times the unknowns. */
  function Syndromes<E(!new)>(f: Field<E>, gs: seq<E>, ws: seq<E>, xs: seq<E>, m: nat): (s: seq<E>)
    requires |gs| == |ws| == |xs|
    ensures |s| == m
  {
    if gs == [] then Zeros(f, m)
    else Plus(f, Scale(f, xs[0], Column(f, gs[0], ws[0], m)), Syndromes(f, gs[1..], ws[1..], xs[1..], m))
  }

  /** A row times a column is the value of the row, as a polynomial. */
  lemma {:induction false} DotColumn<E(!new)>(f: Field<E>, q: seq<E>, g: E, w: E)
    requires f.Lawful()
    ensures Dot(f, q, Column(f, g, w, |q|)) == f.mul(w, Eval(f, q, g))
  {
    if q == [] {
      assert f.At(w, f.zero, f.zero);
    } else {
      DotColumn(f, q[1..], g, f.mul(w, g));
      var e := Eval(f, q[1..], g);
      assert f.At(w, g, e) && f.At(w, q[0], f.mul(g, e)) && f.At(q[0], w, w);
    }
  }

  /** A row times the syndromes: the sum of `x w q(g)` over the columns. */
  function Weighted<E(!new)>(f: Field<E>, q: seq<E>, gs: seq<E>, ws: seq<E>, xs: seq<E>): E
    requires |gs| == |ws| == |xs|
  {
    if gs == [] then f.zero
    else f.add(f.mul(xs[0], f.mul(ws[0], Eval(f, q, gs[0]))), Weighted(f, q, gs[1..], ws[1..], xs[1..]))
  }

  lemma {:induction false} DotSyndromes<E(!new)>(f: Field<E>, q: seq<E>, gs: seq<E>, ws: seq<E>, xs: seq<E>)
    requires f.Lawful() && |gs| == |ws| == |xs|
    ensures Dot(f, q, Syndromes(f, gs, ws, xs, |q|)) == Weighted(f, q, gs, ws, xs)
    decreases |gs|
  {
    if gs == [] {
      DotZeros(f, q);
    } else {
      var column := Column(f, gs[0], ws[0], |q|);
      DotSyndromes(f, q, gs[1..], ws[1..], xs[1..]);
      DotPlus(f, q, Scale(f, xs[0], column), Syndromes(f, gs[1..], ws[1..], xs[1..], |q|));
      DotScale(f, q, xs[0], column);
      DotColumn(f, q, gs[0], ws[0]);
    }
  }

  /** A polynomial that vanishes at all columns but one picks that one. */
  lemma {:induction false} Picks<E(!new)>(f: Field<E>, q: seq<E>, gs: seq<E>, ws: seq<E>, xs: seq<E>, c: nat)
    requires f.Lawful() && |gs| == |ws| == |xs| && c < |gs|
    requires forall j | 0 <= j < |gs| && j != c :: Eval(f, q, gs[j]) == f.zero
    ensures Weighted(f, q, gs, ws, xs) == f.mul(xs[c], f.mul(ws[c], Eval(f, q, gs[c])))
    decreases |gs|
  {
    if c == 0 {
      NothingElse(f, q, gs[1..], ws[1..], xs[1..]);
      assert f.At(f.mul(xs[0], f.mul(ws[0], Eval(f, q, gs[0]))), f.zero, f.zero);
    } else {
      Picks(f, q, gs[1..], ws[1..], xs[1..], c - 1);
      assert f.At(ws[0], f.zero, f.zero) && f.At(xs[0], f.zero, f.zero);
      var rest := Weighted(f, q, gs[1..], ws[1..], xs[1..]);
      assert f.At(f.zero, rest, rest) && f.At(rest, f.zero, f.zero);
    }
  }

  lemma {:induction false} NothingElse<E(!new)>(f: Field<E>, q: seq<E>, gs: seq<E>, ws: seq<E>, xs: seq<E>)
    requires f.Lawful() && |gs| == |ws| == |xs|
    requires forall j | 0 <= j < |gs| :: Eval(f, q, gs[j]) == f.zero
    ensures Weighted(f, q, gs, ws, xs) == f.zero
    decreases |gs|
  {
    if gs != [] {
      NothingElse(f, q, gs[1..], ws[1..], xs[1..]);
      assert f.At(ws[0], f.zero, f.zero) && f.At(xs[0], f.zero, f.zero) && f.At(f.zero, f.zero, f.zero);
    }
  }

  // ----- the explicit inverse

  predicate Distinct<E(==)>(gs: seq<E>) {
    forall i, j | 0 <= i < j < |gs| :: gs[i] != gs[j]
  }

  /** Row `c` of the inverse, `u` undoing the weight of the column. */
  function InverseRow<E(!new)>(f: Field<E>, gs: seq<E>, u: E, c: nat): (row: seq<E>)
    requires c < |gs|
    ensures |row| == |gs|
  {
    var p := Product(f, gs);
    Scale(f, f.mul(f.inv(Slope(f, p, gs[c])), u), Quotient(f, p, gs[c]))
  }

  /** The rows of the inverse return the unknowns: with distinct nodes, row `c` times the
      syndromes is unknown `c`, whatever the unknowns are. */
  lemma InverseSolves<E(!new)>(f: Field<E>, gs: seq<E>, ws: seq<E>, xs: seq<E>, u: E, c: nat)
    requires f.Lawful() && |gs| == |ws| == |xs| && c < |gs| && Distinct(gs) && f.mul(ws[c], u) == f.one
    ensures Dot(f, InverseRow(f, gs, u, c), Syndromes(f, gs, ws, xs, |gs|)) == xs[c]
  {
    var q, d := Quotient(f, Product(f, gs), gs[c]), Slope(f, Product(f, gs), gs[c]);
    SimpleRoot(f, gs, c);
    forall j | 0 <= j < |gs| && j != c ensures Eval(f, q, gs[j]) == f.zero {
      QuotientVanishes(f, gs, gs[c], gs[j]);
    }
    DotScale(f, q, f.mul(f.inv(d), u), Syndromes(f, gs, ws, xs, |gs|));
    DotSyndromes(f, q, gs, ws, xs);
    Picks(f, q, gs, ws, xs, c);
    Unscale(f, d, ws[c], u, xs[c]);
  }

  lemma Unscale<E(!new)>(f: Field<E>, d: E, w: E, u: E, x: E)
    requires f.Lawful() && d != f.zero && f.mul(w, u) == f.one
    ensures f.mul(f.mul(f.inv(d), u), f.mul(x, f.mul(w, d))) == x
  {
    var i := f.inv(d);
    MulSwap(f, f.mul(i, u), x, f.mul(w, d));
    assert f.At(i, u, f.mul(w, d)) && f.At(u, w, d) && f.At(w, u, u) && f.At(f.one, d, d) && f.At(d, f.one, f.one);
    assert f.At(i, d, d) && f.At(d, i, i) && f.At(x, f.one, f.one);
  }

  // ----- the two stages

  /** Stage one: entry `t` is the sum of `s[r] p[r + t]`. */
  function Hankel<E(!new)>(f: Field<E>, s: seq<E>, p: seq<E>): (t: seq<E>)
    requires |s| == |p|
    ensures |t| == |s|
  {
    if s == [] then [] else [Dot(f, s, p)] + Hankel(f, s[..|s| - 1], p[1..])
  }

  /** Stage two for column `c`: the value of the first stage's result at the node, scaled. */
  function TwoStage<E(!new)>(f: Field<E>, gs: seq<E>, u: E, c: nat, s: seq<E>): E
    requires c < |gs| == |s|
  {
    var p := Product(f, gs);
    f.mul(f.mul(f.inv(Slope(f, p, gs[c])), u), Eval(f, Hankel(f, s, p[1..]), gs[c]))
  }

  /** The values of the tails of `p`: the coefficients of the quotient of `_ + z p`. */
  function Tails<E(!new)>(f: Field<E>, p: seq<E>, g: E): (r: seq<E>)
    ensures |r| == |p|
  {
    if p == [] then [] else [Eval(f, p, g)] + Tails(f, p[1..], g)
  }

  lemma {:induction false} QuotientIsTails<E(!new)>(f: Field<E>, p: seq<E>, g: E)
    requires p != []
    ensures Quotient(f, p, g) == Tails(f, p[1..], g)
  {
    if |p| > 1 {
      QuotientIsTails(f, p[1..], g);
    }
  }

  lemma {:induction false} DotTails<E(!new)>(f: Field<E>, s: seq<E>, p: seq<E>, g: E)
    requires f.Lawful() && |s| == |p| > 0
    ensures Dot(f, s, Tails(f, p, g))
         == f.add(Dot(f, s, p), f.mul(g, Dot(f, s[..|s| - 1], Tails(f, p[1..], g))))
  {
    var s', p' := s[1..], p[1..];
    var e := Eval(f, p', g);
    var init := s[..|s| - 1];
    assert f.At(s[0], p[0], f.mul(g, e));
    MulSwap(f, s[0], g, e);
    var sp, se := f.mul(s[0], p[0]), f.mul(s[0], e);
    if s' == [] {
      assert init == [] && p' == [];
      assert f.At(g, f.zero, f.zero) && f.At(sp, f.zero, f.zero) && f.At(s[0], f.zero, f.zero);
      assert f.At(f.add(sp, f.zero), f.zero, f.zero);
    } else {
      DotTails(f, s', p', g);
      assert init[0] == s[0] && init[1..] == s'[..|s'| - 1];
      var d, rest := Dot(f, s', p'), Dot(f, s'[..|s'| - 1], Tails(f, p'[1..], g));
      assert Tails(f, p', g)[0] == e && Tails(f, p', g)[1..] == Tails(f, p'[1..], g);
      assert Dot(f, init, Tails(f, p', g)) == f.add(se, rest);
      assert f.At(g, se, rest);
      AddSwap(f, sp, f.mul(g, se), d, f.mul(g, rest));
    }
  }

  lemma {:induction false} EvalHankel<E(!new)>(f: Field<E>, s: seq<E>, p: seq<E>, g: E)
    requires f.Lawful() && |s| == |p|
    ensures Eval(f, Hankel(f, s, p), g) == Dot(f, s, Tails(f, p, g))
    decreases |s|
  {
    if s != [] {
      var init, p' := s[..|s| - 1], p[1..];
      EvalHankel(f, init, p', g);
      EvalCons(f, Dot(f, s, p), Hankel(f, init, p'), g);
      DotTails(f, s, p, g);
    }
  }

  /** On every vector, not only on syndromes, the two stages give what the row of the
      inverse gives. */
  lemma StagesAreInverse<E(!new)>(f: Field<E>, gs: seq<E>, u: E, c: nat, s: seq<E>)
    requires f.Lawful() && c < |gs| == |s|
    ensures TwoStage(f, gs, u, c, s) == Dot(f, InverseRow(f, gs, u, c), s)
  {
    var p := Product(f, gs);
    EvalHankel(f, s, p[1..], gs[c]);
    QuotientIsTails(f, p, gs[c]);
    DotFlip(f, s, Tails(f, p[1..], gs[c]));
    DotScale(f, Quotient(f, p, gs[c]), f.mul(f.inv(Slope(f, p, gs[c])), u), s);
  }

  lemma {:induction false} DotFlip<E(!new)>(f: Field<E>, a: seq<E>, b: seq<E>)
    requires f.Lawful() && |a| == |b|
    ensures Dot(f, a, b) == Dot(f, b, a)
  {
    if a != [] {
      DotFlip(f, a[1..], b[1..]);
      assert f.At(a[0], b[0], b[0]);
    }
  }

  /** So the two stages return the unknowns. */
  lemma StagesSolve<E(!new)>(f: Field<E>, gs: seq<E>, ws: seq<E>, xs: seq<E>, u: E, c: nat)
    requires f.Lawful() && |gs| == |ws| == |xs| && c < |gs| && Distinct(gs) && f.mul(ws[c], u) == f.one
    ensures TwoStage(f, gs, u, c, Syndromes(f, gs, ws, xs, |gs|)) == xs[c]
  {
    StagesAreInverse(f, gs, u, c, Syndromes(f, gs, ws, xs, |gs|));
    InverseSolves(f, gs, ws, xs, u, c);
  }

  // ----- the derivative from the odd coefficients

  /** The odd coefficients of a polynomial. */
  function Odds<E(!new)>(p: seq<E>): seq<E> {
    if |p| < 2 then [] else [p[1]] + Odds(p[2..])
  }

  /** In characteristic 2 the derivative keeps the odd coefficients, at the square. */
  lemma {:induction false} SlopeByOdds<E(!new)>(f: Field<E>, p: seq<E>, g: E)
    requires f.Lawful() && p != []
    ensures Slope(f, p, g) == Eval(f, Odds(p), f.mul(g, g))
    decreases |p|
  {
    if |p| == 1 {
      assert Quotient(f, p, g) == [];
    } else {
      var a, b, rest := p[0], p[1], p[2..];
      assert p == [a] + p[1..] && p[1..] == [b] + rest;
      SlopeCons(f, a, p[1..], g);
      EvalCons(f, b, rest, g);
      EvalCons(f, b, Odds(rest), f.mul(g, g));
      var e := f.mul(g, Eval(f, rest, g));
      if rest == [] {
        assert Quotient(f, p[1..], g) == [];
        assert Slope(f, p[1..], g) == f.zero && Eval(f, Odds(rest), f.mul(g, g)) == f.zero;
        assert f.At(g, f.zero, f.zero) && f.At(f.mul(g, g), f.zero, f.zero) && f.At(b, f.zero, f.zero);
      } else {
        SlopeByOdds(f, rest, g);
        SlopeCons(f, b, rest, g);
        var s := Slope(f, rest, g);
        assert f.At(g, Eval(f, rest, g), f.mul(g, s)) && f.At(g, g, s);
        Cancelled(f, b, e, f.mul(f.mul(g, g), s));
      }
    }
  }

  lemma Cancelled<E(!new)>(f: Field<E>, b: E, e: E, s: E)
    requires f.Lawful()
    ensures f.add(f.add(b, e), f.add(e, s)) == f.add(b, s)
  {
    assert f.At(b, e, f.add(e, s));
    Cancel(f, s, e);
  }

  // ----- the loops

  lemma {:induction false} CarryAt<E(!new)>(f: Field<E>, p: seq<E>, g: E, c: E, i: nat)
    requires i <= |p|
    ensures i < |p| ==> Carry(f, p, g, c)[i] == f.add(if i == 0 then c else p[i - 1], f.mul(g, p[i]))
    ensures i == |p| ==> Carry(f, p, g, c)[i] == if i == 0 then c else p[i - 1]
  {
    if p != [] && i > 0 {
      CarryAt(f, p[1..], g, p[0], i - 1);
    }
  }

  /** Times `z + g`, walked downward so that it runs in place. */
  method MultiplyIn<E(!new)>(f: Field<E>, p: array<E>, deg: nat, g: E)
    requires f.Lawful() && deg + 1 < p.Length
    modifies p
    ensures p[..deg + 2] == TimesRoot(f, old(p[..deg + 1]), g)
  {
    ghost var was := p[..deg + 1];
    forall i: nat | i <= deg + 1
      ensures TimesRoot(f, was, g)[i] == if i == deg + 1 then was[deg]
                                         else f.add(if i == 0 then f.zero else was[i - 1], f.mul(g, was[i]))
    {
      CarryAt(f, was, g, f.zero, i);
    }
    p[deg + 1] := p[deg];
    for i := deg + 1 downto 1
      invariant p[deg + 1] == was[deg] && p[..i] == was[..i]
      invariant forall k | i <= k <= deg :: p[k] == f.add(was[k - 1], f.mul(g, was[k]))
    {
      assert p[i] == p[..i + 1][i] && p[i - 1] == p[..i + 1][i - 1];
      p[i] := f.add(p[i - 1], f.mul(g, p[i]));
    }
    assert p[0] == p[..1][0];
    p[0] := f.mul(g, p[0]);
    assert f.At(f.zero, f.mul(g, was[0]), f.zero) && f.At(f.mul(g, was[0]), f.zero, f.zero);
    assert p[0] == TimesRoot(f, was, g)[0];
    assert p[deg + 1] == TimesRoot(f, was, g)[deg + 1];
    forall k | 0 < k <= deg ensures p[k] == TimesRoot(f, was, g)[k] {
      assert p[k] == f.add(was[k - 1], f.mul(g, was[k]));
    }
  }

  /** `chain`: the polynomial with the given roots, one root at a time. */
  method Locator<E(!new)>(f: Field<E>, gs: seq<E>) returns (p: array<E>)
    requires f.Lawful()
    ensures fresh(p) && p[..] == Product(f, gs)
  {
    p := new E[|gs| + 1](_ => f.zero);
    p[0] := f.one;
    for deg := 0 to |gs|
      invariant p[..deg + 1] == Product(f, gs[..deg])
    {
      assert gs[..deg + 1][..deg] == gs[..deg];
      MultiplyIn(f, p, deg, gs[deg]);
    }
    assert gs[..|gs|] == gs && p[..|gs| + 1] == p[..];
  }

  method Horner<E(!new)>(f: Field<E>, q: seq<E>, g: E) returns (d: E)
    requires f.Lawful()
    ensures d == Eval(f, q, g)
  {
    d := f.zero;
    for i := |q| downto 0
      invariant d == Eval(f, q[i..], g)
    {
      assert q[i..][1..] == q[i + 1..];
      assert f.At(f.mul(g, d), q[i], q[i]);
      d := f.add(f.mul(g, d), q[i]);
    }
    assert q[0..] == q;
  }

  /** Synthetic division of `p` by `z + g`. */
  method Divide<E(!new)>(f: Field<E>, p: seq<E>, g: E) returns (q: array<E>)
    requires f.Lawful() && |p| > 1
    ensures fresh(q) && q[..] == Quotient(f, p, g)
  {
    var m := |p| - 1;
    q := new E[m](_ => f.zero);
    q[m - 1] := p[m];
    LastTail(f, p, g);
    for i := m downto 1
      invariant forall k | i - 1 <= k < m :: q[k] == Eval(f, p[k + 1..], g)
    {
      assert p[i..][1..] == p[i + 1..];
      q[i - 1] := f.add(p[i], f.mul(g, q[i]));
    }
    forall k | 0 <= k < m ensures Quotient(f, p, g)[k] == q[k] {
      QuotientAt(f, p, g, k);
    }
  }

  lemma LastTail<E(!new)>(f: Field<E>, p: seq<E>, g: E)
    requires f.Lawful() && p != []
    ensures Eval(f, p[|p| - 1..], g) == p[|p| - 1]
  {
    var a := p[|p| - 1];
    assert p[|p| - 1..] == [a];
    EvalCons(f, a, [], g);
    NothingMore([a]);
    assert f.At(g, a, a) && f.At(a, a, a);
  }

  method ScaleRow<E(!new)>(f: Field<E>, s: E, v: seq<E>) returns (r: seq<E>)
    ensures r == Scale(f, s, v)
  {
    r := [];
    ghost var goal, rest := Scale(f, s, v), v;
    for i := 0 to |v|
      invariant rest == v[i..] && r + Scale(f, s, rest) == goal
    {
      rest := v[i + 1..];
      assert v[i..][1..] == rest;
      Regroup(r, [f.mul(s, v[i])], Scale(f, s, rest));
      r := r + [f.mul(s, v[i])];
    }
    NothingMore(r);
  }

  /** `build_row`: row `c` of the inverse, unless the node occurs twice. */
  method BuildRow<E(!new)>(f: Field<E>, ghost gs: seq<E>, p: seq<E>, g: E, u: E, ghost c: nat)
    returns (row: Option<seq<E>>)
    requires f.Lawful() && c < |gs| && g == gs[c] && p == Product(f, gs)
    ensures row == if Slope(f, p, g) == f.zero then None else Some(InverseRow(f, gs, u, c))
  {
    var q := Divide(f, p, g);
    var d := Horner(f, q[..], g);
    if d == f.zero {
      return None;
    }
    var scaled := ScaleRow(f, f.mul(f.inv(d), u), q[..]);
    row := Some(scaled);
  }

  /** `invert_vandermonde`: the rows of the inverse, or nothing, exactly when two nodes are
      the same. */
  method InvertVandermonde<E(!new)>(f: Field<E>, gs: seq<E>, us: seq<E>) returns (rows: Option<seq<seq<E>>>)
    requires f.Lawful() && |us| == |gs|
    ensures rows.None? <==> !Distinct(gs)
    ensures rows.Some? ==> |rows.value| == |gs|
                           && forall c | 0 <= c < |gs| :: rows.value[c] == InverseRow(f, gs, us[c], c)
  {
    var p := Locator(f, gs);
    var done: seq<seq<E>> := [];
    for c := 0 to |gs|
      invariant p[..] == Product(f, gs) && |done| == c
      invariant forall k | 0 <= k < c :: done[k] == InverseRow(f, gs, us[k], k) && Slope(f, p[..], gs[k]) != f.zero
    {
      SimpleRoot(f, gs, c);
      var row := BuildRow(f, gs, p[..], gs[c], us[c], c);
      if row.None? {
        return None;
      }
      done := done + [row.value];
    }
    forall i, j | 0 <= i < j < |gs| ensures gs[i] != gs[j] {
      SimpleRoot(f, gs, i);
    }
    rows := Some(done);
  }

  /** The scalar half of `prepare`: the polynomial and the scale of each column, or nothing
      when there is no column or two nodes are the same. */
  method Prepare<E(!new)>(f: Field<E>, gs: seq<E>, us: seq<E>) returns (plan: Option<(seq<E>, seq<E>)>)
    requires f.Lawful() && |us| == |gs| && forall c | 0 <= c < |us| :: us[c] != f.zero
    ensures plan.None? <==> gs == [] || !Distinct(gs)
    ensures plan.Some? ==> plan.value.0 == Product(f, gs) && |plan.value.1| == |gs|
                           && forall c | 0 <= c < |gs| ::
                                plan.value.1[c] == f.mul(f.inv(Slope(f, Product(f, gs), gs[c])), us[c])
  {
    if gs == [] {
      return None;
    }
    var p := Locator(f, gs);
    var odds := OddsOf(p[..]);
    var scales: seq<E> := [];
    for c := 0 to |gs|
      invariant p[..] == Product(f, gs) && odds == Odds(p[..]) && |scales| == c
      invariant forall k | 0 <= k < c ::
                  Slope(f, p[..], gs[k]) != f.zero && scales[k] == f.mul(f.inv(Slope(f, p[..], gs[k])), us[k])
    {
      var d := Horner(f, odds, f.mul(gs[c], gs[c]));
      SlopeByOdds(f, p[..], gs[c]);
      SimpleRoot(f, gs, c);
      if d == f.zero {
        return None;
      }
      scales := scales + [f.mul(f.inv(d), us[c])];
    }
    forall i, j | 0 <= i < j < |gs| ensures gs[i] != gs[j] {
      SimpleRoot(f, gs, i);
    }
    plan := Some((p[..], scales));
  }

  method OddsOf<E(!new)>(p: seq<E>) returns (odds: seq<E>)
    ensures odds == Odds(p)
  {
    odds := [];
    var i := 1;
    ghost var goal, rest := Odds(p), p;
    while i < |p|
      invariant 1 <= i && rest == (if i <= |p| then p[i - 1..] else []) && odds + Odds(rest) == goal
    {
      assert p[i - 1..][1] == p[i] && p[i - 1..][2..] == p[i + 1..];
      rest := p[i + 1..];
      Regroup(odds, [p[i]], Odds(rest));
      odds := odds + [p[i]];
      i := i + 2;
    }
    NothingMore(odds);
  }
}
