/** The repair solve in the field of the format: missing blocks `x_c` with base logs `k_c`,
    consecutive recovery exponents from `e0` on, one word of each block at a time. */
module Repair {
  import opened CharTwo
  import opened Vandermonde
  import opened Sums
  import opened Transforms
  import opened Gf16
  import opened Gf16Order

  /** What recovery exponent `e` says about the missing words: the sum of `2^(k_c e) x_c`. */
  function Syndrome(ks: seq<nat>, e: nat, xs: seq<Word>): Word
    requires |ks| == |xs|
  {
    if ks == [] then Zero() else Xor(Times(xs[0], Exp(ks[0] * e)), Syndrome(ks[1..], e, xs[1..]))
  }

  function Nodes(ks: seq<nat>): (gs: seq<Word>)
    ensures |gs| == |ks|
  {
    if ks == [] then [] else [Exp(ks[0])] + Nodes(ks[1..])
  }

  function Weights(ks: seq<nat>, e: nat): (ws: seq<Word>)
    ensures |ws| == |ks|
  {
    if ks == [] then [] else [Exp(ks[0] * e)] + Weights(ks[1..], e)
  }

  /** `pow2(neg_e0)`: what undoes the weight of a column. */
  function Unweight(k: nat, e: nat): Word {
    Exp((ORDER - k * e % ORDER) % ORDER)
  }

  lemma {:induction false} NodeAt(ks: seq<nat>, e: nat, c: nat)
    requires c < |ks|
    ensures Nodes(ks)[c] == Exp(ks[c]) && Weights(ks, e)[c] == Exp(ks[c] * e)
  {
    if c > 0 {
      NodeAt(ks[1..], e, c - 1);
    }
  }

  lemma UnweightLaw(k: nat, e: nat)
    ensures Times(Exp(k * e), Unweight(k, e)) == One()
  {
    var n: nat, i := ORDER, k * e;
    ExpPeriod(i);
    ExpPeriod(n - i % n);
    ExpAdds(i % n, n - i % n);
    ExpOrder(n);
  }

  /** Base logs below the order give distinct nodes exactly when they are distinct. */
  lemma NodesDistinct(ks: seq<nat>)
    requires forall c | 0 <= c < |ks| :: ks[c] < ORDER
    ensures Distinct(Nodes(ks)) <==> Distinct(ks)
  {
    var gs := Nodes(ks);
    forall i, j | 0 <= i < j < |ks| ensures gs[i] != gs[j] <==> ks[i] != ks[j] {
      NodesDiffer(ks, i, j);
    }
    SameDistinct(gs, ks);
  }

  lemma SameDistinct<A, B>(a: seq<A>, b: seq<B>)
    requires |a| == |b| && forall i, j | 0 <= i < j < |a| :: a[i] != a[j] <==> b[i] != b[j]
    ensures Distinct(a) <==> Distinct(b)
  {
  }

  lemma NodesDiffer(ks: seq<nat>, i: nat, j: nat)
    requires i < j < |ks| && ks[i] < ORDER && ks[j] < ORDER
    ensures Nodes(ks)[i] != Nodes(ks)[j] <==> ks[i] != ks[j]
  {
    NodeAt(ks, 0, i);
    NodeAt(ks, 0, j);
    if ks[i] < ks[j] {
      ExpInjective(ks[i], ks[j]);
    } else if ks[j] < ks[i] {
      ExpInjective(ks[j], ks[i]);
    }
  }

  /** Entry `r` of a column of the matrix is `2^(k (e + r))`. */
  lemma {:induction false} ColumnAt(k: nat, e: nat, m: nat, r: nat)
    requires r < m
    ensures Column(Gf(), Exp(k), Exp(k * e), m)[r] == Exp(k * (e + r))
    decreases r
  {
    if r > 0 {
      ExpAdds(k * e, k);
      NextExponent(k, e, r);
      ColumnAt(k, e + 1, m - 1, r - 1);
    }
  }

  lemma NextExponent(k: nat, e: nat, r: nat)
    requires r > 0
    ensures k * (e + 1) == k * e + k && e + 1 + (r - 1) == e + r
  {
  }

  /** The syndromes of the repair are the matrix times the unknowns. */
  lemma {:induction false} SyndromeAt(ks: seq<nat>, e: nat, xs: seq<Word>, m: nat, r: nat)
    requires |ks| == |xs| && r < m
    ensures Syndromes(Gf(), Nodes(ks), Weights(ks, e), xs, m)[r] == Syndrome(ks, e + r, xs)
    decreases |ks|
  {
    var f := Gf();
    if ks == [] {
      ZerosAt(f, m, r);
    } else {
      var column := Column(f, Exp(ks[0]), Exp(ks[0] * e), m);
      SyndromeAt(ks[1..], e, xs[1..], m, r);
      ColumnAt(ks[0], e, m, r);
      ScaleAt(f, xs[0], column, r);
      PlusAt(f, Scale(f, xs[0], column), Syndromes(f, Nodes(ks[1..]), Weights(ks[1..], e), xs[1..], m), r);
    }
  }

  /** The syndromes at consecutive exponents. */
  ghost predicate AreSyndromes(ks: seq<nat>, e: nat, xs: seq<Word>, s: seq<Word>)
    requires |ks| == |xs|
  {
    forall r: nat | r < |s| :: s[r] == Syndrome(ks, e + r, xs)
  }

  /** Whatever the missing words are, both solves return them: for distinct base logs, any
      first exponent, and syndromes of the missing words at consecutive exponents, the rows
      of the explicit inverse and the two-stage solve give back word `c`. */
  lemma RepairReturns(ks: seq<nat>, e: nat, xs: seq<Word>, s: seq<Word>, c: nat)
    requires |ks| == |xs| == |s| && c < |ks| && Distinct(ks) && forall i | 0 <= i < |ks| :: ks[i] < ORDER
    requires AreSyndromes(ks, e, xs, s)
    ensures Dot(Gf(), InverseRow(Gf(), Nodes(ks), Unweight(ks[c], e), c), s) == xs[c]
    ensures TwoStage(Gf(), Nodes(ks), Unweight(ks[c], e), c, s) == xs[c]
  {
    GfLawful();
    NodesDistinct(ks);
    NodeAt(ks, e, c);
    UnweightLaw(ks[c], e);
    SyndromesAre(ks, e, xs, s);
    BothReturn(Gf(), Nodes(ks), Weights(ks, e), xs, Unweight(ks[c], e), c, s);
  }

  lemma SyndromesAre(ks: seq<nat>, e: nat, xs: seq<Word>, s: seq<Word>)
    requires |ks| == |xs| && AreSyndromes(ks, e, xs, s)
    ensures Syndromes(Gf(), Nodes(ks), Weights(ks, e), xs, |s|) == s
  {
    var t := Syndromes(Gf(), Nodes(ks), Weights(ks, e), xs, |s|);
    forall r: nat | r < |s| ensures t[r] == s[r] {
      SyndromeAt(ks, e, xs, |s|, r);
    }
    SameEntries(t, s);
  }

  lemma SameEntries<T>(a: seq<T>, b: seq<T>)
    requires |a| == |b| && forall r: nat | r < |a| :: a[r] == b[r]
    ensures a == b
  {
  }

  lemma BothReturn<E(!new)>(f: Field<E>, gs: seq<E>, ws: seq<E>, xs: seq<E>, u: E, c: nat, s: seq<E>)
    requires f.Lawful() && |gs| == |ws| == |xs| == |s| && c < |gs| && Distinct(gs) && f.mul(ws[c], u) == f.one
    requires Syndromes(f, gs, ws, xs, |gs|) == s
    ensures Dot(f, InverseRow(f, gs, u, c), s) == xs[c] && TwoStage(f, gs, u, c, s) == xs[c]
  {
    InverseSolves(f, gs, ws, xs, u, c);
    StagesSolve(f, gs, ws, xs, u, c);
  }

  // ----- the constants of the transforms

  lemma {:induction false} PowerIsExp(k: nat, n: nat)
    ensures Power(Gf(), Exp(k), n) == Exp(k * n)
  {
    if n > 0 {
      PowerIsExp(k, n - 1);
      OneMoreFactor(k, n);
      ExpAdds(k, k * (n - 1));
    } else {
      assert k * n == 0;
    }
  }

  lemma OneMoreFactor(k: nat, n: nat)
    requires n > 0
    ensures k * n == k + k * (n - 1) && k * (n - 1) >= 0
  {
  }

  /** A power of 2 whose exponent is the order over an odd `n` is a root of unity of order
      `n`: so `2^257` with 255, the length of the convolutions. */
  lemma RootOfOrder(step: nat, n: nat)
    requires step > 0 && step * n == ORDER && n % 2 == 1
    ensures IsRoot(Gf(), Exp(step), n)
  {
    PowerIsExp(step, n);
    ExpOrder(step * n);
    forall k: nat | 0 < k < n ensures Power(Gf(), Exp(step), k) != Gf().one {
      PowerIsNotOne(step, n, k);
    }
  }

  lemma PowerIsNotOne(step: nat, n: nat, k: nat)
    requires step > 0 && step * n == ORDER && 0 < k < n
    ensures Power(Gf(), Exp(step), k) != Gf().one
  {
    var e := ShorterProduct(step, n, k);
    PowerIsExp(step, k);
    FullOrder(e);
    assert Gf().one == One();
  }

  lemma ShorterProduct(step: nat, n: nat, k: nat) returns (e: nat)
    requires step > 0 && 0 < k < n
    ensures e == step * k && 0 < e < step * n
  {
    e := step * k;
    assert step * n == e + step * (n - k);
  }

  /** The constants of the transforms: `2^257` has order 255, and 255 and 257 split the
      exponents, each undone by 128. */
  lemma TransformConstants(g: nat, a: nat, b: nat, i: nat)
    requires g == 1 && a == 255 && b == 257 && i == 128
    ensures IsRoot(Gf(), Exp(b), a) && Splits(Gf(), Exp(g), a, b, i, i)
  {
    assert b * a == ORDER;
    RootOfOrder(b, a);
    PowerIsExp(g, a * b);
    ExpOrder(g * (a * b));
    assert b * i + a * i == 1 + a * b * 1;
  }
}
