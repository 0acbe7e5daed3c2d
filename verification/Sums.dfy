/** Sums and powers in a field of characteristic 2, and the sums of roots of unity that
    make the transforms of crates/nzbkit-base/src/par2repair/forney.rs invertible. */
module Sums {
  import opened CharTwo

  function Sum<E(!new)>(f: Field<E>, n: nat, h: nat -> E): E {
    if n == 0 then f.zero else f.add(Sum(f, n - 1, h), h(n - 1))
  }

  lemma {:induction false} SumSame<E(!new)>(f: Field<E>, n: nat, h: nat -> E, k: nat -> E)
    requires forall i: nat | i < n :: h(i) == k(i)
    ensures Sum(f, n, h) == Sum(f, n, k)
  {
    if n > 0 {
      SumSame(f, n - 1, h, k);
    }
  }

  lemma {:induction false} SumNone<E(!new)>(f: Field<E>, n: nat, h: nat -> E)
    requires f.Lawful() && forall i: nat | i < n :: h(i) == f.zero
    ensures Sum(f, n, h) == f.zero
  {
    if n > 0 {
      SumNone(f, n - 1, h);
      assert f.At(f.zero, f.zero, f.zero);
    }
  }

  /** Terms that are zero from some point on do not count. */
  lemma {:induction false} SumCut<E(!new)>(f: Field<E>, n: nat, m: nat, h: nat -> E)
    requires f.Lawful() && m <= n && forall i: nat | m <= i < n :: h(i) == f.zero
    ensures Sum(f, n, h) == Sum(f, m, h)
    decreases n
  {
    if n > m {
      SumCut(f, n - 1, m, h);
      var s := Sum(f, n - 1, h);
      assert f.At(s, f.zero, f.zero);
    }
  }

  /** A single term that is not zero. */
  lemma {:induction false} SumOne<E(!new)>(f: Field<E>, n: nat, h: nat -> E, k: nat)
    requires f.Lawful() && k < n && forall i: nat | i < n && i != k :: h(i) == f.zero
    ensures Sum(f, n, h) == h(k)
  {
    if k == n - 1 {
      SumNone(f, n - 1, h);
      assert f.At(f.zero, h(k), h(k)) && f.At(h(k), f.zero, f.zero);
    } else {
      SumOne(f, n - 1, h, k);
      assert f.At(h(k), f.zero, f.zero);
    }
  }

  lemma {:induction false} SumAdds<E(!new)>(f: Field<E>, n: nat, h: nat -> E, k: nat -> E, both: nat -> E)
    requires f.Lawful() && forall i: nat | i < n :: both(i) == f.add(h(i), k(i))
    ensures Sum(f, n, both) == f.add(Sum(f, n, h), Sum(f, n, k))
  {
    if n == 0 {
      assert f.At(f.zero, f.zero, f.zero);
    } else {
      SumAdds(f, n - 1, h, k, both);
      AddSwap(f, Sum(f, n - 1, h), Sum(f, n - 1, k), h(n - 1), k(n - 1));
    }
  }

  lemma {:induction false} SumScales<E(!new)>(f: Field<E>, n: nat, c: E, h: nat -> E, scaled: nat -> E)
    requires f.Lawful() && forall i: nat | i < n :: scaled(i) == f.mul(c, h(i))
    ensures Sum(f, n, scaled) == f.mul(c, Sum(f, n, h))
  {
    if n == 0 {
      assert f.At(c, f.zero, f.zero);
    } else {
      SumScales(f, n - 1, c, h, scaled);
      assert f.At(c, Sum(f, n - 1, h), h(n - 1));
    }
  }

  /** A row and a column of a grid, and their sums. */
  function RowOf<E(!new)>(h: (nat, nat) -> E, i: nat): nat -> E { (j: nat) => h(i, j) }

  function ColumnOf<E(!new)>(h: (nat, nat) -> E, j: nat): nat -> E { (i: nat) => h(i, j) }

  function RowSums<E(!new)>(f: Field<E>, m: nat, h: (nat, nat) -> E): nat -> E {
    (i: nat) => Sum(f, m, RowOf(h, i))
  }

  function ColumnSums<E(!new)>(f: Field<E>, n: nat, h: (nat, nat) -> E): nat -> E {
    (j: nat) => Sum(f, n, ColumnOf(h, j))
  }

  /** The sum of the rows is the sum of the columns. */
  lemma {:induction false} GridSwaps<E(!new)>(f: Field<E>, n: nat, m: nat, h: (nat, nat) -> E)
    requires f.Lawful()
    ensures Sum(f, n, RowSums(f, m, h)) == Sum(f, m, ColumnSums(f, n, h))
  {
    if n == 0 {
      SumNone(f, m, ColumnSums(f, n, h));
    } else {
      GridSwaps(f, n - 1, m, h);
      SumAdds(f, m, ColumnSums(f, n - 1, h), RowOf(h, n - 1), ColumnSums(f, n, h));
    }
  }

  /** When the rows and the columns of a grid are known, so are their sums. */
  lemma RowsAreColumns<E(!new)>(f: Field<E>, n: nat, m: nat, rows: nat -> E, h: (nat, nat) -> E, columns: nat -> E)
    requires f.Lawful() && forall k: nat | k < n :: rows(k) == Sum(f, m, RowOf(h, k))
    requires forall r: nat | r < m :: columns(r) == Sum(f, n, ColumnOf(h, r))
    ensures Sum(f, n, rows) == Sum(f, m, columns)
  {
    SumSame(f, n, rows, RowSums(f, m, h));
    GridSwaps(f, n, m, h);
    SumSame(f, m, columns, ColumnSums(f, n, h));
  }

  /** Block `j` of `b` terms, and the sums of the blocks. */
  function BlockOf<E(!new)>(h: nat -> E, b: nat, j: nat): nat -> E { (r: nat) => h(j * b + r) }

  function BlockSums<E(!new)>(f: Field<E>, h: nat -> E, b: nat): nat -> E { (j: nat) => Sum(f, b, BlockOf(h, b, j)) }

  lemma {:induction false} SumBlocks<E(!new)>(f: Field<E>, n: nat, b: nat, h: nat -> E)
    requires f.Lawful()
    ensures Sum(f, n, BlockSums(f, h, b)) == Sum(f, n * b, h)
  {
    if n > 0 {
      SumBlocks(f, n - 1, b, h);
      SumSplits(f, (n - 1) * b, b, h, BlockOf(h, b, n - 1));
      assert (n - 1) * b + b == n * b;
    } else {
      assert n * b == 0;
    }
  }

  lemma {:induction false} SumSplits<E(!new)>(f: Field<E>, n: nat, m: nat, h: nat -> E, rest: nat -> E)
    requires f.Lawful() && forall r: nat | r < m :: rest(r) == h(n + r)
    ensures Sum(f, n + m, h) == f.add(Sum(f, n, h), Sum(f, m, rest))
  {
    if m == 0 {
      assert f.At(Sum(f, n, h), f.zero, f.zero);
    } else {
      SumSplits(f, n, m - 1, h, rest);
      var a, b, c := Sum(f, n, h), Sum(f, m - 1, rest), h(n + m - 1);
      assert f.At(a, b, c);
    }
  }

  // ----- powers

  function Power<E(!new)>(f: Field<E>, w: E, n: nat): E {
    if n == 0 then f.one else f.mul(w, Power(f, w, n - 1))
  }

  lemma {:induction false} PowerAdds<E(!new)>(f: Field<E>, w: E, i: nat, j: nat)
    requires f.Lawful()
    ensures Power(f, w, i + j) == f.mul(Power(f, w, i), Power(f, w, j))
  {
    if i == 0 {
      assert f.At(Power(f, w, j), f.one, f.one) && f.At(f.one, Power(f, w, j), f.one);
    } else {
      PowerAdds(f, w, i - 1, j);
      assert f.At(w, Power(f, w, i - 1), Power(f, w, j));
    }
  }

  lemma {:induction false} PowerTimes<E(!new)>(f: Field<E>, w: E, k: nat, n: nat)
    requires f.Lawful()
    ensures Power(f, w, n * k) == Power(f, Power(f, w, k), n)
  {
    if n > 0 {
      PowerTimes(f, w, k, n - 1);
      assert n * k == k + (n - 1) * k;
      PowerAdds(f, w, k, (n - 1) * k);
    } else {
      assert n * k == 0;
    }
  }

  lemma {:induction false} PowerOfOne<E(!new)>(f: Field<E>, n: nat)
    requires f.Lawful()
    ensures Power(f, f.one, n) == f.one
  {
    if n > 0 {
      PowerOfOne(f, n - 1);
      assert f.At(f.one, f.one, f.one);
    }
  }

  /** Exponents count modulo a period. */
  lemma PowerPeriod<E(!new)>(f: Field<E>, w: E, n: nat, i: nat, j: nat, k: nat)
    requires f.Lawful() && Power(f, w, n) == f.one && i == j + n * k
    ensures Power(f, w, i) == Power(f, w, j)
  {
    var e := k * n;
    assert i == j + e;
    PowerAdds(f, w, j, e);
    PowerTimes(f, w, n, k);
    PowerOfOne(f, k);
    assert f.At(Power(f, w, j), f.one, f.one);
  }

  lemma PowerMod<E(!new)>(f: Field<E>, w: E, n: nat, e: nat)
    requires f.Lawful() && n > 0 && Power(f, w, n) == f.one
    ensures Power(f, w, e % n) == Power(f, w, e)
  {
    var q, r := e / n, e % n;
    assert e == r + n * q;
    PowerPeriod(f, w, n, e, r, q);
  }

  // ----- roots of unity

  /** A root of unity of exactly the order `n`, an odd number. */
  ghost predicate IsRoot<E(!new)>(f: Field<E>, w: E, n: nat) {
    n % 2 == 1 && Power(f, w, n) == f.one && forall k: nat | 0 < k < n :: Power(f, w, k) != f.one
  }

  /** `v^0`, `v^1`, ... and `w^0`, `w^k`, `w^(2 k)`, ... */
  function Powers<E(!new)>(f: Field<E>, v: E): nat -> E { (i: nat) => Power(f, v, i) }

  function Steps<E(!new)>(f: Field<E>, w: E, k: nat): nat -> E { (i: nat) => Power(f, w, i * k) }

  /** `(1 + v) (1 + v + ... + v^(n-1)) == 1 + v^n`. */
  lemma {:induction false} Geometric<E(!new)>(f: Field<E>, v: E, n: nat)
    requires f.Lawful()
    ensures f.mul(f.add(f.one, v), Sum(f, n, Powers(f, v))) == f.add(f.one, Power(f, v, n))
  {
    var a := f.add(f.one, v);
    if n == 0 {
      assert f.At(a, f.zero, f.zero) && f.At(f.one, f.one, f.one);
    } else {
      Geometric(f, v, n - 1);
      var s, p := Sum(f, n - 1, Powers(f, v)), Power(f, v, n - 1);
      assert f.At(a, s, p);
      Spread(f, f.one, v, p);
      assert f.At(p, f.one, f.one);
      Telescope(f, p, f.mul(v, p));
    }
  }

  /** `(1 + p) + (p + q) == 1 + q`. */
  lemma Telescope<E(!new)>(f: Field<E>, p: E, q: E)
    requires f.Lawful()
    ensures f.add(f.add(f.one, p), f.add(f.mul(f.one, p), q)) == f.add(f.one, q)
  {
    assert f.At(f.one, p, p) && f.At(p, f.one, f.one) && f.At(f.one, p, f.add(p, q));
    Cancel(f, q, p);
  }

  lemma {:induction false} SumOfOnes<E(!new)>(f: Field<E>, n: nat, h: nat -> E)
    requires f.Lawful() && forall i: nat | i < n :: h(i) == f.one
    ensures Sum(f, n, h) == if n % 2 == 1 then f.one else f.zero
  {
    if n > 0 {
      SumOfOnes(f, n - 1, h);
      assert f.At(f.one, f.one, f.one) && f.At(f.one, f.zero, f.zero) && f.At(f.zero, f.one, f.one);
    }
  }

  lemma RootIsOne<E(!new)>(f: Field<E>, w: E, n: nat, k: nat)
    requires f.Lawful() && IsRoot(f, w, n)
    ensures Power(f, w, k) == f.one <==> k % n == 0
    ensures Power(f, Power(f, w, k), n) == f.one
  {
    PowerPeriod(f, w, n, k, k % n, k / n);
    PowerTimes(f, w, k, n);
    PowerPeriod(f, w, n, n * k, 0, k);
  }

  lemma PowersCancel<E(!new)>(f: Field<E>, v: E, n: nat)
    requires f.Lawful() && v != f.one && Power(f, v, n) == f.one
    ensures Sum(f, n, Powers(f, v)) == f.zero
  {
    Geometric(f, v, n);
    assert f.At(f.one, f.one, f.one);
    NonZero(f, f.add(f.one, v), Sum(f, n, Powers(f, v)));
    Cancel(f, f.one, v);
  }

  /** The powers `w^(i k)` over a period sum to one if `k` is a multiple of the order, and
      cancel otherwise. */
  lemma RootsCancel<E(!new)>(f: Field<E>, w: E, n: nat, k: nat)
    requires f.Lawful() && IsRoot(f, w, n)
    ensures Sum(f, n, Steps(f, w, k)) == if k % n == 0 then f.one else f.zero
  {
    var v := Power(f, w, k);
    forall i: nat | i < n ensures Steps(f, w, k)(i) == Powers(f, v)(i) {
      PowerTimes(f, w, k, i);
    }
    SumSame(f, n, Steps(f, w, k), Powers(f, v));
    RootIsOne(f, w, n, k);
    if k % n == 0 {
      forall i: nat | i < n ensures Powers(f, v)(i) == f.one {
        PowerOfOne(f, i);
      }
      SumOfOnes(f, n, Powers(f, v));
    } else {
      PowersCancel(f, v, n);
    }
  }
}
