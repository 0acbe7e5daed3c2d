/** 2 generates GF(2^16): the exponent and logarithm tables of
    crates/nzbkit-base/src/gf16.rs, and the field they make. */
module Gf16Order {
  import opened Basics
  import opened CharTwo
  import opened Gf16
  import opened Gf16Digits

  // ----- 2 has the full order

  lemma ExpOrder(n: nat)
    requires n == ORDER
    ensures Exp(n) == One()
  {
    var e, d := AtOrder();
    OneDigits();
    SameDigits(Exp(n), One());
  }

  /** No part of the order by one of its primes will do. */
  lemma ExpParts(n: nat)
    requires n == 21845 || n == 13107 || n == 3855 || n == 255
    ensures Exp(n) != One()
  {
    OneDigits();
    if n == 21845 {
      var e, d := AtThird();
    } else if n == 13107 {
      var e, d := AtFifth();
    } else if n == 3855 {
      var e, d := AtSeventeenth();
    } else {
      var e, d := At256();
      var one, two := First();
      assert Exp(n + 1) != Exp(one);
      assert Exp(n + 1) == Twice(Exp(n)) && Exp(one) == Twice(Exp(one - 1)) && Exp(one - 1) == One();
    }
  }

  lemma {:induction false} ExpMultiple(d: nat, k: nat, n: nat)
    requires Exp(d) == One() && n == d * k
    ensures Exp(n) == One()
    decreases k
  {
    if k > 0 {
      OneLess(d, k, n);
      ExpMultiple(d, k - 1, n - d);
      ExpAfter(n - d, d);
    }
  }

  lemma ExpAfter(i: nat, j: nat)
    requires Exp(i) == One()
    ensures Exp(i + j) == Exp(j)
  {
    ExpAdds(i, j);
    ReducedWord(Exp(j));
  }

  lemma OneLess(d: nat, k: nat, n: nat)
    requires k > 0 && n == d * k
    ensures n >= d && n - d == d * (k - 1)
  {
    assert d * k == d * (k - 1) + d && d * (k - 1) >= 0;
  }

  /** Euclid's lemma, for `q` below a prime. */
  lemma {:induction false} Euclid(p: nat, d: int, q: nat, t: int) returns (u: int)
    requires 0 < q < p && d * q == p * t && forall k | 1 < k < p :: p % k != 0
    ensures d == p * u
    decreases q
  {
    if q == 1 {
      u := t;
    } else {
      var r, n := p % q, p / q;
      assert p == n * q + r;
      Remains(p, d, q, t, n, r);
      u := Euclid(p, d, r, d - n * t);
    }
  }

  lemma Remains(p: int, d: int, q: int, t: int, n: int, r: int)
    requires d * q == p * t && p == n * q + r
    ensures d * r == p * (d - n * t)
  {
    assert d * r == d * p - n * (d * q);
  }

  /** A prime that divides `d q` divides one of them. */
  lemma Divides(p: nat, d: nat, q: nat, t: nat)
    requires p > 1 && d * q == p * t && forall k | 1 < k < p :: p % k != 0
    ensures q % p == 0 || d % p == 0
  {
    if q % p != 0 {
      var r, n := q % p, q / p;
      assert q == p * n + r;
      assert d * r == d * q - p * (n * d);
      var u := Euclid(p, d, r, t - n * d);
      Multiple(p, d, u);
    }
  }

  lemma Multiple(p: nat, d: nat, u: int)
    requires p > 0 && d == p * u
    ensures d % p == 0
  {
    var q, r := d / p, d % p;
    assert d == p * q + r;
    assert r == p * (u - q);
    FarApart(p, u - q);
  }

  lemma OnlyWhole(d: nat)
    requires d % 3 == 0 && d % 5 == 0 && d % 17 == 0 && d % 257 == 0
    ensures d == 0 || d >= ORDER
  {
    var c := By15(d, d / 3, d / 5);
    var g := By255(d, c, d / 17);
    Whole(d, g, d / 257);
  }

  lemma By15(d: int, a: int, b: int) returns (c: int)
    requires d == 3 * a == 5 * b
    ensures d == 15 * c
  {
    c := 2 * b - a;
  }

  lemma By255(d: int, c: int, e: int) returns (g: int)
    requires d == 15 * c == 17 * e
    ensures d == 255 * g
  {
    g := 8 * c - 9 * e;
  }

  lemma Whole(d: nat, g: int, h: int)
    requires d == 255 * g == 257 * h
    ensures d == 0 || d >= ORDER
  {
    var k := 128 * g - 129 * h;
    assert d == ORDER * k;
  }

  /** A divisor of the order below it divides the order by one of the primes. */
  lemma PartOf(d: nat, q: nat) returns (n: nat, k: nat)
    requires d * q == ORDER && q > 1
    ensures (n == 21845 || n == 13107 || n == 3855 || n == 255) && n == d * k
  {
    Divides(3, d, q, 21845);
    Divides(5, d, q, 13107);
    Divides(17, d, q, 3855);
    Prime257();
    Divides(257, d, q, 255);
    if q % 3 == 0 {
      n, k := 21845, q / 3;
    } else if q % 5 == 0 {
      n, k := 13107, q / 5;
    } else if q % 17 == 0 {
      n, k := 3855, q / 17;
    } else if q % 257 == 0 {
      n, k := 255, q / 257;
    } else {
      OnlyWhole(d);
      assert false;
    }
    assert d * (q / 3) * 3 == d * (q / 3 * 3);
  }

  lemma Prime257()
    ensures forall k | 1 < k < 257 :: 257 % k != 0
  {
  }

  /** `debug_assert_eq!(v, 1, "2 must have full order")`, and no sooner. */
  lemma {:induction false} FullOrder(d: nat)
    requires 0 < d < ORDER
    ensures Exp(d) != One()
    decreases d
  {
    if Exp(d) == One() {
      var q, r := RestOfOrder(d);
      if r > 0 {
        FullOrder(r);
      } else {
        NoDivisor(d, q);
      }
    }
  }

  lemma RestOfOrder(d: nat) returns (q: nat, r: nat)
    requires 0 < d < ORDER && Exp(d) == One()
    ensures d * q + r == ORDER && r < d && q > 0 && Exp(r) == One()
  {
    var n: nat := ORDER;
    q, r := n / d, n % d;
    var m := d * q;
    assert n == m + r;
    ExpOrder(n);
    ExpMultiple(d, q, m);
    ExpAfter(m, r);
  }

  lemma NoDivisor(d: nat, q: nat)
    requires 0 < d < ORDER && d * q == ORDER
    ensures Exp(d) != One()
  {
    FarApart(d, q);
    var part, k := PartOf(d, q);
    ExpParts(part);
    if Exp(d) == One() {
      ExpMultiple(d, k, part);
    }
  }

  // ----- every word but zero is a power of 2

  lemma ExpInjective(i: nat, j: nat)
    requires i < j < ORDER
    ensures Exp(i) != Exp(j)
  {
    if Exp(i) == Exp(j) {
      ExpSame(i, j);
      FullOrder(j - i);
    }
  }

  function Number(b: seq<bool>): nat {
    if b == [] then 0 else (if b[0] then 1 else 0) + 2 * Number(b[1..])
  }

  lemma {:induction false} NumberInjective(a: seq<bool>, b: seq<bool>)
    requires |a| == |b| && Number(a) == Number(b)
    ensures a == b
  {
    if a != [] {
      assert a[0] == b[0];
      NumberInjective(a[1..], b[1..]);
      assert a == [a[0]] + a[1..] && b == [b[0]] + b[1..];
    }
  }

  function Pow(n: nat): nat {
    if n == 0 then 1 else 2 * Pow(n - 1)
  }

  lemma {:induction false} NumberBound(b: seq<bool>)
    ensures Number(b) < Pow(|b|)
  {
    if b != [] {
      NumberBound(b[1..]);
    }
  }

  lemma WordNumber(w: Word)
    ensures Number(w) < 65536 && (Number(w) == 0 <==> w == Zero())
  {
    NumberBound(w);
    var four := Pow(4);
    assert Pow(4) == 16 && Pow(8) == 256 && Pow(12) == 4096 && Pow(16) == 65536;
    NumberOfZero(Zero());
    if Number(w) == 0 {
      NumberInjective(w, Zero());
    }
  }

  lemma {:induction false} NumberOfZero(b: seq<bool>)
    requires forall i | 0 <= i < |b| :: !b[i]
    ensures Number(b) == 0
  {
    if b != [] {
      NumberOfZero(b[1..]);
    }
  }

  function Interval(n: nat): set<nat> {
    if n == 0 then {} else Interval(n - 1) + {n}
  }

  lemma {:induction false} IntervalLaw(n: nat)
    ensures |Interval(n)| == n && forall k: nat :: k in Interval(n) <==> 0 < k <= n
  {
    if n > 0 {
      IntervalLaw(n - 1);
    }
  }

  function Image(f: nat -> nat, n: nat): set<nat> {
    if n == 0 then {} else Image(f, n - 1) + {f(n - 1)}
  }

  lemma {:induction false} FromImage(f: nat -> nat, n: nat, k: nat) returns (i: nat)
    requires k in Image(f, n)
    ensures i < n && f(i) == k
  {
    if k == f(n - 1) {
      i := n - 1;
    } else {
      i := FromImage(f, n - 1, k);
    }
  }

  lemma {:induction false} ImageSize(f: nat -> nat, n: nat)
    requires forall i: nat, j: nat | i < j < n :: f(i) != f(j)
    ensures |Image(f, n)| == n
  {
    if n > 0 {
      ImageSize(f, n - 1);
      if f(n - 1) in Image(f, n - 1) {
        var i := FromImage(f, n - 1, f(n - 1));
      }
    }
  }

  /** The numbers of the first powers. */
  function Numbered(): nat -> nat {
    (i: nat) => Number(Exp(i))
  }

  lemma NumberedInjective(i: nat, j: nat)
    requires i < j < ORDER
    ensures Numbered()(i) != Numbered()(j)
  {
    ExpInjective(i, j);
    if Number(Exp(i)) == Number(Exp(j)) {
      NumberInjective(Exp(i), Exp(j));
    }
  }

  lemma NumberedInRange(i: nat)
    ensures 0 < Numbered()(i) <= ORDER
  {
    WordNumber(Exp(i));
    ExpNonZero(i);
  }

  /** A subset as large as the set is the set. */
  lemma FullSet(a: set<nat>, b: set<nat>)
    requires a <= b && |a| == |b|
    ensures a == b
  {
    assert b == a + (b - a);
  }

  lemma LogExists(a: Word) returns (i: nat)
    requires a != Zero()
    ensures i < ORDER && Exp(i) == a
  {
    var f, n: nat := Numbered(), ORDER;
    forall i: nat, j: nat | i < j < n ensures f(i) != f(j) {
      NumberedInjective(i, j);
    }
    ImageSize(f, n);
    IntervalLaw(n);
    forall k | k in Image(f, n) ensures k in Interval(n) {
      var j := FromImage(f, n, k);
      NumberedInRange(j);
    }
    FullSet(Image(f, n), Interval(n));
    WordNumber(a);
    i := FromImage(f, n, Number(a));
    NumberInjective(Exp(i), a);
  }

  /** The logarithm of the tables. */
  ghost function Log(a: Word): (i: nat)
    requires a != Zero()
    ensures i < ORDER && Exp(i) == a
  {
    LogSome(a);
    var i: nat :| i < ORDER && Exp(i) == a;
    i
  }

  lemma LogSome(a: Word)
    requires a != Zero()
    ensures exists i: nat :: i < ORDER && Exp(i) == a
  {
    var i := LogExists(a);
  }

  // ----- the field

  ghost function Inverse(a: Word): Word {
    if a == Zero() then Zero() else Exp(ORDER - Log(a))
  }

  lemma InverseLaw(a: Word)
    requires a != Zero()
    ensures Times(a, Inverse(a)) == One()
  {
    var i, n: nat := Log(a), ORDER;
    ExpAdds(i, n - i);
    ExpOrder(n);
  }

  ghost function Gf(): Field<Word> {
    var add: (Word, Word) -> Word := (a: Word, b: Word) => Xor(a, b);
    var mul: (Word, Word) -> Word := (a: Word, b: Word) => Times(a, b);
    var inv: Word -> Word := (a: Word) => Inverse(a);
    Field(Zero(), One(), add, mul, inv)
  }

  lemma LawsAt(a: Word, b: Word, c: Word)
    ensures Gf().At(a, b, c)
  {
    XorLaws(a, b, c);
    TimesFlip(a, b);
    ReducedWord(b);
    TimesThree(a, b, c);
    TimesOne(a);
    TimesNothing(a, Zero());
    TimesAddsRight(a, b, c);
    if a != Zero() {
      InverseLaw(a);
    }
  }

  /** The words with these two operations are a field of characteristic 2. */
  lemma GfLawful()
    ensures Gf().Lawful()
  {
    assert One()[0] && !Zero()[0];
    forall a: Word, b: Word, c: Word ensures Gf().At(a, b, c) {
      LawsAt(a, b, c);
    }
  }

  // ----- the tables

  lemma ExpPeriod(i: nat)
    ensures Exp(ORDER + i) == Exp(i) && Exp(i) == Exp(i % ORDER)
  {
    var n: nat := ORDER;
    ExpOrder(n);
    ExpAfter(n, i);
    var q, r := i / n, i % n;
    var m := n * q;
    assert i == m + r;
    ExpMultiple(n, q, m);
    ExpAfter(m, r);
  }

  /** What the two tables hold: the powers of 2, twice over, and the logarithm of every
      word but zero. */
  predicate AreTables(exp: seq<Word>, log: map<Word, nat>) {
    && |exp| == 2 * ORDER && (forall i | 0 <= i < 2 * ORDER :: exp[i] == Exp(i))
    && (forall a | a in log :: log[a] < ORDER && Exp(log[a]) == a)
  }

  ghost predicate LogsAll(log: map<Word, nat>) {
    forall a: Word :: a in log <==> a != Zero()
  }

  /** `tables`. */
  method Tables() returns (exp: array<Word>, log: map<Word, nat>)
    ensures fresh(exp) && AreTables(exp[..], log) && LogsAll(log)
  {
    exp := new Word[2 * ORDER](_ => Zero());
    log := FillPowers(exp);
    RepeatPowers(exp);
    forall a: Word ensures a in log <==> a != Zero() {
      if a != Zero() {
        var i := LogExists(a);
      } else if a in log {
        ExpNonZero(log[a]);
      }
    }
  }

  method FillPowers(exp: array<Word>) returns (log: map<Word, nat>)
    requires exp.Length == 2 * ORDER
    modifies exp
    ensures forall k | 0 <= k < ORDER :: exp[k] == Exp(k)
    ensures forall k: nat | k < ORDER :: Exp(k) in log
    ensures forall a | a in log :: log[a] < ORDER && Exp(log[a]) == a
  {
    var v := One();
    log := map[];
    for i := 0 to ORDER
      invariant v == Exp(i) && forall k | 0 <= k < i :: exp[k] == Exp(k)
      invariant forall k: nat | k < i :: Exp(k) in log
      invariant forall a | a in log :: log[a] < i && Exp(log[a]) == a
    {
      exp[i] := v;
      log := log[v := i];
      v := Twice(v);
    }
  }

  method RepeatPowers(exp: array<Word>)
    requires exp.Length == 2 * ORDER && forall k | 0 <= k < ORDER :: exp[k] == Exp(k)
    modifies exp
    ensures forall k | 0 <= k < 2 * ORDER :: exp[k] == Exp(k)
  {
    for i := 0 to ORDER
      invariant forall k | 0 <= k < ORDER + i :: exp[k] == Exp(k)
    {
      ExpPeriod(i);
      exp[ORDER + i] := exp[i];
    }
  }

  /** `mul`: the tables give the product of polynomials. */
  method Mul(exp: seq<Word>, log: map<Word, nat>, a: Word, b: Word) returns (r: Word)
    requires AreTables(exp, log) && LogsAll(log)
    ensures r == Times(a, b)
  {
    if a == Zero() || b == Zero() {
      ZeroTimes(b);
      TimesNothing(a, Zero());
      return Zero();
    }
    ExpAdds(log[a], log[b]);
    r := exp[log[a] + log[b]];
  }

  /** `inv`: the tables give the inverse. */
  method Inv(exp: seq<Word>, log: map<Word, nat>, a: Word) returns (r: Word)
    requires AreTables(exp, log) && LogsAll(log) && a != Zero()
    ensures Times(a, r) == One()
  {
    var i, n: nat := log[a], ORDER;
    ExpAdds(i, n - i);
    ExpOrder(n);
    r := exp[ORDER - log[a]];
  }
}
