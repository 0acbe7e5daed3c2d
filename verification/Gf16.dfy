/** The field of the PAR2 format: GF(2^16) with the polynomial x^16 + x^12 + x^3 + x + 1,
    crates/nzbkit-base/src/gf16.rs. A word is its 16 bits, lowest first; addition is
    exclusive or. */
module Gf16 {
  import opened Basics

  /** The order of the multiplicative group. */
  const ORDER := 65535

  type Word = w: seq<bool> | |w| == 16 witness seq(16, _ => false)

  function Zero(): (w: Word)
    ensures forall i | 0 <= i < 16 :: !w[i]
  {
    seq(16, _ => false)
  }

  function One(): (w: Word)
    ensures forall i | 0 <= i < 16 :: w[i] <==> i == 0
  {
    seq(16, i => i == 0)
  }

  function Xor(a: seq<bool>, b: seq<bool>): (r: seq<bool>)
    requires |a| == |b|
    ensures |r| == |a|
  {
    seq(|a|, i requires 0 <= i < |a| => a[i] != b[i])
  }

  /** The bits of 0x100B: what x^16 is worth. */
  predicate Tap(i: int) {
    i == 0 || i == 1 || i == 3 || i == 12
  }

  /** One step of the table loop: shift, and reduce. */
  function Twice(v: Word): (w: Word) {
    seq(16, i requires 0 <= i < 16 => (i > 0 && v[i - 1]) != (v[15] && Tap(i)))
  }

  function Lead(a: Word, bit: bool): Word {
    if bit then a else Zero()
  }

  /** The product of `a` by a polynomial of any length. */
  function Times(a: Word, b: seq<bool>): Word
    decreases |b|
  {
    if b == [] then Zero() else Xor(Lead(a, b[0]), Times(Twice(a), b[1..]))
  }

  /** A polynomial of any length, reduced. */
  function Reduced(b: seq<bool>): Word {
    if b == [] then Zero() else Xor(Lead(One(), b[0]), Twice(Reduced(b[1..])))
  }

  // ----- addition

  lemma XorLaws(a: Word, b: Word, c: Word)
    ensures Xor(a, b) == Xor(b, a) && Xor(Xor(a, b), c) == Xor(a, Xor(b, c))
    ensures Xor(a, Zero()) == a && Xor(Zero(), a) == a && Xor(a, a) == Zero()
  {
  }

  lemma XorSwap(a: Word, b: Word, c: Word, d: Word)
    ensures Xor(Xor(a, b), Xor(c, d)) == Xor(Xor(a, c), Xor(b, d))
  {
  }

  lemma TwiceAdds(a: Word, b: Word)
    ensures Twice(Xor(a, b)) == Xor(Twice(a), Twice(b))
  {
    forall i | 0 <= i < 16 ensures Twice(Xor(a, b))[i] == Xor(Twice(a), Twice(b))[i] {
      assert i > 0 ==> Xor(a, b)[i - 1] == (a[i - 1] != b[i - 1]);
    }
  }

  lemma TwiceZero()
    ensures Twice(Zero()) == Zero()
  {
    assert forall i | 0 <= i < 16 :: !Zero()[i];
  }

  lemma TwiceLead(a: Word, bit: bool)
    ensures Twice(Lead(a, bit)) == Lead(Twice(a), bit)
  {
    TwiceZero();
  }

  // ----- multiplication

  lemma {:induction false} TimesTwice(a: Word, b: seq<bool>)
    ensures Times(Twice(a), b) == Twice(Times(a, b))
    decreases |b|
  {
    TwiceZero();
    if b != [] {
      TimesTwice(Twice(a), b[1..]);
      TwiceLead(a, b[0]);
      TwiceAdds(Lead(a, b[0]), Times(Twice(a), b[1..]));
    }
  }

  lemma {:induction false} TimesAddsLeft(a: Word, b: Word, c: seq<bool>)
    ensures Times(Xor(a, b), c) == Xor(Times(a, c), Times(b, c))
    decreases |c|
  {
    if c == [] {
      XorLaws(Zero(), Zero(), Zero());
    } else {
      TwiceAdds(a, b);
      TimesAddsLeft(Twice(a), Twice(b), c[1..]);
      LeadAdds(a, b, c[0]);
      XorSwap(Lead(a, c[0]), Lead(b, c[0]), Times(Twice(a), c[1..]), Times(Twice(b), c[1..]));
    }
  }

  lemma LeadAdds(a: Word, b: Word, bit: bool)
    ensures Lead(Xor(a, b), bit) == Xor(Lead(a, bit), Lead(b, bit))
  {
    XorLaws(Zero(), Zero(), Zero());
  }

  /** A product is a value of the reduced polynomial: times `a` of `b` is `b` reduced, with
      `a` for one. */
  lemma {:induction false} TimesCons(a: Word, bit: bool, b: seq<bool>)
    ensures Times(a, [bit] + b) == Xor(Lead(a, bit), Twice(Times(a, b)))
  {
    assert ([bit] + b)[1..] == b;
    TimesTwice(a, b);
  }

  lemma {:induction false} OneTimes(b: seq<bool>)
    ensures Times(One(), b) == Reduced(b)
  {
    if b != [] {
      OneTimes(b[1..]);
      assert b == [b[0]] + b[1..];
      TimesCons(One(), b[0], b[1..]);
    }
  }

  function Pad(b: seq<bool>): Word
    requires |b| <= 16
  {
    seq(16, i requires 0 <= i < 16 => i < |b| && b[i])
  }

  lemma PadCons(bit: bool, b: seq<bool>)
    requires |b| < 16
    ensures Pad([bit] + b) == Xor(Lead(One(), bit), Twice(Pad(b)))
  {
    var p, r := Pad([bit] + b), Pad(b);
    assert !r[15];
    forall i | 0 <= i < 16 ensures p[i] == Xor(Lead(One(), bit), Twice(r))[i] {
      assert Lead(One(), bit)[i] == (bit && i == 0);
      assert i > 0 ==> r[i - 1] == p[i];
    }
  }

  lemma {:induction false} ReducedIsPad(b: seq<bool>)
    requires |b| <= 16
    ensures Reduced(b) == Pad(b)
  {
    if b == [] {
      assert Pad(b) == Zero();
    } else {
      ReducedIsPad(b[1..]);
      PadCons(b[0], b[1..]);
      assert b == [b[0]] + b[1..];
    }
  }

  /** A word is reduced. */
  lemma ReducedWord(b: Word)
    ensures Reduced(b) == b && Times(One(), b) == b
  {
    ReducedIsPad(b);
    assert Pad(b) == b;
    OneTimes(b);
  }

  lemma {:induction false} TimesOne(a: Word)
    ensures Times(a, One()) == a
  {
    var rest := One()[1..];
    assert One() == [true] + rest;
    TimesCons(a, true, rest);
    TimesNothing(a, rest);
    TwiceZero();
    XorLaws(a, a, a);
  }

  lemma {:induction false} TimesNothing(a: Word, b: seq<bool>)
    requires forall i | 0 <= i < |b| :: !b[i]
    ensures Times(a, b) == Zero()
    decreases |b|
  {
    if b != [] {
      TimesNothing(Twice(a), b[1..]);
      XorLaws(Zero(), Zero(), Zero());
    }
  }

  /** `x^16 = x^12 + x^3 + x + 1`, as it acts on `a`. */
  function Overflow(a: Word): Word {
    Xor(Up(a, 16), Xor(Xor(a, Up(a, 1)), Xor(Up(a, 3), Up(a, 12))))
  }

  function Up(a: Word, n: nat): Word {
    if n == 0 then a else Twice(Up(a, n - 1))
  }

  lemma UpAdds(a: Word, b: Word, n: nat)
    ensures Up(Xor(a, b), n) == Xor(Up(a, n), Up(b, n))
  {
    if n > 0 {
      UpAdds(a, b, n - 1);
      TwiceAdds(Up(a, n - 1), Up(b, n - 1));
    }
  }

  lemma UpTwice(a: Word, n: nat)
    ensures Up(Twice(a), n) == Twice(Up(a, n)) == Up(a, n + 1)
  {
    if n > 0 {
      UpTwice(a, n - 1);
    }
  }

  lemma OverflowAdds(a: Word, b: Word)
    ensures Overflow(Xor(a, b)) == Xor(Overflow(a), Overflow(b))
  {
    UpAdds(a, b, 16);
    UpAdds(a, b, 1);
    UpAdds(a, b, 3);
    UpAdds(a, b, 12);
    XorSwap(a, b, Up(a, 1), Up(b, 1));
    XorSwap(Up(a, 3), Up(b, 3), Up(a, 12), Up(b, 12));
    XorSwap(Xor(a, Up(a, 1)), Xor(b, Up(b, 1)), Xor(Up(a, 3), Up(a, 12)), Xor(Up(b, 3), Up(b, 12)));
    XorSwap(Up(a, 16), Up(b, 16), Xor(Xor(a, Up(a, 1)), Xor(Up(a, 3), Up(a, 12))),
            Xor(Xor(b, Up(b, 1)), Xor(Up(b, 3), Up(b, 12))));
  }

  lemma OverflowTwice(a: Word)
    ensures Overflow(Twice(a)) == Twice(Overflow(a))
  {
    UpTwice(a, 16);
    UpTwice(a, 1);
    UpTwice(a, 3);
    UpTwice(a, 12);
    TwiceAdds(a, Up(a, 1));
    TwiceAdds(Up(a, 3), Up(a, 12));
    TwiceAdds(Xor(a, Up(a, 1)), Xor(Up(a, 3), Up(a, 12)));
    TwiceAdds(Up(a, 16), Xor(Xor(a, Up(a, 1)), Xor(Up(a, 3), Up(a, 12))));
  }

  /** The powers of x below 16 are the single bits. */
  function Single(n: nat): Word {
    seq(16, i => i == n)
  }

  lemma {:induction false} UpOne(n: nat)
    requires n < 16
    ensures Up(One(), n) == Single(n)
  {
    if n == 0 {
      assert One() == Single(0);
    } else {
      UpOne(n - 1);
      NextSingle(n - 1);
    }
  }

  lemma NextSingle(n: nat)
    requires n < 15
    ensures Twice(Single(n)) == Single(n + 1)
  {
    assert !Single(n)[15];
  }

  /** x^16 is worth the four bits of 0x100B. */
  lemma Taps()
    ensures Twice(Single(15)) == Xor(Xor(Single(0), Single(1)), Xor(Single(3), Single(12)))
  {
    assert Single(15)[15];
  }

  lemma OverflowOne()
    ensures Overflow(One()) == Zero()
  {
    UpOne(0);
    UpOne(1);
    UpOne(3);
    UpOne(12);
    UpOne(15);
    Taps();
    var top: Word := Twice(Single(15));
    assert Up(One(), 16) == Twice(Up(One(), 15));
    XorLaws(top, top, top);
  }

  lemma {:induction false} OverflowReduced(b: seq<bool>)
    ensures Overflow(Reduced(b)) == Zero()
  {
    OverflowZero();
    if b != [] {
      var r := Reduced(b[1..]);
      OverflowReduced(b[1..]);
      OverflowTwice(r);
      TwiceZero();
      OverflowOne();
      OverflowAdds(Lead(One(), b[0]), Twice(r));
      XorLaws(Zero(), Zero(), Zero());
    }
  }

  lemma OverflowZero()
    ensures Overflow(Zero()) == Zero()
  {
    OverflowAdds(One(), One());
    OverflowOne();
    XorLaws(One(), One(), One());
    XorLaws(Zero(), Zero(), Zero());
  }

  /** Reduction is right: x^16 and what it is worth act alike on every word. */
  lemma ReductionIsRight(a: Word)
    ensures Up(a, 16) == Xor(Xor(a, Up(a, 1)), Xor(Up(a, 3), Up(a, 12)))
  {
    ReducedWord(a);
    OverflowReduced(a);
    XorZero(Up(a, 16), Xor(Xor(a, Up(a, 1)), Xor(Up(a, 3), Up(a, 12))));
  }

  lemma XorZero(a: Word, b: Word)
    ensures Xor(a, b) == Zero() <==> a == b
  {
    XorLaws(a, a, a);
    if Xor(a, b) == Zero() {
      forall i | 0 <= i < 16 ensures a[i] == b[i] {
        assert !Xor(a, b)[i];
      }
    }
  }

  lemma {:induction false} TimesAddsRight(a: Word, b: seq<bool>, c: seq<bool>)
    requires |b| == |c|
    ensures Times(a, Xor(b, c)) == Xor(Times(a, b), Times(a, c))
    decreases |b|
  {
    if b == [] {
      XorLaws(Zero(), Zero(), Zero());
    } else {
      TimesAddsRight(Twice(a), b[1..], c[1..]);
      assert Xor(b, c)[1..] == Xor(b[1..], c[1..]);
      LeadBits(a, b[0], c[0]);
      XorSwap(Lead(a, b[0]), Lead(a, c[0]), Times(Twice(a), b[1..]), Times(Twice(a), c[1..]));
    }
  }

  lemma LeadBits(a: Word, b: bool, c: bool)
    ensures Lead(a, b != c) == Xor(Lead(a, b), Lead(a, c))
  {
    XorLaws(a, Zero(), Zero());
    XorLaws(Zero(), Zero(), Zero());
  }

  /** The top bit of a word apart. */
  lemma TopBit(b: Word)
    ensures var low: Word := b[..15] + [false];
            b == Xor(low, Lead(Single(15), b[15])) && Twice(low) == [false] + b[..15]
            && Twice(b) == Xor(Twice(low), Lead(Twice(Single(15)), b[15]))
  {
    var low: Word := b[..15] + [false];
    forall i | 0 <= i < 16 ensures b[i] == Xor(low, Lead(Single(15), b[15]))[i] {
    }
    assert !low[15];
    TwiceAdds(low, Lead(Single(15), b[15]));
    TwiceLead(Single(15), b[15]);
  }

  lemma {:induction false} TimesSingle(a: Word, n: nat)
    requires n < 16
    ensures Times(a, Single(n)) == Up(a, n)
    decreases n
  {
    if n == 0 {
      assert Single(0) == One();
      TimesOne(a);
    } else {
      var low := Single(n - 1);
      assert low[..15] + [false] == low;
      assert Single(n) == [false] + low[..15];
      ShiftTimes(a, low[..15]);
      TimesSingle(a, n - 1);
    }
  }

  /** Times `x b`, where nothing overflows. */
  lemma ShiftTimes(a: Word, b: seq<bool>)
    ensures Times(a, [false] + b) == Twice(Times(a, b + [false]))
  {
    TimesCons(a, false, b);
    TimesPadded(a, b);
    var t := Twice(Times(a, b));
    XorLaws(t, t, t);
  }

  lemma {:induction false} TimesPadded(a: Word, b: seq<bool>)
    ensures Times(a, b + [false]) == Times(a, b)
    decreases |b|
  {
    if b == [] {
      assert b + [false] == [false];
      TimesNothing(a, [false]);
    } else {
      TimesPadded(Twice(a), b[1..]);
      assert (b + [false])[1..] == b[1..] + [false];
    }
  }

  /** Multiplication by x goes through a product, on either side. */
  lemma TimesTwiceRight(a: Word, b: Word)
    ensures Times(a, Twice(b)) == Twice(Times(a, b))
  {
    var low: Word := b[..15] + [false];
    var top: Word, over: Word := Lead(Single(15), b[15]), Lead(Twice(Single(15)), b[15]);
    TopBit(b);
    ShiftTimes(a, b[..15]);
    TimesAddsRight(a, low, top);
    TimesAddsRight(a, Twice(low), over);
    TwiceAdds(Times(a, low), Times(a, top));
    TimesNothing(a, Zero());
    TwiceZero();
    if b[15] {
      TimesSingle(a, 15);
      TimesOver(a);
    }
  }

  lemma TimesOver(a: Word)
    ensures Times(a, Twice(Single(15))) == Up(a, 16)
  {
    var one, two, eight, high := Single(0), Single(1), Single(3), Single(12);
    Taps();
    TimesAddsRight(a, Xor(one, two), Xor(eight, high));
    TimesAddsRight(a, one, two);
    TimesAddsRight(a, eight, high);
    TimesSingle(a, 0);
    TimesSingle(a, 1);
    TimesSingle(a, 3);
    TimesSingle(a, 12);
    ReductionIsRight(a);
  }

  lemma {:induction false} TimesReduced(a: Word, b: seq<bool>)
    ensures Times(a, Reduced(b)) == Times(a, b)
  {
    if b == [] {
      TimesNothing(a, Zero());
    } else {
      var lead, rest: Word := Lead(One(), b[0]), Twice(Reduced(b[1..]));
      TimesAddsRight(a, lead, rest);
      TimesTwiceRight(a, Reduced(b[1..]));
      TimesReduced(a, b[1..]);
      TimesOne(a);
      TimesNothing(a, Zero());
      TimesTwice(a, b[1..]);
    }
  }

  lemma {:induction false} TimesFlip(a: Word, b: seq<bool>)
    ensures Times(a, b) == Times(Reduced(b), a)
  {
    if b == [] {
      ZeroTimes(a);
    } else {
      var lead, rest: Word := Lead(One(), b[0]), Twice(Reduced(b[1..]));
      TimesFlip(a, b[1..]);
      TimesAddsLeft(lead, rest, a);
      TimesTwice(Reduced(b[1..]), a);
      TimesTwice(a, b[1..]);
      ReducedWord(a);
      ZeroTimes(a);
    }
  }

  lemma {:induction false} ZeroTimes(b: seq<bool>)
    ensures Times(Zero(), b) == Zero()
  {
    TwiceZero();
    if b != [] {
      ZeroTimes(b[1..]);
      XorLaws(Zero(), Zero(), Zero());
    }
  }

  lemma {:induction false} TimesThree(a: Word, b: Word, c: seq<bool>)
    ensures Times(Times(a, b), c) == Times(a, Times(b, c))
    decreases |c|
  {
    if c == [] {
      TimesNothing(a, Zero());
    } else {
      TimesThree(a, b, c[1..]);
      TimesTwice(Times(a, b), c[1..]);
      TimesTwice(b, c[1..]);
      TimesAddsRight(a, Lead(b, c[0]), Twice(Times(b, c[1..])));
      TimesTwiceRight(a, Times(b, c[1..]));
      TimesNothing(a, Zero());
    }
  }

  // ----- the powers of 2

  /** `exp[i]`: the word the table loop reaches after `i` steps. */
  function Exp(i: nat): Word {
    Up(One(), i)
  }

  lemma {:induction false} ExpAdds(i: nat, j: nat)
    ensures Exp(i + j) == Times(Exp(i), Exp(j))
    decreases j
  {
    if j == 0 {
      TimesOne(Exp(i));
    } else {
      ExpAdds(i, j - 1);
      TimesTwiceRight(Exp(i), Exp(j - 1));
    }
  }

  lemma TwiceInjective(a: Word, b: Word)
    requires Twice(a) == Twice(b)
    ensures a == b
  {
    assert Twice(a)[0] == a[15] && Twice(b)[0] == b[15];
    forall i | 0 <= i < 15 ensures a[i] == b[i] {
      assert Twice(a)[i + 1] == Twice(b)[i + 1];
    }
  }

  lemma {:induction false} ExpNonZero(i: nat)
    ensures Exp(i) != Zero()
  {
    if i > 0 {
      ExpNonZero(i - 1);
      if Exp(i) == Zero() {
        TwiceZero();
        TwiceInjective(Exp(i - 1), Zero());
      }
    } else {
      assert One()[0];
    }
  }

  lemma {:induction false} ExpSame(i: nat, j: nat)
    requires i <= j && Exp(i) == Exp(j)
    ensures Exp(j - i) == One()
  {
    if i > 0 {
      TwiceInjective(Exp(i - 1), Exp(j - 1));
      ExpSame(i - 1, j - 1);
    }
  }
}
