/** Squares in GF(2^16), digit by digit, and the powers of 2 that decide its order. */
module Gf16Digits {
  import opened Basics
  import opened Gf16

  // ----- the order of 2, by doubling and squaring digits

  datatype Digits =
    Digits(d0: bool, d1: bool, d2: bool, d3: bool, d4: bool, d5: bool, d6: bool, d7: bool,
           d8: bool, d9: bool, d10: bool, d11: bool, d12: bool, d13: bool, d14: bool, d15: bool)

  function DigitsOf(w: Word): Digits {
    Digits(w[0], w[1], w[2], w[3], w[4], w[5], w[6], w[7],
           w[8], w[9], w[10], w[11], w[12], w[13], w[14], w[15])
  }

  function TwiceOf(v: Digits): Digits {
    Digits(v.d15, v.d0 != v.d15, v.d1, v.d2 != v.d15, v.d3, v.d4, v.d5, v.d6,
           v.d7, v.d8, v.d9, v.d10, v.d11 != v.d15, v.d12, v.d13, v.d14)
  }

  /** Each digit is the sum of those whose squares have it. */
  function SquareOf(v: Digits): Digits {
    Digits((((v.d0 != v.d8) != v.d10) != v.d12) != v.d14,
           (((v.d8 != v.d10) != v.d12) != v.d14) != v.d15,
           ((v.d1 != v.d9) != v.d11) != v.d13,
           ((((((v.d8 != v.d9) != v.d10) != v.d11) != v.d12) != v.d13) != v.d14) != v.d15,
           (((v.d2 != v.d10) != v.d12) != v.d14) != v.d15,
           (((((v.d9 != v.d10) != v.d11) != v.d12) != v.d13) != v.d14) != v.d15,
           ((v.d3 != v.d11) != v.d13) != v.d15,
           ((((v.d10 != v.d11) != v.d12) != v.d13) != v.d14) != v.d15,
           (v.d4 != v.d12) != v.d14,
           (((v.d11 != v.d12) != v.d13) != v.d14) != v.d15,
           (v.d5 != v.d13) != v.d15,
           ((v.d12 != v.d13) != v.d14) != v.d15,
           ((v.d6 != v.d8) != v.d10) != v.d12,
           v.d13 != v.d14,
           ((v.d7 != v.d9) != v.d11) != v.d13,
           v.d14 != v.d15)
  }

  /** `bit + x v`, where nothing overflows. */
  function Shift(bit: bool, v: Digits): Digits {
    Digits(bit, v.d0, v.d1, v.d2, v.d3, v.d4, v.d5, v.d6, v.d7, v.d8, v.d9, v.d10, v.d11, v.d12, v.d13, v.d14)
  }

  /** Two steps at once. */
  function FourOf(v: Digits): Digits {
    Digits(v.d14, v.d14 != v.d15, v.d0 != v.d15, v.d1 != v.d14, v.d2 != v.d15, v.d3, v.d4, v.d5,
           v.d6, v.d7, v.d8, v.d9, v.d10 != v.d14, v.d11 != v.d15, v.d12, v.d13)
  }

  lemma TwiceTwice(v: Digits)
    ensures TwiceOf(TwiceOf(v)) == FourOf(v)
  {
  }

  lemma SquareShift0(bit: bool, v: Digits)
    requires !v.d15
    ensures var s, u := SquareOf(Shift(bit, v)), FourOf(SquareOf(v));
            s.d0 == (bit != u.d0) && s.d1 == u.d1
  {
  }

  lemma SquareShift2(bit: bool, v: Digits)
    requires !v.d15
    ensures var s, u := SquareOf(Shift(bit, v)), FourOf(SquareOf(v));
            s.d2 == u.d2 && s.d3 == u.d3
  {
  }

  lemma SquareShift4(bit: bool, v: Digits)
    requires !v.d15
    ensures var s, u := SquareOf(Shift(bit, v)), FourOf(SquareOf(v));
            s.d4 == u.d4 && s.d5 == u.d5
  {
  }

  lemma SquareShift6(bit: bool, v: Digits)
    requires !v.d15
    ensures var s, u := SquareOf(Shift(bit, v)), FourOf(SquareOf(v));
            s.d6 == u.d6 && s.d7 == u.d7
  {
  }

  lemma SquareShift8(bit: bool, v: Digits)
    requires !v.d15
    ensures var s, u := SquareOf(Shift(bit, v)), FourOf(SquareOf(v));
            s.d8 == u.d8 && s.d9 == u.d9 && s.d10 == u.d10 && s.d11 == u.d11
  {
  }

  lemma SquareShift12(bit: bool, v: Digits)
    requires !v.d15
    ensures var s, u := SquareOf(Shift(bit, v)), FourOf(SquareOf(v));
            s.d12 == u.d12 && s.d13 == u.d13
  {
  }

  lemma SquareShift14(bit: bool, v: Digits)
    requires !v.d15
    ensures var s, u := SquareOf(Shift(bit, v)), FourOf(SquareOf(v));
            s.d14 == u.d14 && s.d15 == u.d15
  {
  }

  /** The square of `bit + x v`, from the square of `v`. */
  lemma SquareShift(bit: bool, v: Digits)
    requires !v.d15
    ensures var u := TwiceOf(TwiceOf(SquareOf(v)));
            SquareOf(Shift(bit, v)) == u.(d0 := bit != u.d0)
  {
    TwiceTwice(SquareOf(v));
    SquareShift0(bit, v);
    SquareShift2(bit, v);
    SquareShift4(bit, v);
    SquareShift6(bit, v);
    SquareShift8(bit, v);
    SquareShift12(bit, v);
    SquareShift14(bit, v);
  }

  lemma TwiceBits(v: Word)
    ensures var w := Twice(v);
            && w[0] == v[15] && w[1] == (v[0] != v[15]) && w[2] == v[1] && w[3] == (v[2] != v[15])
            && w[4] == v[3] && w[5] == v[4] && w[6] == v[5] && w[7] == v[6]
            && w[8] == v[7] && w[9] == v[8] && w[10] == v[9] && w[11] == v[10]
            && w[12] == (v[11] != v[15]) && w[13] == v[12] && w[14] == v[13] && w[15] == v[14]
  {
  }

  lemma TwiceDigits(v: Word)
    ensures DigitsOf(Twice(v)) == TwiceOf(DigitsOf(v))
  {
    TwiceBits(v);
  }

  lemma LeadDigits(bit: bool, v: Word)
    ensures var d := DigitsOf(v); DigitsOf(Xor(Lead(One(), bit), v)) == d.(d0 := bit != d.d0)
  {
  }

  /** The square of a polynomial, bit by bit. */
  function SquareBits(b: seq<bool>): Word {
    if b == [] then Zero() else Xor(Lead(One(), b[0]), Twice(Twice(SquareBits(b[1..]))))
  }

  lemma {:induction false} SquareReduced(b: seq<bool>)
    ensures Times(Reduced(b), Reduced(b)) == SquareBits(b)
  {
    if b == [] {
      ZeroTimes(Zero());
    } else {
      var lead, r: Word := Lead(One(), b[0]), Reduced(b[1..]);
      SquareReduced(b[1..]);
      TimesTwiceRight(Twice(r), r);
      TimesTwice(r, r);
      SquareOfSum(lead, Twice(r));
      TimesOne(One());
      ZeroTimes(Zero());
    }
  }

  lemma SquareOfSum(a: Word, b: Word)
    ensures Times(Xor(a, b), Xor(a, b)) == Xor(Times(a, a), Times(b, b))
  {
    TimesAddsRight(Xor(a, b), a, b);
    TimesAddsLeft(a, b, a);
    TimesAddsLeft(a, b, b);
    TimesFlip(a, b);
    ReducedWord(b);
    var aa, ab, bb := Times(a, a), Times(a, b), Times(b, b);
    XorLaws(ab, aa, ab);
    XorSwap(aa, ab, bb, ab);
    XorSwap(aa, ab, ab, bb);
    XorLaws(ab, bb, bb);
    XorLaws(Xor(aa, bb), Zero(), Zero());
  }

  lemma {:induction false} SquareDigits(b: seq<bool>)
    requires |b| <= 16
    ensures DigitsOf(SquareBits(b)) == SquareOf(DigitsOf(Pad(b)))
  {
    if b == [] {
      assert Pad(b) == Zero();
    } else {
      SquareDigits(b[1..]);
      PadCons(b[0], b[1..]);
      assert b == [b[0]] + b[1..];
      SquareStep(b[0], Pad(b[1..]), SquareBits(b[1..]));
    }
  }

  /** One more bit at the bottom of `p`, whose square is `w`. */
  lemma SquareStep(bit: bool, p: Word, w: Word)
    requires !p[15] && DigitsOf(w) == SquareOf(DigitsOf(p))
    ensures DigitsOf(Xor(Lead(One(), bit), Twice(Twice(w)))) == SquareOf(DigitsOf(Xor(Lead(One(), bit), Twice(p))))
  {
    SquareShift(bit, DigitsOf(p));
    ShiftDigits(bit, p);
    LeadDigits(bit, Twice(Twice(w)));
    TwiceDigits(w);
    TwiceDigits(Twice(w));
  }

  lemma ShiftDigits(bit: bool, p: Word)
    requires !p[15]
    ensures DigitsOf(Xor(Lead(One(), bit), Twice(p))) == Shift(bit, DigitsOf(p))
  {
    TwiceDigits(p);
    LeadDigits(bit, Twice(p));
  }

  /** Squaring is linear: these are the digits of the square. */
  lemma SquareOfWord(v: Word)
    ensures DigitsOf(Times(v, v)) == SquareOf(DigitsOf(v))
  {
    SquareReduced(v);
    ReducedWord(v);
    SquareDigits(v);
    assert Pad(v) == v;
  }

  lemma First() returns (e: nat, d: Digits)
    ensures e == 1 && d == DigitsOf(Exp(e))
    ensures d == Digits(false, true, false, false, false, false, false, false,
                        false, false, false, false, false, false, false, false)
  {
    e := 1;
    UpOne(1);
    d := DigitsOf(Exp(e));
  }

  /** From `2^e` to `2^(2 e)` and `2^(2 e + 1)`. */
  lemma Even(e: nat, d: Digits) returns (next: nat, r: Digits)
    requires d == DigitsOf(Exp(e))
    ensures next == 2 * e && r == SquareOf(d) == DigitsOf(Exp(next))
  {
    ExpAdds(e, e);
    SquareOfWord(Exp(e));
    next, r := 2 * e, SquareOf(d);
  }

  lemma Odd(e: nat, d: Digits) returns (next: nat, r: Digits)
    requires d == DigitsOf(Exp(e))
    ensures next == 2 * e + 1 && r == TwiceOf(SquareOf(d)) == DigitsOf(Exp(next))
  {
    var h, s := Even(e, d);
    TwiceDigits(Exp(h));
    next, r := h + 1, TwiceOf(s);
  }

  /** The power whose exponent is a third of the order. */
  lemma AtThird() returns (e: nat, d: Digits)
    ensures e == 21845 && d == DigitsOf(Exp(e))
    ensures d == Digits(false, true, true, true, true, false, true, false,
                        true, false, false, false, false, false, false, false)
  {
    e, d := First();
    e, d := Even(e, d);
    e, d := Odd(e, d);
    e, d := Even(e, d);
    e, d := Odd(e, d);
    e, d := Even(e, d);
    e, d := Odd(e, d);
    e, d := Even(e, d);
    e, d := Odd(e, d);
    e, d := Even(e, d);
    e, d := Odd(e, d);
    e, d := Even(e, d);
    e, d := Odd(e, d);
    e, d := Even(e, d);
    e, d := Odd(e, d);
  }

  /** A fifth of it. */
  lemma AtFifth() returns (e: nat, d: Digits)
    ensures e == 13107 && d == DigitsOf(Exp(e))
    ensures d == Digits(false, false, false, true, false, true, true, true,
                        false, false, true, true, true, false, false, false)
  {
    e, d := First();
    e, d := Odd(e, d);
    e, d := Even(e, d);
    e, d := Even(e, d);
    e, d := Odd(e, d);
    e, d := Odd(e, d);
    e, d := Even(e, d);
    e, d := Even(e, d);
    e, d := Odd(e, d);
    e, d := Odd(e, d);
    e, d := Even(e, d);
    e, d := Even(e, d);
    e, d := Odd(e, d);
    e, d := Odd(e, d);
  }

  /** A seventeenth. */
  lemma AtSeventeenth() returns (e: nat, d: Digits)
    ensures e == 3855 && d == DigitsOf(Exp(e))
    ensures d == Digits(false, false, false, true, true, true, true, false,
                        true, false, true, true, false, false, true, false)
  {
    e, d := First();
    e, d := Odd(e, d);
    e, d := Odd(e, d);
    e, d := Odd(e, d);
    e, d := Even(e, d);
    e, d := Even(e, d);
    e, d := Even(e, d);
    e, d := Even(e, d);
    e, d := Odd(e, d);
    e, d := Odd(e, d);
    e, d := Odd(e, d);
    e, d := Odd(e, d);
  }

  /** The power 256, which differs from the first unless 255 is a multiple of the order. */
  lemma At256() returns (e: nat, d: Digits)
    ensures e == 256 && d == DigitsOf(Exp(e))
    ensures d == Digits(true, true, true, true, false, true, false, false,
                        true, true, false, true, false, false, false, false)
  {
    e, d := First();
    e, d := Even(e, d);
    e, d := Even(e, d);
    e, d := Even(e, d);
    e, d := Even(e, d);
    e, d := Even(e, d);
    e, d := Even(e, d);
    e, d := Even(e, d);
    e, d := Even(e, d);
  }

  /** The power of the order itself is one. */
  lemma AtOrder() returns (e: nat, d: Digits)
    ensures e == 65535 && d == DigitsOf(Exp(e))
    ensures d == Digits(true, false, false, false, false, false, false, false,
                        false, false, false, false, false, false, false, false)
  {
    e, d := First();
    e, d := Odd(e, d);
    e, d := Odd(e, d);
    e, d := Odd(e, d);
    e, d := Odd(e, d);
    e, d := Odd(e, d);
    e, d := Odd(e, d);
    e, d := Odd(e, d);
    e, d := Odd(e, d);
    e, d := Odd(e, d);
    e, d := Odd(e, d);
    e, d := Odd(e, d);
    e, d := Odd(e, d);
    e, d := Odd(e, d);
    e, d := Odd(e, d);
    e, d := Odd(e, d);
  }

  lemma SameDigits(a: Word, b: Word)
    requires DigitsOf(a) == DigitsOf(b)
    ensures a == b
  {
    BitByBit(a, b);
  }

  predicate SameBits(a: Word, b: Word) {
    && a[0] == b[0] && a[1] == b[1] && a[2] == b[2] && a[3] == b[3]
    && a[4] == b[4] && a[5] == b[5] && a[6] == b[6] && a[7] == b[7]
    && a[8] == b[8] && a[9] == b[9] && a[10] == b[10] && a[11] == b[11]
    && a[12] == b[12] && a[13] == b[13] && a[14] == b[14] && a[15] == b[15]
  }

  lemma BitByBit(a: Word, b: Word)
    requires SameBits(a, b)
    ensures a == b
  {
  }

  lemma OneDigits()
    ensures DigitsOf(One()) == Digits(true, false, false, false, false, false, false, false,
                                      false, false, false, false, false, false, false, false)
  {
  }
}
