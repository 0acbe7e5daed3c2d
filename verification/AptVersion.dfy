/** The version key of packaging/linux/apt-index.py: a version is cut into runs once
    and the keys are compared as Python compares lists. The Debian Policy Manual,
    section 5.6.12, compares character by character. Where the two agree is settled
    here for all pairs of ASCII strings. */
module AptVersion {
  import opened Basics

  predicate IsDigit(c: char) { '0' <= c <= '9' }

  predicate IsAlpha(c: char) { 'a' <= c <= 'z' || 'A' <= c <= 'Z' }

  function Order(c: char): int {
    if c == '~' then -1
    else if IsDigit(c) then 0
    else if IsAlpha(c) then c as int
    else c as int + 256
  }

  /** A tilde weighs less than anything, a digit as much as the end of a text, a letter its
      code, and any other character more than every letter, by its code among its like. */
  lemma OrderRanks(c: char, d: char)
    requires c < 128 as char && d < 128 as char
    ensures Order('~') < 0 && (c != '~' ==> Order(c) >= 0)
    ensures Order(c) == 0 <==> '0' <= c <= '9'
    ensures 'a' <= c <= 'z' || 'A' <= c <= 'Z' ==> Order(c) == c as int
    ensures Other(c) && ('a' <= d <= 'z' || 'A' <= d <= 'Z') ==> Order(d) < Order(c)
    ensures Other(c) && Other(d) && c < d ==> Order(c) < Order(d)
  {
  }

  predicate Other(c: char) {
    c != '~' && !('0' <= c <= '9') && !('a' <= c <= 'z') && !('A' <= c <= 'Z')
  }

  function Sign(x: int): int { if x < 0 then -1 else if x > 0 then 1 else 0 }

  // ----- cutting a string into runs (`parts`)

  /** Length of the leading run of non-digits, and of digits. */
  function NonRun(s: string): (n: nat)
    ensures n <= |s| && (n < |s| ==> IsDigit(s[n]))
  {
    if s == [] || IsDigit(s[0]) then 0 else 1 + NonRun(s[1..])
  }

  function DigRun(s: string): (n: nat)
    ensures n <= |s| && (n < |s| ==> !IsDigit(s[n]))
  {
    if s == [] || !IsDigit(s[0]) then 0 else 1 + DigRun(s[1..])
  }

  function Orders(s: string): (r: seq<int>)
    ensures |r| == |s|
  {
    if s == [] then [] else [Order(s[0])] + Orders(s[1..])
  }

  /** `int(digits or 0)`, continuing from `acc`. */
  function Horner(acc: nat, s: string): nat
    requires AllDigits(s)
    decreases |s|
  {
    if s == [] then acc else Horner(10 * acc + (s[0] as int - '0' as int), s[1..])
  }

  /** Decimal: a digit more is ten times as much and the digit. */
  lemma {:induction false} HornerDigit(acc: nat, s: string, d: char)
    requires AllDigits(s) && '0' <= d <= '9'
    ensures AllDigits(s + [d]) && Horner(acc, s + [d]) == 10 * Horner(acc, s) + (d - '0') as int
    decreases |s|
  {
    if s == [] {
      assert s + [d] == [d] && [d][1..] == [];
    } else {
      assert (s + [d])[1..] == s[1..] + [d];
      HornerDigit(10 * acc + (s[0] as int - '0' as int), s[1..], d);
    }
  }

  predicate AllDigits(s: string) {
    forall i | 0 <= i < |s| :: IsDigit(s[i])
  }

  lemma {:induction false} DigRunDigits(s: string)
    ensures AllDigits(s[..DigRun(s)])
  {
    if s != [] && IsDigit(s[0]) {
      DigRunDigits(s[1..]);
    }
  }

  type Part = (seq<int>, nat)

  /** The leading non-digits, the digits after them, and what is left. */
  function Head(s: string): string { s[..NonRun(s)] }

  function Digits(s: string): (d: string)
    ensures AllDigits(d)
  {
    var t := s[NonRun(s)..];
    DigRunDigits(t);
    t[..DigRun(t)]
  }

  function Rest(s: string): (r: string)
    ensures s != [] ==> |r| < |s|
    ensures r != [] ==> !IsDigit(r[0])
  {
    var t := s[NonRun(s)..];
    t[DigRun(t)..]
  }

  function FirstPart(s: string): Part {
    (Orders(Head(s)), Horner(0, Digits(s)))
  }

  function Parts(s: string): (r: seq<Part>)
    decreases |s|
  {
    if s == [] then [] else [FirstPart(s)] + Parts(Rest(s))
  }

  /** The index loop of `parts`. */
  method CutParts(s: string) returns (out: seq<Part>)
    ensures out == Parts(s)
  {
    out := [];
    var i := 0;
    ghost var goal := Parts(s);
    ghost var rest := s;
    while i < |s|
      invariant i <= |s| && rest == s[i..]
      invariant out + Parts(rest) == goal
      decreases |s| - i
    {
      var orders, j := ReadText(s, i);
      var number, k := ReadNumber(s, j);
      NextPart(s, i, j, k);
      rest := s[k..];
      Regroup(out, [(orders, number)], Parts(rest));
      out := out + [(orders, number)];
      i := k;
    }
  }

  lemma NextPart(s: string, i: nat, j: nat, k: nat)
    requires i < |s| && j == i + NonRun(s[i..]) && k == j + DigRun(s[j..])
    ensures i < k <= |s| && AllDigits(s[j..][..k - j])
    ensures Parts(s[i..]) == [(Orders(s[i..][..j - i]), Horner(0, s[j..][..k - j]))] + Parts(s[k..])
  {
    var rest := s[i..];
    DigRunDigits(s[j..]);
    assert rest[NonRun(rest)..] == s[j..];
    assert s[j..][DigRun(s[j..])..] == s[k..];
    assert Rest(rest) == s[k..];
  }

  method ReadText(s: string, i: nat) returns (orders: seq<int>, j: nat)
    requires i <= |s|
    ensures j == i + NonRun(s[i..]) && orders == Orders(s[i..][..j - i])
  {
    j := i;
    orders := [];
    ghost var rest := s[i..];
    ghost var goal := Orders(rest[..NonRun(rest)]);
    while j < |s| && !IsDigit(s[j])
      invariant i <= j <= |s| && rest == s[j..]
      invariant NonRun(s[i..]) == j - i + NonRun(rest)
      invariant orders + Orders(rest[..NonRun(rest)]) == goal
    {
      OrdersStep(orders, s, j);
      orders := orders + [Order(s[j])];
      assert rest[1..] == s[j + 1..];
      j := j + 1;
      rest := s[j..];
    }
  }

  method ReadNumber(s: string, j: nat) returns (number: nat, k: nat)
    requires j <= |s|
    ensures k == j + DigRun(s[j..]) && AllDigits(s[j..][..k - j]) && number == Horner(0, s[j..][..k - j])
  {
    k := j;
    number := 0;
    ghost var rest := s[j..];
    DigRunDigits(rest);
    ghost var goal := Horner(0, rest[..DigRun(rest)]);
    while k < |s| && IsDigit(s[k])
      invariant j <= k <= |s| && rest == s[k..]
      invariant DigRun(s[j..]) == k - j + DigRun(rest)
      invariant AllDigits(rest[..DigRun(rest)]) && Horner(number, rest[..DigRun(rest)]) == goal
    {
      HornerStep(number, s, k);
      number := 10 * number + (s[k] as int - '0' as int);
      assert rest[1..] == s[k + 1..];
      k := k + 1;
      rest := s[k..];
    }
  }

  lemma OrdersStep(orders: seq<int>, s: string, j: nat)
    requires j < |s| && !IsDigit(s[j])
    ensures orders + Orders(s[j..][..NonRun(s[j..])]) == orders + [Order(s[j])] + Orders(s[j + 1..][..NonRun(s[j + 1..])])
  {
    assert s[j..][1..] == s[j + 1..];
    assert s[j..][..NonRun(s[j..])][1..] == s[j + 1..][..NonRun(s[j + 1..])];
  }

  lemma HornerStep(number: nat, s: string, k: nat)
    requires k < |s| && IsDigit(s[k]) && AllDigits(s[k..][..DigRun(s[k..])])
    ensures AllDigits(s[k + 1..][..DigRun(s[k + 1..])])
    ensures Horner(number, s[k..][..DigRun(s[k..])])
         == Horner(10 * number + (s[k] as int - '0' as int), s[k + 1..][..DigRun(s[k + 1..])])
  {
    assert s[k..][1..] == s[k + 1..];
    assert s[k..][..DigRun(s[k..])][1..] == s[k + 1..][..DigRun(s[k + 1..])];
  }

  // ----- Python's comparison of lists, of pairs, of lists of pairs

  function CmpInts(a: seq<int>, b: seq<int>): (r: int) {
    if a == [] && b == [] then 0
    else if a == [] then -1
    else if b == [] then 1
    else if a[0] != b[0] then Sign(a[0] - b[0])
    else CmpInts(a[1..], b[1..])
  }

  function CmpPart(a: Part, b: Part): int {
    var c := CmpInts(a.0, b.0);
    if c != 0 then c else Sign(a.1 - b.1)
  }

  function CmpParts(a: seq<Part>, b: seq<Part>): (r: int) {
    if a == [] && b == [] then 0
    else if a == [] then -1
    else if b == [] then 1
    else
      var c := CmpPart(a[0], b[0]);
      if c != 0 then c else CmpParts(a[1..], b[1..])
  }

  /** How the code orders two upstream versions, or two revisions. */
  function CodeCmp(a: string, b: string): int {
    CmpParts(Parts(a), Parts(b))
  }

  // ----- the Debian algorithm

  /** The weight of the next character: the end of a string and a digit weigh 0. */
  function Weight(s: string): int {
    if s == [] || IsDigit(s[0]) then 0 else Order(s[0])
  }

  predicate AtText(s: string) { s != [] && !IsDigit(s[0]) }

  function DropZeros(s: string): (r: string)
    ensures |r| <= |s|
    ensures AllDigits(s) ==> AllDigits(r)
    ensures r != [] ==> r[0] != '0'
  {
    if s != [] && s[0] == '0' then DropZeros(s[1..]) else s
  }

  /** Digit by digit: the longer number is the larger, else the first difference. */
  function DigitCmp(a: string, b: string, first: int): int {
    if a != [] && b != [] then DigitCmp(a[1..], b[1..], if first != 0 then first else a[0] as int - b[0] as int)
    else if a != [] then 1
    else if b != [] then -1
    else Sign(first)
  }

  function DebianCmp(a: string, b: string): (r: int)
    decreases |a| + |b|
  {
    if a == [] && b == [] then 0
    else if AtText(a) || AtText(b) then
      if Weight(a) != Weight(b) then Sign(Weight(a) - Weight(b))
      else if a == [] || b == [] then 0
      else DebianCmp(a[1..], b[1..])
    else
      var n, m := DigRun(a), DigRun(b);
      var c := DigitCmp(DropZeros(a[..n]), DropZeros(b[..m]), 0);
      if c != 0 then c else DebianCmp(a[n..], b[m..])
  }

  // ----- numbers: the batch value against the digit-by-digit scan

  lemma {:induction false} HornerLess(a: nat, x: string, b: nat, y: string)
    requires AllDigits(x) && AllDigits(y) && |x| == |y| && a < b
    ensures Horner(a, x) < Horner(b, y)
    decreases |x|
  {
    if x != [] {
      HornerLess(10 * a + (x[0] as int - '0' as int), x[1..], 10 * b + (y[0] as int - '0' as int), y[1..]);
    }
  }

  lemma {:induction false} SameLength(a: nat, x: string, b: nat, y: string, first: int)
    requires AllDigits(x) && AllDigits(y) && |x| == |y| && Sign(first) == Sign(a - b)
    ensures DigitCmp(x, y, first) == Sign(Horner(a, x) - Horner(b, y))
    decreases |x|
  {
    if x != [] {
      var dx, dy := x[0] as int - '0' as int, y[0] as int - '0' as int;
      var first' := if first != 0 then first else x[0] as int - y[0] as int;
      SameLength(10 * a + dx, x[1..], 10 * b + dy, y[1..], first');
    }
  }

  lemma {:induction false} LongerWins(a: nat, x: string, y: string)
    requires AllDigits(x) && AllDigits(y) && |x| > |y| && (a > 0 || x[0] != '0')
    ensures Horner(a, x) > Horner(0, y)
    decreases |x|
  {
    var a' := 10 * a + (x[0] as int - '0' as int);
    if |x| == |y| + 1 {
      HornerLess(0, y, a', x[1..]);
    } else {
      LongerWins(a', x[1..], y);
    }
  }

  lemma {:induction false} LongerScans(x: string, y: string, first: int)
    ensures |x| > |y| ==> DigitCmp(x, y, first) == 1
    ensures |x| < |y| ==> DigitCmp(x, y, first) == -1
  {
    if x != [] && y != [] {
      LongerScans(x[1..], y[1..], if first != 0 then first else x[0] as int - y[0] as int);
    }
  }

  lemma {:induction false} ZerosDropped(x: string)
    requires AllDigits(x)
    ensures Horner(0, DropZeros(x)) == Horner(0, x)
  {
    if x != [] && x[0] == '0' {
      ZerosDropped(x[1..]);
    }
  }

  lemma NumbersAgree(x: string, y: string)
    requires AllDigits(x) && AllDigits(y)
    ensures DigitCmp(DropZeros(x), DropZeros(y), 0) == Sign(Horner(0, x) - Horner(0, y))
  {
    var u, v := DropZeros(x), DropZeros(y);
    ZerosDropped(x);
    ZerosDropped(y);
    LongerScans(u, v, 0);
    if |u| == |v| {
      SameLength(0, u, 0, v, 0);
    } else if |u| > |v| {
      LongerWins(0, u, v);
    } else {
      LongerWins(0, v, u);
    }
  }

  // ----- text: the list of orders against the character-by-character scan

  lemma TextHead(s: string)
    requires AtText(s)
    ensures Head(s) == [s[0]] + Head(s[1..]) && Digits(s) == Digits(s[1..]) && Rest(s) == Rest(s[1..])
  {
    assert s[NonRun(s)..] == s[1..][NonRun(s[1..])..];
  }

  /** The Debian scan of two text runs: past its end a run weighs 0. */
  function ScanText(x: string, y: string): int {
    if x == [] && y == [] then 0
    else if x == [] then -Sign(Order(y[0]))
    else if y == [] then Sign(Order(x[0]))
    else if Order(x[0]) != Order(y[0]) then Sign(Order(x[0]) - Order(y[0]))
    else ScanText(x[1..], y[1..])
  }

  /** After equal text: the numbers, then what is left. */
  function AfterText(a: string, b: string): int {
    var c := Sign(Horner(0, Digits(a)) - Horner(0, Digits(b)));
    if c != 0 then c else DebianCmp(Rest(a), Rest(b))
  }

  lemma {:induction false} DebianByRuns(a: string, b: string)
    ensures Head(a) == Head(b) ==> DebianCmp(a, b) == AfterText(a, b)
    ensures Head(a) != Head(b) ==> DebianCmp(a, b) == ScanText(Head(a), Head(b))
    decreases |a| + |b|
  {
    if AtText(a) && AtText(b) {
      DebianByRuns(a[1..], b[1..]);
      TextTurn(a, b);
    } else if AtText(a) {
      TextHead(a);
    } else if AtText(b) {
      TextHead(b);
    } else {
      NumbersAgree(Digits(a), Digits(b));
      assert a[0..] == a && b[0..] == b;
    }
  }

  lemma TextTurn(a: string, b: string)
    requires AtText(a) && AtText(b)
    requires Head(a[1..]) == Head(b[1..]) ==> DebianCmp(a[1..], b[1..]) == AfterText(a[1..], b[1..])
    requires Head(a[1..]) != Head(b[1..]) ==> DebianCmp(a[1..], b[1..]) == ScanText(Head(a[1..]), Head(b[1..]))
    ensures Head(a) == Head(b) ==> DebianCmp(a, b) == AfterText(a, b)
    ensures Head(a) != Head(b) ==> DebianCmp(a, b) == ScanText(Head(a), Head(b))
  {
    TextHead(a);
    TextHead(b);
    ScanCons(a[0], Head(a[1..]), b[0], Head(b[1..]));
    DebianText(a, b);
    AfterTextTail(a, b);
  }

  lemma ScanCons(c: char, x: string, d: char, y: string)
    requires !IsDigit(c) && !IsDigit(d)
    ensures ScanText([c] + x, [d] + y) == if c != d then Sign(Order(c) - Order(d)) else ScanText(x, y)
    ensures [c] + x == [d] + y <==> c == d && x == y
    ensures c != d ==> Order(c) != Order(d)
  {
    OrderInjective(c, d);
    var s, t := [c] + x, [d] + y;
    assert s[0] == c && t[0] == d && s[1..] == x && t[1..] == y;
  }

  lemma DebianText(a: string, b: string)
    requires AtText(a) && AtText(b)
    ensures DebianCmp(a, b) == if a[0] != b[0] then Sign(Order(a[0]) - Order(b[0])) else DebianCmp(a[1..], b[1..])
  {
    OrderInjective(a[0], b[0]);
  }

  lemma AfterTextTail(a: string, b: string)
    requires AtText(a) && AtText(b)
    ensures AfterText(a, b) == AfterText(a[1..], b[1..])
  {
    TextHead(a);
    TextHead(b);
  }

  lemma OrderInjective(c: char, d: char)
    ensures !IsDigit(c) && !IsDigit(d) && Order(c) == Order(d) ==> c == d
  {
  }

  /** One run stops where the other goes on with a tilde. */
  predicate TildeAfter(x: string, y: string) {
    (x < y && y[|x|] == '~') || (y < x && x[|y|] == '~')
  }

  lemma {:induction false} TextsAgree(x: string, y: string)
    requires forall i | 0 <= i < |x| :: !IsDigit(x[i])
    requires forall i | 0 <= i < |y| :: !IsDigit(y[i])
    ensures CmpInts(Orders(x), Orders(y)) == 0 <==> x == y
    ensures x != y ==> (CmpInts(Orders(x), Orders(y)) == ScanText(x, y) <==> !TildeAfter(x, y))
    ensures x != y ==> ScanText(x, y) != 0
  {
    if x != [] && y != [] {
      OrderInjective(x[0], y[0]);
      if x[0] == y[0] {
        TextsAgree(x[1..], y[1..]);
        TildeBehind(x, y);
      } else {
        assert !(x <= y) && !(y <= x);
      }
    }
  }

  lemma TildeBehind(x: string, y: string)
    requires x != [] && y != [] && x[0] == y[0]
    ensures TildeAfter(x, y) <==> TildeAfter(x[1..], y[1..])
    ensures x == y <==> x[1..] == y[1..]
  {
    assert x == [x[0]] + x[1..] && y == [y[0]] + y[1..];
  }

  lemma {:induction false} HeadIsText(s: string)
    ensures forall i | 0 <= i < |Head(s)| :: !IsDigit(Head(s)[i])
  {
    if AtText(s) {
      TextHead(s);
      HeadIsText(s[1..]);
    }
  }

  // ----- where the two orders agree

  /** Against the empty string: nothing but zeros, or zeros and then a tilde. */
  predicate EmptyClash(s: string) {
    s != [] && (DropZeros(s) == [] || DropZeros(s)[0] == '~')
  }

  /** The first place where the strings differ is a tilde against the end of a run,
      or one string is empty and the other says nothing Debian counts. */
  predicate Clash(a: string, b: string)
    decreases |a| + |b|
  {
    if a == [] then EmptyClash(b)
    else if b == [] then EmptyClash(a)
    else if Head(a) != Head(b) then TildeAfter(Head(a), Head(b))
    else Horner(0, Digits(a)) == Horner(0, Digits(b)) && Clash(Rest(a), Rest(b))
  }

  lemma {:induction false} EmptyCases(s: string)
    requires s != []
    ensures DebianCmp([], s) == -1 <==> !EmptyClash(s)
    ensures DebianCmp(s, []) == 1 <==> !EmptyClash(s)
  {
    DebianByRuns([], s);
    DebianByRuns(s, []);
    assert Head([]) == [] && Digits([]) == [] && Rest([]) == [];
    if AtText(s) {
      TextHead(s);
      assert Head(s)[0] == s[0];
    } else {
      DigitsThen(s);
      var t := Rest(s);
      if t != [] {
        TextHead(t);
        DebianByRuns([], t);
        DebianByRuns(t, []);
        assert Head(t)[0] == t[0];
      }
    }
  }

  /** A string that starts with digits: they are worth zero exactly when they are
      zeros, and then what follows them is what follows the zeros. */
  lemma DigitsThen(s: string)
    requires s != [] && !AtText(s)
    ensures Horner(0, Digits(s)) == 0 <==> DropZeros(s) == Rest(s)
    ensures Horner(0, Digits(s)) != 0 ==> DropZeros(s) != [] && IsDigit(DropZeros(s)[0])
    ensures Head(s) == []
  {
    var n := DigRun(s);
    assert s[0..] == s;
    assert s == s[..n] + s[n..];
    DigRunDigits(s);
    ZerosPrefix(s[..n], s[n..]);
    ZerosDropped(s[..n]);
    var z := DropZeros(s[..n]);
    if z == [] {
      assert z + s[n..] == s[n..];
    } else {
      LongerWins(0, z, "");
      assert (z + s[n..])[0] == z[0];
    }
  }

  lemma {:induction false} ZerosPrefix(d: string, rest: string)
    requires AllDigits(d) && (rest != [] ==> !IsDigit(rest[0]))
    ensures DropZeros(d + rest) == DropZeros(d) + rest
  {
    if d == [] {
      assert d + rest == rest;
    } else if d[0] == '0' {
      assert (d + rest)[1..] == d[1..] + rest;
      ZerosPrefix(d[1..], rest);
    }
  }

  /** For all pairs of strings: the code orders them as Debian does if and only if
      they do not clash. */
  lemma {:induction false} AgreesIff(a: string, b: string)
    ensures CodeCmp(a, b) == DebianCmp(a, b) <==> !Clash(a, b)
    decreases |a| + |b|
  {
    if a == [] {
      if b != [] { EmptyCases(b); }
    } else if b == [] {
      EmptyCases(a);
    } else {
      DebianByRuns(a, b);
      HeadIsText(a);
      HeadIsText(b);
      TextsAgree(Head(a), Head(b));
      CodeStep(a, b);
      AgreesIff(Rest(a), Rest(b));
    }
  }

  lemma CodeStep(a: string, b: string)
    requires a != [] && b != []
    ensures CodeCmp(a, b) ==
              var c := CmpPart(FirstPart(a), FirstPart(b));
              if c != 0 then c else CodeCmp(Rest(a), Rest(b))
  {
    assert Parts(a)[1..] == Parts(Rest(a)) && Parts(b)[1..] == Parts(Rest(b));
  }

  // ----- the two faces of a clash

  predicate TildeFree(s: string) {
    forall i | 0 <= i < |s| :: s[i] != '~'
  }

  predicate AllZeros(s: string) {
    forall i | 0 <= i < |s| :: s[i] == '0'
  }

  lemma {:induction false} DropZerosSuffix(s: string)
    ensures TildeFree(s) ==> TildeFree(DropZeros(s))
    ensures DropZeros(s) == [] <==> AllZeros(s)
  {
    if s != [] && s[0] == '0' {
      DropZerosSuffix(s[1..]);
      assert AllZeros(s[1..]) ==> AllZeros(s) by {
        assert forall i | 0 < i < |s| :: s[i] == s[1..][i - 1];
      }
    }
  }

  lemma RestStartsText(s: string)
    ensures TildeFree(s) ==> TildeFree(Head(s)) && TildeFree(Rest(s))
    ensures Rest(s) != [] ==> !AllZeros(Rest(s))
  {
    var t := s[NonRun(s)..];
    assert forall i | 0 <= i < |Rest(s)| :: Rest(s)[i] == s[NonRun(s) + DigRun(t) + i];
  }

  /** Without tildes the only clash is the empty string against zeros. */
  lemma {:induction false} ClashWithoutTildes(a: string, b: string)
    requires TildeFree(a) && TildeFree(b)
    ensures Clash(a, b) <==> (a == [] && b != [] && AllZeros(b)) || (b == [] && a != [] && AllZeros(a))
    decreases |a| + |b|
  {
    DropZerosSuffix(a);
    DropZerosSuffix(b);
    if a != [] && b != [] {
      RestStartsText(a);
      RestStartsText(b);
      ClashWithoutTildes(Rest(a), Rest(b));
    }
  }

  lemma CutShape(text: string, number: string, rest: string)
    requires forall i | 0 <= i < |text| :: !IsDigit(text[i])
    requires number != [] && AllDigits(number) && (rest != [] ==> !IsDigit(rest[0]))
    ensures var s := text + number + rest;
            Head(s) == text && Digits(s) == number && Rest(s) == rest
  {
    CutText(text, number + rest);
    CutNumber(number, rest);
    var s := text + number + rest;
    assert s == text + (number + rest);
    assert s[|text|..] == number + rest;
  }

  lemma {:induction false} CutText(text: string, rest: string)
    requires forall i | 0 <= i < |text| :: !IsDigit(text[i])
    requires rest != [] && IsDigit(rest[0])
    ensures NonRun(text + rest) == |text|
  {
    if text != [] {
      assert (text + rest)[1..] == text[1..] + rest;
      CutText(text[1..], rest);
    } else {
      assert text + rest == rest;
    }
  }

  lemma {:induction false} CutNumber(number: string, rest: string)
    requires AllDigits(number) && (rest != [] ==> !IsDigit(rest[0]))
    ensures DigRun(number + rest) == |number|
  {
    if number != [] {
      assert (number + rest)[1..] == number[1..] + rest;
      CutNumber(number[1..], rest);
    } else {
      assert number + rest == rest;
    }
  }

  /** Versions that begin with the same text and number are ordered by what follows. */
  lemma SameFront(text: string, number: string, a: string, b: string)
    requires forall i | 0 <= i < |text| :: !IsDigit(text[i])
    requires number != [] && AllDigits(number)
    requires (a != [] ==> !IsDigit(a[0])) && (b != [] ==> !IsDigit(b[0]))
    ensures CodeCmp(text + number + a, text + number + b) == CodeCmp(a, b)
    ensures DebianCmp(text + number + a, text + number + b) == DebianCmp(a, b)
  {
    var s, t := text + number + a, text + number + b;
    CutShape(text, number, a);
    CutShape(text, number, b);
    CodeStep(s, t);
    CmpSame(Orders(text));
    DebianByRuns(s, t);
  }

  lemma {:induction false} CmpSame(a: seq<int>)
    ensures CmpInts(a, a) == 0
  {
    if a != [] {
      CmpSame(a[1..]);
    }
  }

  /** The empty string, for the code, is below a tilde and what follows it. */
  lemma EmptyAgainstTilde(w: string)
    requires w != [] && w[0] == '~'
    ensures CodeCmp("", w) == -1 && DebianCmp("", w) == 1
  {
    assert AtText(w);
  }

  lemma CutAll(v: string)
    ensures v == Head(v) + Digits(v) + Rest(v)
    ensures Digits(v) == [] ==> Head(v) == v
  {
  }

  lemma {:induction false} TextOnly(v: string, w: string)
    requires forall i | 0 <= i < |v| :: !IsDigit(v[i])
    requires w != [] && w[0] == '~'
    ensures v < Head(v + w) && Head(v + w)[|v|] == '~'
    ensures CmpInts(Orders(v), Orders(Head(v + w))) == -1 && ScanText(v, Head(v + w)) == 1
  {
    if v == [] {
      NothingMore(w);
    } else {
      assert (v + w)[1..] == v[1..] + w;
      TextOnly(v[1..], w);
      TextHead(v + w);
    }
  }

  /** The rule of the docstring fails for every version: followed by a tilde it is above
      itself in the code, below itself in the manual. */
  lemma {:induction false} CandidateShadowsRelease(v: string, w: string)
    requires w != [] && w[0] == '~'
    ensures CodeCmp(v, v + w) == -1 && DebianCmp(v, v + w) == 1
    decreases |v|
  {
    CutAll(v);
    if v == [] {
      NothingMore(w);
      EmptyAgainstTilde(w);
    } else if Digits(v) == [] {
      HeadIsText(v);
      TextOnly(v, w);
      DebianByRuns(v, v + w);
      CodeStep(v, v + w);
    } else {
      HeadIsText(v);
      CandidateShadowsRelease(Rest(v), w);
      SameFront(Head(v), Digits(v), Rest(v), Rest(v) + w);
      Regroup(Head(v) + Digits(v), Rest(v), w);
    }
  }
}
