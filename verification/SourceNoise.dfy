/** The Rust source stripper of tools/size-gate.py: strings and comments are blanked,
    line structure and code are kept. */
module SourceNoise {
  import opened Basics

  // ----- where each kind of noise ends

  function LineEnd(t: string, i: nat): (j: nat)
    requires i <= |t|
    ensures i <= j <= |t|
    decreases |t| - i
  {
    if i < |t| && t[i] != '\n' then LineEnd(t, i + 1) else i
  }

  predicate At(t: string, i: nat, a: char, b: char) {
    i + 1 < |t| && t[i] == a && t[i + 1] == b
  }

  /** Past the end of a block comment, `depth` levels deep at `i`. */
  function CommentEnd(t: string, i: nat, depth: nat): (j: nat)
    requires i <= |t|
    ensures i <= j <= |t|
    decreases |t| - i
  {
    if i == |t| || depth == 0 then i
    else if At(t, i, '/', '*') then CommentEnd(t, i + 2, depth + 1)
    else if At(t, i, '*', '/') then CommentEnd(t, i + 2, depth - 1)
    else CommentEnd(t, i + 1, depth)
  }

  /** Past the closing quote of a string whose text starts at `i`. */
  function StringEnd(t: string, i: nat): (j: nat)
    requires i <= |t|
    ensures i <= j <= |t|
    decreases |t| - i
  {
    if i == |t| then i
    else if t[i] == '"' then i + 1
    else if t[i] == '\\' then (if i + 1 < |t| then StringEnd(t, i + 2) else |t|)
    else StringEnd(t, i + 1)
  }

  function Hashes(t: string, i: nat): (n: nat)
    requires i <= |t|
    ensures i + n <= |t|
    ensures i + n < |t| ==> t[i + n] != '#'
    decreases |t| - i
  {
    if i < |t| && t[i] == '#' then 1 + Hashes(t, i + 1) else 0
  }

  /** A quote and `n` hashes at `i`. */
  predicate CloserAt(t: string, i: nat, n: nat) {
    i + 1 + n <= |t| && t[i] == '"' && forall k | i < k <= i + n :: t[k] == '#'
  }

  /** Past the end of a raw string whose text starts at `i`. */
  function RawEnd(t: string, i: nat, n: nat): (j: nat)
    requires i <= |t|
    ensures i <= j <= |t|
    decreases |t| - i
  {
    if i == |t| then i else if CloserAt(t, i, n) then i + 1 + n else RawEnd(t, i + 1, n)
  }

  /** The hash count of `b?r#*"` at `i`. */
  function RawOpen(t: string, i: nat): (r: Option<nat>)
    requires i < |t|
    ensures r.Some? ==> RawStart(t, i) + r.value < |t|
  {
    var j := RawStart(t, i);
    if j > i && t[j - 1] == 'r' && j + Hashes(t, j) < |t| && t[j + Hashes(t, j)] == '"' then Some(Hashes(t, j)) else None
  }

  /** Past the letters of a raw prefix. */
  function RawStart(t: string, i: nat): (j: nat)
    requires i < |t|
    ensures i <= j <= |t|
  {
    if t[i] == 'r' then i + 1 else if At(t, i, 'b', 'r') then i + 2 else i
  }

  /** `b"` at `i`, or the reversed `rb#*"`, which the code reads from its third
      character on as if it were a plain byte string. */
  predicate ByteOpen(t: string, i: nat)
    requires i < |t|
  {
    || At(t, i, 'b', '"')
    || (At(t, i, 'r', 'b') && i + 2 + Hashes(t, i + 2) < |t| && t[i + 2 + Hashes(t, i + 2)] == '"')
  }

  function FindQuote(t: string, i: nat): (r: Option<nat>)
    requires i <= |t|
    ensures r.Some? ==> i <= r.value < |t|
    decreases |t| - i
  {
    if i == |t| then None else if t[i] == '\'' then Some(i) else FindQuote(t, i + 1)
  }

  /** Past the end of a character literal at `i`, if there is one. */
  function CharEnd(t: string, i: nat): (r: Option<nat>)
    requires i < |t|
    ensures r.Some? ==> i + 2 < r.value <= |t|
  {
    if At(t, i, '\'', '\\') then
      match FindQuote(t, i + 2)
      case None => None
      case Some(j) => Some(j + 1)
    else if i + 2 < |t| && t[i + 1] != '\'' && t[i + 2] == '\'' then Some(i + 3)
    else None
  }

  // ----- tokens

  /** One character kept, a blanked stretch, or a dropped character literal. */
  datatype Token = Keep(lo: nat) | Blank(lo: nat, hi: nat) | Literal(lo: nat, hi: nat) {
    function End(): nat { if Keep? then lo + 1 else hi }
  }

  function TokenAt(t: string, i: nat): (k: Token)
    requires i < |t|
    ensures k.lo == i < k.End() <= |t|
  {
    if At(t, i, '/', '/') then Blank(i, LineEnd(t, i + 2))
    else if At(t, i, '/', '*') then Blank(i, CommentEnd(t, i + 2, 1))
    else if t[i] == '"' then Blank(i, StringEnd(t, i + 1))
    else if RawOpen(t, i).Some? then
      var n := RawOpen(t, i).value;
      Blank(i, RawEnd(t, RawStart(t, i) + n + 1, n))
    else if ByteOpen(t, i) then Blank(i, StringEnd(t, i + 2))
    else if t[i] == '\'' && CharEnd(t, i).Some? then Literal(i, CharEnd(t, i).value)
    else Keep(i)
  }

  /** Output characters, each with the index it comes from. */
  type Mark = (char, nat)

  /** The newlines of a stretch. */
  function Newlines(t: string, lo: nat, hi: nat): (r: seq<Mark>)
    requires hi <= |t|
    decreases hi - lo
  {
    if lo >= hi then []
    else (if t[lo] == '\n' then [('\n', lo)] else []) + Newlines(t, lo + 1, hi)
  }

  function Emit(t: string, k: Token): (r: seq<Mark>)
    requires k.lo < k.End() <= |t|
  {
    match k
    case Keep(i) => [(t[i], i)]
    case Blank(lo, hi) => Newlines(t, lo, hi)
    case Literal(_, _) => []
  }

  function Kept(t: string, i: nat): (r: seq<Mark>)
    requires i <= |t|
    decreases |t| - i
  {
    if i == |t| then [] else Emit(t, TokenAt(t, i)) + Kept(t, TokenAt(t, i).End())
  }

  function Text(marks: seq<Mark>): (s: string)
    ensures |s| == |marks|
  {
    if marks == [] then [] else [marks[0].0] + Text(marks[1..])
  }

  function Stripped(t: string): string { Text(Kept(t, 0)) }

  // ----- counting newlines

  function Count(t: string, lo: nat, hi: nat): (n: nat)
    requires hi <= |t|
    decreases hi - lo
  {
    if lo >= hi then 0 else (if t[lo] == '\n' then 1 else 0) + Count(t, lo + 1, hi)
  }

  lemma {:induction false} CountIs(t: string, lo: nat, hi: nat)
    requires lo <= hi <= |t|
    ensures Count(t, lo, hi) == multiset(t[lo..hi])['\n']
    decreases hi - lo
  {
    if lo < hi {
      assert t[lo..hi] == [t[lo]] + t[lo + 1..hi];
      CountIs(t, lo + 1, hi);
    }
  }

  function CountMarks(marks: seq<Mark>): nat {
    if marks == [] then 0 else (if marks[0].0 == '\n' then 1 else 0) + CountMarks(marks[1..])
  }

  /** Newlines inside the character literals that end at or before `stop`. */
  function Swallowed(t: string, i: nat, stop: nat): (n: nat)
    requires i <= |t|
    decreases |t| - i
  {
    if i == |t| then 0
    else
      var k := TokenAt(t, i);
      (if k.Literal? && k.hi <= stop then Count(t, i, k.hi) else 0) + Swallowed(t, k.End(), stop)
  }

  lemma {:induction false} CountSplit(t: string, lo: nat, mid: nat, hi: nat)
    requires lo <= mid <= hi <= |t|
    ensures Count(t, lo, hi) == Count(t, lo, mid) + Count(t, mid, hi)
    decreases mid - lo
  {
    if lo < mid {
      CountSplit(t, lo + 1, mid, hi);
    }
  }

  lemma {:induction false} MarksAppend(a: seq<Mark>, b: seq<Mark>)
    ensures CountMarks(a + b) == CountMarks(a) + CountMarks(b)
  {
    if a == [] {
      assert a + b == b;
    } else {
      assert (a + b)[1..] == a[1..] + b;
      MarksAppend(a[1..], b);
    }
  }

  lemma {:induction false} NewlinesCount(t: string, lo: nat, hi: nat)
    requires lo <= hi <= |t|
    ensures CountMarks(Newlines(t, lo, hi)) == Count(t, lo, hi)
    decreases hi - lo
  {
    if lo < hi {
      NewlinesCount(t, lo + 1, hi);
      MarksAppend(if t[lo] == '\n' then [('\n', lo)] else [], Newlines(t, lo + 1, hi));
    }
  }

  lemma EmitCount(t: string, k: Token)
    requires k.lo < k.End() <= |t|
    ensures CountMarks(Emit(t, k)) == if k.Literal? then 0 else Count(t, k.lo, k.End())
  {
    match k {
      case Keep(i) => assert Count(t, i + 1, i + 1) == 0;
      case Blank(lo, hi) => NewlinesCount(t, lo, hi);
      case Literal(_, _) =>
    }
  }

  /** The newlines of the text are those of the output and those swallowed. */
  lemma {:induction false} NewlineBalance(t: string, i: nat)
    requires i <= |t|
    ensures CountMarks(Kept(t, i)) + Swallowed(t, i, |t|) == Count(t, i, |t|)
    decreases |t| - i
  {
    if i < |t| {
      var k := TokenAt(t, i);
      NewlineBalance(t, k.End());
      EmitCount(t, k);
      MarksAppend(Emit(t, k), Kept(t, k.End()));
      CountSplit(t, i, k.End(), |t|);
    }
  }

  // ----- order and line numbers

  lemma {:induction false} NewlinesPlace(t: string, lo: nat, hi: nat, m: nat)
    requires lo <= hi <= |t| && m < |Newlines(t, lo, hi)|
    ensures var x := Newlines(t, lo, hi)[m];
            && lo <= x.1 < hi && x.0 == t[x.1] == '\n'
            && CountMarks(Newlines(t, lo, hi)[..m]) == Count(t, lo, x.1)
    decreases hi - lo
  {
    var rest := Newlines(t, lo + 1, hi);
    if t[lo] != '\n' {
      assert [] + rest == rest;
      NewlinesPlace(t, lo + 1, hi, m);
    } else {
      var all := [('\n', lo)] + rest;
      if m > 0 {
        NewlinesPlace(t, lo + 1, hi, m - 1);
        assert all[..m] == [('\n', lo)] + rest[..m - 1];
        MarksAppend([('\n', lo)], rest[..m - 1]);
      }
    }
  }

  lemma {:induction false} SwallowedLater(t: string, i: nat, stop: nat)
    requires stop <= i <= |t|
    ensures Swallowed(t, i, stop) == 0
    decreases |t| - i
  {
    if i < |t| {
      SwallowedLater(t, TokenAt(t, i).End(), stop);
    }
  }

  /** Where output character `m` comes from: it is the character there, and its line
      number differs from the original one by the newlines swallowed before it. */
  ghost predicate Placed(t: string, i: nat, m: nat)
    requires i <= |t| && m < |Kept(t, i)|
  {
    var x := Kept(t, i)[m];
    && i <= x.1 < |t| && x.0 == t[x.1]
    && CountMarks(Kept(t, i)[..m]) + Swallowed(t, i, x.1) == Count(t, i, x.1)
  }

  lemma EmitPlace(t: string, k: Token, m: nat)
    requires k.lo < k.End() <= |t| && m < |Emit(t, k)|
    ensures var x := Emit(t, k)[m];
            && k.lo <= x.1 < k.End() && x.0 == t[x.1]
            && CountMarks(Emit(t, k)[..m]) == Count(t, k.lo, x.1)
  {
    match k {
      case Keep(i) => assert Emit(t, k)[..0] == [];
      case Blank(lo, hi) => NewlinesPlace(t, lo, hi, m);
    }
  }

  lemma {:induction false} KeptPlaced(t: string, i: nat, m: nat)
    requires i <= |t| && m < |Kept(t, i)|
    ensures Placed(t, i, m)
    decreases |t| - i
  {
    var k := TokenAt(t, i);
    var head, rest := Emit(t, k), Kept(t, k.End());
    assert Kept(t, i) == head + rest;
    if m < |head| {
      EmitPlace(t, k, m);
      assert (head + rest)[..m] == head[..m];
      SwallowedLater(t, k.End(), head[m].1);
    } else {
      KeptPlaced(t, k.End(), m - |head|);
      var x := rest[m - |head|];
      assert (head + rest)[..m] == head + rest[..m - |head|];
      MarksAppend(head, rest[..m - |head|]);
      EmitCount(t, k);
      CountSplit(t, i, k.End(), x.1);
    }
  }

  /** The marks come from `[lo, hi)`, from left to right. */
  ghost predicate Ascending(marks: seq<Mark>, lo: nat, hi: nat) {
    && (forall m | 0 <= m < |marks| :: lo <= marks[m].1 < hi)
    && (forall m | 0 < m < |marks| :: marks[m - 1].1 < marks[m].1)
  }

  lemma AscendingJoin(a: seq<Mark>, b: seq<Mark>, lo: nat, mid: nat, hi: nat)
    requires Ascending(a, lo, mid) && Ascending(b, mid, hi) && lo <= mid <= hi
    ensures Ascending(a + b, lo, hi)
  {
    var all := a + b;
    forall m | 0 < m < |all| ensures all[m - 1].1 < all[m].1 {
      if m > |a| {
        assert all[m - 1] == b[m - 1 - |a|] && all[m] == b[m - |a|];
      }
    }
  }

  lemma {:induction false} NewlinesOrdered(t: string, lo: nat, hi: nat)
    requires lo <= hi <= |t|
    ensures Ascending(Newlines(t, lo, hi), lo, hi)
    decreases hi - lo
  {
    if lo < hi {
      NewlinesOrdered(t, lo + 1, hi);
    }
  }

  /** Output characters keep their order. */
  lemma {:induction false} KeptOrdered(t: string, i: nat)
    requires i <= |t|
    ensures Ascending(Kept(t, i), i, |t|)
    decreases |t| - i
  {
    if i < |t| {
      var k := TokenAt(t, i);
      KeptOrdered(t, k.End());
      if k.Blank? {
        NewlinesOrdered(t, k.lo, k.hi);
      }
      AscendingJoin(Emit(t, k), Kept(t, k.End()), i, k.End(), |t|);
    }
  }

  /** No character literal of the text spans a line break. */
  predicate LiteralsOnOneLine(t: string, i: nat)
    requires i <= |t|
    decreases |t| - i
  {
    i < |t| ==>
      var k := TokenAt(t, i);
      (k.Literal? ==> Count(t, i, k.hi) == 0) && LiteralsOnOneLine(t, k.End())
  }

  lemma {:induction false} NothingSwallowed(t: string, i: nat, stop: nat)
    requires i <= |t|
    ensures LiteralsOnOneLine(t, i) ==> Swallowed(t, i, stop) == 0
    ensures Swallowed(t, i, |t|) == 0 ==> LiteralsOnOneLine(t, i)
    decreases |t| - i
  {
    if i < |t| {
      NothingSwallowed(t, TokenAt(t, i).End(), stop);
    }
  }

  lemma {:induction false} TextCount(marks: seq<Mark>)
    ensures Count(Text(marks), 0, |marks|) == CountMarks(marks)
  {
    if marks != [] {
      TextCount(marks[1..]);
      CountShift(marks[0].0, Text(marks[1..]), 0);
    }
  }

  lemma {:induction false} CountShift(c: char, s: string, lo: nat)
    requires lo <= |s|
    ensures Count([c] + s, lo + 1, |s| + 1) == Count(s, lo, |s|)
    decreases |s| - lo
  {
    if lo < |s| {
      CountShift(c, s, lo + 1);
    }
  }

  /** The output has as many newlines as the text if and only if no character literal
      of the text spans a line break. */
  lemma NewlinesKeptIff(t: string)
    ensures Count(Stripped(t), 0, |Stripped(t)|) == Count(t, 0, |t|) <==> LiteralsOnOneLine(t, 0)
  {
    TextCount(Kept(t, 0));
    NewlineBalance(t, 0);
    NothingSwallowed(t, 0, |t|);
  }

  lemma {:induction false} TextAt(marks: seq<Mark>, m: nat)
    requires m < |marks|
    ensures Text(marks)[m] == marks[m].0 && Text(marks)[..m] == Text(marks[..m])
  {
    if m > 0 {
      TextAt(marks[1..], m - 1);
      assert marks[..m][1..] == marks[1..][..m - 1];
      assert Text(marks)[..m] == [marks[0].0] + Text(marks[1..])[..m - 1];
    } else {
      assert Text(marks)[..0] == [];
    }
  }

  /** When none does, every output character is a character of the text, in order,
      and on the line it was on. */
  lemma LinesKept(t: string, m: nat)
    requires LiteralsOnOneLine(t, 0) && m < |Stripped(t)|
    ensures var from := Kept(t, 0)[m].1;
            && from < |t| && Stripped(t)[m] == t[from]
            && Count(Stripped(t), 0, m) == Count(t, 0, from)
            && (m > 0 ==> Kept(t, 0)[m - 1].1 < from)
  {
    var marks := Kept(t, 0);
    KeptPlaced(t, 0, m);
    KeptOrdered(t, 0);
    NothingSwallowed(t, 0, marks[m].1);
    TextAt(marks, m);
    TextCount(marks[..m]);
    CountPrefix(Stripped(t), Text(marks[..m]), 0);
  }

  lemma {:induction false} CountPrefix(s: string, p: string, lo: nat)
    requires p <= s && lo <= |p|
    ensures Count(s, lo, |p|) == Count(p, lo, |p|)
    decreases |p| - lo
  {
    if lo < |p| {
      CountPrefix(s, p, lo + 1);
    }
  }

  /** The condition is needed: a quoted line break disappears. */
  lemma QuotedBreakIsSwallowed()
    ensures Count("'\n'", 0, 3) == 1 && Stripped("'\n'") == "" && !LiteralsOnOneLine("'\n'", 0)
  {
    var t := "'\n'";
    assert TokenAt(t, 0) == Literal(0, 3);
    assert Kept(t, 3) == [];
    assert Count(t, 2, 3) == 0 && Count(t, 1, 3) == 1;
    assert Emit(t, Literal(0, 3)) + [] == [];
  }

  // ----- the loops

  lemma {:induction false} NewlinesSkip(t: string, lo: nat, mid: nat, hi: nat)
    requires lo <= mid <= hi <= |t| && forall k | lo <= k < mid :: t[k] != '\n'
    ensures Newlines(t, lo, hi) == Newlines(t, mid, hi)
    decreases mid - lo
  {
    if lo < mid {
      NewlinesSkip(t, lo + 1, mid, hi);
      assert [] + Newlines(t, lo + 1, hi) == Newlines(t, lo + 1, hi);
    }
  }

  lemma {:induction false} NewlinesSplit(t: string, lo: nat, mid: nat, hi: nat)
    requires lo <= mid <= hi <= |t|
    ensures Newlines(t, lo, hi) == Newlines(t, lo, mid) + Newlines(t, mid, hi)
    decreases mid - lo
  {
    if lo < mid {
      NewlinesSplit(t, lo + 1, mid, hi);
      var first := if t[lo] == '\n' then [('\n', lo)] else [];
      Regroup(first, Newlines(t, lo + 1, mid), Newlines(t, mid, hi));
    } else {
      assert [] + Newlines(t, mid, hi) == Newlines(t, mid, hi);
    }
  }

  lemma {:induction false} TextAppend(a: seq<Mark>, b: seq<Mark>)
    ensures Text(a + b) == Text(a) + Text(b)
  {
    if a == [] {
      assert a + b == b;
    } else {
      assert (a + b)[1..] == a[1..] + b;
      TextAppend(a[1..], b);
    }
  }

  /** The blank text of a stretch: its newlines. */
  function BlankText(t: string, lo: nat, hi: nat): string
    requires hi <= |t|
  {
    Text(Newlines(t, lo, hi))
  }

  lemma BlankStep(t: string, lo: nat, mid: nat, hi: nat)
    requires lo <= mid <= hi <= |t|
    ensures BlankText(t, lo, hi) == BlankText(t, lo, mid) + BlankText(t, mid, hi)
  {
    NewlinesSplit(t, lo, mid, hi);
    TextAppend(Newlines(t, lo, mid), Newlines(t, mid, hi));
  }

  lemma BlankOne(t: string, i: nat)
    requires i < |t|
    ensures BlankText(t, i, i + 1) == if t[i] == '\n' then "\n" else ""
  {
    assert Newlines(t, i + 1, i + 1) == [];
  }

  lemma BlankNext(t: string, lo: nat, i: nat)
    requires lo <= i < |t|
    ensures BlankText(t, lo, i + 1) == if t[i] == '\n' then BlankText(t, lo, i) + "\n" else BlankText(t, lo, i)
  {
    BlankStep(t, lo, i, i + 1);
    BlankOne(t, i);
    assert BlankText(t, lo, i) + "" == BlankText(t, lo, i);
  }

  lemma CommentTwo(t: string, start: nat, i: nat, depth: nat)
    requires start <= i < |t| && depth > 0 && (At(t, i, '/', '*') || At(t, i, '*', '/'))
    ensures i + 2 <= |t| && BlankText(t, start, i + 2) == BlankText(t, start, i)
    ensures CommentEnd(t, i, depth) == CommentEnd(t, i + 2, if t[i] == '/' then depth + 1 else depth - 1)
  {
    BlankNext(t, start, i);
    BlankNext(t, start, i + 1);
  }

  lemma CommentOne(t: string, start: nat, i: nat, depth: nat)
    requires start <= i < |t| && depth > 0 && !At(t, i, '/', '*') && !At(t, i, '*', '/')
    ensures BlankText(t, start, i + 1) == BlankText(t, start, i) + if t[i] == '\n' then "\n" else ""
    ensures CommentEnd(t, i, depth) == CommentEnd(t, i + 1, depth)
  {
    BlankNext(t, start, i);
    assert BlankText(t, start, i) + "" == BlankText(t, start, i);
  }

  /** The comment loop: nested openers and closers, newlines kept. */
  method SkipComment(t: string, start: nat) returns (i: nat, nl: string)
    requires start <= |t|
    ensures i == CommentEnd(t, start, 1) && nl == BlankText(t, start, i)
  {
    var depth := 1;
    i, nl := start, "";
    ghost var goal := CommentEnd(t, start, 1);
    while i < |t| && depth > 0
      invariant start <= i <= |t| && CommentEnd(t, i, depth) == goal
      invariant nl == BlankText(t, start, i)
    {
      if At(t, i, '/', '*') {
        CommentTwo(t, start, i, depth);
        depth := depth + 1;
        i := i + 2;
      } else if At(t, i, '*', '/') {
        CommentTwo(t, start, i, depth);
        depth := depth - 1;
        i := i + 2;
      } else {
        CommentOne(t, start, i, depth);
        nl := nl + if t[i] == '\n' then "\n" else "";
        i := i + 1;
      }
    }
  }

  lemma EscapeStep(t: string, start: nat, i: nat)
    requires start <= i < |t| && t[i] == '\\'
    ensures BlankText(t, start, i + 1) == BlankText(t, start, i)
    ensures i + 1 == |t| ==> StringEnd(t, i) == |t|
    ensures i + 1 < |t| ==>
              && StringEnd(t, i) == StringEnd(t, i + 2)
              && BlankText(t, start, i + 2) == BlankText(t, start, i) + if t[i + 1] == '\n' then "\n" else ""
  {
    BlankNext(t, start, i);
    if i + 1 < |t| {
      BlankNext(t, start, i + 1);
      assert BlankText(t, start, i) + "" == BlankText(t, start, i);
    }
  }

  lemma StringStep(t: string, start: nat, i: nat)
    requires start <= i < |t| && t[i] != '\\'
    ensures BlankText(t, start, i + 1) == BlankText(t, start, i) + if t[i] == '\n' then "\n" else ""
    ensures StringEnd(t, i) == if t[i] == '"' then i + 1 else StringEnd(t, i + 1)
  {
    BlankNext(t, start, i);
    assert BlankText(t, start, i) + "" == BlankText(t, start, i);
  }

  /** The string loop: an escape takes two characters, a line break may be one. */
  method SkipString(t: string, start: nat) returns (i: nat, nl: string)
    requires start <= |t|
    ensures i == StringEnd(t, start) && nl == BlankText(t, start, i)
  {
    i, nl := start, "";
    ghost var goal := StringEnd(t, start);
    while i < |t| && t[i] != '"'
      invariant start <= i <= |t| && StringEnd(t, i) == goal
      invariant nl == BlankText(t, start, i)
    {
      if t[i] == '\\' {
        EscapeStep(t, start, i);
        if i + 1 < |t| {
          nl := nl + if t[i + 1] == '\n' then "\n" else "";
          i := i + 1;
        }
      } else {
        StringStep(t, start, i);
        nl := nl + if t[i] == '\n' then "\n" else "";
      }
      i := i + 1;
    }
    if i < |t| {
      StringStep(t, start, i);
      assert nl + "" == nl;
      i := i + 1;
    }
  }

  /** `text.find` of the closing quote and hashes, then the newlines on the way. */
  method SkipRaw(t: string, start: nat, n: nat) returns (i: nat, nl: string)
    requires start <= |t|
    ensures i == RawEnd(t, start, n) && nl == BlankText(t, start, i)
  {
    i := start;
    while i < |t| && !CloserAt(t, i, n)
      invariant start <= i <= |t| && RawEnd(t, i, n) == RawEnd(t, start, n)
    {
      i := i + 1;
    }
    i := if i < |t| then i + 1 + n else i;
    nl := "";
    for k := start to i
      invariant nl == BlankText(t, start, k)
    {
      BlankNext(t, start, k);
      if t[k] == '\n' {
        nl := nl + "\n";
      }
    }
  }

  method SkipLine(t: string, start: nat) returns (i: nat)
    requires start <= |t|
    ensures i == LineEnd(t, start) && forall k | start <= k < i :: t[k] != '\n'
  {
    i := start;
    while i < |t| && t[i] != '\n'
      invariant start <= i <= |t| && LineEnd(t, i) == LineEnd(t, start)
      invariant forall k | start <= k < i :: t[k] != '\n'
    {
      i := i + 1;
    }
  }

  /** One turn of the main loop: where the token at `i` ends and what it leaves. */
  method NextToken(t: string, i: nat) returns (j: nat, s: string)
    requires i < |t|
    ensures j == TokenAt(t, i).End() && s == Text(Emit(t, TokenAt(t, i)))
  {
    if At(t, i, '/', '/') {
      j := SkipLine(t, i + 2);
      NewlinesSkip(t, i, j, j);
      return j, "";
    } else if At(t, i, '/', '*') {
      j, s := SkipComment(t, i + 2);
      NewlinesSkip(t, i, i + 2, j);
    } else if t[i] == '"' {
      j, s := SkipString(t, i + 1);
      NewlinesSkip(t, i, i + 1, j);
    } else if RawOpen(t, i).Some? {
      var n := RawOpen(t, i).value;
      var start := RawStart(t, i) + n + 1;
      j, s := SkipRaw(t, start, n);
      RawPrefix(t, i);
      NewlinesSkip(t, i, start, j);
    } else if ByteOpen(t, i) {
      j, s := SkipString(t, i + 2);
      NewlinesSkip(t, i, i + 2, j);
    } else if t[i] == '\'' && CharEnd(t, i).Some? {
      return CharEnd(t, i).value, "";
    } else {
      return i + 1, [t[i]];
    }
  }

  lemma {:induction false} HashesAre(t: string, i: nat)
    requires i <= |t|
    ensures forall k | i <= k < i + Hashes(t, i) :: t[k] == '#'
    decreases |t| - i
  {
    if i < |t| && t[i] == '#' {
      HashesAre(t, i + 1);
    }
  }

  lemma RawPrefix(t: string, i: nat)
    requires i < |t| && RawOpen(t, i).Some?
    ensures forall k | i <= k < RawStart(t, i) + RawOpen(t, i).value + 1 :: t[k] != '\n'
  {
    HashesAre(t, RawStart(t, i));
  }

  lemma KeptStep(t: string, i: nat)
    requires i < |t|
    ensures Text(Kept(t, i)) == Text(Emit(t, TokenAt(t, i))) + Text(Kept(t, TokenAt(t, i).End()))
  {
    TextAppend(Emit(t, TokenAt(t, i)), Kept(t, TokenAt(t, i).End()));
  }

  method StripNoise(t: string) returns (out: string)
    ensures out == Stripped(t)
  {
    out := "";
    var i := 0;
    ghost var goal := Stripped(t);
    while i < |t|
      invariant i <= |t| && out + Text(Kept(t, i)) == goal
      decreases |t| - i
    {
      var j, s := NextToken(t, i);
      KeptStep(t, i);
      Regroup(out, s, Text(Kept(t, j)));
      out := out + s;
      i := j;
    }
  }
}
