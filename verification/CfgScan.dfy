/** The two hand-written scanners under the cfg gate of tools/lock-gate.py: the
    bracket matcher `balanced_end` and the top-level comma splitter `split_top`.
    Each loop is proved against a recursion on the text still to be read. */
module CfgScan {
  import opened Basics

  // ----- Python's notion of white space (str.strip and \s agree on it)

  predicate IsSpace(c: char) {
    || '\t' <= c <= '\r' || '\U{1C}' <= c <= ' ' || c == '\U{85}' || c == '\U{A0}'
    || c == '\U{1680}' || '\U{2000}' <= c <= '\U{200A}' || c == '\U{2028}' || c == '\U{2029}'
    || c == '\U{202F}' || c == '\U{205F}' || c == '\U{3000}'
  }

  /** The 29 characters of white space in Unicode. */
  lemma WhiteSpace(c: char)
    ensures IsSpace(c) <==>
              || c in "\t\n\U{B}\U{C}\r\U{1C}\U{1D}\U{1E}\U{1F} \U{85}\U{A0}\U{1680}\U{2028}\U{2029}"
              || c in "\U{2000}\U{2001}\U{2002}\U{2003}\U{2004}\U{2005}\U{2006}\U{2007}\U{2008}\U{2009}\U{200A}"
              || c in "\U{202F}\U{205F}\U{3000}"
  {
  }

  predicate AllSpace(s: string) {
    forall i | 0 <= i < |s| :: IsSpace(s[i])
  }

  function Strip(s: string): (r: string)
    ensures |r| <= |s|
  {
    if s != [] && IsSpace(s[0]) then Strip(s[1..])
    else if s != [] && IsSpace(s[|s| - 1]) then Strip(s[..|s| - 1])
    else s
  }

  /** A text that starts and ends with a visible character. */
  predicate Tight(s: string) {
    s != [] && !IsSpace(s[0]) && !IsSpace(s[|s| - 1])
  }

  lemma {:induction false} StripPadded(before: string, s: string, after: string)
    requires AllSpace(before) && Tight(s) && AllSpace(after)
    ensures Strip(before + s + after) == s
    decreases |before| + |after|
  {
    var t := before + s + after;
    if before != [] {
      assert t[1..] == before[1..] + s + after;
      StripPadded(before[1..], s, after);
    } else if after != [] {
      assert t[..|t| - 1] == before + s + after[..|after| - 1];
      StripPadded(before, s, after[..|after| - 1]);
    } else {
      assert t == s;
    }
  }

  lemma {:induction false} StripBlank(s: string)
    requires AllSpace(s)
    ensures Strip(s) == []
  {
    if s != [] {
      StripBlank(s[1..]);
    }
  }

  // ----- string literals

  /** What follows a string literal, given the text after its opening quote. */
  function AfterLiteral(s: string): (r: string)
    ensures |r| <= |s|
  {
    if s == [] then []
    else if s[0] == '"' then s[1..]
    else if s[0] == '\\' then (if |s| == 1 then [] else AfterLiteral(s[2..]))
    else AfterLiteral(s[1..])
  }

  lemma {:induction false} AfterLiteralIsSuffix(s: string)
    ensures s == s[..|s| - |AfterLiteral(s)|] + AfterLiteral(s)
  {
    if s == [] || s[0] == '"' || s == "\\" {
    } else if s[0] == '\\' {
      AfterLiteralIsSuffix(s[2..]);
    } else {
      AfterLiteralIsSuffix(s[1..]);
    }
  }

  /** The text from index `i` on, where `i` may have run past the end. */
  function From(text: string, i: nat): (r: string)
    ensures i < |text| ==> r != [] && r[0] == text[i]
    ensures |r| == if i < |text| then |text| - i else 0
  {
    if i < |text| then text[i..] else []
  }

  lemma FromNext(text: string, i: nat)
    requires i < |text|
    ensures From(text, i)[1..] == From(text, i + 1)
    ensures i + 1 < |text| ==> From(text, i)[2..] == From(text, i + 2)
  {
  }

  /** The inner loop both scanners share: the index at which the literal ends
      (its closing quote, or past the end of the text when it never closes). */
  method LiteralEnd(text: string, start: nat) returns (j: nat)
    requires start <= |text|
    ensures start <= j
    ensures AfterLiteral(From(text, start)) == From(text, j + 1)
  {
    j := start;
    ghost var rest := From(text, j);
    while j < |text| && text[j] != '"'
      invariant start <= j
      invariant rest == From(text, j) && AfterLiteral(From(text, start)) == AfterLiteral(rest)
      decreases |text| - j
    {
      FromNext(text, j);
      j := j + if text[j] == '\\' then 2 else 1;
      rest := From(text, j);
    }
    if j < |text| {
      FromNext(text, j);
    }
  }

  // ----- balanced_end

  /** The text left after the bracket that brings `depth` back to zero. */
  function AfterBalanced(s: string, depth: int, opener: char, closer: char): (r: Option<string>)
    ensures r.Some? ==> |r.value| < |s|
    decreases |s|
  {
    if s == [] then None
    else if s[0] == '"' then AfterBalanced(AfterLiteral(s[1..]), depth, opener, closer)
    else if s[0] == opener then AfterBalanced(s[1..], depth + 1, opener, closer)
    else if s[0] == closer then
      if depth == 1 then Some(s[1..]) else AfterBalanced(s[1..], depth - 1, opener, closer)
    else AfterBalanced(s[1..], depth, opener, closer)
  }

  function BalancedEndSpec(text: string, openIdx: nat, opener: char, closer: char): (r: Option<nat>)
    ensures r.Some? ==> openIdx < r.value <= |text|
  {
    match AfterBalanced(From(text, openIdx), 0, opener, closer)
    case None => None
    case Some(rest) => Some(|text| - |rest|)
  }

  function Turn(c: char, opener: char, closer: char): int {
    if c == opener then 1 else if c == closer then -1 else 0
  }

  /** What is left to balance from index `i`; `None` once nothing can close it. */
  function Left(text: string, i: nat, depth: int, opener: char, closer: char): (r: Option<string>)
  {
    AfterBalanced(From(text, i), depth, opener, closer)
  }

  lemma LeftAtEnd(text: string, i: nat, depth: int, opener: char, closer: char)
    requires i >= |text|
    ensures Left(text, i, depth, opener, closer) == None
  {
  }

  lemma LeftPastChar(text: string, i: nat, depth: int, opener: char, closer: char)
    requires i < |text| && text[i] != '"' && !(text[i] == closer && text[i] != opener && depth == 1)
    ensures Left(text, i, depth, opener, closer) == Left(text, i + 1, depth + Turn(text[i], opener, closer), opener, closer)
  {
    FromNext(text, i);
  }

  lemma LeftPastLiteral(text: string, i: nat, j: nat, depth: int, opener: char, closer: char)
    requires i < |text| && text[i] == '"' && AfterLiteral(From(text, i + 1)) == From(text, j + 1)
    ensures Left(text, i, depth, opener, closer) == Left(text, j + 1, depth, opener, closer)
  {
    FromNext(text, i);
  }

  lemma BalancedStop(text: string, i: nat, opener: char, closer: char)
    requires i < |text| && text[i] == closer && closer != '"' && closer != opener
    ensures Left(text, i, 1, opener, closer) == Some(From(text, i + 1))
  {
    FromNext(text, i);
  }

  /** The literal that opens at `i` is skipped whole. */
  method PastLiteral(text: string, i: nat, ghost depth: int, opener: char, closer: char) returns (next: nat)
    requires i < |text| && text[i] == '"'
    ensures i < next && Left(text, i, depth, opener, closer) == Left(text, next, depth, opener, closer)
  {
    var j := LiteralEnd(text, i + 1);
    LeftPastLiteral(text, i, j, depth, opener, closer);
    next := j + 1;
  }

  method BalancedEnd(text: string, openIdx: nat, opener: char, closer: char) returns (r: Option<nat>)
    ensures r == BalancedEndSpec(text, openIdx, opener, closer)
  {
    var depth, i, n := 0, openIdx, |text|;
    ghost var goal := Left(text, i, 0, opener, closer);
    while i < n
      invariant openIdx <= i
      invariant goal == Left(text, i, depth, opener, closer)
      decreases n - i
    {
      var c := text[i];
      if c == '"' {
        i := PastLiteral(text, i, depth, opener, closer);
        continue;
      }
      ghost var before := depth;
      depth := depth + Turn(c, opener, closer);
      if depth == 0 && c == closer && c != opener {
        BalancedStop(text, i, opener, closer);
        return Some(i + 1);
      }
      LeftPastChar(text, i, before, opener, closer);
      i := i + 1;
    }
    LeftAtEnd(text, i, depth, opener, closer);
    r := None;
  }

  // ----- split_top

  function Nest(c: char): int {
    if c == '(' || c == '[' then 1 else if c == ')' || c == ']' then -1 else 0
  }

  /** The pieces between top-level commas, `cur` being the piece under way. */
  function Pieces(s: string, depth: int, cur: string): (r: seq<string>)
    ensures r != []
    decreases |s|
  {
    if s == [] then [cur]
    else if s[0] == '"' then
      var t := AfterLiteral(s[1..]);
      Pieces(t, depth, cur + s[..|s| - |t|])
    else
      var d := depth + Nest(s[0]);
      if s[0] == ',' && d == 0 then [cur] + Pieces(s[1..], d, [])
      else Pieces(s[1..], d, cur + [s[0]])
  }

  /** The comprehension of the last line: strip each piece, drop the blank ones. */
  function Trimmed(pieces: seq<string>): (r: seq<string>)
  {
    if pieces == [] then []
    else
      var p := Strip(pieces[0]);
      (if p == [] then [] else [p]) + Trimmed(pieces[1..])
  }

  function SplitTopSpec(s: string): (r: seq<string>) {
    Trimmed(Pieces(s, 0, []))
  }

  lemma {:induction false} PiecesShort(s: string, depth: int, cur: string)
    ensures forall p | p in Pieces(s, depth, cur) :: |p| <= |cur| + |s|
    decreases |s|
  {
    if s == [] {
    } else if s[0] == '"' {
      var t := AfterLiteral(s[1..]);
      PiecesShort(t, depth, cur + s[..|s| - |t|]);
    } else {
      var d := depth + Nest(s[0]);
      PiecesShort(s[1..], d, []);
      PiecesShort(s[1..], d, cur + [s[0]]);
    }
  }

  lemma {:induction false} TrimmedShort(pieces: seq<string>, bound: nat)
    requires forall p | p in pieces :: |p| <= bound
    ensures forall p | p in Trimmed(pieces) :: |p| <= bound
  {
    if pieces != [] {
      TrimmedShort(pieces[1..], bound);
    }
  }

  lemma SplitTopShort(s: string)
    ensures forall p | p in SplitTopSpec(s) :: |p| <= |s|
  {
    PiecesShort(s, 0, []);
    TrimmedShort(Pieces(s, 0, []), |s|);
  }

  lemma LiteralTurn(s: string, i: nat, j: nat, depth: int, cur: string)
    requires i < |s| && s[i] == '"' && i < j && AfterLiteral(From(s, i + 1)) == From(s, j + 1)
    ensures Pieces(From(s, i), depth, cur)
         == Pieces(From(s, j + 1), depth, cur + s[i..if j + 1 < |s| then j + 1 else |s|])
  {
    FromNext(s, i);
    var rest := From(s, i);
    assert rest[..|rest| - |From(s, j + 1)|] == s[i..if j + 1 < |s| then j + 1 else |s|];
  }

  lemma PlainTurn(s: string, i: nat, depth: int, cur: string)
    requires i < |s| && s[i] != '"'
    ensures Pieces(From(s, i), depth, cur)
         == var d := depth + Nest(s[i]);
            if s[i] == ',' && d == 0 then [cur] + Pieces(From(s, i + 1), d, []) else Pieces(From(s, i + 1), d, cur + [s[i]])
  {
    FromNext(s, i);
  }

  method SplitTop(s: string) returns (r: seq<string>)
    ensures r == SplitTopSpec(s)
  {
    var args: seq<string>, depth, cur: string, i, n := [], 0, [], 0, |s|;
    ghost var rest := s;
    ghost var goal := Pieces(s, 0, []);
    while i < n
      invariant rest == From(s, i)
      invariant args + Pieces(rest, depth, cur) == goal
      decreases n - i
    {
      var c := s[i];
      if c == '"' {
        var j := LiteralEnd(s, i + 1);
        LiteralTurn(s, i, j, depth, cur);
        cur := cur + s[i..if j + 1 < n then j + 1 else n];
        i := j + 1;
        rest := From(s, i);
        continue;
      }
      PlainTurn(s, i, depth, cur);
      depth := depth + Nest(c);
      if c == ',' && depth == 0 {
        Regroup(args, [cur], Pieces(From(s, i + 1), depth, []));
        args := args + [cur];
        cur := [];
      } else {
        cur := cur + [c];
      }
      i := i + 1;
      rest := From(s, i);
    }
    args := args + [cur];
    r := TrimAll(args);
  }

  method TrimAll(args: seq<string>) returns (r: seq<string>)
    ensures r == Trimmed(args)
  {
    r := [];
    ghost var goal := Trimmed(args);
    ghost var rest := args;
    for m := 0 to |args|
      invariant rest == args[m..]
      invariant r + Trimmed(rest) == goal
    {
      rest := args[m + 1..];
      TrimStep(args, m);
      var p := Strip(args[m]);
      if p != [] {
        Regroup(r, [p], Trimmed(rest));
        r := r + [p];
      }
    }
  }

  lemma TrimStep(args: seq<string>, m: nat)
    requires m < |args|
    ensures Trimmed(args[m..])
         == if Strip(args[m]) == [] then Trimmed(args[m + 1..]) else [Strip(args[m])] + Trimmed(args[m + 1..])
  {
    assert args[m..][1..] == args[m + 1..];
    assert [] + Trimmed(args[m + 1..]) == Trimmed(args[m + 1..]);
  }

  function JoinComma(pieces: seq<string>): string
  {
    if pieces == [] then [] else if |pieces| == 1 then pieces[0]
    else pieces[0] + "," + JoinComma(pieces[1..])
  }

  lemma JoinCons(p: string, rest: seq<string>)
    requires rest != []
    ensures JoinComma([p] + rest) == p + "," + JoinComma(rest)
  {
    assert ([p] + rest)[1..] == rest;
  }

  /** Splitting loses nothing: the pieces joined by commas are the text. */
  lemma {:induction false} PiecesJoin(s: string, depth: int, cur: string)
    ensures JoinComma(Pieces(s, depth, cur)) == cur + s
    decreases |s|
  {
    if s == [] {
    } else if s[0] == '"' {
      var t := AfterLiteral(s[1..]);
      var lit := s[..|s| - |t|];
      PiecesJoin(t, depth, cur + lit);
      AfterLiteralIsSuffix(s[1..]);
      assert lit + t == s;
      Regroup(cur, lit, t);
    } else {
      var d := depth + Nest(s[0]);
      var tail := s[1..];
      assert [s[0]] + tail == s;
      if s[0] == ',' && d == 0 {
        PiecesJoin(tail, d, []);
        JoinCons(cur, Pieces(tail, d, []));
        Regroup(cur, ",", tail);
      } else {
        PiecesJoin(tail, d, cur + [s[0]]);
        Regroup(cur, [s[0]], tail);
      }
    }
  }
}
