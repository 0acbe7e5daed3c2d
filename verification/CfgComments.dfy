/** Comments inside a cfg predicate. The gate does not know them; with no quote, bracket
    or comma in them they only make it undecided, so that its verdict stays safe. */
module CfgComments {
  import opened Basics
  import opened CfgScan
  import opened CfgPredicate
  import opened CfgVerdict

  /** A value that is not wrong: undecided, or the one wanted. */
  predicate Below(v: Tri, want: Tri) {
    v == Maybe || v == want
  }

  // ----- stripping a text with comments around it

  lemma {:induction false} StripLeft(before: string, s: string)
    requires AllSpace(before)
    ensures Strip(before + s) == Strip(s)
  {
    if before == [] {
      NothingMore(s);
    } else {
      assert (before + s)[1..] == before[1..] + s;
      StripLeft(before[1..], s);
    }
  }

  /** Stripping a text with a visible start cuts it at the back only. */
  lemma {:induction false} StripStarts(s: string)
    requires s != [] && !IsSpace(s[0])
    ensures Strip(s) != [] && Strip(s) <= s
  {
    if IsSpace(s[|s| - 1]) {
      StripStarts(s[..|s| - 1]);
    }
  }

  lemma {:induction false} StripTwice(s: string)
    ensures Strip(Strip(s)) == Strip(s)
    decreases |s|
  {
    if s != [] && IsSpace(s[0]) {
      StripTwice(s[1..]);
    } else if s != [] && IsSpace(s[|s| - 1]) {
      StripTwice(s[..|s| - 1]);
    }
  }

  /** A gap with a comment begins with it, once white space is stripped. */
  lemma {:induction false} CommentFirst(gap: string, rest: string)
    requires IsGap(gap) && !AllSpace(gap)
    ensures var s := Strip(gap + rest); s != [] && s[0] == '/'
    decreases |gap|
  {
    var t := gap + rest;
    if IsSpace(gap[0]) {
      SkipOne(gap);
      assert t[1..] == gap[1..] + rest;
      CommentFirst(gap[1..], rest);
    } else {
      assert t[0] == '/';
      StripStarts(t);
    }
  }

  lemma SkipOne(gap: string)
    requires IsGap(gap) && !AllSpace(gap) && IsSpace(gap[0])
    ensures IsGap(gap[1..]) && !AllSpace(gap[1..])
  {
    SkipShifts(gap, 1);
    assert forall k | 0 < k < |gap| :: gap[k] == gap[1..][k - 1];
  }

  lemma {:induction false} SkipShifts(s: string, i: nat)
    requires 0 < i <= |s|
    ensures SkipSpace(s, i) == SkipSpace(s[1..], i - 1) + 1
    decreases |s| - i
  {
    if i < |s| && IsSpace(s[i]) {
      SkipShifts(s, i + 1);
    }
  }

  /** What stripping leaves of the gap behind a text: nothing, or a comment. */
  lemma {:induction false} StripRight(s: string, after: string) returns (left: string)
    requires Tight(s) && IsGap(after)
    ensures Strip(s + after) == s + left && left <= after
    ensures AllSpace(after) ==> left == []
    ensures !AllSpace(after) ==> '/' in left
  {
    left := Shorten(after);
    ShortenLaw(after);
    StripShorten(s, after);
  }

  function Shorten(g: string): (r: string) {
    if g != [] && IsSpace(g[|g| - 1]) then Shorten(g[..|g| - 1]) else g
  }

  lemma {:induction false} ShortenLaw(g: string)
    ensures Shorten(g) <= g && AllSpace(g[|Shorten(g)|..])
    ensures forall c | c in g && !IsSpace(c) :: c in Shorten(g)
    ensures AllSpace(g) ==> Shorten(g) == []
  {
    if g != [] && IsSpace(g[|g| - 1]) {
      var front, last := g[..|g| - 1], g[|g| - 1];
      ShortenLaw(front);
      assert g == front + [last];
      assert g[|Shorten(front)|..] == front[|Shorten(front)|..] + [last];
      assert AllSpace(g) ==> AllSpace(front);
    }
  }

  lemma {:induction false} StripShorten(s: string, after: string)
    requires Tight(s)
    ensures Strip(s + after) == s + Shorten(after)
    decreases |after|
  {
    var t := s + after;
    if after == [] {
      assert t == s == s + Shorten(after);
    } else if IsSpace(after[|after| - 1]) {
      assert t[..|t| - 1] == s + after[..|after| - 1];
      StripShorten(s, after[..|after| - 1]);
    }
  }

  // ----- a comment only makes a value undecided

  /** No operator, and not the word `test`. */
  lemma Unknown(text: string)
    requires OpAt(Strip(text)) == None && Strip(text) != "test"
    ensures ValueWithoutTest(text) == Maybe
  {
  }

  lemma CommentBefore(text: string, before: string, rest: string)
    requires IsGap(before) && !AllSpace(before) && Strip(text) == Strip(before + rest)
    ensures ValueWithoutTest(text) == Maybe
  {
    CommentFirst(before, rest);
    var s := Strip(text);
    assert |s| >= 3 ==> s[..3][0] == '/';
    Unknown(text);
  }

  lemma CalmOp(s: string)
    requires AllCalm(s)
    ensures OpAt(s) == None
  {
  }

  /** An option or `test`, with a comment behind it or not, is no call. */
  lemma LeafThenComment(node: Node, left: string)
    requires WellFormed(node) && !node.Call? && AllCalm(left)
    ensures OpAt(Render(node) + left) == None
  {
    var s := Render(node) + left;
    if node.Opt? && node.key.Setting? {
      EqualSignFirst(node.key.name + node.gap1, s[|node.key.name| + |node.gap1|..]) by {
        SettingParts(node, left);
      }
      SettingParts(node, left);
    } else {
      CalmOp(s);
    }
  }

  lemma SettingParts(node: Node, left: string)
    requires WellFormed(node) && node.Opt? && node.key.Setting?
    ensures var n := |node.key.name| + |node.gap1|; var s := Render(node) + left;
            && n < |s| && s == (node.key.name + node.gap1) + s[n..] && s[n] == '='
            && AllCalm(node.key.name + node.gap1)
  {
  }

  lemma EqualSignFirst(head: string, rest: string)
    requires AllCalm(head) && rest != [] && rest[0] == '='
    ensures OpAt(head + rest) == None
  {
    var s, eq := head + rest, |head|;
    assert s[eq] == '=';
    if eq < 3 {
      assert |s| >= 3 ==> s[..3][eq] == '=';
    } else {
      SkipSpaceStops(s, 3, eq);
      forall k | 0 <= k <= eq ensures s[k] != '(' {
        assert k < eq ==> s[k] == head[k] && Calm(head[k]);
      }
    }
  }

  lemma SlashIsNotTest(s: string)
    requires '/' in s
    ensures s != "test"
  {
  }

  lemma LeafNeverWrong(text: string, node: Node, left: string)
    requires WellFormed(node) && !node.Call? && AllCalm(left) && (left == [] || '/' in left)
    requires Strip(text) == Render(node) + left
    ensures Below(ValueWithoutTest(text), Kleene(node))
  {
    LeafThenComment(node, left);
    if left == [] {
      NothingMore(Render(node));
      LeafText(node);
    } else {
      SlashIsNotTest(Strip(text));
    }
  }

  /** A comment between the operator and its bracket. */
  lemma CommentInCall(op: Op, gap: string, rest: string)
    requires IsGap(gap) && !AllSpace(gap)
    ensures OpAt(OpName(op) + gap + rest) == None
  {
    var s := OpName(op) + gap + rest;
    var k := SkipSpace(gap, 0);
    SkipSpaceLaw(gap, 0);
    assert s[3 + k] == gap[k] == '/';
    forall j | 3 <= j < 3 + k ensures IsSpace(s[j]) {
      assert s[j] == gap[j - 3];
    }
    SkipSpaceExact(s, 3, 3 + k);
  }

  lemma {:induction false} SkipSpaceLaw(s: string, i: nat)
    requires i <= |s|
    ensures forall k | i <= k < SkipSpace(s, i) :: IsSpace(s[k])
    decreases |s| - i
  {
    if i < |s| && IsSpace(s[i]) {
      SkipSpaceLaw(s, i + 1);
    }
  }

  lemma OpIsNotTest(op: Op, rest: string)
    ensures OpName(op) + rest != "test"
  {
    assert (OpName(op) + rest)[0] != 't';
  }

  lemma OpThen(op: Op, gap: string, rest: string)
    requires AllSpace(gap)
    ensures OpAt(OpName(op) + gap + ("(" + rest)) == Some((op, 3 + |gap| + 1))
  {
    var s, stop := OpName(op) + gap + ("(" + rest), 3 + |gap|;
    assert s[..3] == OpName(op) && s[stop] == '(';
    forall k | 3 <= k < stop ensures IsSpace(s[k]) {
      assert s[k] == gap[k - 3];
    }
    SkipSpaceExact(s, 3, stop);
  }

  /** A call is no call to the gate with a comment in front of its bracket or behind it. */
  lemma CommentedCall(text: string, node: Node, left: string)
    requires WellFormed(node) && node.Call? && Strip(text) == Render(node) + left
    requires !AllSpace(node.gap) || left != []
    ensures ValueWithoutTest(text) == Maybe
  {
    var head, inner := OpName(node.op) + node.gap, Inner(node);
    CallText(head, inner, left);
    OpHead(node.op, node.gap, "(" + (inner + (")" + left)));
    OpIsNotTest(node.op, node.gap + ("(" + (inner + (")" + left))));
    if !AllSpace(node.gap) {
      CommentInCall(node.op, node.gap, "(" + (inner + (")" + left)));
      Unknown(text);
    } else {
      OpThen(node.op, node.gap, inner + (")" + left));
      BalanceInner(node.args, node.comma, node.pad, ")" + left, 1);
      assert (")" + left)[1..] == left;
      ClosesAfter(Strip(text), head, inner + (")" + left), left, |Render(node)|);
    }
  }

  lemma OpHead(op: Op, gap: string, rest: string)
    ensures OpName(op) + gap + rest == OpName(op) + (gap + rest)
  {
  }

  // ----- the arguments, with comments

  function Evaluated(texts: seq<string>): seq<Tri> {
    seq(|texts|, i requires 0 <= i < |texts| => ValueWithoutTest(texts[i]))
  }

  /** No value is wrong, and at most an undecided one is added. */
  predicate Loose(vs: seq<Tri>, wants: seq<Tri>) {
    && |wants| <= |vs| <= |wants| + 1
    && (forall i | 0 <= i < |wants| :: Below(vs[i], wants[i]))
    && (|vs| > |wants| ==> vs[|wants|] == Maybe)
  }

  lemma CombineLoose(op: Op, vs: seq<Tri>, wants: seq<Tri>)
    requires Loose(vs, wants) && (op == NotOp ==> |wants| == 1)
    ensures Below(Combine(op, vs), Combine(op, wants))
  {
    assert No in vs ==> No in wants;
    assert Yes in vs ==> Yes in wants;
    assert forall i | 0 <= i < |wants| :: vs[i] == wants[i] || vs[i] == Maybe;
  }

  /** A piece between commas, as an argument: nothing when it is blank. */
  function Bit(p: string): (r: seq<string>)
    ensures r == Trimmed([p])
  {
    assert [p][1..] == [];
    if Strip(p) == [] then [] else [Strip(p)]
  }

  lemma TailBits(comma: bool, pad: string, cur: string)
    requires AllCalm(pad)
    ensures Trimmed(Pieces(Tail(comma, pad), 0, cur)) == if comma then Bit(cur) + Bit(pad) else Bit(cur + pad)
  {
    if comma {
      SplitAtComma(pad, cur);
      PiecesPad(pad, []);
      NothingMore(pad);
      TrimCons(cur, [pad]);
    } else {
      assert Tail(comma, pad) == pad;
      PiecesPad(pad, cur);
    }
  }

  lemma PadBit(pad: string)
    requires IsGap(pad)
    ensures Loose(Evaluated(Bit(pad)), [])
  {
    if AllSpace(pad) {
      StripBlank(pad);
    } else {
      StripTwice(pad);
      NothingMore(pad);
      CommentBefore(Strip(pad), pad, []);
    }
  }

  lemma {:induction false} VisibleStays(s: string, i: nat)
    requires i < |s| && !IsSpace(s[i])
    ensures Strip(s) != []
    decreases |s|
  {
    if IsSpace(s[0]) {
      VisibleStays(s[1..], i - 1);
    } else if IsSpace(s[|s| - 1]) {
      VisibleStays(s[..|s| - 1], i);
    }
  }

  lemma ArgBit(a: Arg, extra: string)
    requires WellFormed(a.node)
    ensures Bit(ArgText(a) + extra) == [Strip(ArgText(a) + extra)]
  {
    RenderTight(a.node);
    var s := ArgText(a) + extra;
    assert s[|a.before|] == Render(a.node)[0];
    VisibleStays(s, |a.before|);
  }

  lemma {:induction false} GapJoin(a: string, b: string)
    requires IsGap(a) && IsGap(b)
    ensures IsGap(a + b)
    decreases |a|
  {
    if a == [] {
      NothingMore(b);
    } else if AllSpace(a) {
      assert (a + b)[1..] == a[1..] + b;
      GapJoin(a[1..], b);
      GapCons(a + b);
    } else {
      SkipJoins(a, 0, b);
    }
  }

  lemma GapCons(g: string)
    requires g != [] && IsSpace(g[0]) && IsGap(g[1..])
    ensures IsGap(g)
  {
    SkipShifts(g, 1);
    assert forall k | 0 < k < |g| :: g[k] == g[1..][k - 1];
  }

  lemma {:induction false} SkipJoins(a: string, i: nat, b: string)
    requires i <= |a| && SkipSpace(a, i) < |a|
    ensures SkipSpace(a + b, i) == SkipSpace(a, i)
    decreases |a| - i
  {
    if i < |a| && IsSpace(a[i]) {
      SkipJoins(a, i + 1, b);
    }
  }

  lemma LooseCons(v: Tri, vs: seq<Tri>, want: Tri, wants: seq<Tri>)
    requires Below(v, want) && Loose(vs, wants)
    ensures Loose([v] + vs, [want] + wants)
  {
  }

  lemma EvaluatedJoin(a: seq<string>, b: seq<string>)
    ensures Evaluated(a + b) == Evaluated(a) + Evaluated(b)
  {
  }

  /** The pieces between top-level commas give the values of the arguments, undecided
      where a comment is in the way, and at most one more, undecided. */
  lemma {:induction false} ArgsLoose(args: seq<Arg>, comma: bool, pad: string)
    requires ArgsOk(args) && IsGap(pad)
    ensures Loose(Evaluated(SplitTopSpec(RenderArgs(args) + Tail(comma, pad))), Values(args))
    decreases args, 2
  {
    var tail := Tail(comma, pad);
    if args == [] {
      NothingMore(tail);
      NothingMore(pad);
      TailBits(comma, pad, []);
      NothingMore(Bit(pad));
      PadBit(pad);
    } else if |args| == 1 {
      PiecesArg(args, tail, 0, []);
      NothingMore(ArgText(args[0]));
      TailBits(comma, pad, ArgText(args[0]));
      LastLoose(args, comma, pad);
    } else {
      RenderMore(args, tail);
      MoreBits(args, RenderArgs(args[1..]) + tail);
      ArgNeverWrong(args, []);
      ArgsLoose(args[1..], comma, pad);
      BitsLoose(args, SplitTopSpec(RenderArgs(args[1..]) + tail));
    }
  }

  lemma BitsLoose(args: seq<Arg>, more: seq<string>)
    requires args != [] && Below(ValueWithoutTest(Strip(ArgText(args[0]) + [])), Kleene(args[0].node))
    requires Loose(Evaluated(more), Values(args[1..]))
    ensures Loose(Evaluated([Strip(ArgText(args[0]) + [])] + more), Values(args))
  {
    var t := Strip(ArgText(args[0]) + []);
    EvaluatedJoin([t], more);
    assert Evaluated([t]) == [ValueWithoutTest(t)];
    assert Values(args) == [Kleene(args[0].node)] + Values(args[1..]);
    LooseCons(ValueWithoutTest(t), Evaluated(more), Kleene(args[0].node), Values(args[1..]));
  }

  lemma MoreBits(args: seq<Arg>, rest: string)
    requires args != [] && ArgsOk(args)
    ensures SplitTopSpec(ArgText(args[0]) + ("," + rest)) == [Strip(ArgText(args[0]) + [])] + SplitTopSpec(rest)
  {
    var a := args[0];
    PiecesArg(args, "," + rest, 0, []);
    NothingMore(ArgText(a));
    SplitAtComma(rest, ArgText(a));
    TrimCons(ArgText(a), Pieces(rest, 0, []));
    ArgBit(a, []);
  }

  lemma {:induction false} LastLoose(args: seq<Arg>, comma: bool, pad: string)
    requires |args| == 1 && ArgsOk(args) && IsGap(pad)
    ensures var t := ArgText(args[0]);
            Loose(Evaluated(if comma then Bit(t) + Bit(pad) else Bit(t + pad)), Values(args))
    decreases args, 1
  {
    var t := ArgText(args[0]);
    NothingMore(t);
    if comma {
      ArgBit(args[0], []);
      ArgNeverWrong(args, []);
      PadBit(pad);
      assert Values(args[1..]) == [];
      BitsLoose(args, Bit(pad));
    } else {
      ArgBit(args[0], pad);
      ArgNeverWrong(args, pad);
    }
  }

  lemma {:induction false} ArgNeverWrong(args: seq<Arg>, extra: string)
    requires args != [] && ArgsOk(args) && IsGap(extra)
    ensures Below(ValueWithoutTest(Strip(ArgText(args[0]) + extra)), Kleene(args[0].node))
    decreases args, 0
  {
    var a := args[0];
    var text := ArgText(a) + extra;
    GapJoin(a.after, extra);
    Regroup(a.before + Render(a.node), a.after, extra);
    StripTwice(text);
    NeverWrong(Strip(text), a.before, a.node, a.after + extra);
  }

  lemma CallEvaluates(text: string, node: Node)
    requires WellFormed(node) && node.Call? && AllSpace(node.gap) && Strip(text) == Render(node)
    ensures ValueWithoutTest(text) == Combine(node.op, Evaluated(SplitTopSpec(Inner(node))))
  {
    var texts := SplitTopSpec(Inner(node));
    CallOp(node);
    CallBalances(node);
    SplitTopShort(Inner(node));
    ValuesAre(texts, Evaluated(texts), |text|);
  }

  lemma CombineIsKleene(node: Node)
    requires WellFormed(node) && node.Call?
    ensures Combine(node.op, Values(node.args)) == Kleene(node)
  {
    CombineIsFold(node.args);
  }

  lemma {:induction false} CallNeverWrong(text: string, node: Node, left: string)
    requires WellFormed(node) && node.Call? && Strip(text) == Render(node) + left
    ensures Below(ValueWithoutTest(text), Kleene(node))
    decreases node, 0
  {
    if !AllSpace(node.gap) || left != [] {
      CommentedCall(text, node, left);
    } else {
      NothingMore(Render(node));
      CallEvaluates(text, node);
      ArgsLoose(node.args, node.comma, node.pad);
      CombineLoose(node.op, Evaluated(SplitTopSpec(Inner(node))), Values(node.args));
      CombineIsKleene(node);
    }
  }

  /** However a predicate is laid out, with comments or without, the text evaluator is
      undecided or right. */
  lemma {:induction false} NeverWrong(text: string, before: string, node: Node, after: string)
    requires IsGap(before) && IsGap(after) && WellFormed(node)
    requires Strip(text) == Strip(before + Render(node) + after)
    ensures Below(ValueWithoutTest(text), Kleene(node))
    decreases node, 1
  {
    var s := Render(node);
    Regroup(before, s, after);
    if AllSpace(before) {
      RenderTight(node);
      StripLeft(before, s + after);
      var left := StripRight(s, after);
      if node.Call? {
        CallNeverWrong(text, node, left);
      } else {
        LeafNeverWrong(text, node, left);
      }
    } else {
      CommentBefore(text, before, s + after);
    }
  }

  // ----- what the gate promises

  /** An item it calls test-only is in no build without `test`. */
  lemma TestOnlyIsSafe(before: string, node: Node, after: string, on: set<Key>)
    requires IsGap(before) && IsGap(after) && WellFormed(node)
    requires CfgIsTestOnly(before + Render(node) + after)
    ensures !Holds(node, false, on)
  {
    NeverWrong(before + Render(node) + after, before, node, after);
    KleeneSound(node, on);
  }

  /** From source lines to verdict: a line that opens test scope opens no item of any
      build without `test`. */
  lemma AttrIsSafe(lines: seq<string>, i: nat, head: string, before: string, node: Node, after: string, rest: string,
                   on: set<Key>)
    requires i < |lines| && AttrOpen(lines[i]) == Some(|head| + 1)
    requires IsGap(before) && IsGap(after) && WellFormed(node)
    requires AttrText(lines, i) == head + ("(" + (before + Render(node) + after + (")" + rest)))
    requires CfgTestAttrAt(lines, i)
    ensures !Holds(node, false, on)
  {
    AttrCloses(before, node, after, rest);
    AttrReads(lines, i, head, before + Render(node) + after, rest);
    TestOnlyIsSafe(before, node, after, on);
  }

  /** The same on the lines as they stand in the file, wrapped over up to eight of them. */
  lemma WrappedIsSafe(lines: seq<string>, i: nat, k: nat, a: string, b: string, c: string, before: string, node: Node,
      after: string, tail: string, on: set<Key>)
    requires Wrapped(lines, i, k, a, b, c, before + Render(node) + after, tail)
    requires IsGap(before) && IsGap(after) && WellFormed(node)
    requires CfgTestAttrAt(lines, i)
    ensures !Holds(node, false, on)
  {
    var head, rest := WrappedIsRead(lines, i, k, a, b, c, before + Render(node) + after, tail);
    AttrIsSafe(lines, i, head, before, node, after, rest, on);
  }

  // ----- and where it fails

  /** A comma in a comment splits. With `/*` for `x` and `*/` for `y`: in front of an
      option, the comment `/*,test,*/` is read as three arguments, `test` among them, and
      an item that is in every build with the option is called test-only. */
  lemma CommaInComment(x: string, y: string, name: string)
    requires IsName(x) && IsName(y + name) && x != "test" && y + name != "test"
    ensures var node := Call(AllOp, "", [Arg(x + (",test," + y), Opt(Flag(name), "", ""), "")], false, "");
            !WellFormed(node) && Holds(node, false, {Flag(name)}) && CfgIsTestOnly(Render(node))
  {
    var arg := Arg(x + (",test," + y), Opt(Flag(name), "", ""), "");
    var node := Call(AllOp, "", [arg], false, "");
    ReadAsTest(Plain(x), Arg("", Test, ""), Plain(y + name));
    SameText(x, y, name);
    SplitByComma(node, |x|);
    assert Holds(node.args[0].node, false, {Flag(name)});
  }

  /** An option without white space or comments around it. */
  function Plain(name: string): Arg {
    Arg("", Opt(Flag(name), "", ""), "")
  }

  lemma SplitByComma(node: Node, k: nat)
    requires node.Call? && node.args != [] && k < |node.args[0].before| && node.args[0].before[k] == ','
    ensures !WellFormed(node)
  {
  }

  lemma ReadAsTest(a: Arg, b: Arg, c: Arg)
    requires ArgsOk([a]) && ArgsOk([b]) && ArgsOk([c]) && b.node == Test
    requires ArgsSpaced([a]) && ArgsSpaced([b]) && ArgsSpaced([c])
    ensures CfgIsTestOnly(Render(Call(AllOp, "", [a, b, c], false, "")))
  {
    var read := Call(AllOp, "", [a, b, c], false, "");
    assert [a][0] == a && [b][0] == b && [c][0] == c;
    ThreeArgs(a, b, c);
    ValueIsKleene("", read, "");
    NothingMore(Render(read));
  }

  lemma ThreeArgs(a: Arg, b: Arg, c: Arg)
    requires Kleene(b.node) == No
    ensures KleeneFold([a, b, c], true) == No
  {
    assert [a, b, c][1..] == [b, c];
  }

  lemma SameText(x: string, y: string, name: string)
    ensures Render(Call(AllOp, "", [Arg(x + (",test," + y), Opt(Flag(name), "", ""), "")], false, ""))
         == Render(Call(AllOp, "", [Plain(x), Arg("", Test, ""), Plain(y + name)], false, ""))
  {
    ThreeText(x, y + name);
    CommaTwice(x, y, name);
    OneArg(Arg(x + (",test," + y), Opt(Flag(name), "", ""), ""));
    SameArgs([Arg(x + (",test," + y), Opt(Flag(name), "", ""), "")], [Plain(x), Arg("", Test, ""), Plain(y + name)]);
  }

  lemma SameArgs(a: seq<Arg>, b: seq<Arg>)
    requires RenderArgs(a) == RenderArgs(b)
    ensures Render(Call(AllOp, "", a, false, "")) == Render(Call(AllOp, "", b, false, ""))
  {
  }

  lemma ThreeText(a: string, b: string)
    ensures RenderArgs([Plain(a), Arg("", Test, ""), Plain(b)]) == a + ("," + ("test" + ("," + b)))
  {
    var args := [Plain(a), Arg("", Test, ""), Plain(b)];
    PlainText(a);
    PlainText(b);
    OneArg(Plain(b));
    ArgsText(args);
    assert args[1..] == [Arg("", Test, ""), Plain(b)];
    ArgsText(args[1..]);
    assert args[1..][1..] == [Plain(b)];
    assert ArgText(args[1]) == "test";
  }

  lemma PlainText(name: string)
    ensures ArgText(Plain(name)) == name
  {
    NothingMore(name);
  }

  lemma OneArg(a: Arg)
    ensures RenderArgs([a]) == ArgText(a)
  {
  }

  lemma CommaTwice(x: string, y: string, name: string)
    ensures x + ("," + ("test" + ("," + (y + name)))) == x + (",test," + y) + name + ""
  {
    assert "," + ("test" + ("," + (y + name))) == ",test," + y + name;
  }
}
