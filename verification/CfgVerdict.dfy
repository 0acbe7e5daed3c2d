/** What the cfg gate's verdict is worth: on every rendered predicate the text
    evaluator computes the Kleene value, that value is sound for every build with
    `test` off, and it is exact when no option occurs both as it is and negated. */
module CfgVerdict {
  import opened Basics
  import opened CfgScan
  import opened CfgPredicate

  // ----- the shape of a rendered predicate

  lemma {:induction false} LiteralEndsQuoted(value: seq<Unit>)
    ensures LiteralText(value) != [] && LiteralText(value)[|LiteralText(value)| - 1] == '"'
  {
    if value != [] {
      LiteralEndsQuoted(value[1..]);
    }
  }

  lemma RenderTight(node: Node)
    requires WellFormed(node)
    ensures Tight(Render(node))
  {
    if node.Opt? && node.key.Setting? {
      LiteralEndsQuoted(node.key.value);
    }
  }

  lemma {:induction false} SkipSpaceStops(s: string, i: nat, stop: nat)
    requires i <= stop < |s| && !IsSpace(s[stop])
    ensures SkipSpace(s, i) <= stop
    decreases stop - i
  {
    if i < stop && IsSpace(s[i]) {
      SkipSpaceStops(s, i + 1, stop);
    }
  }

  lemma {:induction false} SkipSpaceExact(s: string, i: nat, stop: nat)
    requires i <= stop < |s| && !IsSpace(s[stop])
    requires forall k | i <= k < stop :: IsSpace(s[k])
    ensures SkipSpace(s, i) == stop
    decreases stop - i
  {
    if i < stop {
      SkipSpaceExact(s, i + 1, stop);
    }
  }

  lemma CallOp(node: Node)
    requires node.Call? && AllSpace(node.gap)
    ensures OpAt(Render(node)) == Some((node.op, 3 + |node.gap| + 1))
  {
    var s := Render(node);
    assert s[..3] == OpName(node.op);
    var stop := 3 + |node.gap|;
    assert s[stop] == '(';
    assert s[3..stop] == node.gap;
    forall k | 3 <= k < stop ensures IsSpace(s[k]) {
      assert s[k] == node.gap[k - 3];
    }
    SkipSpaceExact(s, 3, stop);
  }

  lemma LeafOp(node: Node)
    requires WellFormed(node) && !node.Call?
    ensures OpAt(Render(node)) == None
  {
    if node.Opt? && node.key.Setting? {
      var s := Render(node);
      var eq := |node.key.name| + |node.gap1|;
      assert s[eq] == '=';
      if eq < 3 {
        assert |s| >= 3 ==> s[..3][eq] == '=';
      } else {
        SkipSpaceStops(s, 3, eq);
        var head := node.key.name + node.gap1;
        forall k | 0 <= k <= eq ensures s[k] != '(' {
          if k < eq {
            assert s[k] == head[k] && Calm(head[k]);
          }
        }
      }
    }
  }

  function Inner(node: Node): string
    requires node.Call?
  {
    RenderArgs(node.args) + Tail(node.comma, node.pad)
  }

  lemma CallBalances(node: Node)
    requires WellFormed(node) && node.Call?
    ensures BalancedEndSpec(Render(node), 3 + |node.gap|, '(', ')') == Some(|Render(node)|)
    ensures Render(node)[3 + |node.gap| + 1..|Render(node)| - 1] == Inner(node)
  {
    var s, k, inner := Render(node), 3 + |node.gap|, Inner(node);
    assert s == (OpName(node.op) + node.gap) + ("(" + inner + ")");
    assert From(s, k) == "(" + inner + ")";
    BalanceInner(node.args, node.comma, node.pad, ")", 1);
    Enclosed(inner);
  }

  /** Balancing a bracketed text comes down to balancing what it encloses. */
  lemma Enclosed(inner: string)
    requires AfterBalanced(inner + ")", 1, '(', ')') == AfterBalanced(")", 1, '(', ')')
    ensures AfterBalanced("(" + inner + ")", 0, '(', ')') == Some([])
  {
    assert "(" + inner + ")" == "(" + (inner + ")");
    OpensOnce(inner + ")");
  }

  // ----- splitting the arguments

  function Texts(args: seq<Arg>): seq<string> {
    seq(|args|, i requires 0 <= i < |args| => Render(args[i].node))
  }

  lemma ArgTrims(a: Arg, extra: string)
    requires ArgsOk([a]) && ArgsSpaced([a]) && AllSpace(extra)
    ensures Strip(ArgText(a) + extra) == Render(a.node) != []
  {
    assert a == [a][0];
    RenderTight(a.node);
    StripPadded(a.before, Render(a.node), a.after + extra);
    assert ArgText(a) + extra == a.before + Render(a.node) + (a.after + extra);
  }

  lemma SplitAtComma(rest: string, cur: string)
    ensures Pieces("," + rest, 0, cur) == [cur] + Pieces(rest, 0, [])
  {
    assert ("," + rest)[1..] == rest;
  }

  lemma PiecesPad(pad: string, cur: string)
    requires AllCalm(pad)
    ensures Pieces(pad, 0, cur) == [cur + pad]
  {
    PiecesCalm(pad, [], 0, cur);
    assert pad + [] == pad;
  }

  lemma TrimCons(p: string, rest: seq<string>)
    ensures Trimmed([p] + rest) == (if Strip(p) == [] then [] else [Strip(p)]) + Trimmed(rest)
  {
    assert ([p] + rest)[1..] == rest;
  }

  lemma TrimTail(comma: bool, pad: string, cur: string)
    requires AllSpace(pad)
    ensures comma ==> Trimmed(Pieces(Tail(comma, pad), 0, cur)) == Trimmed([cur])
    ensures !comma ==> Trimmed(Pieces(Tail(comma, pad), 0, cur)) == Trimmed([cur + pad])
  {
    if comma {
      SplitAtComma(pad, cur);
      PiecesPad(pad, []);
      assert [] + pad == pad;
      StripBlank(pad);
      TrimCons(cur, [pad]);
      TrimCons(pad, []);
      TrimCons(cur, []);
      assert [cur] + [] == [cur] && [pad] + [] == [pad];
    } else {
      assert Tail(comma, pad) == pad;
      PiecesPad(pad, cur);
    }
  }

  lemma TrimOne(a: Arg, comma: bool, pad: string)
    requires ArgsOk([a]) && ArgsSpaced([a]) && AllSpace(pad)
    ensures Trimmed(Pieces(Tail(comma, pad), 0, ArgText(a))) == [Render(a.node)]
  {
    TrimTail(comma, pad, ArgText(a));
    ArgTrims(a, pad);
    ArgTrims(a, []);
    assert ArgText(a) + [] == ArgText(a);
    TrimCons(ArgText(a), []);
    TrimCons(ArgText(a) + pad, []);
    assert [ArgText(a)] + [] == [ArgText(a)] && [ArgText(a) + pad] + [] == [ArgText(a) + pad];
  }

  lemma SplitsNone(comma: bool, pad: string)
    requires AllSpace(pad)
    ensures SplitTopSpec(RenderArgs([]) + Tail(comma, pad)) == []
  {
    assert RenderArgs([]) + Tail(comma, pad) == Tail(comma, pad);
    TrimTail(comma, pad, []);
    StripBlank(pad);
    TrimCons("", []);
    TrimCons(pad, []);
    assert [""] + [] == [""] && [pad] + [] == [pad] && "" + pad == pad;
  }

  lemma SplitsMore(args: seq<Arg>, rest: string)
    requires args != [] && ArgsOk(args) && ArgsSpaced(args)
    ensures SplitTopSpec(ArgText(args[0]) + ("," + rest)) == [Render(args[0].node)] + SplitTopSpec(rest)
  {
    var a := args[0];
    PiecesArg(args, "," + rest, 0, []);
    assert [] + ArgText(a) == ArgText(a);
    SplitAtComma(rest, ArgText(a));
    TrimCons(ArgText(a), Pieces(rest, 0, []));
    ArgTrims(a, []);
    assert ArgText(a) + [] == ArgText(a);
  }

  lemma SplitsOne(args: seq<Arg>, comma: bool, pad: string)
    requires |args| == 1 && ArgsOk(args) && ArgsSpaced(args) && AllSpace(pad)
    ensures SplitTopSpec(RenderArgs(args) + Tail(comma, pad)) == Texts(args)
  {
    PiecesArg(args, Tail(comma, pad), 0, []);
    NothingMore(ArgText(args[0]));
    TrimOne(args[0], comma, pad);
    assert Texts(args) == [Render(args[0].node)];
  }

  /** The splitter hands back exactly the rendered arguments, in order. */
  lemma {:induction false} SplitsArgs(args: seq<Arg>, comma: bool, pad: string)
    requires ArgsOk(args) && ArgsSpaced(args) && AllSpace(pad)
    ensures SplitTopSpec(RenderArgs(args) + Tail(comma, pad)) == Texts(args)
  {
    var tail := Tail(comma, pad);
    if args == [] {
      SplitsNone(comma, pad);
    } else if |args| == 1 {
      SplitsOne(args, comma, pad);
    } else {
      SplitsArgs(args[1..], comma, pad);
      RenderMore(args, tail);
      SplitsFirst(args, RenderArgs(args) + tail, RenderArgs(args[1..]) + tail);
    }
  }

  lemma SplitsFirst(args: seq<Arg>, text: string, more: string)
    requires args != [] && ArgsOk(args) && ArgsSpaced(args) && text == ArgText(args[0]) + ("," + more)
    requires SplitTopSpec(more) == Texts(args[1..])
    ensures SplitTopSpec(text) == Texts(args)
  {
    SplitsMore(args, more);
    assert Texts(args) == [Render(args[0].node)] + Texts(args[1..]);
  }

  lemma RenderMore(args: seq<Arg>, tail: string)
    requires |args| > 1
    ensures RenderArgs(args) + tail == ArgText(args[0]) + ("," + (RenderArgs(args[1..]) + tail))
  {
    ArgsText(args);
    CommaSpread(ArgText(args[0]), RenderArgs(args[1..]), tail);
  }

  // ----- the text evaluator computes the Kleene value

  function Values(args: seq<Arg>): seq<Tri> {
    seq(|args|, i requires 0 <= i < |args| => Kleene(args[i].node))
  }

  lemma {:induction false} CombineIsFold(args: seq<Arg>)
    ensures Combine(AllOp, Values(args)) == KleeneFold(args, true)
    ensures Combine(AnyOp, Values(args)) == KleeneFold(args, false)
  {
    if args != [] {
      CombineIsFold(args[1..]);
      assert Values(args) == [Kleene(args[0].node)] + Values(args[1..]);
      CombineStep(Kleene(args[0].node), Values(args[1..]));
    }
  }

  lemma CombineStep(v: Tri, vs: seq<Tri>)
    ensures Combine(AllOp, [v] + vs) == And(v, Combine(AllOp, vs))
    ensures Combine(AnyOp, [v] + vs) == Or(v, Combine(AnyOp, vs))
  {
    var all := [v] + vs;
    assert forall i | 0 <= i < |vs| :: all[i + 1] == vs[i];
    assert forall i | 0 < i < |all| :: all[i] == vs[i - 1];
    assert all[0] == v;
  }

  /** For every predicate, every layout of it and any white space around it, the
      text evaluator returns the Kleene value of the tree. */
  lemma {:induction false} ValueIsKleene(before: string, node: Node, after: string)
    requires AllSpace(before) && AllSpace(after) && WellFormed(node) && Spaced(node)
    ensures ValueWithoutTest(before + Render(node) + after) == Kleene(node)
    decreases node
  {
    var pred := Render(node);
    RenderTight(node);
    StripPadded(before, pred, after);
    if node.Call? {
      CallOp(node);
      CallBalances(node);
      SplitsArgs(node.args, node.comma, node.pad);
      forall i | 0 <= i < |node.args| ensures ValueWithoutTest(Render(node.args[i].node)) == Kleene(node.args[i].node) {
        ValueIsKleene([], node.args[i].node, []);
        assert [] + Render(node.args[i].node) + [] == Render(node.args[i].node);
      }
      CallValue(before + pred + after, node);
      CombineIsFold(node.args);
    } else {
      LeafOp(node);
      LeafText(node);
    }
  }

  lemma LeafText(node: Node)
    requires WellFormed(node) && !node.Call?
    ensures Render(node) == "test" <==> node == Test
  {
    if node.Opt? && node.key.Setting? {
      var eq := |node.key.name| + |node.gap1|;
      assert Render(node)[eq] == '=';
      assert forall k | 0 <= k < 4 :: "test"[k] != '=';
    }
  }

  lemma {:induction false} ValuesAre(texts: seq<string>, values: seq<Tri>, bound: nat)
    requires |texts| == |values| && forall i | 0 <= i < |texts| :: ValueWithoutTest(texts[i]) == values[i]
    requires forall a | a in texts :: |a| < bound
    ensures ValuesWithoutTest(texts, bound) == values
  {
    if texts != [] {
      ValuesAre(texts[1..], values[1..], bound);
      assert values == [values[0]] + values[1..];
    }
  }

  lemma CallValue(text: string, node: Node)
    requires node.Call? && Strip(text) == Render(node)
    requires OpAt(Render(node)) == Some((node.op, 3 + |node.gap| + 1))
    requires BalancedEndSpec(Render(node), 3 + |node.gap|, '(', ')') == Some(|Render(node)|)
    requires Render(node)[3 + |node.gap| + 1..|Render(node)| - 1] == Inner(node)
    requires SplitTopSpec(Inner(node)) == Texts(node.args)
    requires forall i | 0 <= i < |node.args| :: ValueWithoutTest(Render(node.args[i].node)) == Kleene(node.args[i].node)
    ensures ValueWithoutTest(text) == Combine(node.op, Values(node.args))
  {
    SplitTopShort(Inner(node));
    ValuesAre(Texts(node.args), Values(node.args), |text|);
  }

  // ----- soundness

  /** A decided value holds in every build with `test` off. */
  lemma {:induction false} KleeneSound(node: Node, on: set<Key>)
    requires WellFormed(node)
    ensures Kleene(node) == Yes ==> Holds(node, false, on)
    ensures Kleene(node) == No ==> !Holds(node, false, on)
  {
    if node.Call? {
      forall i | 0 <= i < |node.args|
        ensures Kleene(node.args[i].node) == Yes ==> Holds(node.args[i].node, false, on)
        ensures Kleene(node.args[i].node) == No ==> !Holds(node.args[i].node, false, on)
      {
        KleeneSound(node.args[i].node, on);
      }
      CombineIsFold(node.args);
      CombineWitness(node.args);
    }
  }

  lemma CombineWitness(args: seq<Arg>)
    ensures Combine(AllOp, Values(args)) == No ==> exists i | 0 <= i < |args| :: Kleene(args[i].node) == No
    ensures Combine(AllOp, Values(args)) == Yes ==> forall i | 0 <= i < |args| :: Kleene(args[i].node) == Yes
    ensures Combine(AnyOp, Values(args)) == Yes ==> exists i | 0 <= i < |args| :: Kleene(args[i].node) == Yes
    ensures Combine(AnyOp, Values(args)) == No ==> forall i | 0 <= i < |args| :: Kleene(args[i].node) == No
  {
    var vs := Values(args);
    forall i | 0 <= i < |args| ensures vs[i] == Kleene(args[i].node) {}
  }

  // ----- exactness, when no option counts both ways

  /** The options that occur under an even number of `not`s (`sign`), or an odd one. */
  function Signed(node: Node, sign: bool): set<Key>
    decreases node, 1
  {
    match node
    case Test => {}
    case Opt(key, _, _) => if sign then {key} else {}
    case Call(op, _, args, _, _) => SignedOf(args, if op == NotOp then !sign else sign)
  }

  function SignedOf(args: seq<Arg>, sign: bool): set<Key>
    decreases args, 0
  {
    if args == [] then {} else Signed(args[0].node, sign) + SignedOf(args[1..], sign)
  }

  /** No option occurs both as it is and negated. */
  predicate OneWay(node: Node) {
    Signed(node, true) !! Signed(node, false)
  }

  lemma {:induction false} SignedInside(args: seq<Arg>, sign: bool, i: nat)
    requires i < |args|
    ensures Signed(args[i].node, sign) <= SignedOf(args, sign)
  {
    if i > 0 {
      SignedInside(args[1..], sign, i - 1);
    }
  }

  /** In a build with every option of one sign on and every option of the other off,
      the predicate goes the way of the first sign, unless its value is against it. */
  lemma {:induction false} Leans(node: Node, want: bool, on: set<Key>)
    requires WellFormed(node) && Kleene(node) != if want then No else Yes
    requires Signed(node, want) <= on && Signed(node, !want) !! on
    ensures Holds(node, false, on) == want
  {
    if node.Call? {
      var args := node.args;
      var wants := if node.op == NotOp then !want else want;
      CombineIsFold(args);
      CombineOpen(args);
      forall i | 0 <= i < |args| && Kleene(args[i].node) != if wants then No else Yes
        ensures Holds(args[i].node, false, on) == wants
      {
        SignedInside(args, wants, i);
        SignedInside(args, !wants, i);
        Leans(args[i].node, wants, on);
      }
    }
  }

  lemma CombineOpen(args: seq<Arg>)
    ensures Combine(AllOp, Values(args)) != Yes ==> exists i | 0 <= i < |args| :: Kleene(args[i].node) != Yes
    ensures Combine(AllOp, Values(args)) != No ==> forall i | 0 <= i < |args| :: Kleene(args[i].node) != No
    ensures Combine(AnyOp, Values(args)) != No ==> exists i | 0 <= i < |args| :: Kleene(args[i].node) != No
    ensures Combine(AnyOp, Values(args)) != Yes ==> forall i | 0 <= i < |args| :: Kleene(args[i].node) != Yes
  {
    var vs := Values(args);
    forall i | 0 <= i < |args| ensures vs[i] == Kleene(args[i].node) && vs[i] in vs {}
  }

  /** When no option counts both ways, an undecided predicate has builds of both
      kinds: the value is as sharp as it can be. */
  lemma KleeneIsExact(node: Node)
    requires WellFormed(node) && OneWay(node)
    ensures Kleene(node) == No <==> forall on: set<Key> :: !Holds(node, false, on)
    ensures Kleene(node) == Yes <==> forall on: set<Key> :: Holds(node, false, on)
  {
    forall on: set<Key>
      ensures Kleene(node) == No ==> !Holds(node, false, on)
      ensures Kleene(node) == Yes ==> Holds(node, false, on)
    {
      KleeneSound(node, on);
    }
    if Kleene(node) != No {
      Leans(node, true, Signed(node, true));
    }
    if Kleene(node) != Yes {
      Leans(node, false, Signed(node, false));
    }
  }

  /** When no option counts both ways the verdict is exact: test-only if and only if
      the predicate is false in every build with `test` off. */
  lemma TestOnlyIsExact(before: string, node: Node, after: string)
    requires AllSpace(before) && AllSpace(after) && WellFormed(node) && Spaced(node) && OneWay(node)
    ensures CfgIsTestOnly(before + Render(node) + after) <==> forall on: set<Key> :: !Holds(node, false, on)
  {
    ValueIsKleene(before, node, after);
    KleeneIsExact(node);
  }

  /** An option that does count both ways can be missed: `all(unix, not(unix))` is in
      no build at all, and the evaluator, which reads each option afresh, cannot see
      it. */
  lemma BothWaysIsMissed(on: set<Key>)
    ensures var unix := Opt(Flag("unix"), "", "");
            var not := Call(NotOp, "", [Arg("", unix, "")], false, "");
            var node := Call(AllOp, "", [Arg("", unix, ""), Arg(" ", not, "")], false, "");
            WellFormed(node) && !OneWay(node) && !Holds(node, false, on) && !CfgIsTestOnly(Render(node))
  {
    var unix := Opt(Flag("unix"), "", "");
    var not := Call(NotOp, "", [Arg("", unix, "")], false, "");
    var args := [Arg("", unix, ""), Arg(" ", not, "")];
    var node := Call(AllOp, "", args, false, "");
    assert WellFormed(not);
    assert Holds(args[0].node, false, on) != Holds(args[1].node, false, on);
    SignedInside(args, true, 0);
    assert Flag("unix") in Signed(node, true);
    SignedInside(not.args, true, 0);
    SignedInside(args, false, 1);
    assert Flag("unix") in Signed(not, false) && Flag("unix") in Signed(node, false);
    assert KleeneFold(args, true) == Maybe by {
      assert args[1..] == [args[1]];
      assert Kleene(not) == Maybe;
      assert KleeneFold([args[1]], true) == Maybe;
    }
    ValueIsKleene("", node, "");
    assert "" + Render(node) + "" == Render(node);
  }

  // ----- the attribute around the predicate (cfg_test_attr_at)

  /** `\s*#\[\s*cfg\s*\(` at the start of a line: the index just past the bracket. */
  function AttrOpen(line: string): (r: Option<nat>)
    ensures r.Some? ==> 0 < r.value <= |line|
  {
    var i := SkipSpace(line, 0);
    if !("#[" <= line[i..]) then None
    else
      var j := SkipSpace(line, i + 2);
      if !("cfg" <= line[j..]) then None
      else
        var k := SkipSpace(line, j + 3);
        if k < |line| && line[k] == '(' then Some(k + 1) else None
  }

  const ATTR_MAX_LINES := 8

  function JoinLines(lines: seq<string>): string {
    if lines == [] then "" else if |lines| == 1 then lines[0] else lines[0] + "\n" + JoinLines(lines[1..])
  }

  function AttrText(lines: seq<string>, i: nat): (r: string)
    requires i < |lines|
    ensures |lines[i]| <= |r|
  {
    JoinLines(lines[i..if i + ATTR_MAX_LINES < |lines| then i + ATTR_MAX_LINES else |lines|])
  }

  /** The text between the brackets of the attribute that line `i` opens. */
  function AttrPredicate(lines: seq<string>, i: nat): (r: Option<string>)
    requires i < |lines|
  {
    match AttrOpen(lines[i])
    case None => None
    case Some(open) => Between(AttrText(lines, i), open)
  }

  function Between(text: string, open: nat): (r: Option<string>)
    requires 0 < open
  {
    var close := BalancedEndSpec(text, open - 1, '(', ')');
    if close.Some? && open < close.value then Some(text[open..close.value - 1]) else None
  }

  predicate CfgTestAttrAt(lines: seq<string>, i: nat)
    requires i < |lines|
  {
    var pred := AttrPredicate(lines, i);
    pred.Some? && CfgIsTestOnly(pred.value)
  }

  /** The whole step, from source lines to verdict: whatever follows the attribute
      and however it wraps, the line opens test scope exactly when the predicate's
      Kleene value with `test` off is "no". */
  lemma AttrVerdict(lines: seq<string>, i: nat, head: string, before: string, node: Node, after: string, rest: string)
    requires i < |lines| && AttrOpen(lines[i]) == Some(|head| + 1)
    requires AllSpace(before) && AllSpace(after) && WellFormed(node) && Spaced(node)
    requires AttrText(lines, i) == head + ("(" + (before + Render(node) + after + (")" + rest)))
    ensures CfgTestAttrAt(lines, i) <==> Kleene(node) == No
  {
    AttrCloses(before, node, after, rest);
    AttrReads(lines, i, head, before + Render(node) + after, rest);
    ValueIsKleene(before, node, after);
  }

  lemma AttrReads(lines: seq<string>, i: nat, head: string, body: string, rest: string)
    requires i < |lines| && AttrOpen(lines[i]) == Some(|head| + 1)
    requires AttrText(lines, i) == head + ("(" + (body + (")" + rest)))
    requires AfterBalanced(body + (")" + rest), 1, '(', ')') == Some(rest)
    ensures CfgTestAttrAt(lines, i) <==> CfgIsTestOnly(body)
  {
    BetweenIs(AttrText(lines, i), head, body, rest);
  }

  lemma BetweenIs(text: string, head: string, body: string, rest: string)
    requires text == head + ("(" + (body + (")" + rest)))
    requires AfterBalanced(body + (")" + rest), 1, '(', ')') == Some(rest)
    ensures Between(text, |head| + 1) == Some(body)
  {
    BodyIs(text, head, body, ")" + rest, rest);
  }

  lemma BodyIs(text: string, head: string, body: string, tail: string, rest: string)
    requires text == head + ("(" + (body + tail)) && |tail| == |rest| + 1
    requires AfterBalanced(body + tail, 1, '(', ')') == Some(rest)
    ensures Between(text, |head| + 1) == Some(body)
  {
    MiddleText(text, head, body, tail);
    CutsTo(text, head, body + tail, rest, |head| + |body| + 2);
  }

  lemma CutsTo(text: string, head: string, more: string, rest: string, end: nat)
    requires text == head + ("(" + more) && AfterBalanced(more, 1, '(', ')') == Some(rest)
    requires end + |rest| == |text| && |head| + 1 < end
    ensures Between(text, |head| + 1) == Some(text[|head| + 1..end - 1])
  {
    ClosesAfter(text, head, more, rest, end);
    BetweenTo(text, |head| + 1, end);
  }

  lemma BetweenTo(text: string, open: nat, end: nat)
    requires 0 < open < end && BalancedEndSpec(text, open - 1, '(', ')') == Some(end)
    ensures Between(text, open) == Some(text[open..end - 1])
  {
  }

  /** The matched bracket, told by the text after it. */
  lemma ClosesAfter(text: string, head: string, more: string, rest: string, end: nat)
    requires text == head + ("(" + more) && AfterBalanced(more, 1, '(', ')') == Some(rest)
    requires end + |rest| == |text|
    ensures BalancedEndSpec(text, |head|, '(', ')') == Some(end)
  {
    assert From(text, |head|) == "(" + more;
    OpensOnce(more);
  }

  lemma OpensOnce(more: string)
    ensures AfterBalanced("(" + more, 0, '(', ')') == AfterBalanced(more, 1, '(', ')')
  {
    assert ("(" + more)[1..] == more;
  }

  lemma MiddleText(text: string, head: string, body: string, more: string)
    requires text == head + ("(" + (body + more))
    ensures |text| == |head| + |body| + |more| + 1 && text[|head| + 1..|head| + |body| + 1] == body
  {
    assert text == (head + "(") + body + more;
  }

  // ----- the lines themselves

  /** The opening of an attribute, white space of any kind and length between its tokens. */
  function Opening(a: string, b: string, c: string): string {
    a + ("#[" + (b + ("cfg" + (c + "("))))
  }

  lemma OpeningIsRead(a: string, b: string, c: string, rest: string)
    requires AllSpace(a) && AllSpace(b) && AllSpace(c)
    ensures AttrOpen(Opening(a, b, c) + rest) == Some(|a| + |b| + |c| + 6)
  {
    HashThere(a, b, c, rest);
    NameThere(a, b, c, rest);
    BracketThere(a, b, c, rest);
    OpensThere(Opening(a, b, c) + rest, |a|, |a| + 2 + |b|, |a| + 2 + |b| + 3 + |c|);
  }

  lemma HashThere(a: string, b: string, c: string, rest: string)
    requires AllSpace(a)
    ensures var s := Opening(a, b, c) + rest; SkipSpace(s, 0) == |a| && |a| + 2 <= |s| && "#[" <= s[|a|..]
  {
    OpeningJoins(a, b, c, rest);
    SpaceOver(Opening(a, b, c) + rest, "", a, "#[", b + ("cfg" + (c + ("(" + rest))));
  }

  lemma NameThere(a: string, b: string, c: string, rest: string)
    requires AllSpace(b)
    ensures var s, j := Opening(a, b, c) + rest, |a| + 2 + |b|;
            |a| + 2 <= |s| && SkipSpace(s, |a| + 2) == j && j + 3 <= |s| && "cfg" <= s[j..]
  {
    OpeningJoins(a, b, c, rest);
    SpaceOver(Opening(a, b, c) + rest, a + "#[", b, "cfg", c + ("(" + rest));
  }

  lemma BracketThere(a: string, b: string, c: string, rest: string)
    requires AllSpace(c)
    ensures var s, j := Opening(a, b, c) + rest, |a| + 2 + |b|;
            var k := j + 3 + |c|;
            j + 3 <= |s| && SkipSpace(s, j + 3) == k && k < |s| && s[k] == '('
  {
    OpeningJoins(a, b, c, rest);
    SpaceOver(Opening(a, b, c) + rest, a + "#[" + b + "cfg", c, "(", rest);
  }

  lemma OpeningJoins(a: string, b: string, c: string, rest: string)
    ensures var s := a + "#[" + b + "cfg" + c + ("(" + rest);
            && s == Opening(a, b, c) + rest
            && s == "" + a + ("#[" + (b + ("cfg" + (c + ("(" + rest)))))
            && s == a + "#[" + b + ("cfg" + (c + ("(" + rest)))
  {
    var after := "(" + rest;
    Regroup(a + "#[" + b, "cfg", c + after);
    Regroup(a + "#[" + b + "cfg", c, after);
    Regroup(a, "#[", b + ("cfg" + (c + after)));
    Regroup(a + "#[", b, "cfg" + (c + after));
    NothingMore(a);
    Regroup(a, "#[" + (b + ("cfg" + (c + "("))), rest);
    Regroup("#[", b + ("cfg" + (c + "(")), rest);
    Regroup(b, "cfg" + (c + "("), rest);
    Regroup("cfg", c + "(", rest);
    Regroup(c, "(", rest);
  }

  lemma OpensThere(s: string, i: nat, j: nat, k: nat)
    requires SkipSpace(s, 0) == i && i + 2 <= |s| && "#[" <= s[i..] && SkipSpace(s, i + 2) == j
    requires j + 3 <= |s| && "cfg" <= s[j..] && SkipSpace(s, j + 3) == k && k < |s| && s[k] == '('
    ensures AttrOpen(s) == Some(k + 1)
  {
  }

  /** White space behind a text, and the token behind that. */
  lemma SpaceOver(s: string, head: string, gap: string, token: string, more: string)
    requires s == head + gap + (token + more) && AllSpace(gap) && token != [] && !IsSpace(token[0])
    ensures SkipSpace(s, |head|) == |head| + |gap| && |head| + |gap| + |token| <= |s|
    ensures token <= s[|head| + |gap|..] && s[|head| + |gap|] == token[0]
  {
    forall k | |head| <= k < |head| + |gap| ensures IsSpace(s[k]) {
      assert s[k] == gap[k - |head|];
    }
    assert s[|head| + |gap|..] == token + more;
    SkipSpaceExact(s, |head|, |head| + |gap|);
  }

  /** Only such a line opens an attribute. */
  lemma OnlyOpenings(line: string) returns (a: string, b: string, c: string, rest: string)
    requires AttrOpen(line).Some?
    ensures AllSpace(a) && AllSpace(b) && AllSpace(c) && line == Opening(a, b, c) + rest
  {
    var i, j, k := OpeningPlaces(line);
    a, b, c, rest := line[0..i], line[i + 2..j], line[j + 3..k], line[k + 1..];
    SixPieces(line, i, j, k);
  }

  lemma OpeningPlaces(line: string) returns (i: nat, j: nat, k: nat)
    requires AttrOpen(line).Some?
    ensures i + 2 <= j && j + 3 <= k < |line| && "#[" <= line[i..] && "cfg" <= line[j..] && line[k] == '('
    ensures AllSpace(line[0..i]) && AllSpace(line[i + 2..j]) && AllSpace(line[j + 3..k])
  {
    i := SkipSpace(line, 0);
    j := SkipSpace(line, i + 2);
    k := SkipSpace(line, j + 3);
    SpaceSkipped(line, 0);
    SpaceSkipped(line, i + 2);
    SpaceSkipped(line, j + 3);
  }

  lemma SixPieces(s: string, i: nat, j: nat, k: nat)
    requires i + 2 <= j && j + 3 <= k < |s| && "#[" <= s[i..] && "cfg" <= s[j..] && s[k] == '('
    ensures s == Opening(s[0..i], s[i + 2..j], s[j + 3..k]) + s[k + 1..]
  {
    assert s == s[..k] + "(" + s[k + 1..];
    assert s[..k] == s[..j] + "cfg" + s[j + 3..k] by {
      assert s[j..][..3] == "cfg" && s[..k] == s[..j] + s[j..][..3] + s[j + 3..k];
    }
    assert s[..j] == s[..i] + "#[" + s[i + 2..j] by {
      assert s[i..][..2] == "#[" && s[..j] == s[..i] + s[i..][..2] + s[i + 2..j];
    }
    assert Opening(s[0..i], s[i + 2..j], s[j + 3..k]) == s[..i] + "#[" + s[i + 2..j] + "cfg" + s[j + 3..k] + "(";
  }

  lemma {:induction false} SpaceSkipped(s: string, i: nat)
    requires i <= |s|
    ensures AllSpace(s[i..SkipSpace(s, i)])
    decreases |s| - i
  {
    if i < |s| && IsSpace(s[i]) {
      SpaceSkipped(s, i + 1);
      assert s[i..SkipSpace(s, i)] == [s[i]] + s[i + 1..SkipSpace(s, i)];
    }
  }

  lemma {:induction false} JoinOne(lines: seq<string>, l: string)
    ensures JoinLines([l]) == l
    ensures lines != [] ==> JoinLines(lines + [l]) == JoinLines(lines) + "\n" + l
  {
    if |lines| > 1 {
      assert (lines + [l])[1..] == lines[1..] + [l];
      JoinOne(lines[1..], l);
    } else if |lines| == 1 {
      assert (lines + [l])[1..] == [l];
    }
  }

  lemma {:induction false} JoinMore(a: seq<string>, b: seq<string>) returns (rest: string)
    requires a != []
    ensures JoinLines(a + b) == JoinLines(a) + rest
  {
    if b == [] {
      rest := "";
      assert a + b == a;
    } else {
      var n := |b| - 1;
      var more := JoinMore(a, b[..n]);
      assert a + b == (a + b[..n]) + [b[n]];
      JoinOne(a + b[..n], b[n]);
      rest := more + ("\n" + b[n]);
    }
  }

  /** An attribute wrapped over `k` lines, at most eight, from line `i` on: the first line
      holds the opening, and the lines joined are the opening, the predicate, its bracket
      and whatever comes behind it. */
  ghost predicate Wrapped(lines: seq<string>, i: nat, k: nat, a: string, b: string, c: string, body: string,
      tail: string)
  {
    && 1 <= k <= 8 && i + k <= |lines|
    && AllSpace(a) && AllSpace(b) && AllSpace(c)
    && Opening(a, b, c) <= lines[i]
    && JoinLines(lines[i..i + k]) == Opening(a, b, c) + body + ")" + tail
  }

  lemma WrappedIsRead(lines: seq<string>, i: nat, k: nat, a: string, b: string, c: string, body: string, tail: string)
    returns (head: string, rest: string)
    requires Wrapped(lines, i, k, a, b, c, body, tail)
    ensures AttrOpen(lines[i]) == Some(|head| + 1)
    ensures AttrText(lines, i) == head + ("(" + (body + (")" + rest)))
  {
    head := OpensLine(lines[i], a, b, c);
    var more := WindowStarts(lines, i, k);
    rest := tail + more;
    FromTheRight(head, body, tail, more);
  }

  lemma OpensLine(line: string, a: string, b: string, c: string) returns (head: string)
    requires AllSpace(a) && AllSpace(b) && AllSpace(c) && Opening(a, b, c) <= line
    ensures AttrOpen(line) == Some(|head| + 1) && Opening(a, b, c) == head + "("
  {
    head := OpeningEnds(a, b, c);
    PrefixSplit(Opening(a, b, c), line);
    OpeningIsRead(a, b, c, line[|Opening(a, b, c)|..]);
  }

  lemma OpeningEnds(a: string, b: string, c: string) returns (head: string)
    ensures Opening(a, b, c) == head + "(" && |head| + 1 == |a| + |b| + |c| + 6
  {
    head := a + ("#[" + (b + ("cfg" + c)));
    Regroup("cfg", c, "(");
    Regroup(b, "cfg" + c, "(");
    Regroup("#[", b + ("cfg" + c), "(");
    Regroup(a, "#[" + (b + ("cfg" + c)), "(");
  }

  lemma PrefixSplit(p: string, s: string)
    requires p <= s
    ensures s == p + s[|p|..]
  {
  }

  lemma WindowStarts(lines: seq<string>, i: nat, k: nat) returns (more: string)
    requires 1 <= k <= 8 && i + k <= |lines|
    ensures AttrText(lines, i) == JoinLines(lines[i..i + k]) + more
  {
    var end := if i + 8 < |lines| then i + 8 else |lines|;
    assert lines[i..end] == lines[i..i + k] + lines[i + k..end];
    more := JoinMore(lines[i..i + k], lines[i + k..end]);
  }

  lemma FromTheRight(head: string, body: string, tail: string, more: string)
    ensures head + "(" + body + ")" + tail + more == head + ("(" + (body + (")" + (tail + more))))
  {
  }

  /** So, on the lines as they stand in the file: an attribute that closes within eight lines
      opens test scope exactly when the Kleene value of its predicate is "no". */
  lemma WrappedVerdict(lines: seq<string>, i: nat, k: nat, a: string, b: string, c: string, before: string, node: Node,
      after: string, tail: string)
    requires Wrapped(lines, i, k, a, b, c, before + Render(node) + after, tail)
    requires AllSpace(before) && AllSpace(after) && WellFormed(node) && Spaced(node)
    ensures CfgTestAttrAt(lines, i) <==> Kleene(node) == No
  {
    var head, rest := WrappedIsRead(lines, i, k, a, b, c, before + Render(node) + after, tail);
    AttrVerdict(lines, i, head, before, node, after, rest);
  }

  /** Lines before the attribute, or more than seven behind it, do not matter. */
  lemma EightLines(lines: seq<string>, i: nat, other: seq<string>, j: nat)
    requires i < |lines| && j < |other|
    requires lines[i..if |lines| < i + 8 then |lines| else i + 8] == other[j..if |other| < j + 8 then |other| else j + 8]
    ensures CfgTestAttrAt(lines, i) <==> CfgTestAttrAt(other, j)
  {
    var window := lines[i..if |lines| < i + 8 then |lines| else i + 8];
    assert window[0] == lines[i] && window[0] == other[j];
  }

  lemma AttrCloses(before: string, node: Node, after: string, rest: string)
    requires IsGap(before) && IsGap(after) && WellFormed(node)
    ensures AfterBalanced(before + Render(node) + after + (")" + rest), 1, '(', ')') == Some(rest)
  {
    var args := [Arg(before, node, after)];
    BalanceArg(args, ")" + rest, 1);
    assert (")" + rest)[1..] == rest;
  }
}
