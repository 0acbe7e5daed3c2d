/** The three-valued evaluator `value_without_test` of tools/lock-gate.py, the
    grammar of the predicates it reads, and what its verdict is worth. */
module CfgPredicate {
  import opened Basics
  import opened CfgScan

  datatype Tri = No | Maybe | Yes

  datatype Op = AllOp | AnyOp | NotOp

  // ----- the evaluator, on text

  /** The regular expression `(all|any|not)\s*\(` at the start of the text: the
      operator and the index just past the bracket. */
  function OpAt(pred: string): (r: Option<(Op, nat)>)
    ensures r.Some? ==> 4 <= r.value.1 <= |pred| && pred[r.value.1 - 1] == '('
  {
    if |pred| < 3 then None
    else
      var i := SkipSpace(pred, 3);
      if i == |pred| || pred[i] != '(' then None
      else if pred[..3] == "all" then Some((AllOp, i + 1))
      else if pred[..3] == "any" then Some((AnyOp, i + 1))
      else if pred[..3] == "not" then Some((NotOp, i + 1))
      else None
  }

  function SkipSpace(s: string, i: nat): (j: nat)
    requires i <= |s|
    ensures i <= j <= |s|
    decreases |s| - i
  {
    if i < |s| && IsSpace(s[i]) then SkipSpace(s, i + 1) else i
  }

  function Combine(op: Op, args: seq<Tri>): (r: Tri) {
    match op
    case NotOp =>
      if |args| != 1 then Maybe else Negate(args[0])
    case AllOp =>
      if args == [] then Yes
      else if No in args then No
      else if forall i | 0 <= i < |args| :: args[i] == Yes then Yes
      else Maybe
    case AnyOp =>
      if args == [] then No
      else if Yes in args then Yes
      else if forall i | 0 <= i < |args| :: args[i] == No then No
      else Maybe
  }

  function Negate(v: Tri): (r: Tri) {
    match v case No => Yes case Maybe => Maybe case Yes => No
  }

  function ValueWithoutTest(text: string): (r: Tri)
    decreases |text| + 1, 0
  {
    var pred := Strip(text);
    var m := OpAt(pred);
    if m.Some? && BalancedEndSpec(pred, m.value.1 - 1, '(', ')') == Some(|pred|) then
      var inner := pred[m.value.1..|pred| - 1];
      SplitTopShort(inner);
      Combine(m.value.0, ValuesWithoutTest(SplitTopSpec(inner), |text|))
    else if pred == "test" then No
    else Maybe
  }

  /** The recursive calls, over arguments all shorter than `bound`. */
  function ValuesWithoutTest(args: seq<string>, bound: nat): (r: seq<Tri>)
    requires forall a | a in args :: |a| < bound
    ensures |r| == |args|
    decreases bound, |args|
  {
    if args == [] then [] else [ValueWithoutTest(args[0])] + ValuesWithoutTest(args[1..], bound)
  }

  predicate CfgIsTestOnly(text: string) {
    ValueWithoutTest(text) == No
  }

  // ----- predicates as trees, with every layout choice recorded

  /** An option of the build other than `test`: `unix`, `feature = "x"`. */
  datatype Key = Flag(name: string) | Setting(name: string, value: seq<Unit>)

  datatype Node =
    | Test
    | Opt(key: Key, gap1: string, gap2: string)
    | Call(op: Op, gap: string, args: seq<Arg>, comma: bool, pad: string)

  datatype Arg = Arg(before: string, node: Node, after: string)

  /** A character a name may hold: nothing the scanners react to. */
  predicate NameChar(c: char) {
    !IsSpace(c) && Calm(c) && c != '='
  }

  /** Neither scanner reacts to this character. */
  predicate Calm(c: char) {
    c != '"' && c != '(' && c != ')' && c != '[' && c != ']' && c != ','
  }

  predicate AllCalm(s: string) {
    forall i | 0 <= i < |s| :: Calm(s[i])
  }

  /** What may stand between two tokens: white space and comments, and in the comments
      nothing the scanners react to. */
  predicate IsGap(g: string) {
    && AllCalm(g)
    && (AllSpace(g) || (var k := SkipSpace(g, 0); k < |g| && g[k] == '/'))
  }

  predicate IsName(s: string) {
    s != [] && forall i | 0 <= i < |s| :: NameChar(s[i])
  }

  predicate IsUnit(u: Unit) {
    u.Plain? ==> u.c != '"' && u.c != '\\'
  }

  predicate WellFormed(node: Node) {
    match node
    case Test => true
    case Opt(key, gap1, gap2) =>
      && IsName(key.name) && IsGap(gap1) && IsGap(gap2)
      && (key.Flag? ==> key.name != "test")
      && (key.Setting? ==> forall i | 0 <= i < |key.value| :: IsUnit(key.value[i]))
    case Call(op, gap, args, comma, pad) =>
      && IsGap(gap) && IsGap(pad)
      && (op == NotOp ==> |args| == 1)
      && forall i | 0 <= i < |args| ::
           IsGap(args[i].before) && IsGap(args[i].after) && WellFormed(args[i].node)
  }

  /** No comments, except around the sign of equality. */
  predicate Spaced(node: Node) {
    node.Call? ==>
      && AllSpace(node.gap) && AllSpace(node.pad)
      && forall i | 0 <= i < |node.args| ::
           AllSpace(node.args[i].before) && AllSpace(node.args[i].after) && Spaced(node.args[i].node)
  }

  ghost predicate ArgsOk(args: seq<Arg>) {
    forall i | 0 <= i < |args| :: IsGap(args[i].before) && IsGap(args[i].after) && WellFormed(args[i].node)
  }

  ghost predicate ArgsSpaced(args: seq<Arg>) {
    forall i | 0 <= i < |args| :: AllSpace(args[i].before) && AllSpace(args[i].after) && Spaced(args[i].node)
  }

  function OpName(op: Op): (s: string) {
    match op case AllOp => "all" case AnyOp => "any" case NotOp => "not"
  }

  function LiteralText(value: seq<Unit>): string {
    if value == [] then "\""
    else (match value[0] case Plain(c) => [c] case Escaped(c) => ['\\', c]) + LiteralText(value[1..])
  }

  function Render(node: Node): string
    decreases node, 1
  {
    match node
    case Test => "test"
    case Opt(Flag(name), _, _) => name
    case Opt(Setting(name, value), gap1, gap2) =>
      name + gap1 + "=" + gap2 + "\"" + LiteralText(value)
    case Call(op, gap, args, comma, pad) =>
      OpName(op) + gap + "(" + (RenderArgs(args) + Tail(comma, pad)) + ")"
  }

  function Tail(comma: bool, pad: string): string {
    (if comma then "," else "") + pad
  }

  function RenderArgs(args: seq<Arg>): string
    decreases args, 0
  {
    if args == [] then ""
    else
      var first := args[0].before + Render(args[0].node) + args[0].after;
      if |args| == 1 then first else first + "," + RenderArgs(args[1..])
  }

  // ----- what a predicate means

  /** The truth of a predicate in a build: is `test` on, and which options are. */
  predicate Holds(node: Node, test: bool, on: set<Key>) {
    match node
    case Test => test
    case Opt(key, _, _) => key in on
    case Call(AllOp, _, args, _, _) => forall i | 0 <= i < |args| :: Holds(args[i].node, test, on)
    case Call(AnyOp, _, args, _, _) => exists i | 0 <= i < |args| :: Holds(args[i].node, test, on)
    case Call(NotOp, _, args, _, _) => |args| == 1 && !Holds(args[0].node, test, on)
  }

  /** Kleene's strong conjunction and disjunction, one operand at a time. */
  function And(a: Tri, b: Tri): Tri {
    if a == No || b == No then No else if a == Yes && b == Yes then Yes else Maybe
  }

  function Or(a: Tri, b: Tri): Tri {
    Negate(And(Negate(a), Negate(b)))
  }

  function Kleene(node: Node): Tri
    decreases node, 1
  {
    match node
    case Test => No
    case Opt(_, _, _) => Maybe
    case Call(AllOp, _, args, _, _) => KleeneFold(args, true)
    case Call(AnyOp, _, args, _, _) => KleeneFold(args, false)
    case Call(NotOp, _, args, _, _) => if |args| == 1 then Negate(Kleene(args[0].node)) else Maybe
  }

  function KleeneFold(args: seq<Arg>, conj: bool): Tri
    decreases args, 0
  {
    if args == [] then (if conj then Yes else No)
    else if conj then And(Kleene(args[0].node), KleeneFold(args[1..], conj))
    else Or(Kleene(args[0].node), KleeneFold(args[1..], conj))
  }

  // ----- both scanners step over a rendered predicate

  lemma {:induction false} LiteralCloses(value: seq<Unit>, rest: string)
    requires forall i | 0 <= i < |value| :: IsUnit(value[i])
    ensures AfterLiteral(LiteralText(value) + rest) == rest
  {
    var t := LiteralText(value) + rest;
    if value == [] {
      assert t[1..] == rest;
    } else {
      var tail := LiteralText(value[1..]);
      LiteralCloses(value[1..], rest);
      match value[0] {
        case Plain(c) => assert t[1..] == tail + rest;
        case Escaped(c) => assert t[2..] == tail + rest;
      }
    }
  }

  lemma {:induction false} BalanceCalm(p: string, rest: string, d: int)
    requires AllCalm(p)
    ensures AfterBalanced(p + rest, d, '(', ')') == AfterBalanced(rest, d, '(', ')')
  {
    if p == [] {
      assert p + rest == rest;
    } else {
      assert (p + rest)[1..] == p[1..] + rest;
      BalanceCalm(p[1..], rest, d);
    }
  }

  lemma {:induction false} PiecesCalm(p: string, rest: string, d: int, cur: string)
    requires AllCalm(p)
    ensures Pieces(p + rest, d, cur) == Pieces(rest, d, cur + p)
  {
    if p == [] {
      assert p + rest == rest && cur + p == cur;
    } else {
      assert (p + rest)[1..] == p[1..] + rest;
      PiecesCalm(p[1..], rest, d, cur + [p[0]]);
      Regroup(cur, [p[0]], p[1..]);
      assert [p[0]] + p[1..] == p;
    }
  }

  lemma BalanceLiteral(value: seq<Unit>, rest: string, d: int)
    requires forall i | 0 <= i < |value| :: IsUnit(value[i])
    ensures AfterBalanced("\"" + LiteralText(value) + rest, d, '(', ')') == AfterBalanced(rest, d, '(', ')')
  {
    LiteralCloses(value, rest);
    assert ("\"" + LiteralText(value) + rest)[1..] == LiteralText(value) + rest;
  }

  lemma PiecesLiteral(value: seq<Unit>, rest: string, d: int, cur: string)
    requires forall i | 0 <= i < |value| :: IsUnit(value[i])
    ensures Pieces("\"" + LiteralText(value) + rest, d, cur) == Pieces(rest, d, cur + ("\"" + LiteralText(value)))
  {
    LiteralCloses(value, rest);
    var lit := "\"" + LiteralText(value);
    var t := lit + rest;
    assert t[1..] == LiteralText(value) + rest;
    assert t[..|t| - |rest|] == lit;
  }

  lemma BalanceSetting(name: string, gap1: string, gap2: string, value: seq<Unit>, rest: string, d: int)
    requires WellFormed(Opt(Setting(name, value), gap1, gap2))
    ensures AfterBalanced(Render(Opt(Setting(name, value), gap1, gap2)) + rest, d, '(', ')')
         == AfterBalanced(rest, d, '(', ')')
  {
    var head := name + gap1 + "=" + gap2;
    BalanceCalm(head, "\"" + LiteralText(value) + rest, d);
    BalanceLiteral(value, rest, d);
    assert Render(Opt(Setting(name, value), gap1, gap2)) + rest == head + ("\"" + LiteralText(value) + rest);
  }

  lemma PiecesSetting(name: string, gap1: string, gap2: string, value: seq<Unit>, rest: string, d: int, cur: string)
    requires WellFormed(Opt(Setting(name, value), gap1, gap2))
    ensures Pieces(Render(Opt(Setting(name, value), gap1, gap2)) + rest, d, cur)
         == Pieces(rest, d, cur + Render(Opt(Setting(name, value), gap1, gap2)))
  {
    var head := name + gap1 + "=" + gap2;
    var lit := "\"" + LiteralText(value);
    PiecesCalm(head, lit + rest, d, cur);
    PiecesLiteral(value, rest, d, cur + head);
    assert Render(Opt(Setting(name, value), gap1, gap2)) == head + lit;
    Regroup(head, lit, rest);
    Regroup(cur, head, lit);
  }

  lemma {:induction false} BalanceNode(node: Node, rest: string, d: int)
    requires WellFormed(node) && d >= 1
    ensures AfterBalanced(Render(node) + rest, d, '(', ')') == AfterBalanced(rest, d, '(', ')')
    decreases node, 1
  {
    match node {
      case Test => BalanceCalm("test", rest, d);
      case Opt(Flag(name), _, _) => BalanceCalm(name, rest, d);
      case Opt(Setting(name, value), gap1, gap2) => BalanceSetting(name, gap1, gap2, value, rest, d);
      case Call(op, gap, args, comma, pad) =>
        BalanceInner(args, comma, pad, ")" + rest, d + 1);
        OpCalm(op, gap);
        BalanceCall(OpName(op) + gap, RenderArgs(args) + Tail(comma, pad), rest, d);
    }
  }

  lemma OpCalm(op: Op, gap: string)
    requires AllCalm(gap)
    ensures AllCalm(OpName(op) + gap)
  {
  }

  /** A list of several arguments is the first, a comma and the others. */
  lemma ArgsText(args: seq<Arg>)
    requires |args| > 1
    ensures RenderArgs(args) == ArgText(args[0]) + ("," + RenderArgs(args[1..]))
  {
    Regroup(ArgText(args[0]), ",", RenderArgs(args[1..]));
  }

  lemma CommaSpread(a: string, b: string, c: string)
    ensures a + ("," + b) + c == a + ("," + (b + c))
    ensures c + (a + ("," + b)) == c + a + "," + b
  {
  }

  lemma CallText(head: string, inner: string, rest: string)
    ensures head + "(" + inner + ")" + rest == head + ("(" + (inner + (")" + rest)))
  {
  }

  lemma BalanceCall(head: string, inner: string, rest: string, d: int)
    requires AllCalm(head) && d >= 1
    requires AfterBalanced(inner + (")" + rest), d + 1, '(', ')') == AfterBalanced(")" + rest, d + 1, '(', ')')
    ensures AfterBalanced(head + "(" + inner + ")" + rest, d, '(', ')') == AfterBalanced(rest, d, '(', ')')
  {
    assert (")" + rest)[1..] == rest;
    assert ("(" + (inner + (")" + rest)))[1..] == inner + (")" + rest);
    BalanceCalm(head, "(" + (inner + (")" + rest)), d);
    CallText(head, inner, rest);
  }

  lemma {:induction false} BalanceInner(args: seq<Arg>, comma: bool, pad: string, rest: string, d: int)
    requires ArgsOk(args) && AllCalm(pad) && d >= 1
    ensures AfterBalanced(RenderArgs(args) + Tail(comma, pad) + rest, d, '(', ')') == AfterBalanced(rest, d, '(', ')')
    decreases args, 2
  {
    var tail := Tail(comma, pad);
    BalanceArgs(args, tail + rest, d);
    Regroup(RenderArgs(args), tail, rest);
    if comma {
      assert tail + rest == "," + (pad + rest);
      assert ("," + (pad + rest))[1..] == pad + rest;
    } else {
      assert tail == pad;
    }
    BalanceCalm(pad, rest, d);
  }

  lemma {:induction false} BalanceArgs(args: seq<Arg>, rest: string, d: int)
    requires ArgsOk(args) && d >= 1
    ensures AfterBalanced(RenderArgs(args) + rest, d, '(', ')') == AfterBalanced(rest, d, '(', ')')
    decreases args, 1
  {
    if args == [] {
      assert RenderArgs(args) + rest == rest;
    } else {
      var more := if |args| == 1 then rest else "," + (RenderArgs(args[1..]) + rest);
      BalanceArg(args, more, d);
      if |args| > 1 {
        ArgsText(args);
        CommaSpread(ArgText(args[0]), RenderArgs(args[1..]), rest);
        assert more[1..] == RenderArgs(args[1..]) + rest;
        BalanceArgs(args[1..], rest, d);
      }
    }
  }

  lemma {:induction false} BalanceArg(args: seq<Arg>, more: string, d: int)
    requires args != [] && ArgsOk(args) && d >= 1
    ensures AfterBalanced(ArgText(args[0]) + more, d, '(', ')') == AfterBalanced(more, d, '(', ')')
    decreases args, 0
  {
    var a := args[0];
    BalanceCalm(a.before, Render(a.node) + (a.after + more), d);
    BalanceNode(a.node, a.after + more, d);
    BalanceCalm(a.after, more, d);
    ArgSpread(a.before, Render(a.node), a.after, more);
  }

  lemma {:induction false} PiecesNode(node: Node, rest: string, d: int, cur: string)
    requires WellFormed(node) && d >= 0
    ensures Pieces(Render(node) + rest, d, cur) == Pieces(rest, d, cur + Render(node))
    decreases node, 1
  {
    match node {
      case Test => PiecesCalm("test", rest, d, cur);
      case Opt(Flag(name), _, _) => PiecesCalm(name, rest, d, cur);
      case Opt(Setting(name, value), gap1, gap2) => PiecesSetting(name, gap1, gap2, value, rest, d, cur);
      case Call(op, gap, args, comma, pad) =>
        var head := OpName(op) + gap;
        PiecesInner(args, comma, pad, ")" + rest, d + 1, cur + head + "(");
        OpCalm(op, gap);
        PiecesCall(head, RenderArgs(args) + Tail(comma, pad), rest, d, cur);
    }
  }

  lemma PiecesCall(head: string, inner: string, rest: string, d: int, cur: string)
    requires AllCalm(head) && d >= 0
    requires Pieces(inner + (")" + rest), d + 1, cur + head + "(") == Pieces(")" + rest, d + 1, cur + head + "(" + inner)
    ensures Pieces(head + "(" + inner + ")" + rest, d, cur) == Pieces(rest, d, cur + (head + "(" + inner + ")"))
  {
    PiecesCalm(head, "(" + (inner + (")" + rest)), d, cur);
    PiecesOpen(inner + (")" + rest), d, cur + head);
    PiecesClose(rest, d + 1, cur + head + "(" + inner);
    CallText(head, inner, rest);
    assert cur + (head + "(" + inner + ")") == cur + head + "(" + inner + ")";
  }

  lemma PiecesOpen(rest: string, d: int, cur: string)
    ensures Pieces("(" + rest, d, cur) == Pieces(rest, d + 1, cur + "(")
  {
    assert ("(" + rest)[1..] == rest;
  }

  lemma PiecesClose(rest: string, d: int, cur: string)
    ensures Pieces(")" + rest, d, cur) == Pieces(rest, d - 1, cur + ")")
  {
    assert (")" + rest)[1..] == rest;
  }

  lemma PiecesComma(rest: string, d: int, cur: string)
    requires d != 0
    ensures Pieces("," + rest, d, cur) == Pieces(rest, d, cur + ",")
  {
    assert ("," + rest)[1..] == rest;
  }

  lemma {:induction false} PiecesInner(args: seq<Arg>, comma: bool, pad: string, rest: string, d: int, cur: string)
    requires ArgsOk(args) && AllCalm(pad) && d >= 1
    ensures Pieces(RenderArgs(args) + Tail(comma, pad) + rest, d, cur)
         == Pieces(rest, d, cur + (RenderArgs(args) + Tail(comma, pad)))
    decreases args, 2
  {
    var body, tail := RenderArgs(args), Tail(comma, pad);
    PiecesArgs(args, tail + rest, d, cur);
    Regroup(body, tail, rest);
    Regroup(cur, body, tail);
    if comma {
      assert tail + rest == "," + (pad + rest);
      PiecesComma(pad + rest, d, cur + body);
      PiecesCalm(pad, rest, d, cur + body + ",");
      Regroup(cur + body, ",", pad);
    } else {
      assert tail == pad;
      PiecesCalm(pad, rest, d, cur + body);
    }
  }

  lemma {:induction false} PiecesArgs(args: seq<Arg>, rest: string, d: int, cur: string)
    requires ArgsOk(args) && d >= 1
    ensures Pieces(RenderArgs(args) + rest, d, cur) == Pieces(rest, d, cur + RenderArgs(args))
    decreases args, 1
  {
    if args == [] {
      assert RenderArgs(args) + rest == rest && cur + RenderArgs(args) == cur;
    } else {
      var first := ArgText(args[0]);
      var more := if |args| == 1 then rest else "," + (RenderArgs(args[1..]) + rest);
      PiecesArg(args, more, d, cur);
      if |args| == 1 {
        assert RenderArgs(args) == first;
      } else {
        var others := RenderArgs(args[1..]);
        PiecesComma(others + rest, d, cur + first);
        PiecesArgs(args[1..], rest, d, cur + first + ",");
        ArgsText(args);
        CommaSpread(first, others, rest);
        CommaSpread(first, others, cur);
      }
    }
  }

  function ArgText(a: Arg): string {
    a.before + Render(a.node) + a.after
  }

  /** One argument is copied whole, at any depth. */
  lemma {:induction false} PiecesArg(args: seq<Arg>, more: string, d: int, cur: string)
    requires args != [] && ArgsOk(args) && d >= 0
    ensures Pieces(ArgText(args[0]) + more, d, cur) == Pieces(more, d, cur + ArgText(args[0]))
    decreases args, 0
  {
    var a := args[0];
    var r := Render(a.node);
    PiecesCalm(a.before, r + (a.after + more), d, cur);
    PiecesNode(a.node, a.after + more, d, cur + a.before);
    PiecesCalm(a.after, more, d, cur + a.before + r);
    ArgSpread(a.before, r, a.after, more);
    ArgSpread(cur, a.before, r, a.after);
    assert cur + ArgText(a) == cur + a.before + r + a.after by { Regroup(a.before, r, a.after); }
  }

  lemma ArgSpread(a: string, b: string, c: string, d: string)
    ensures a + b + c + d == a + (b + (c + d))
  {
  }
}
