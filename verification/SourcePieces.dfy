/** What the stripper does to Rust source written as a sequence of pieces: code
    characters, comments (nested to any depth), strings, byte strings, raw strings and
    character literals. Each piece is recognised whole and blanked on its own. */
module SourcePieces {
  import opened Basics
  import opened SourceNoise

  /** What a comment holds: characters and comments. */
  datatype Item = Ch(c: char) | Nest(items: seq<Item>)

  datatype Piece =
    | Code(c: char)
    | Line(body: string)
    | Block(items: seq<Item>)
    | Str(byte: bool, units: seq<Unit>)
    | Raw(byte: bool, n: nat, body: string)
    | Chr(c: char)
    | EscapedChr(body: string)

  // ----- rendering

  function UnitText(units: seq<Unit>): string {
    if units == [] then ""
    else (match units[0] case Plain(c) => [c] case Escaped(c) => ['\\', c]) + UnitText(units[1..])
  }

  function ItemText(items: seq<Item>): string {
    if items == [] then ""
    else (if items[0].Ch? then [items[0].c] else "/*" + ItemText(items[0].items) + "*/") + ItemText(items[1..])
  }

  function HashText(n: nat): (s: string)
    ensures |s| == n && forall i | 0 <= i < n :: s[i] == '#'
  {
    seq(n, _ => '#')
  }

  function PieceText(p: Piece): (s: string)
    ensures s != ""
  {
    match p
    case Code(c) => [c]
    case Line(body) => "//" + body
    case Block(items) => "/*" + ItemText(items) + "*/"
    case Str(byte, units) => (if byte then "b" else "") + "\"" + UnitText(units) + "\""
    case Raw(byte, n, body) => (if byte then "b" else "") + "r" + HashText(n) + "\"" + body + "\"" + HashText(n)
    case Chr(c) => ['\'', c, '\'']
    case EscapedChr(body) => "'\\" + body + "'"
  }

  function Source(ps: seq<Piece>): string {
    if ps == [] then "" else PieceText(ps[0]) + Source(ps[1..])
  }

  // ----- what is well formed, and in front of what

  /** Hashes, or none, and then a quote. */
  predicate HashQuote(s: string) {
    s != "" && (s[0] == '"' || (s[0] == '#' && HashQuote(s[1..])))
  }

  /** A code character that starts nothing, given the text after it: `break`, `r#type`
      and the lifetime `'a` are code, `br#"` and `'a'` are not. */
  predicate CodeOk(c: char, next: string) {
    match c
    case '"' => false
    case '/' => next == "" || (next[0] != '/' && next[0] != '*')
    case 'r' => !HashQuote(next) && (next == "" || next[0] != 'b' || !HashQuote(next[1..]))
    case 'b' => next == "" || (next[0] != '"' && (next[0] != 'r' || !HashQuote(next[1..])))
    case '\'' =>
      next == ""
      || if next[0] == '\\' then '\'' !in next[1..] else |next| < 2 || next[0] == '\'' || next[1] != '\''
    case _ => true
  }

  predicate UnitsOk(units: seq<Unit>) {
    forall i | 0 <= i < |units| :: units[i].Plain? ==> units[i].c != '"' && units[i].c != '\\'
  }

  /** No two characters of a comment's text, and none with what follows, read as an
      opener or a closer. */
  predicate ItemsOk(items: seq<Item>, next: string)
    requires next != ""
    decreases items
  {
    items != [] ==>
      && ItemsOk(items[1..], next)
      && (items[0].Ch? ==>
            var f := (ItemText(items[1..]) + next)[0];
            !(items[0].c == '/' && f == '*') && !(items[0].c == '*' && f == '/'))
      && (items[0].Nest? ==> ItemsOk(items[0].items, "*/"))
  }

  /** No closing quote and hashes before `end`. */
  predicate FirstCloser(s: string, end: nat, n: nat) {
    forall i | 0 <= i < end :: !CloserAt(s, i, n)
  }

  predicate PieceOk(p: Piece, next: string) {
    match p
    case Code(c) => CodeOk(c, next)
    case Line(body) => (forall i | 0 <= i < |body| :: body[i] != '\n') && (next == "" || next[0] == '\n')
    case Block(items) => ItemsOk(items, "*/")
    case Str(_, units) => UnitsOk(units)
    case Raw(_, n, body) => FirstCloser(body + "\"" + HashText(n), |body|, n)
    case Chr(c) => c != '\'' && c != '\\'
    case EscapedChr(body) => '\'' !in body
  }

  predicate SourceOk(ps: seq<Piece>) {
    ps != [] ==> PieceOk(ps[0], Source(ps[1..])) && SourceOk(ps[1..])
  }

  // ----- the result

  /** The line breaks of a text. */
  function Breaks(s: string): string {
    if s == "" then "" else (if s[0] == '\n' then "\n" else "") + Breaks(s[1..])
  }

  /** Code stays, character literals go, anything else leaves its line breaks. */
  function Blanked(p: Piece): string {
    match p
    case Code(c) => [c]
    case Chr(_) => ""
    case EscapedChr(_) => ""
    case _ => Breaks(PieceText(p))
  }

  function BlankedAll(ps: seq<Piece>): string {
    if ps == [] then "" else Blanked(ps[0]) + BlankedAll(ps[1..])
  }

  // ----- the end of each piece

  /** From `i` on the text is `s` and then `next`. */
  predicate Here(t: string, i: nat, s: string, next: string) {
    i <= |t| && t[i..] == s + next
  }

  lemma HereAt(t: string, i: nat, s: string, next: string)
    requires Here(t, i, s, next)
    ensures |t| == i + |s| + |next|
    ensures forall k | 0 <= k < |s| :: t[i + k] == s[k]
    ensures forall k | 0 <= k < |next| :: t[i + |s| + k] == next[k]
    ensures Here(t, i + |s|, "", next)
  {
    assert forall k | 0 <= k < |s + next| :: t[i + k] == (s + next)[k];
    assert "" + next == next;
    assert t[i + |s|..] == next;
  }

  lemma HereLength(t: string, i: nat, s: string, next: string)
    requires Here(t, i, s, next)
    ensures |t| == i + |s| + |next|
  {
  }

  lemma HereSplit(t: string, i: nat, a: string, b: string, next: string)
    requires Here(t, i, a + b, next)
    ensures Here(t, i, a, b + next) && Here(t, i + |a|, b, next)
  {
    assert (a + b) + next == a + (b + next);
    assert t[i + |a|..] == t[i..][|a|..];
  }

  lemma {:induction false} LineEnds(t: string, i: nat, body: string, next: string)
    requires Here(t, i, body, next) && (forall k | 0 <= k < |body| :: body[k] != '\n') && (next == "" || next[0] == '\n')
    ensures LineEnd(t, i) == i + |body|
    decreases |body|
  {
    HereAt(t, i, body, next);
    if body != "" {
      assert t[i] == body[0];
      HereSplit(t, i, body[..1], body[1..], next) by { assert body == body[..1] + body[1..]; }
      LineEnds(t, i + 1, body[1..], next);
    } else {
      assert next != "" ==> t[i + 0] == next[0];
    }
  }

  lemma {:induction false} StringEnds(t: string, i: nat, units: seq<Unit>, next: string)
    requires Here(t, i, UnitText(units) + "\"", next) && UnitsOk(units)
    ensures StringEnd(t, i) == i + |UnitText(units)| + 1
    decreases |units|
  {
    HereAt(t, i, UnitText(units) + "\"", next);
    if units == [] {
      assert t[i + 0] == '"';
    } else {
      var u := match units[0] case Plain(c) => [c] case Escaped(c) => ['\\', c];
      var rest := UnitText(units[1..]) + "\"";
      HereSplit(t, i, u, rest, next) by { assert UnitText(units) + "\"" == u + rest; }
      UnitStep(t, i, units[0], rest + next);
      StringEnds(t, i + |u|, units[1..], next);
    }
  }

  lemma UnitStep(t: string, i: nat, unit: Unit, next: string)
    requires unit.Plain? ==> unit.c != '"' && unit.c != '\\'
    requires Here(t, i, match unit case Plain(c) => [c] case Escaped(c) => ['\\', c], next) && next != ""
    ensures unit.Plain? ==> i + 1 <= |t| && StringEnd(t, i) == StringEnd(t, i + 1)
    ensures unit.Escaped? ==> i + 2 <= |t| && StringEnd(t, i) == StringEnd(t, i + 2)
  {
    var u := match unit case Plain(c) => [c] case Escaped(c) => ['\\', c];
    HereAt(t, i, u, next);
    assert t[i + 0] == u[0];
  }

  lemma {:induction false} CommentOver(t: string, i: nat, end: nat, depth: nat, items: seq<Item>, next: string)
    requires Here(t, i, ItemText(items), next) && end == i + |ItemText(items)| && depth >= 1
    requires |next| >= 2 && next[0] == '*' && next[1] == '/' && ItemsOk(items, next)
    ensures end <= |t| && CommentEnd(t, i, depth) == CommentEnd(t, end, depth)
    decreases items, 1
  {
    HereLength(t, i, ItemText(items), next);
    if items != [] {
      var first, rest := FirstText(items[0]), ItemText(items[1..]);
      assert ItemText(items) == first + rest;
      HereSplit(t, i, first, rest, next);
      var mid := i + |first|;
      FirstOver(t, i, mid, depth, items, rest + next);
      CommentOver(t, mid, end, depth, items[1..], next);
    }
  }

  lemma {:induction false} FirstOver(t: string, i: nat, mid: nat, depth: nat, items: seq<Item>, after: string)
    requires items != [] && Here(t, i, FirstText(items[0]), after) && depth >= 1 && after != ""
    requires items[0].Ch? ==> !(items[0].c == '/' && after[0] == '*') && !(items[0].c == '*' && after[0] == '/')
    requires items[0].Nest? ==> ItemsOk(items[0].items, "*/")
    requires mid == i + |FirstText(items[0])|
    ensures mid <= |t| && CommentEnd(t, i, depth) == CommentEnd(t, mid, depth)
    decreases items, 0
  {
    match items[0] {
      case Ch(c) => CharStep(t, i, depth, c, after);
      case Nest(inner) => NestOver(t, i, depth, inner, after);
    }
  }

  function FirstText(item: Item): string {
    if item.Ch? then [item.c] else "/*" + ItemText(item.items) + "*/"
  }

  /** A nested comment leaves the depth as it was. */
  lemma {:induction false} NestOver(t: string, i: nat, depth: nat, items: seq<Item>, next: string)
    requires Here(t, i, "/*" + ItemText(items) + "*/", next) && depth >= 1 && ItemsOk(items, "*/")
    ensures var j := i + |"/*" + ItemText(items) + "*/"|;
            j <= |t| && CommentEnd(t, i, depth) == CommentEnd(t, j, depth)
    decreases items, 2
  {
    var inner := ItemText(items);
    OpenStep(t, i, depth, inner, next);
    FollowOnly(items, "*/", "*/" + next);
    CommentOver(t, i + 2, i + 2 + |inner|, depth + 1, items, "*/" + next);
    CloseStep(t, i + 2 + |inner|, depth + 1, next);
  }

  lemma CharStep(t: string, i: nat, depth: nat, c: char, next: string)
    requires Here(t, i, [c], next) && next != "" && depth >= 1
    requires !(c == '/' && next[0] == '*') && !(c == '*' && next[0] == '/')
    ensures i + 1 <= |t| && CommentEnd(t, i, depth) == CommentEnd(t, i + 1, depth)
  {
    HereAt(t, i, [c], next);
    assert t[i + 0] == c && t[i + 1 + 0] == next[0];
  }

  lemma OpenStep(t: string, i: nat, depth: nat, inner: string, next: string)
    requires Here(t, i, "/*" + inner + "*/", next) && depth >= 1
    ensures i + 2 <= |t| && CommentEnd(t, i, depth) == CommentEnd(t, i + 2, depth + 1)
    ensures Here(t, i + 2, inner, "*/" + next) && Here(t, i + 2 + |inner|, "*/", next)
  {
    assert "/*" + inner + "*/" == "/*" + (inner + "*/");
    HereSplit(t, i, "/*", inner + "*/", next);
    HereAt(t, i, "/*", inner + "*/" + next);
    assert t[i + 0] == '/' && t[i + 1] == '*';
    HereSplit(t, i + 2, inner, "*/", next);
  }

  lemma CloseStep(t: string, i: nat, depth: nat, next: string)
    requires Here(t, i, "*/", next) && depth >= 1
    ensures i + 2 <= |t| && CommentEnd(t, i, depth) == CommentEnd(t, i + 2, depth - 1)
  {
    HereAt(t, i, "*/", next);
    assert t[i + 0] == '*' && t[i + 1] == '/';
  }

  /** Only the first character of what follows matters. */
  lemma {:induction false} FollowOnly(items: seq<Item>, a: string, b: string)
    requires a != "" && b != "" && a[0] == b[0] && ItemsOk(items, a)
    ensures ItemsOk(items, b)
  {
    if items != [] {
      FollowOnly(items[1..], a, b);
    }
  }

  lemma {:induction false} RawEnds(t: string, i: nat, n: nat, body: string, next: string)
    requires Here(t, i, body + "\"" + HashText(n), next)
    requires FirstCloser(body + "\"" + HashText(n), |body|, n)
    ensures RawEnd(t, i, n) == i + |body| + 1 + n
    decreases |body|
  {
    var s := body + "\"" + HashText(n);
    HereAt(t, i, s, next);
    if body == "" {
      assert t[i + 0] == '"';
      forall k | i < k <= i + n ensures t[k] == '#' {
        assert t[i + (k - i)] == s[k - i];
      }
    } else {
      assert !CloserAt(t, i, n) by {
        assert !CloserAt(s, 0, n);
        if CloserAt(t, i, n) {
          assert t[i + 0] == s[0];
          forall k | 0 < k <= n ensures s[k] == '#' { assert t[i + k] == s[k]; }
        }
      }
      var tail := body[1..] + "\"" + HashText(n);
      assert s == body[..1] + tail;
      HereSplit(t, i, body[..1], tail, next);
      forall k | 0 <= k < |body[1..]| ensures !CloserAt(tail, k, n) {
        CloserShift(s, tail, k, n);
        assert !CloserAt(s, k + 1, n);
      }
      RawEnds(t, i + 1, n, body[1..], next);
    }
  }

  lemma CloserShift(s: string, tail: string, k: nat, n: nat)
    requires s != "" && tail == s[1..]
    ensures CloserAt(tail, k, n) ==> CloserAt(s, k + 1, n)
  {
    if CloserAt(tail, k, n) {
      forall m | k + 1 < m <= k + 1 + n ensures s[m] == '#' {
        assert s[m] == tail[m - 1];
      }
    }
  }

  lemma {:induction false} QuoteFound(t: string, i: nat, body: string, next: string)
    requires Here(t, i, body + "'", next) && forall k | 0 <= k < |body| :: body[k] != '\''
    ensures FindQuote(t, i) == Some(i + |body|)
    decreases |body|
  {
    HereAt(t, i, body + "'", next);
    assert t[i + 0] == (body + "'")[0];
    if body != "" {
      assert body + "'" == body[..1] + (body[1..] + "'");
      HereSplit(t, i, body[..1], body[1..] + "'", next);
      QuoteFound(t, i + 1, body[1..], next);
    }
  }

  lemma {:induction false} HashesCount(t: string, i: nat, n: nat, next: string)
    requires Here(t, i, HashText(n), next) && (next == "" || next[0] != '#')
    ensures Hashes(t, i) == n
    decreases n
  {
    HereAt(t, i, HashText(n), next);
    if n > 0 {
      assert t[i + 0] == HashText(n)[0];
      assert HashText(n) == "#" + HashText(n - 1);
      HereSplit(t, i, "#", HashText(n - 1), next);
      HashesCount(t, i + 1, n - 1, next);
    } else {
      assert next != "" ==> t[i + 0] == next[0];
    }
  }

  // ----- each piece is one token

  lemma {:induction false} BreaksAre(t: string, i: nat, s: string, next: string)
    requires Here(t, i, s, next)
    ensures i + |s| <= |t| && BlankText(t, i, i + |s|) == Breaks(s)
    decreases |s|
  {
    HereLength(t, i, s, next);
    if s != "" {
      assert s == s[..1] + s[1..];
      HereSplit(t, i, s[..1], s[1..], next);
      HereLength(t, i, s[..1], s[1..] + next);
      BreaksAre(t, i + 1, s[1..], next);
      BlankStep(t, i, i + 1, i + |s|);
      BlankOne(t, i);
      assert t[i..][0] == (s + next)[0];
    }
  }

  /** The token at `i` is the piece, and leaves what the piece should. */
  ghost predicate Recognised(t: string, i: nat, p: Piece) {
    i < |t| && TokenAt(t, i).End() == i + |PieceText(p)| && Text(Emit(t, TokenAt(t, i))) == Blanked(p)
  }

  lemma BlankToken(t: string, i: nat, p: Piece, next: string)
    requires Here(t, i, PieceText(p), next) && !p.Code? && !p.Chr? && !p.EscapedChr?
    requires i < |t| && TokenAt(t, i) == Blank(i, i + |PieceText(p)|)
    ensures Recognised(t, i, p)
  {
    BreaksAre(t, i, PieceText(p), next);
  }

  lemma First2(t: string, i: nat, s: string, next: string)
    requires Here(t, i, s, next) && |s| >= 2
    ensures i + 2 <= |t| && t[i] == s[0] && t[i + 1] == s[1]
  {
    HereLength(t, i, s, next);
    assert t[i..][0] == (s + next)[0] && t[i..][1] == (s + next)[1];
  }

  lemma LineToken(t: string, i: nat, body: string, next: string)
    requires Here(t, i, "//" + body, next) && PieceOk(Line(body), next)
    ensures Recognised(t, i, Line(body))
  {
    First2(t, i, "//" + body, next);
    HereSplit(t, i, "//", body, next);
    LineEnds(t, i + 2, body, next);
    BlankToken(t, i, Line(body), next);
  }

  lemma BlockToken(t: string, i: nat, items: seq<Item>, next: string)
    requires Here(t, i, "/*" + ItemText(items) + "*/", next) && PieceOk(Block(items), next)
    ensures Recognised(t, i, Block(items))
  {
    First2(t, i, "/*" + ItemText(items) + "*/", next);
    BlockEnds(t, i, items, next);
    BlankToken(t, i, Block(items), next);
  }

  lemma BlockEnds(t: string, i: nat, items: seq<Item>, next: string)
    requires Here(t, i, "/*" + ItemText(items) + "*/", next) && ItemsOk(items, "*/")
    ensures i + 2 <= |t| && CommentEnd(t, i + 2, 1) == i + |PieceText(Block(items))|
  {
    var inner := ItemText(items);
    OpenStep(t, i, 1, inner, next);
    FollowOnly(items, "*/", "*/" + next);
    CommentOver(t, i + 2, i + 2 + |inner|, 1, items, "*/" + next);
    CloseStep(t, i + 2 + |inner|, 1, next);
    CommentDone(t, i + 2 + |inner| + 2);
    BlockLength(items);
  }

  lemma BlockLength(items: seq<Item>)
    ensures |PieceText(Block(items))| == |ItemText(items)| + 4
  {
  }

  lemma CommentDone(t: string, i: nat)
    requires i <= |t|
    ensures CommentEnd(t, i, 0) == i
  {
  }

  lemma StrToken(t: string, i: nat, byte: bool, units: seq<Unit>, next: string)
    requires Here(t, i, PieceText(Str(byte, units)), next) && PieceOk(Str(byte, units), next)
    ensures Recognised(t, i, Str(byte, units))
  {
    var open, rest := if byte then "b\"" else "\"", UnitText(units) + "\"";
    assert PieceText(Str(byte, units)) == open + rest;
    First2(t, i, open + rest, next);
    HereSplit(t, i, open, rest, next);
    StringEnds(t, i + |open|, units, next);
    BlankToken(t, i, Str(byte, units), next);
  }

  lemma RawShape(byte: bool, n: nat, body: string)
    ensures PieceText(Raw(byte, n, body))
         == (if byte then "br" else "r") + (HashText(n) + ("\"" + (body + "\"" + HashText(n))))
  {
  }

  lemma RawOpens(t: string, i: nat, byte: bool, n: nat, rest: string)
    requires Here(t, i, if byte then "br" else "r", HashText(n) + ("\"" + rest))
    ensures i < |t| && RawStart(t, i) == i + if byte then 2 else 1
    ensures RawOpen(t, i) == Some(n)
    ensures Here(t, RawStart(t, i) + n + 1, rest, "")
  {
    RawHead(t, i, byte, HashText(n) + ("\"" + rest));
    RawHashes(t, RawStart(t, i), n, rest);
  }

  lemma RawHead(t: string, i: nat, byte: bool, after: string)
    requires Here(t, i, if byte then "br" else "r", after)
    ensures i < |t| && RawStart(t, i) == i + (if byte then 2 else 1) && t[RawStart(t, i) - 1] == 'r'
    ensures Here(t, RawStart(t, i), after, "")
  {
    var open := if byte then "br" else "r";
    HereLength(t, i, open, after);
    assert t[i..][0] == open[0] && (byte ==> t[i..][1] == open[1]);
    assert t[i + |open|..] == t[i..][|open|..] == after;
    assert after + "" == after;
  }

  lemma RawHashes(t: string, j: nat, n: nat, rest: string)
    requires Here(t, j, HashText(n) + ("\"" + rest), "")
    ensures j + n < |t| && Hashes(t, j) == n && t[j + n] == '"'
    ensures Here(t, j + n + 1, rest, "")
  {
    HereSplit(t, j, HashText(n), "\"" + rest, "");
    assert ("\"" + rest) + "" == "\"" + rest;
    HashesCount(t, j, n, "\"" + rest);
    HereSplit(t, j + n, "\"", rest, "");
    HereLength(t, j + n, "\"", rest + "");
    assert t[j + n..][0] == '"';
  }

  lemma RawToken(t: string, i: nat, byte: bool, n: nat, body: string, next: string)
    requires Here(t, i, PieceText(Raw(byte, n, body)), next) && PieceOk(Raw(byte, n, body), next)
    ensures Recognised(t, i, Raw(byte, n, body))
  {
    RawFound(t, i, byte, n, body, next);
    RawSpan(t, i, byte, n, body, body + "\"" + HashText(n), next);
    RawBlank(t, i, byte, n, |body|);
    RawLength(byte, n, body);
    BlankToken(t, i, Raw(byte, n, body), next);
  }

  /** The token of a raw string, from where its parts are. */
  lemma RawBlank(t: string, i: nat, byte: bool, n: nat, size: nat)
    requires i < |t| && RawStart(t, i) == i + (if byte then 2 else 1) && RawOpen(t, i) == Some(n)
    requires RawEnd(t, RawStart(t, i) + n + 1, n) == RawStart(t, i) + n + 1 + size + 1 + n
    ensures TokenAt(t, i) == Blank(i, i + (if byte then 2 else 1) + n + 1 + size + 1 + n)
  {
  }

  lemma RawFound(t: string, i: nat, byte: bool, n: nat, body: string, next: string)
    requires Here(t, i, PieceText(Raw(byte, n, body)), next)
    ensures Here(t, i, if byte then "br" else "r", HashText(n) + ("\"" + (body + "\"" + HashText(n) + next)))
  {
    var rest := body + "\"" + HashText(n);
    RawShape(byte, n, body);
    HereSplit(t, i, if byte then "br" else "r", HashText(n) + ("\"" + rest), next);
    Regroup("\"", rest, next);
    Regroup(HashText(n), "\"" + rest, next);
  }

  lemma RawSpan(t: string, i: nat, byte: bool, n: nat, body: string, rest: string, next: string)
    requires rest == body + "\"" + HashText(n) && PieceOk(Raw(byte, n, body), next)
    requires Here(t, i, if byte then "br" else "r", HashText(n) + ("\"" + (rest + next)))
    ensures i < |t| && RawStart(t, i) == i + (if byte then 2 else 1) && RawOpen(t, i) == Some(n)
    ensures RawEnd(t, RawStart(t, i) + n + 1, n) == RawStart(t, i) + n + 1 + |body| + 1 + n
  {
    RawOpens(t, i, byte, n, rest + next);
    RawEndsAt(t, RawStart(t, i) + n + 1, n, body, rest, next);
  }

  lemma RawEndsAt(t: string, start: nat, n: nat, body: string, rest: string, next: string)
    requires rest == body + "\"" + HashText(n) && FirstCloser(rest, |body|, n) && Here(t, start, rest + next, "")
    ensures RawEnd(t, start, n) == start + |body| + 1 + n
  {
    HereJoined(t, start, rest, next);
    RawEnds(t, start, n, body, next);
  }

  lemma HereJoined(t: string, i: nat, a: string, b: string)
    requires Here(t, i, a + b, "")
    ensures Here(t, i, a, b)
  {
    assert (a + b) + "" == a + b;
  }

  lemma RawLength(byte: bool, n: nat, body: string)
    ensures |PieceText(Raw(byte, n, body))| == (if byte then 2 else 1) + n + 1 + |body| + 1 + n
  {
  }

  lemma ChrToken(t: string, i: nat, c: char, next: string)
    requires Here(t, i, ['\'', c, '\''], next) && c != '\'' && c != '\\'
    ensures Recognised(t, i, Chr(c))
  {
    First2(t, i, ['\'', c, '\''], next);
    HereLength(t, i, ['\'', c, '\''], next);
    assert t[i..][2] == '\'';
    assert TokenAt(t, i) == Literal(i, i + 3);
  }

  /** A literal that starts with a backslash is dropped whole if and only if it holds
      no quote of its own. */
  lemma EscapedChrToken(t: string, i: nat, body: string, next: string)
    requires Here(t, i, "'\\" + body + "'", next)
    ensures Recognised(t, i, EscapedChr(body)) <==> '\'' !in body
  {
    var k := FirstQuote(body);
    var inner, more := body[..k], body[k..] + "'";
    assert more[0] == '\'';
    assert "'\\" + body + "'" == "'\\" + (inner + "'" + more[1..]);
    First2(t, i, "'\\" + (inner + "'" + more[1..]), next);
    HereSplit(t, i, "'\\", inner + "'" + more[1..], next);
    HereSplit(t, i + 2, inner + "'", more[1..], next);
    QuoteFound(t, i + 2, inner, more[1..] + next);
    assert TokenAt(t, i) == Literal(i, i + 2 + k + 1);
  }

  /** The place of the first quote, or the end. */
  function FirstQuote(s: string): (k: nat)
    ensures k <= |s| && '\'' !in s[..k] && (k < |s| ==> s[k] == '\'')
    ensures k == |s| <==> '\'' !in s
  {
    if s == "" || s[0] == '\'' then 0 else 1 + FirstQuote(s[1..])
  }

  lemma {:induction false} HashQuoteAt(t: string, i: nat)
    requires i <= |t|
    ensures HashQuote(t[i..]) <==> i + Hashes(t, i) < |t| && t[i + Hashes(t, i)] == '"'
    decreases |t| - i
  {
    if i < |t| && t[i] == '#' {
      assert t[i..][1..] == t[i + 1..];
      HashQuoteAt(t, i + 1);
    }
  }

  lemma FindQuoteIn(t: string, i: nat)
    requires i <= |t|
    ensures FindQuote(t, i).Some? <==> '\'' in t[i..]
    decreases |t| - i
  {
    if i < |t| && t[i] != '\'' {
      assert t[i..] == [t[i]] + t[i + 1..];
      FindQuoteIn(t, i + 1);
    }
  }

  /** Past the first character the text is `next`, and past the first two its rest. */
  lemma After(t: string, i: nat, c: char, next: string)
    requires Here(t, i, [c], next)
    ensures i < |t| == i + 1 + |next| && t[i] == c && t[i + 1..] == next
    ensures next != "" ==> t[i + 1] == next[0] && t[i + 2..] == next[1..]
    ensures |next| > 1 ==> t[i + 2] == next[1]
  {
    HereLength(t, i, [c], next);
    HereAt(t, i, [c], next);
    assert t[i + 0] == c;
    assert next != "" ==> t[i + 1 + 0] == next[0];
    assert |next| > 1 ==> t[i + 1 + 1] == next[1];
    assert next != "" ==> t[i + 2..] == t[i + 1..][1..];
  }

  lemma QuoteOpens(t: string, i: nat, c: char, next: string)
    requires Here(t, i, [c], next)
    ensures i < |t| && t[i] == c
    ensures c == 'r' || c == 'b' ==> (RawOpen(t, i).Some? || ByteOpen(t, i) <==> !CodeOk(c, next))
    ensures c != 'r' && c != 'b' ==> RawOpen(t, i).None? && !ByteOpen(t, i)
  {
    After(t, i, c, next);
    HashQuoteAt(t, i + 1);
    if next != "" {
      HashQuoteAt(t, i + 2);
    }
  }

  lemma LiteralOpens(t: string, i: nat, next: string)
    requires Here(t, i, "'", next)
    ensures i < |t| && (CharEnd(t, i).None? <==> CodeOk('\'', next))
  {
    After(t, i, '\'', next);
    if next != "" {
      FindQuoteIn(t, i + 2);
    }
  }

  /** A character is kept as code if and only if it starts nothing. */
  lemma CodeToken(t: string, i: nat, c: char, next: string)
    requires Here(t, i, [c], next)
    ensures Recognised(t, i, Code(c)) <==> CodeOk(c, next)
  {
    After(t, i, c, next);
    QuoteOpens(t, i, c, next);
    if c == '\'' {
      LiteralOpens(t, i, next);
    }
    assert [(c, i)][1..] == [];
    if CodeOk(c, next) {
      assert TokenAt(t, i) == Keep(i);
    } else {
      NotCode(t, i, c);
    }
  }

  /** What is not kept leaves nothing but line breaks. */
  lemma NotCode(t: string, i: nat, c: char)
    requires i < |t| && t[i] == c != '\n' && !TokenAt(t, i).Keep?
    ensures Text(Emit(t, TokenAt(t, i))) != [c]
  {
    var k := TokenAt(t, i);
    if k.Blank? && Newlines(t, k.lo, k.hi) != [] {
      NewlinesPlace(t, k.lo, k.hi, 0);
      TextAt(Newlines(t, k.lo, k.hi), 0);
    }
  }

  lemma PieceToken(t: string, i: nat, p: Piece, next: string)
    requires Here(t, i, PieceText(p), next) && PieceOk(p, next)
    ensures Recognised(t, i, p)
  {
    match p {
      case Code(c) => CodeToken(t, i, c, next);
      case Line(body) => LineToken(t, i, body, next);
      case Block(items) => BlockToken(t, i, items, next);
      case Str(byte, units) => StrToken(t, i, byte, units, next);
      case Raw(byte, n, body) => RawToken(t, i, byte, n, body, next);
      case Chr(c) => ChrToken(t, i, c, next);
      case EscapedChr(body) => EscapedChrToken(t, i, body, next);
    }
  }

  lemma {:induction false} SourceFrom(t: string, i: nat, ps: seq<Piece>)
    requires Here(t, i, Source(ps), "") && SourceOk(ps)
    ensures Text(Kept(t, i)) == BlankedAll(ps)
    decreases |ps|
  {
    HereLength(t, i, Source(ps), "");
    if ps != [] {
      var p, rest := ps[0], Source(ps[1..]);
      assert Source(ps) == PieceText(p) + rest;
      HereSplit(t, i, PieceText(p), rest, "");
      assert rest + "" == rest;
      PieceToken(t, i, p, rest);
      SourceFrom(t, i + |PieceText(p)|, ps[1..]);
      TextAppend(Emit(t, TokenAt(t, i)), Kept(t, i + |PieceText(p)|));
    }
  }

  /** The literal of a quote itself: it is taken to end at the quote it escapes, and
      its closing quote is kept as code, or starts a literal of its own. */
  lemma EscapedQuoteSplits(t: string, i: nat, next: string)
    requires Here(t, i, "'\\''", next)
    ensures i + 4 <= |t| && TokenAt(t, i) == Literal(i, i + 3)
    ensures Recognised(t, i + 3, Code('\'')) <==> CodeOk('\'', next)
  {
    assert "'\\''" == "'\\" + "" + "'" + "'";
    HereLength(t, i, "'\\''", next);
    HereSplit(t, i, "'\\" + "" + "'", "'", next);
    EscapedChrToken(t, i, "", "'" + next);
    First2(t, i, "'\\" + "" + "'", "'" + next);
    CodeToken(t, i + 3, '\'', next);
  }

  /** So the quote literal alone leaves a stray quote. */
  lemma QuoteLiteralLeavesAQuote()
    ensures Stripped("'\\''") == "'"
  {
    var ps := [EscapedChr(""), Code('\'')];
    assert ps[1..] == [Code('\'')] && ps[1..][1..] == [];
    assert Source(ps[1..]) == "'";
    assert Source(ps) == "'\\''";
    assert BlankedAll(ps[1..]) == "'";
    assert BlankedAll(ps) == "'";
    assert SourceOk(ps[1..]);
    StripsPieces(ps);
  }

  /** And in front of a comma and the literal of a double quote it takes the closing
      brace away: what is left of that literal reads as a string. */
  lemma QuoteLiteralSwallowsABrace()
    ensures Stripped("'\\'','\"'}") == ""
  {
    var t := "'\\'','\"'}";
    assert FindQuote(t, 2) == Some(2);
    assert TokenAt(t, 0) == Literal(0, 3);
    assert TokenAt(t, 3) == Literal(3, 6);
    assert StringEnd(t, 7) == StringEnd(t, 8) == StringEnd(t, 9) == 9;
    assert TokenAt(t, 6) == Blank(6, 9);
    assert Newlines(t, 6, 9) == Newlines(t, 7, 9) == Newlines(t, 8, 9) == Newlines(t, 9, 9) == [];
    assert Kept(t, 9) == [] && Kept(t, 6) == [] && Kept(t, 3) == [];
  }

  /** The reversed prefix is scanned from its third character on, which is the opening
      quote: the text of the string is kept as code. */
  lemma ReversedPrefixLeaks()
    ensures Stripped("rb\"a\"") == "a"
  {
    var t := "rb\"a\"";
    assert Hashes(t, 1) == 0 && Hashes(t, 2) == 0;
    assert TokenAt(t, 0) == Blank(0, 3);
    assert TokenAt(t, 3) == Keep(3);
    assert StringEnd(t, 5) == 5 && TokenAt(t, 4) == Blank(4, 5);
    assert Newlines(t, 0, 3) == Newlines(t, 1, 3) == Newlines(t, 2, 3) == Newlines(t, 3, 3) == [];
    assert Newlines(t, 4, 5) == Newlines(t, 5, 5) == [];
    assert Kept(t, 5) == [] && Kept(t, 4) == [] && Kept(t, 3) == [('a', 3)] && Kept(t, 0) == [('a', 3)];
    assert [('a', 3)][1..] == [];
  }

  /** For every well-formed sequence of pieces, the stripper keeps exactly the code,
      drops the character literals, and leaves of every comment and string, however
      nested, escaped or quoted, its line breaks and nothing else. */
  lemma StripsPieces(ps: seq<Piece>)
    requires SourceOk(ps)
    ensures Stripped(Source(ps)) == BlankedAll(ps)
  {
    assert Source(ps)[0..] == Source(ps) + "";
    SourceFrom(Source(ps), 0, ps);
  }
}
