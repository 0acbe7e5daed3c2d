/** Which lines of a stripped Rust source are test code: `test_line_mask` of
    tools/size-gate.py. */
module TestMask {
  import opened Basics
  import CfgPredicate
  import CfgScan

  /** `\s*#\[cfg\(test\)\]` at the start of a line. */
  predicate CfgTest(line: string) {
    "#[cfg(test)]" <= line[CfgPredicate.SkipSpace(line, 0)..]
  }

  /** Only white space may stand in front of the attribute; anything may follow. */
  lemma CfgTestIff(line: string)
    ensures CfgTest(line) <==>
              exists k :: 0 <= k <= |line| - 12 && CfgScan.AllSpace(line[..k]) && line[k..k + 12] == "#[cfg(test)]"
  {
    var i := CfgPredicate.SkipSpace(line, 0);
    if CfgTest(line) {
      SpaceBefore(line, 0, i);
      assert CfgScan.AllSpace(line[..i]) && line[i..i + 12] == line[i..][..12];
    }
    if k :| 0 <= k <= |line| - 12 && CfgScan.AllSpace(line[..k]) && line[k..k + 12] == "#[cfg(test)]" {
      assert line[k] == line[k..k + 12][0];
      forall x | 0 <= x < k ensures CfgScan.IsSpace(line[x]) {
        assert line[x] == line[..k][x];
      }
      SpaceBefore(line, 0, k);
      assert line[k..][..12] == line[k..k + 12];
    }
  }

  lemma {:induction false} SpaceBefore(s: string, i: nat, stop: nat)
    requires i <= stop <= |s|
    ensures CfgPredicate.SkipSpace(s, i) == stop <==>
              (forall k | i <= k < stop :: CfgScan.IsSpace(s[k])) && (stop == |s| || !CfgScan.IsSpace(s[stop]))
    decreases |s| - i
  {
    if i < stop {
      SpaceBefore(s, i + 1, stop);
    }
  }

  /** Opening braces less closing ones. */
  function Net(line: string): (n: int) {
    if line == "" then 0
    else (if line[0] == '{' then 1 else if line[0] == '}' then -1 else 0) + Net(line[1..])
  }

  lemma {:induction false} NetCounts(line: string)
    ensures Net(line) + multiset(line)['}'] == multiset(line)['{']
  {
    if line != "" {
      assert line == [line[0]] + line[1..];
      NetCounts(line[1..]);
    }
  }

  /** The last line of the item under way at `j`, if it ends: at the line that brings
      the depth back to zero, or, with no block opened, at the first semicolon. */
  function ItemEnd(lines: seq<string>, j: nat, depth: int, started: bool): (r: Option<nat>)
    requires j <= |lines|
    ensures r.Some? ==> j <= r.value < |lines|
    decreases |lines| - j
  {
    if j == |lines| then None
    else
      var s := lines[j];
      var d := depth + Net(s);
      var st := started || '{' in s;
      if (st && d <= 0) || (!st && ';' in s) then Some(j) else ItemEnd(lines, j + 1, d, st)
  }

  function Repeat(b: bool, n: nat): (r: seq<bool>)
    ensures |r| == n && forall k | 0 <= k < n :: r[k] == b
  {
    seq(n, _ => b)
  }

  /** The mask of the lines from `i` on. */
  function MaskFrom(lines: seq<string>, i: nat): (r: seq<bool>)
    requires i <= |lines|
    ensures |r| == |lines| - i
    decreases |lines| - i
  {
    if i == |lines| then []
    else if CfgTest(lines[i]) && ItemEnd(lines, i, 0, false).Some? then
      var j := ItemEnd(lines, i, 0, false).value;
      Repeat(true, j + 1 - i) + MaskFrom(lines, j + 1)
    else [false] + MaskFrom(lines, i + 1)
  }

  // ----- the loops

  method FindItemEnd(lines: seq<string>, i: nat) returns (r: Option<nat>)
    requires i <= |lines|
    ensures r == ItemEnd(lines, i, 0, false)
  {
    var depth, started, j := 0, false, i;
    while j < |lines|
      invariant i <= j <= |lines|
      invariant ItemEnd(lines, j, depth, started) == ItemEnd(lines, i, 0, false)
    {
      var s := lines[j];
      depth := depth + Net(s);
      if '{' in s {
        started := true;
      }
      if started && depth <= 0 {
        return Some(j);
      }
      if !started && ';' in s {
        return Some(j);
      }
      j := j + 1;
    }
    r := None;
  }

  method Fill(mask: array<bool>, lo: nat, hi: nat)
    requires lo <= hi <= mask.Length
    modifies mask
    ensures mask[..] == old(mask[..])[..lo] + Repeat(true, hi - lo) + old(mask[..])[hi..]
  {
    for k := lo to hi
      invariant mask[..lo] == old(mask[..lo]) && mask[hi..] == old(mask[hi..])
      invariant forall m | lo <= m < k :: mask[m]
    {
      mask[k] := true;
    }
    assert mask[lo..hi] == Repeat(true, hi - lo);
    assert mask[..] == mask[..lo] + mask[lo..hi] + mask[hi..];
  }

  /** One turn of the outer loop: `done` is the finished front of the mask. */
  method Advance(mask: array<bool>, lines: seq<string>, i: nat, ghost done: seq<bool>)
    returns (next: nat, ghost more: seq<bool>)
    requires i == |done| < |lines| == mask.Length && mask[..] == done + Repeat(false, |lines| - i)
    modifies mask
    ensures i < next == |done + more| <= |lines| && MaskFrom(lines, i) == more + MaskFrom(lines, next)
    ensures mask[..] == done + more + Repeat(false, |lines| - next)
  {
    if CfgTest(lines[i]) {
      var end := FindItemEnd(lines, i);
      if end.Some? {
        next := end.value + 1;
        more := Repeat(true, next - i);
        Cover(done, next - i, |lines| - i);
        Fill(mask, i, next);
        return;
      }
    }
    next, more := i + 1, [false];
    LeaveOne(done, |lines| - i);
  }

  method TestLineMask(lines: seq<string>) returns (mask: array<bool>)
    ensures fresh(mask) && mask[..] == MaskFrom(lines, 0)
  {
    mask := new bool[|lines|](_ => false);
    var i := 0;
    ghost var goal, done := MaskFrom(lines, 0), [];
    assert mask[..] == [] + Repeat(false, |lines|);
    while i < |lines|
      invariant i == |done| <= |lines| && goal == done + MaskFrom(lines, i)
      invariant mask.Length == |lines| && mask[..] == done + Repeat(false, |lines| - i)
      decreases |lines| - i
    {
      ghost var more;
      i, more := Advance(mask, lines, i, done);
      Regroup(done, more, MaskFrom(lines, i));
      done := done + more;
    }
    assert done + Repeat(false, 0) == done && done + MaskFrom(lines, |lines|) == done;
  }

  lemma Cover(done: seq<bool>, n: nat, rest: nat)
    requires n <= rest
    ensures var m := done + Repeat(false, rest);
            m[..|done|] == done && m[|done| + n..] == Repeat(false, rest - n)
  {
  }

  lemma LeaveOne(done: seq<bool>, rest: nat)
    requires rest > 0
    ensures done + Repeat(false, rest) == done + [false] + Repeat(false, rest - 1)
  {
    assert Repeat(false, rest) == [false] + Repeat(false, rest - 1);
  }

  // ----- sources laid out as items

  /** An item on lines of its own. */
  datatype Item = Item(test: bool, lines: seq<string>)

  function Lines(items: seq<Item>): seq<string> {
    if items == [] then [] else items[0].lines + Lines(items[1..])
  }

  function Flags(items: seq<Item>): seq<bool> {
    if items == [] then [] else Repeat(items[0].test, |items[0].lines|) + Flags(items[1..])
  }

  function Depth(lines: seq<string>, n: nat): int
    requires n <= |lines|
  {
    if n == 0 then 0 else Depth(lines, n - 1) + Net(lines[n - 1])
  }

  /** No block: the only line with a semicolon is the last. */
  predicate Braceless(lines: seq<string>) {
    && lines != [] && ';' in lines[|lines| - 1]
    && (forall k | 0 <= k < |lines| :: '{' !in lines[k])
    && forall k | 0 <= k < |lines| - 1 :: ';' !in lines[k]
  }

  /** A block that opens on line `open`, with no semicolon before that line, and
      balances on the last line, not sooner. */
  predicate Braced(lines: seq<string>, open: nat) {
    && open < |lines| && '{' in lines[open]
    && (forall k | 0 <= k < open :: '{' !in lines[k] && ';' !in lines[k])
    && (forall k | open < k < |lines| :: Depth(lines, k) > 0)
    && Depth(lines, |lines|) <= 0
  }

  /** The scan that starts with the item ends with it. */
  ghost predicate Closes(lines: seq<string>) {
    Braceless(lines) || exists open: nat :: Braced(lines, open)
  }

  ghost predicate ItemOk(item: Item) {
    if item.test then
      item.lines != [] && CfgTest(item.lines[0]) && Closes(item.lines)
    else
      forall k | 0 <= k < |item.lines| :: !CfgTest(item.lines[k])
  }

  // ----- the scan of one item

  /** The lines of an item, in place. */
  predicate Here(all: seq<string>, i: nat, lines: seq<string>) {
    i + |lines| <= |all| && forall k | 0 <= k < |lines| :: all[i + k] == lines[k]
  }

  lemma {:induction false} BracelessEnds(all: seq<string>, i: nat, lines: seq<string>, m: nat, depth: int)
    requires Here(all, i, lines) && Braceless(lines) && m < |lines|
    ensures ItemEnd(all, i + m, depth, false) == Some(i + |lines| - 1)
    decreases |lines| - m
  {
    assert all[i + m] == lines[m];
    if m < |lines| - 1 {
      BracelessEnds(all, i, lines, m + 1, depth + Net(lines[m]));
    }
  }

  lemma {:induction false} BracedEnds(all: seq<string>, i: nat, lines: seq<string>, open: nat, m: nat)
    requires Here(all, i, lines) && Braced(lines, open) && m < |lines|
    ensures ItemEnd(all, i + m, Depth(lines, m), m > open) == Some(i + |lines| - 1)
    decreases |lines| - m
  {
    assert all[i + m] == lines[m];
    assert Depth(lines, m + 1) == Depth(lines, m) + Net(lines[m]);
    if m < |lines| - 1 {
      BracedEnds(all, i, lines, open, m + 1);
    }
  }

  /** After `m` lines the scan goes on: no semicolon with no block open, and no
      balanced block. */
  predicate GoesOn(lines: seq<string>, m: nat)
    requires 0 < m <= |lines|
  {
    if NoBlock(lines, m) then ';' !in lines[m - 1] else Depth(lines, m) > 0
  }

  ghost predicate Runs(lines: seq<string>, m: nat)
    requires m <= |lines|
  {
    forall k | 0 < k <= m :: GoesOn(lines, k)
  }

  predicate NoBlock(lines: seq<string>, m: nat)
    requires m <= |lines|
  {
    forall k | 0 <= k < m :: '{' !in lines[k]
  }

  /** Where the scan ends tells how it ran. */
  lemma {:induction false} EndRuns(all: seq<string>, i: nat, lines: seq<string>, m: nat)
    requires Here(all, i, lines) && m < |lines| && Runs(lines, m)
    requires ItemEnd(all, i + m, Depth(lines, m), !NoBlock(lines, m)) == Some(i + |lines| - 1)
    ensures Runs(lines, |lines| - 1) && !GoesOn(lines, |lines|)
    decreases |lines| - m
  {
    assert all[i + m] == lines[m];
    assert Depth(lines, m + 1) == Depth(lines, m) + Net(lines[m]);
    assert NoBlock(lines, m + 1) <==> NoBlock(lines, m) && '{' !in lines[m];
    if m < |lines| - 1 {
      EndRuns(all, i, lines, m + 1);
    }
  }

  function FirstBlock(lines: seq<string>, m: nat): (open: nat)
    requires m <= |lines| && !NoBlock(lines, m)
    ensures open < m && '{' in lines[open] && NoBlock(lines, open)
  {
    if !NoBlock(lines, m - 1) then FirstBlock(lines, m - 1) else m - 1
  }

  lemma RunsCloses(lines: seq<string>)
    requires lines != [] && Runs(lines, |lines| - 1) && !GoesOn(lines, |lines|)
    ensures Closes(lines)
  {
    var n := |lines|;
    if NoBlock(lines, n) {
      forall k | 0 <= k < n - 1 ensures ';' !in lines[k] {
        StaysOut(lines, k);
      }
      assert Braceless(lines);
    } else {
      var open := FirstBlock(lines, n);
      forall k | 0 <= k < open ensures '{' !in lines[k] && ';' !in lines[k] {
        StaysOut(lines, k);
      }
      forall k | open < k < n ensures Depth(lines, k) > 0 {
        assert GoesOn(lines, k) && !NoBlock(lines, k);
      }
      assert Braced(lines, open);
    }
  }

  lemma StaysOut(lines: seq<string>, k: nat)
    requires k + 1 < |lines| && Runs(lines, |lines| - 1) && NoBlock(lines, k + 1)
    ensures ';' !in lines[k]
  {
    assert GoesOn(lines, k + 1);
  }

  /** The scan from the first line of an item ends at its last if and only if the item
      has no block and its only semicolon is on its last line, or has one, with no
      semicolon before it, that balances on the last line and not sooner. */
  lemma EndsWithItem(all: seq<string>, i: nat, lines: seq<string>)
    requires lines != [] && Here(all, i, lines)
    ensures ItemEnd(all, i, 0, false) == Some(i + |lines| - 1) <==> Closes(lines)
  {
    if Braceless(lines) {
      BracelessEnds(all, i, lines, 0, 0);
    } else if open: nat :| Braced(lines, open) {
      BracedEnds(all, i, lines, open, 0);
    }
    if ItemEnd(all, i, 0, false) == Some(i + |lines| - 1) {
      EndRuns(all, i, lines, 0);
      RunsCloses(lines);
    }
  }

  lemma PlainLine(all: seq<string>, i: nat)
    requires i < |all| && !CfgTest(all[i])
    ensures MaskFrom(all, i) == [false] + MaskFrom(all, i + 1)
  {
  }

  lemma RepeatOnce(n: nat, rest: seq<bool>)
    requires n > 0
    ensures [false] + (Repeat(false, n - 1) + rest) == Repeat(false, n) + rest
  {
    Regroup([false], Repeat(false, n - 1), rest);
    assert Repeat(false, n) == [false] + Repeat(false, n - 1);
  }

  lemma {:induction false} PlainLines(all: seq<string>, i: nat, j: nat)
    requires i <= j <= |all| && forall k | i <= k < j :: !CfgTest(all[k])
    ensures MaskFrom(all, i) == Repeat(false, j - i) + MaskFrom(all, j)
    decreases j - i
  {
    if i == j {
      NothingMore(MaskFrom(all, i));
      assert Repeat(false, 0) == [];
    } else {
      PlainLine(all, i);
      PlainLines(all, i + 1, j);
      RepeatOnce(j - i, MaskFrom(all, j));
    }
  }

  lemma MaskStep(all: seq<string>, i: nat, j: nat)
    requires i <= j < |all| && CfgTest(all[i]) && ItemEnd(all, i, 0, false) == Some(j)
    ensures MaskFrom(all, i) == Repeat(true, j + 1 - i) + MaskFrom(all, j + 1)
  {
  }

  /** What is masked is the front that closes, whatever the item was. */
  lemma MaskedUpTo(all: seq<string>, i: nat, head: seq<string>)
    requires Here(all, i, head) && head != [] && CfgTest(head[0]) && Closes(head)
    requires forall k | i + |head| <= k < |all| :: !CfgTest(all[k])
    ensures MaskFrom(all, i) == Repeat(true, |head|) + Repeat(false, |all| - i - |head|)
  {
    TestItem(all, i, Item(true, head));
    PlainToTheEnd(all, i + |head|);
  }

  lemma PlainToTheEnd(all: seq<string>, i: nat)
    requires i <= |all| && forall k | i <= k < |all| :: !CfgTest(all[k])
    ensures MaskFrom(all, i) == Repeat(false, |all| - i)
  {
    PlainLines(all, i, |all|);
    NothingMore(Repeat(false, |all| - i));
  }

  /** So of a function whose parameter list holds an array type, the lines after that
      parameter count as production code. */
  lemma ArrayParameterEndsItem(lines: seq<string>)
    requires lines == ["#[cfg(test)]", "fn f(", "a: [u8; 3],", ") {", "}"]
    ensures !Closes(lines) && MaskFrom(lines, 0) == [true, true, true, false, false]
  {
    FirstThree(lines[0], lines[1], lines[2]);
    LastTwo(lines[3], lines[4]);
    FiveLines(lines);
  }

  lemma FiveLines(lines: seq<string>)
    requires |lines| == 5 && CfgTest(lines[0]) && Braceless([lines[0], lines[1], lines[2]])
    requires !CfgTest(lines[3]) && !CfgTest(lines[4])
    ensures !Closes(lines) && MaskFrom(lines, 0) == [true, true, true, false, false]
  {
    var first := [lines[0], lines[1], lines[2]];
    assert lines[..3] == first;
    MaskedUpTo(lines, 0, first);
    assert forall k | 0 <= k <= 2 :: lines[k] == first[k];
    SemicolonBeforeBlock(lines, 2);
  }

  lemma LastTwo(a: string, b: string)
    requires a == ") {" && b == "}"
    ensures !CfgTest(a) && !CfgTest(b)
  {
    assert a[0] == ')' && b[0] == '}';
  }

  lemma FirstThree(a: string, b: string, c: string)
    requires a == "#[cfg(test)]" && b == "fn f(" && c == "a: [u8; 3],"
    ensures CfgTest(a) && Braceless([a, b, c])
  {
    assert a[0] == '#' && a[0..] == a;
    assert c[6] == ';';
  }

  lemma SemicolonBeforeBlock(lines: seq<string>, m: nat)
    requires m + 1 < |lines| && ';' in lines[m] && forall k | 0 <= k <= m :: '{' !in lines[k]
    ensures !Closes(lines)
  {
  }

  lemma TestItem(all: seq<string>, i: nat, item: Item)
    requires Here(all, i, item.lines) && ItemOk(item) && item.test
    ensures MaskFrom(all, i) == Repeat(true, |item.lines|) + MaskFrom(all, i + |item.lines|)
  {
    assert all[i + 0] == item.lines[0];
    EndsWithItem(all, i, item.lines);
  }

  lemma PlainInside(all: seq<string>, i: nat, lines: seq<string>, m: nat)
    requires Here(all, i, lines) && forall k | m <= k < |lines| :: !CfgTest(lines[k])
    ensures forall k | i + m <= k < i + |lines| :: !CfgTest(all[k])
  {
    forall k | i + m <= k < i + |lines| ensures !CfgTest(all[k]) {
      assert all[i + (k - i)] == lines[k - i];
    }
  }

  lemma ItemMask(all: seq<string>, i: nat, item: Item)
    requires Here(all, i, item.lines) && ItemOk(item)
    ensures MaskFrom(all, i) == Repeat(item.test, |item.lines|) + MaskFrom(all, i + |item.lines|)
  {
    if item.test {
      TestItem(all, i, item);
    } else {
      PlainInside(all, i, item.lines, 0);
      PlainLines(all, i, i + |item.lines|);
    }
  }

  lemma FlagsCons(items: seq<Item>)
    requires items != []
    ensures Flags(items) == Repeat(items[0].test, |items[0].lines|) + Flags(items[1..])
    ensures Lines(items) == items[0].lines + Lines(items[1..])
  {
  }

  lemma CutItem(all: seq<string>, i: nat, lines: seq<string>, rest: seq<string>)
    requires i <= |all| && all[i..] == lines + rest
    ensures Here(all, i, lines) && all[i + |lines|..] == rest
  {
    assert all[i..][|lines|..] == all[i + |lines|..];
    forall k | 0 <= k < |lines| ensures all[i + k] == lines[k] {
      assert all[i..][k] == all[i + k];
    }
  }

  /** For every source laid out as items the mask is true on exactly the lines of the
      test items: none is missed, and none of a following item is taken. */
  lemma MaskIsExact(before: seq<string>, items: seq<Item>)
    requires forall k | 0 <= k < |items| :: ItemOk(items[k])
    ensures MaskFrom(before + Lines(items), |before|) == Flags(items)
  {
    assert (before + Lines(items))[|before|..] == Lines(items);
    ItemsExact(before + Lines(items), |before|, items);
  }

  lemma {:induction false} ItemsExact(all: seq<string>, i: nat, items: seq<Item>)
    requires i <= |all| && all[i..] == Lines(items) && forall k | 0 <= k < |items| :: ItemOk(items[k])
    ensures MaskFrom(all, i) == Flags(items)
    decreases |items|
  {
    if items == [] {
      assert i == |all|;
    } else {
      var item, rest := items[0], items[1..];
      FlagsCons(items);
      CutItem(all, i, item.lines, Lines(rest));
      ItemMask(all, i, item);
      ItemsExact(all, i + |item.lines|, rest);
    }
  }

  // ----- and on no other

  /** An item with lines: a test item starts with its attribute and holds no second one,
      any other item holds none. How the scan of it ends is left open. */
  predicate Shaped(item: Item) {
    && item.lines != [] && CfgTest(item.lines[0]) == item.test
    && forall k | 0 < k < |item.lines| :: !CfgTest(item.lines[k])
  }

  predicate AllShaped(items: seq<Item>) {
    forall k | 0 <= k < |items| :: Shaped(items[k])
  }

  predicate AllTest(items: seq<Item>) {
    forall k | 0 <= k < |items| :: items[k].test
  }

  /** The test items can be cut into groups of neighbours that each close as one item. */
  ghost predicate Grouped(items: seq<Item>) {
    items != [] ==>
      if items[0].test then exists n: nat :: GroupOf(items, n) && Grouped(items[n..]) else Grouped(items[1..])
  }

  ghost predicate GroupOf(items: seq<Item>, n: nat) {
    0 < n <= |items| && AllTest(items[..n]) && Closes(Lines(items[..n]))
  }

  lemma {:induction false} FlagsLength(items: seq<Item>)
    ensures |Flags(items)| == |Lines(items)|
  {
    if items != [] {
      FlagsCons(items);
      FlagsLength(items[1..]);
    }
  }

  lemma {:induction false} LinesCut(items: seq<Item>, n: nat)
    requires n <= |items|
    ensures Lines(items) == Lines(items[..n]) + Lines(items[n..])
  {
    if n > 0 {
      FlagsCons(items);
      LinesCut(items[1..], n - 1);
      LinesHead(items, n);
      assert items[1..][n - 1..] == items[n..];
      Regroup(items[0].lines, Lines(items[1..][..n - 1]), Lines(items[n..]));
    } else {
      NothingMore(Lines(items));
    }
  }

  lemma LinesHead(items: seq<Item>, n: nat)
    requires 0 < n <= |items|
    ensures Lines(items[..n]) == items[0].lines + Lines(items[1..][..n - 1])
  {
    assert items[..n][1..] == items[1..][..n - 1];
    FlagsCons(items[..n]);
  }

  lemma {:induction false} FlagsRun(items: seq<Item>, n: nat)
    requires n <= |items| && AllTest(items[..n])
    ensures Flags(items) == Repeat(true, |Lines(items[..n])|) + Flags(items[n..])
    decreases n
  {
    if n > 0 {
      FlagsRun(items[1..], n - 1) by {
        assert items[..n][1..] == items[1..][..n - 1];
      }
      FlagsRunCons(items, n);
    } else {
      NothingMore(Flags(items));
      assert Repeat(true, 0) == [];
    }
  }

  lemma FlagsRunCons(items: seq<Item>, n: nat)
    requires 0 < n <= |items| && AllTest(items[..n])
    requires Flags(items[1..]) == Repeat(true, |Lines(items[1..][..n - 1])|) + Flags(items[1..][n - 1..])
    ensures Flags(items) == Repeat(true, |Lines(items[..n])|) + Flags(items[n..])
  {
    FlagsCons(items);
    LinesHead(items, n);
    assert items[..n][0].test && items[1..][n - 1..] == items[n..];
    RepeatMore(|items[0].lines|, |Lines(items[1..][..n - 1])|, Flags(items[n..]));
  }

  lemma RepeatMore(a: nat, b: nat, rest: seq<bool>)
    ensures Repeat(true, a) + (Repeat(true, b) + rest) == Repeat(true, a + b) + rest
  {
    Regroup(Repeat(true, a), Repeat(true, b), rest);
    assert Repeat(true, a) + Repeat(true, b) == Repeat(true, a + b);
  }

  /** Marked lines that stop in front of an attribute, an unmarked line or the end stop
      where an item does. */
  lemma {:induction false} StopsAtItem(items: seq<Item>, m: nat) returns (n: nat)
    requires AllShaped(items) && 0 < m <= |Lines(items)| == |Flags(items)|
    requires forall k | 0 <= k < m :: Flags(items)[k]
    requires m < |Lines(items)| && Flags(items)[m] ==> CfgTest(Lines(items)[m])
    ensures 0 < n <= |items| && AllTest(items[..n]) && |Lines(items[..n])| == m
    decreases |items|
  {
    assert items != [];
    var item, rest := items[0], items[1..];
    FlagsCons(items);
    FlagsLength(rest);
    var w := |item.lines|;
    assert Flags(items)[0] == item.test;
    MarkedThrough(items, m);
    if m == w {
      n := 1;
      OneItem(item);
      assert items[..1] == [item];
    } else {
      assert forall k | 0 <= k < m - w :: Flags(rest)[k] == Flags(items)[w + k];
      assert m < |Lines(items)| ==> Flags(rest)[m - w] == Flags(items)[m] && Lines(rest)[m - w] == Lines(items)[m];
      n := StopsAtItem(rest, m - w);
      n := n + 1;
      assert rest[..n - 1] == items[..n][1..];
      LinesHead(items, n);
    }
  }

  lemma MarkedThrough(items: seq<Item>, m: nat)
    requires items != [] && Shaped(items[0]) && 0 < m <= |Lines(items)| == |Flags(items)|
    requires Flags(items)[0] && (m < |Lines(items)| && Flags(items)[m] ==> CfgTest(Lines(items)[m]))
    ensures m >= |items[0].lines|
  {
    FlagsCons(items);
    var w := |items[0].lines|;
    assert forall k | 0 <= k < w :: Flags(items)[k] == items[0].test && Lines(items)[k] == items[0].lines[k];
  }

  lemma OneItem(item: Item)
    ensures Lines([item]) == item.lines
  {
    FlagsCons([item]);
    NothingMore(item.lines);
  }

  lemma Tails(a: seq<bool>, b: seq<bool>, c: seq<bool>)
    ensures a + b == a + c <==> b == c
  {
    assert (a + b)[|a|..] == b && (a + c)[|a|..] == c;
  }

  /** The scan from the first item ends with a group, if the items have one there. */
  lemma GroupEnds(all: seq<string>, i: nat, items: seq<Item>, n: nat)
    requires i <= |all| && all[i..] == Lines(items) && AllShaped(items)
    requires 0 < n <= |items| && AllTest(items[..n])
    ensures var m := |Lines(items[..n])|;
            && 0 < m <= |all| - i && all[i + m..] == Lines(items[n..]) && CfgTest(all[i])
            && (ItemEnd(all, i, 0, false) == Some(i + m - 1) <==> Closes(Lines(items[..n])))
  {
    var lines := Lines(items[..n]);
    LinesCut(items, n);
    CutItem(all, i, lines, Lines(items[n..]));
    LinesHead(items, n);
    assert items[..n][0].test && all[i + 0] == lines[0] == items[0].lines[0];
    EndsWithItem(all, i, lines);
  }

  /** Behind a marked item comes an attribute, an unmarked line or the end. */
  lemma MarksEnd(all: seq<string>, i: nat, m: nat)
    requires 0 < m <= |all| - i && CfgTest(all[i]) && ItemEnd(all, i, 0, false) == Some(i + m - 1)
    ensures forall k | 0 <= k < m :: MaskFrom(all, i)[k]
    ensures m < |all| - i && MaskFrom(all, i)[m] ==> CfgTest(all[i..][m])
  {
    MaskStep(all, i, i + m - 1);
    Joint(Repeat(true, m), MaskFrom(all, i + m));
    if m < |all| - i {
      MarkedIsTest(all, i + m);
    }
  }

  lemma MarkedIsTest(all: seq<string>, i: nat)
    requires i < |all|
    ensures MaskFrom(all, i)[0] ==> CfgTest(all[i])
  {
    if !CfgTest(all[i]) {
      PlainLine(all, i);
    }
  }

  lemma Joint(a: seq<bool>, b: seq<bool>)
    ensures forall k | 0 <= k < |a| :: (a + b)[k] == a[k]
    ensures b != [] ==> (a + b)[|a|] == b[0]
  {
  }

  /** A mask that starts with marks and then goes on right ends with a group. */
  lemma GroupFrom(all: seq<string>, i: nat, items: seq<Item>) returns (n: nat)
    requires i <= |all| && all[i..] == Lines(items) && AllShaped(items)
    requires items != [] && items[0].test && MaskFrom(all, i) == Flags(items)
    ensures GroupOf(items, n)
  {
    FlagsCons(items);
    assert all[i] == all[i..][0] && MaskFrom(all, i)[0];
    var m := ItemEnd(all, i, 0, false).value + 1 - i;
    MarksEnd(all, i, m);
    n := StopsAtItem(items, m);
    GroupEnds(all, i, items, n);
  }

  lemma {:induction false} ItemsIff(all: seq<string>, i: nat, items: seq<Item>)
    requires i <= |all| && all[i..] == Lines(items) && AllShaped(items)
    ensures MaskFrom(all, i) == Flags(items) <==> Grouped(items)
    decreases |items|
  {
    if items == [] {
      assert i == |all|;
    } else if items[0].test {
      if MaskFrom(all, i) == Flags(items) {
        var n := GroupFrom(all, i, items);
        GroupTurn(all, i, items, n);
      }
      if n: nat :| GroupOf(items, n) && Grouped(items[n..]) {
        GroupTurn(all, i, items, n);
      }
    } else {
      PlainIff(all, i, items);
    }
  }

  lemma GroupStep(all: seq<string>, i: nat, items: seq<Item>, n: nat)
    requires i <= |all| && all[i..] == Lines(items) && AllShaped(items) && GroupOf(items, n)
    ensures var m := |Lines(items[..n])|;
            && 0 < m <= |all| - i && all[i + m..] == Lines(items[n..])
            && MaskFrom(all, i) == Repeat(true, m) + MaskFrom(all, i + m)
  {
    GroupEnds(all, i, items, n);
    MaskStep(all, i, i + |Lines(items[..n])| - 1);
  }

  lemma {:induction false} GroupTurn(all: seq<string>, i: nat, items: seq<Item>, n: nat)
    requires i <= |all| && all[i..] == Lines(items) && AllShaped(items) && GroupOf(items, n)
    ensures MaskFrom(all, i) == Flags(items) <==> Grouped(items[n..])
    decreases |items|, 0
  {
    var next := i + |Lines(items[..n])|;
    GroupStep(all, i, items, n);
    ItemsIff(all, next, items[n..]);
    GroupIff(items, n, MaskFrom(all, i), MaskFrom(all, next));
  }

  lemma GroupIff(items: seq<Item>, n: nat, mask: seq<bool>, tail: seq<bool>)
    requires n <= |items| && AllTest(items[..n]) && mask == Repeat(true, |Lines(items[..n])|) + tail
    ensures mask == Flags(items) <==> tail == Flags(items[n..])
  {
    FlagsRun(items, n);
    Tails(Repeat(true, |Lines(items[..n])|), tail, Flags(items[n..]));
  }

  lemma {:induction false} PlainIff(all: seq<string>, i: nat, items: seq<Item>)
    requires i <= |all| && all[i..] == Lines(items) && AllShaped(items) && items != [] && !items[0].test
    ensures MaskFrom(all, i) == Flags(items) <==> Grouped(items)
    decreases |items|, 0
  {
    var item, rest := items[0], items[1..];
    FlagsCons(items);
    CutItem(all, i, item.lines, Lines(rest));
    ItemMask(all, i, item);
    ItemsIff(all, i + |item.lines|, rest);
    Tails(Repeat(false, |item.lines|), MaskFrom(all, i + |item.lines|), Flags(rest));
  }

  /** The mask of a source is right if and only if its test items can be cut into groups
      of neighbours that each close as one item. */
  lemma MaskIsExactIff(before: seq<string>, items: seq<Item>)
    requires AllShaped(items)
    ensures MaskFrom(before + Lines(items), |before|) == Flags(items) <==> Grouped(items)
  {
    assert (before + Lines(items))[|before|..] == Lines(items);
    ItemsIff(before + Lines(items), |before|, items);
  }

  /** Every test item closes. */
  ghost predicate AllClose(items: seq<Item>) {
    forall k | 0 <= k < |items| && items[k].test :: Closes(items[k].lines)
  }

  /** A test item that does not close has no test item behind it. */
  ghost predicate Apart(items: seq<Item>) {
    forall k | 0 <= k < |items| - 1 && items[k].test && items[k + 1].test :: Closes(items[k].lines)
  }

  /** With no two test items side by side, or the first of such two closing by itself,
      the mask is right if and only if every test item closes. */
  lemma {:induction false} GroupedApart(items: seq<Item>)
    requires AllShaped(items) && Apart(items)
    ensures Grouped(items) <==> AllClose(items)
    decreases |items|
  {
    if items != [] {
      var item, rest := items[0], items[1..];
      assert forall k | 0 < k < |items| :: items[k] == rest[k - 1];
      GroupedApart(rest);
      if item.test {
        OneItem(item);
        assert items[..1] == [item];
        if n: nat :| GroupOf(items, n) && Grouped(items[n..]) {
          OneGroup(items, n);
        }
        if AllClose(items) {
          assert GroupOf(items, 1) && Grouped(items[1..]);
        }
      }
    }
  }

  /** Of two ends of one scan there is only one, so a group that starts with an item that
      closes is that item. */
  lemma OneGroup(items: seq<Item>, n: nat)
    requires AllShaped(items) && Apart(items) && GroupOf(items, n)
    ensures n == 1
  {
    if n > 1 {
      var lines, front := Lines(items[..n]), items[0].lines;
      assert items[..n][0].test && items[..n][1].test;
      LinesHead(items, n);
      assert items[1..][..n - 1] != [] && items[1..][..n - 1][0] == items[1];
      FlagsCons(items[1..][..n - 1]);
      EndsWithItem(lines, 0, lines);
      EndsWithItem(lines, 0, front);
    }
  }

  /** An item whose scan does not end inside it runs on: the first line of the production
      item behind it counts as test code exactly when the scan ends anywhere. */
  lemma RunsOn(all: seq<string>, i: nat, lines: seq<string>)
    requires Here(all, i, lines) && Shaped(Item(true, lines)) && ItemEnd(lines, 0, 0, false).None?
    requires i + |lines| < |all| && !CfgTest(all[i + |lines|])
    ensures MaskFrom(all, i)[|lines|] <==> ItemEnd(all, i, 0, false).Some?
  {
    assert all[i + 0] == lines[0];
    EndsLater(all, i, lines, 0, 0, false);
    PlainInside(all, i, lines, 1);
    MarkedBehind(all, i, |lines|);
  }

  lemma MarkedBehind(all: seq<string>, i: nat, n: nat)
    requires 0 < n && i + n < |all| && CfgTest(all[i]) && forall k | i < k <= i + n :: !CfgTest(all[k])
    requires var r := ItemEnd(all, i, 0, false); r.Some? ==> r.value >= i + n
    ensures MaskFrom(all, i)[n] <==> ItemEnd(all, i, 0, false).Some?
  {
    var r := ItemEnd(all, i, 0, false);
    if r.Some? {
      MaskStep(all, i, r.value);
      Joint(Repeat(true, r.value + 1 - i), MaskFrom(all, r.value + 1));
    } else {
      NeverEnds(all, i, n);
    }
  }

  lemma NeverEnds(all: seq<string>, i: nat, n: nat)
    requires 0 < n && i + n < |all| && ItemEnd(all, i, 0, false).None?
    requires forall k | i < k <= i + n :: !CfgTest(all[k])
    ensures !MaskFrom(all, i)[n]
  {
    PlainLines(all, i + 1, i + n);
    PlainLine(all, i + n);
    assert MaskFrom(all, i) == [false] + MaskFrom(all, i + 1);
  }

  lemma {:induction false} EndsLater(all: seq<string>, i: nat, lines: seq<string>, m: nat, depth: int, started: bool)
    requires Here(all, i, lines) && m <= |lines| && ItemEnd(lines, m, depth, started).None?
    ensures var r := ItemEnd(all, i + m, depth, started); r.Some? ==> r.value >= i + |lines|
    decreases |lines| - m
  {
    if m < |lines| {
      var s := lines[m];
      assert all[i + m] == s;
      EndsLater(all, i, lines, m + 1, depth + Net(s), started || '{' in s);
    }
  }

  /** So of a test-only field in front of the end of its structure: the function after
      the structure counts as test code, all but its closing line. */
  lemma FieldMasksFunction(lines: seq<string>)
    requires lines == ["#[cfg(test)]", "hook: u8,", "}", "fn prod() {", "body", "}"]
    ensures MaskFrom(lines, 0) == [true, true, true, true, false, false]
  {
    FieldLines(lines[0], lines[1], lines[2], lines[3]);
    PlainBody(lines[4], lines[5]);
    SixLines(lines);
  }

  lemma SixLines(lines: seq<string>)
    requires |lines| == 6 && CfgTest(lines[0]) && Braced([lines[0], lines[1], lines[2], lines[3]], 3)
    requires !CfgTest(lines[4]) && !CfgTest(lines[5])
    ensures MaskFrom(lines, 0) == [true, true, true, true, false, false]
  {
    var front := [lines[0], lines[1], lines[2], lines[3]];
    assert lines[..4] == front;
    MaskedUpTo(lines, 0, front);
  }

  lemma PlainBody(a: string, b: string)
    requires a == "body" && b == "}"
    ensures !CfgTest(a) && !CfgTest(b)
  {
    assert a[0] == 'b' && b[0] == '}';
  }

  lemma NetCons(s: string)
    requires s != ""
    ensures Net(s) == (if s[0] == '{' then 1 else if s[0] == '}' then -1 else 0) + Net(s[1..])
  {
  }

  lemma {:induction false} NetNone(s: string)
    requires '{' !in s && '}' !in s
    ensures Net(s) == 0
  {
    if s != "" {
      NetNone(s[1..]);
    }
  }

  lemma FieldLines(a: string, b: string, c: string, d: string)
    requires a == "#[cfg(test)]" && b == "hook: u8," && c == "}" && d == "fn prod() {"
    ensures CfgTest(a) && Braced([a, b, c, d], 3)
  {
    AttributeLine(a);
    FieldLine(b);
    NetCons(c);
    NetOpens(d);
    BracedAtFourth(a, b, c, d);
  }

  lemma AttributeLine(a: string)
    requires a == "#[cfg(test)]"
    ensures CfgTest(a) && Net(a) == 0 && '{' !in a && ';' !in a
  {
    StartsAtOnce(a);
    NetNone(a);
  }

  lemma StartsAtOnce(a: string)
    requires a == "#[cfg(test)]"
    ensures CfgTest(a)
  {
    assert a[0] == '#' && a[0..] == a;
  }

  lemma FieldLine(b: string)
    requires b == "hook: u8,"
    ensures Net(b) == 0 && '{' !in b && ';' !in b
  {
    NetNone(b);
  }

  lemma BracedAtFourth(a: string, b: string, c: string, d: string)
    requires Net(a) == 0 && Net(b) == 0 && Net(c) == -1 && Net(d) == 1
    requires '{' !in a && '{' !in b && '{' !in c && '{' in d
    requires ';' !in a && ';' !in b && ';' !in c
    ensures Braced([a, b, c, d], 3)
  {
    FourDeep([a, b, c, d]);
  }

  lemma NetOpens(d: string)
    requires d == "fn prod() {"
    ensures Net(d) == 1 && '{' in d
  {
    assert d[10] == '{' && d == d[..10] + d[10..];
    NetNone(d[..10]);
    NetCons(d[10..]);
    NetJoin(d[..10], d[10..]);
  }

  lemma {:induction false} NetJoin(a: string, b: string)
    ensures Net(a + b) == Net(a) + Net(b)
  {
    if a != "" {
      assert (a + b)[1..] == a[1..] + b;
      NetJoin(a[1..], b);
    } else {
      NothingMore(b);
    }
  }

  lemma FourDeep(s: seq<string>)
    requires |s| == 4
    ensures Depth(s, 4) == Net(s[0]) + Net(s[1]) + Net(s[2]) + Net(s[3])
  {
    assert Depth(s, 1) == Depth(s, 0) + Net(s[0]);
    assert Depth(s, 2) == Depth(s, 1) + Net(s[1]);
    assert Depth(s, 3) == Depth(s, 2) + Net(s[2]);
  }
}
