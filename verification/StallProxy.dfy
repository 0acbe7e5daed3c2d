/** The stall proxy of bench/capability-corpus/roundtrip.py: chosen article requests
    of one connection are held until enough other commands have gone by and some time
    has passed, or a deadline comes. Time is a number of milliseconds. */
module StallProxy {
  import opened Basics
  import opened Bytes
  import opened CrlfLines

  type Line = seq<Byte>

  datatype Rule = Rule(pattern: string, delay: int, afterOthers: int, maxHold: int, onlyFirst: bool)

  /** The plan, and how patterns match (`fnmatch`). */
  datatype Plan = Plan(rules: seq<Rule>, fnmatch: (string, string) -> bool)

  // ----- which requests a plan holds

  predicate IsBlank(b: Byte) { b == 32 || 9 <= b <= 13 }

  function Upper(b: Byte): Byte { if 97 <= b <= 122 then b - 32 else b }

  /** "ARTICLE", "BODY", "HEAD" and "STAT", as bytes. */
  const COMMANDS: seq<seq<Byte>> :=
    [[65, 82, 84, 73, 67, 76, 69], [66, 79, 68, 89], [72, 69, 65, 68], [83, 84, 65, 84]]

  function StartsWith(line: Line, word: seq<Byte>): bool {
    |word| <= |line| && forall i | 0 <= i < |word| :: Upper(line[i]) == word[i]
  }

  function SkipBlanks(line: Line, i: nat): (j: nat)
    requires i <= |line|
    ensures i <= j <= |line|
    decreases |line| - i
  {
    if i < |line| && IsBlank(line[i]) then SkipBlanks(line, i + 1) else i
  }

  function FindClose(line: Line, i: nat): (r: Option<nat>)
    ensures r.Some? ==> i <= r.value < |line|
    decreases |line| - i
  {
    if i >= |line| then None else if line[i] == 62 then Some(i) else FindClose(line, i + 1)
  }

  /** The message-id after a command word, brackets included, decoded as latin-1. */
  function IdAfter(line: Line, word: seq<Byte>): (r: Option<string>) {
    if !StartsWith(line, word) then None
    else
      var i := SkipBlanks(line, |word|);
      if i == |word| || i == |line| || line[i] != 60 then None
      else match FindClose(line, i + 1)
        case None => None
        case Some(j) => Some(seq(j + 1 - i, k requires 0 <= k < j + 1 - i => line[i + k] as char))
  }

  /** `ARTICLE_CMD`: the first command word that fits. */
  function MessageId(line: Line): (r: Option<string>) {
    var a := IdAfter(line, COMMANDS[0]);
    var b := IdAfter(line, COMMANDS[1]);
    var h := IdAfter(line, COMMANDS[2]);
    if a.Some? then a else if b.Some? then b else if h.Some? then h else IdAfter(line, COMMANDS[3])
  }

  function FirstMatch(plan: Plan, i: nat, mid: string): (r: Option<Rule>)
    requires i <= |plan.rules|
    decreases |plan.rules| - i
  {
    if i == |plan.rules| then None
    else if plan.fnmatch(mid, plan.rules[i].pattern) then Some(plan.rules[i])
    else FirstMatch(plan, i + 1, mid)
  }

  /** The first rule that matches decides, and without one there is none. */
  lemma {:induction false} FirstMatchIs(plan: Plan, i: nat, mid: string, k: nat)
    requires i <= k <= |plan.rules|
    requires forall j | i <= j < k :: !plan.fnmatch(mid, plan.rules[j].pattern)
    ensures k == |plan.rules| ==> FirstMatch(plan, i, mid) == None
    ensures k < |plan.rules| && plan.fnmatch(mid, plan.rules[k].pattern) ==>
              FirstMatch(plan, i, mid) == Some(plan.rules[k])
    decreases k - i
  {
    if i < k {
      FirstMatchIs(plan, i + 1, mid, k);
    }
  }

  type Seen = map<string, nat>

  function Count(seen: Seen, mid: string): nat { if mid in seen then seen[mid] else 0 }

  /** `rule_for`: the rule that applies now, and the updated counts. */
  function RuleFor(plan: Plan, seen: Seen, mid: string): (r: (Option<Rule>, Seen)) {
    match FirstMatch(plan, 0, mid)
    case None => (None, seen)
    case Some(rule) =>
      if !rule.onlyFirst then (Some(rule), seen)
      else
        var n := Count(seen, mid);
        (if n > 0 then None else Some(rule), seen[mid := n + 1])
  }

  // ----- the state of a run

  /** A held request. `id` numbers the lines of the connection; `since` is when the
      request came in, and `base` the counter of forwarded commands then. */
  datatype Held =
    Held(id: nat, line: Line, mid: string, rule: Rule, since: int, base: nat, readyAt: int, deadline: int)
  {
    function Gate(): int { base + rule.afterOthers }
  }

  /** A command sent upstream: at once, or by a release pass that read the clock and
      the counter. */
  datatype Sent =
    | Direct(id: nat, line: Line)
    | Released(h: Held, now: int, counter: nat)
  {
    function Id(): nat { if Direct? then id else h.id }
    function Text(): Line { if Direct? then line else h.line }
  }

  /** `input` is all the client has sent; `others` counts what other connections have
      forwarded through the shared counter, and `asked` lists the ids they asked for. */
  datatype State = State(input: seq<Byte>, buf: seq<Byte>, count: nat, held: seq<Held>, sent: seq<Sent>,
                         forwarded: nat, seen: Seen, others: nat, asked: seq<string>)

  const START := State([], [], 0, [], [], 0, map[], 0, [])

  // ----- the steps

  function Receive(s: State, data: seq<Byte>): State {
    s.(input := s.input + data, buf := s.buf + data)
  }

  /** `_rule`: the message-id and the rule that holds this line, if any. */
  function Verdict(plan: Plan, seen: Seen, line: Line): (r: (Option<(string, Rule)>, Seen)) {
    match MessageId(line)
    case None => (None, seen)
    case Some(mid) =>
      match RuleFor(plan, seen, mid)
      case (None, seen') => (None, seen')
      case (Some(rule), seen') => (Some((mid, rule)), seen')
  }

  function NextLine(s: State): Line
    requires LineLength(s.buf) > 0
  {
    s.buf[..LineLength(s.buf)]
  }

  /** The entry of the hold list for the next line, at time `now`. */
  function Hold(s: State, line: Line, mid: string, rule: Rule, now: int): Held {
    Held(s.count, line, mid, rule, now, s.forwarded, now + rule.delay, now + rule.maxHold)
  }

  /** One complete line, once it is judged: forwarded, or put on hold at time `now`. */
  function Apply(s: State, verdict: Option<(string, Rule)>, seen: Seen, now: int): (s': State)
    requires LineLength(s.buf) > 0
  {
    var line := NextLine(s);
    var t := s.(buf := s.buf[|line|..], count := s.count + 1, seen := seen);
    match verdict
    case None => Forward(t, Direct(s.count, line))
    case Some((mid, rule)) => t.(held := s.held + [Hold(s, line, mid, rule, now)])
  }

  function TakeLine(plan: Plan, s: State, now: int): (s': State)
    requires LineLength(s.buf) > 0
  {
    var (verdict, seen) := Verdict(plan, s.seen, NextLine(s));
    Apply(s, verdict, seen, now)
  }

  function Forward(s: State, x: Sent): State {
    s.(sent := s.sent + [x], forwarded := s.forwarded + 1)
  }

  predicate Due(h: Held, now: int, counter: nat) {
    (counter >= h.Gate() && now >= h.readyAt) || now >= h.deadline
  }

  function DueOf(held: seq<Held>, now: int, counter: nat): (r: seq<Sent>) {
    if held == [] then []
    else (if Due(held[0], now, counter) then [Released(held[0], now, counter)] else []) + DueOf(held[1..], now, counter)
  }

  function KeptOf(held: seq<Held>, now: int, counter: nat): (r: seq<Held>) {
    if held == [] then []
    else (if Due(held[0], now, counter) then [] else [held[0]]) + KeptOf(held[1..], now, counter)
  }

  /** A release pass: the clock and the counter are read once, at its start. */
  function Release(s: State, now: int): (s': State) {
    var due := DueOf(s.held, now, s.forwarded);
    s.(sent := s.sent + due, held := KeptOf(s.held, now, s.forwarded), forwarded := s.forwarded + |due|)
  }

  /** Another connection forwards a command, or asks for an article. */
  function OtherForward(s: State): State { s.(forwarded := s.forwarded + 1, others := s.others + 1) }

  function OtherRequest(plan: Plan, s: State, mid: string): State {
    s.(seen := RuleFor(plan, s.seen, mid).1, asked := s.asked + [mid])
  }

  datatype Event =
    | Chunk(data: seq<Byte>)
    | Take(now: int)
    | Pass(now: int)
    | Elsewhere
    | AskedElsewhere(mid: string)

  /** A step of a run; taking a line needs one. */
  function Step(plan: Plan, s: State, e: Event): State {
    match e
    case Chunk(data) => Receive(s, data)
    case Take(now) => if LineLength(s.buf) > 0 then TakeLine(plan, s, now) else s
    case Pass(now) => Release(s, now)
    case Elsewhere => OtherForward(s)
    case AskedElsewhere(mid) => OtherRequest(plan, s, mid)
  }

  function Run(plan: Plan, events: seq<Event>): State {
    if events == [] then START
    else Step(plan, Run(plan, events[..|events| - 1]), events[|events| - 1])
  }

  // ----- conservation: every line is forwarded once or held

  /** How often a line number occurs among the commands sent, and among those held. */
  function TimesSent(sent: seq<Sent>, id: nat): nat {
    if sent == [] then 0 else (if sent[0].Id() == id then 1 else 0) + TimesSent(sent[1..], id)
  }

  function TimesHeld(held: seq<Held>, id: nat): nat {
    if held == [] then 0 else (if held[0].id == id then 1 else 0) + TimesHeld(held[1..], id)
  }

  lemma {:induction false} SentAppend(a: seq<Sent>, b: seq<Sent>, id: nat)
    ensures TimesSent(a + b, id) == TimesSent(a, id) + TimesSent(b, id)
  {
    if a == [] {
      assert a + b == b;
    } else {
      assert (a + b)[1..] == a[1..] + b;
      SentAppend(a[1..], b, id);
    }
  }

  lemma {:induction false} HeldAppend(a: seq<Held>, b: seq<Held>, id: nat)
    ensures TimesHeld(a + b, id) == TimesHeld(a, id) + TimesHeld(b, id)
  {
    if a == [] {
      assert a + b == b;
    } else {
      assert (a + b)[1..] == a[1..] + b;
      HeldAppend(a[1..], b, id);
    }
  }

  lemma {:induction false} ReleaseConserves(held: seq<Held>, now: int, counter: nat, id: nat)
    ensures TimesSent(DueOf(held, now, counter), id) + TimesHeld(KeptOf(held, now, counter), id) == TimesHeld(held, id)
  {
    if held != [] {
      ReleaseConserves(held[1..], now, counter, id);
      var due, kept := DueOf(held[1..], now, counter), KeptOf(held[1..], now, counter);
      if Due(held[0], now, counter) {
        SentAppend([Released(held[0], now, counter)], due, id);
        assert [] + kept == kept;
      } else {
        HeldAppend([held[0]], kept, id);
        assert [] + due == due;
      }
    }
  }

  /** Each line taken so far is in exactly one place, once. */
  ghost predicate Conserved(s: State) {
    forall id: nat :: TimesSent(s.sent, id) + TimesHeld(s.held, id) == if id < s.count then 1 else 0
  }

  lemma TakeConserves(s: State, verdict: Option<(string, Rule)>, seen: Seen, now: int)
    requires LineLength(s.buf) > 0 && Conserved(s)
    ensures Conserved(Apply(s, verdict, seen, now))
  {
    var line := NextLine(s);
    forall id: nat
      ensures var s' := Apply(s, verdict, seen, now);
              TimesSent(s'.sent, id) + TimesHeld(s'.held, id) == if id < s'.count then 1 else 0
    {
      match verdict {
        case None => SentAppend(s.sent, [Direct(s.count, line)], id);
        case Some((mid, rule)) => HeldAppend(s.held, [Hold(s, line, mid, rule, now)], id);
      }
    }
  }

  lemma PassConserves(s: State, now: int)
    requires Conserved(s)
    ensures Conserved(Release(s, now))
  {
    forall id: nat
      ensures var s' := Release(s, now);
              TimesSent(s'.sent, id) + TimesHeld(s'.held, id) == if id < s'.count then 1 else 0
    {
      ReleaseConserves(s.held, now, s.forwarded, id);
      SentAppend(s.sent, DueOf(s.held, now, s.forwarded), id);
    }
  }

  // ----- framing: the lines taken are the lines of the stream

  ghost predicate Framed(s: State) {
    && s.count <= |Lines(s.input)|
    && Lines(s.input)[s.count..] == Lines(s.buf)
    && Remainder(s.input) == Remainder(s.buf)
  }

  lemma ReceiveFrames(s: State, data: seq<Byte>)
    requires Framed(s)
    ensures Framed(Receive(s, data)) && Lines(s.input) <= Lines(s.input + data)
  {
    LinesOfChunks(s.input, data);
    LinesOfChunks(s.buf, data);
    DropAppend(Lines(s.input), Lines(Remainder(s.input) + data), s.count);
  }

  lemma DropAppend(a: seq<Line>, b: seq<Line>, n: nat)
    requires n <= |a|
    ensures (a + b)[n..] == a[n..] + b
  {
  }

  lemma TakeFrames(s: State, verdict: Option<(string, Rule)>, seen: Seen, now: int)
    requires LineLength(s.buf) > 0 && Framed(s)
    ensures Framed(Apply(s, verdict, seen, now))
    ensures s.count < |Lines(s.input)| && NextLine(s) == Lines(s.input)[s.count]
  {
    var all, line, rest := Lines(s.input), NextLine(s), s.buf[LineLength(s.buf)..];
    assert Lines(s.buf) == [line] + Lines(rest);
    assert all[s.count..][0] == line;
    assert all[s.count + 1..] == all[s.count..][1..];
  }

  // ----- what a release pass does

  lemma {:induction false} DueMembers(held: seq<Held>, now: int, counter: nat)
    ensures forall x | x in DueOf(held, now, counter) ::
              x.Released? && x.h in held && x.now == now && x.counter == counter && Due(x.h, now, counter)
    ensures forall h | h in held && Due(h, now, counter) :: Released(h, now, counter) in DueOf(held, now, counter)
  {
    if held != [] {
      DueMembers(held[1..], now, counter);
    }
  }

  lemma {:induction false} KeptMembers(held: seq<Held>, now: int, counter: nat)
    ensures forall h :: h in KeptOf(held, now, counter) <==> h in held && !Due(h, now, counter)
  {
    if held != [] {
      KeptMembers(held[1..], now, counter);
    }
  }

  /** Any pass at or after its deadline forwards a held line, and what stays on hold
      is neither due nor late. */
  lemma PassReleases(s: State, now: int)
    ensures var s' := Release(s, now);
            && s.sent <= s'.sent
            && (forall h | h in s.held && now >= h.deadline ::
                  h !in s'.held && Released(h, now, s.forwarded) in s'.sent)
            && forall h | h in s'.held ::
                 h in s.held && now < h.deadline && (s.forwarded < h.Gate() || now < h.readyAt)
  {
    DueMembers(s.held, now, s.forwarded);
    KeptMembers(s.held, now, s.forwarded);
  }

  // ----- order

  predicate Ascending(held: seq<Held>, bound: nat) {
    && (forall i | 0 <= i < |held| :: held[i].id < bound)
    && forall i, j | 0 <= i < j < |held| :: held[i].id < held[j].id
  }

  /** Lines forwarded at once keep their order. */
  predicate DirectInOrder(sent: seq<Sent>, bound: nat) {
    && (forall i | 0 <= i < |sent| :: sent[i].Id() < bound)
    && forall i, j | 0 <= i < j < |sent| && sent[i].Direct? && sent[j].Direct? :: sent[i].id < sent[j].id
  }

  lemma {:induction false} KeptAscending(held: seq<Held>, bound: nat, now: int, counter: nat)
    requires Ascending(held, bound)
    ensures Ascending(KeptOf(held, now, counter), bound)
  {
    if held != [] {
      var rest := held[1..];
      KeptAscending(rest, bound, now, counter);
      KeptMembers(rest, now, counter);
      var kept := KeptOf(rest, now, counter);
      forall i | 0 <= i < |kept| ensures held[0].id < kept[i].id {
        assert kept[i] in rest;
      }
    }
  }

  // ----- why a line was released

  /** Every line sent from the hold list was due: before its deadline, the counter the
      pass read had grown by `after_others` since the line came in. */
  predicate Justified(x: Sent) {
    x.Released? ==>
      && x.h.base <= x.counter
      && (x.now < x.h.deadline ==> x.counter - x.h.base >= x.h.rule.afterOthers && x.now >= x.h.readyAt)
  }

  // ----- `only_first`

  ghost predicate EverHeld(s: State, h: Held) {
    h in s.held || exists k | 0 <= k < |s.sent| :: s.sent[k].Released? && s.sent[k].h == h
  }

  /** A rule that stalls only the first request has held at most one for each id. */
  ghost predicate HeldOnce(s: State) {
    && (forall h | EverHeld(s, h) && h.rule.onlyFirst :: Count(s.seen, h.mid) > 0)
    && (forall h, h' | EverHeld(s, h) && EverHeld(s, h') && h.mid == h'.mid && h.rule.onlyFirst && h'.rule.onlyFirst ::
          h == h')
  }

  ghost predicate SeenGrows(seen: Seen, seen': Seen) {
    forall mid :: Count(seen, mid) > 0 ==> Count(seen', mid) > 0
  }

  ghost predicate FirstOnly(verdict: Option<(string, Rule)>, seen: Seen, seen': Seen) {
    verdict.Some? && verdict.value.1.onlyFirst ==> Count(seen, verdict.value.0) == 0 && Count(seen', verdict.value.0) > 0
  }

  lemma RuleForSeen(plan: Plan, seen: Seen, mid: string)
    ensures var (rule, seen') := RuleFor(plan, seen, mid);
            && SeenGrows(seen, seen')
            && (rule.Some? && rule.value.onlyFirst ==> Count(seen, mid) == 0 && Count(seen', mid) > 0)
  {
  }

  /** Only the requests under a rule that stalls the first are counted, each by one; all
      but the first of them go through. */
  lemma RuleForCounts(plan: Plan, seen: Seen, mid: string)
    ensures var (rule, seen') := RuleFor(plan, seen, mid);
            && (forall m :: Count(seen', m) == Count(seen, m) + if m == mid && OnlyFirst(plan, m) then 1 else 0)
            && rule == if OnlyFirst(plan, mid) && Count(seen, mid) > 0 then None else FirstMatch(plan, 0, mid)
  {
  }

  predicate OnlyFirst(plan: Plan, mid: string) {
    var rule := FirstMatch(plan, 0, mid);
    rule.Some? && rule.value.onlyFirst
  }

  lemma VerdictSeen(plan: Plan, seen: Seen, line: Line)
    ensures var (verdict, seen') := Verdict(plan, seen, line);
            SeenGrows(seen, seen') && FirstOnly(verdict, seen, seen')
  {
    var mid := MessageId(line);
    if mid.Some? {
      RuleForSeen(plan, seen, mid.value);
    }
  }

  lemma TakeHeldOnce(s: State, verdict: Option<(string, Rule)>, seen: Seen, now: int)
    requires LineLength(s.buf) > 0 && HeldOnce(s) && SeenGrows(s.seen, seen) && FirstOnly(verdict, s.seen, seen)
    ensures HeldOnce(Apply(s, verdict, seen, now))
  {
    var s' := Apply(s, verdict, seen, now);
    forall h | EverHeld(s', h) ensures EverHeld(s, h) || (s'.held == s.held + [h] && verdict == Some((h.mid, h.rule))) {
      if h !in s'.held {
        var k :| 0 <= k < |s'.sent| && s'.sent[k].Released? && s'.sent[k].h == h;
        assert s.sent[k] == s'.sent[k];
      }
    }
  }

  lemma PassHeldOnce(s: State, now: int)
    requires HeldOnce(s)
    ensures HeldOnce(Release(s, now))
  {
    var s' := Release(s, now);
    DueMembers(s.held, now, s.forwarded);
    KeptMembers(s.held, now, s.forwarded);
    forall h | EverHeld(s', h) ensures EverHeld(s, h) {
      if h !in s'.held {
        var k :| 0 <= k < |s'.sent| && s'.sent[k].Released? && s'.sent[k].h == h;
        if k >= |s.sent| {
          assert s'.sent[k] in DueOf(s.held, now, s.forwarded);
        } else {
          assert s.sent[k] == s'.sent[k];
        }
      }
    }
  }

  // ----- what the plan asks for

  /** The rule a line falls under, counts aside. */
  function RuleOf(plan: Plan, line: Line): (r: Option<(string, Rule)>) {
    match MessageId(line)
    case None => None
    case Some(mid) =>
      match FirstMatch(plan, 0, mid)
      case None => None
      case Some(rule) => Some((mid, rule))
  }

  /** How often the lines ask for an id. */
  function Requests(lines: seq<Line>, mid: string): nat {
    if lines == [] then 0
    else Requests(lines[..|lines| - 1], mid) + if MessageId(lines[|lines| - 1]) == Some(mid) then 1 else 0
  }

  function Times(asked: seq<string>, mid: string): nat {
    if asked == [] then 0
    else Times(asked[..|asked| - 1], mid) + if asked[|asked| - 1] == mid then 1 else 0
  }

  /** Held under the first rule that matches its id, from its arrival on; a rule that
      stalls the first request has the first of the connection. */
  ghost predicate Planned(plan: Plan, h: Held, lines: seq<Line>) {
    && RuleOf(plan, h.line) == Some((h.mid, h.rule))
    && h.readyAt == h.since + h.rule.delay && h.deadline == h.since + h.rule.maxHold
    && h.id <= |lines| && (h.rule.onlyFirst ==> Requests(lines[..h.id], h.mid) == 0)
  }

  /** Sent at once: no rule matches, or one that stalls the first request, and there was
      another one, before it or on another connection. */
  ghost predicate LetThrough(plan: Plan, id: nat, line: Line, lines: seq<Line>, asked: seq<string>) {
    match RuleOf(plan, line)
    case None => true
    case Some((mid, rule)) =>
      rule.onlyFirst && id <= |lines| && Requests(lines[..id], mid) + Times(asked, mid) > 0
  }

  ghost predicate SentByPlan(plan: Plan, x: Sent, lines: seq<Line>, asked: seq<string>) {
    if x.Direct? then LetThrough(plan, x.id, x.line, lines, asked) else Planned(plan, x.h, lines)
  }

  ghost predicate AllByPlan(plan: Plan, held: seq<Held>, sent: seq<Sent>, lines: seq<Line>, asked: seq<string>) {
    && (forall k | 0 <= k < |held| :: Planned(plan, held[k], lines))
    && (forall k | 0 <= k < |sent| :: SentByPlan(plan, sent[k], lines, asked))
  }

  ghost predicate ByPlan(plan: Plan, s: State) {
    AllByPlan(plan, s.held, s.sent, Lines(s.input), s.asked)
  }

  /** The counts are what they should be: the requests so far, here and elsewhere. */
  ghost predicate Counted(plan: Plan, s: State) {
    && s.count <= |Lines(s.input)|
    && forall mid | OnlyFirst(plan, mid) ::
         Count(s.seen, mid) == Requests(Lines(s.input)[..s.count], mid) + Times(s.asked, mid)
  }

  lemma RequestsMore(lines: seq<Line>, n: nat, mid: string)
    requires n < |lines|
    ensures Requests(lines[..n + 1], mid) == Requests(lines[..n], mid) + if MessageId(lines[n]) == Some(mid) then 1 else 0
  {
    assert lines[..n + 1][..n] == lines[..n];
  }

  lemma TimesMore(asked: seq<string>, id: string, mid: string)
    ensures Times(asked + [id], mid) == Times(asked, mid) + if id == mid then 1 else 0
  {
    assert (asked + [id])[..|asked|] == asked;
  }

  /** What was let through or held for good reason stays so. */
  lemma ByPlanGrows(plan: Plan, held: seq<Held>, sent: seq<Sent>, lines: seq<Line>, more: seq<Line>,
                    asked: seq<string>, again: seq<string>)
    requires AllByPlan(plan, held, sent, lines, asked) && lines <= more
    requires forall mid :: Times(asked, mid) <= Times(again, mid)
    ensures AllByPlan(plan, held, sent, more, again)
  {
    forall k | 0 <= k < |held| ensures Planned(plan, held[k], more) {
      PlannedGrows(plan, held[k], lines, more);
    }
    forall k | 0 <= k < |sent| ensures SentByPlan(plan, sent[k], more, again) {
      if sent[k].Released? {
        PlannedGrows(plan, sent[k].h, lines, more);
      } else {
        LetThroughGrows(plan, sent[k].id, sent[k].line, lines, more, asked, again);
      }
    }
  }

  lemma PlannedGrows(plan: Plan, h: Held, lines: seq<Line>, more: seq<Line>)
    requires Planned(plan, h, lines) && lines <= more
    ensures Planned(plan, h, more)
  {
    assert lines[..h.id] == more[..h.id];
  }

  lemma LetThroughGrows(plan: Plan, id: nat, line: Line, lines: seq<Line>, more: seq<Line>,
                        asked: seq<string>, again: seq<string>)
    requires LetThrough(plan, id, line, lines, asked) && lines <= more
    requires forall mid :: Times(asked, mid) <= Times(again, mid)
    ensures LetThrough(plan, id, line, more, again)
  {
    assert id <= |lines| ==> lines[..id] == more[..id];
  }

  lemma VerdictCounts(plan: Plan, seen: Seen, line: Line)
    ensures forall mid | OnlyFirst(plan, mid) ::
              Count(Verdict(plan, seen, line).1, mid) == Count(seen, mid) + if MessageId(line) == Some(mid) then 1 else 0
  {
    if MessageId(line).Some? {
      RuleForCounts(plan, seen, MessageId(line).value);
    }
  }

  lemma TakeCounted(plan: Plan, s: State, now: int)
    requires LineLength(s.buf) > 0 && Framed(s) && Counted(plan, s)
    ensures Counted(plan, TakeLine(plan, s, now))
  {
    var lines, line := Lines(s.input), NextLine(s);
    var (verdict, seen) := Verdict(plan, s.seen, line);
    TakeFrames(s, verdict, seen, now);
    VerdictCounts(plan, s.seen, line);
    forall mid | OnlyFirst(plan, mid)
      ensures Count(seen, mid) == Requests(lines[..s.count + 1], mid) + Times(s.asked, mid)
    {
      RequestsMore(lines, s.count, mid);
    }
  }

  lemma TakeByPlan(plan: Plan, s: State, now: int)
    requires LineLength(s.buf) > 0 && Framed(s) && Counted(plan, s) && ByPlan(plan, s)
    ensures ByPlan(plan, TakeLine(plan, s, now))
  {
    var line := NextLine(s);
    var (verdict, seen) := Verdict(plan, s.seen, line);
    if MessageId(line).Some? {
      RuleForCounts(plan, s.seen, MessageId(line).value);
    }
    match verdict {
      case None => assert LetThrough(plan, s.count, line, Lines(s.input), s.asked);
      case Some((mid, rule)) => assert Planned(plan, Hold(s, line, mid, rule, now), Lines(s.input));
    }
  }

  lemma PassByPlan(plan: Plan, s: State, now: int)
    requires ByPlan(plan, s)
    ensures ByPlan(plan, Release(s, now))
  {
    var s' := Release(s, now);
    DueMembers(s.held, now, s.forwarded);
    KeptMembers(s.held, now, s.forwarded);
    forall k | |s.sent| <= k < |s'.sent| ensures s'.sent[k].Released? && Planned(plan, s'.sent[k].h, Lines(s.input)) {
      assert s'.sent[k] in DueOf(s.held, now, s.forwarded);
      var i :| 0 <= i < |s.held| && s.held[i] == s'.sent[k].h;
    }
    forall k | 0 <= k < |s'.held| ensures Planned(plan, s'.held[k], Lines(s.input)) {
      assert s'.held[k] in s'.held;
      var i :| 0 <= i < |s.held| && s.held[i] == s'.held[k];
    }
  }

  lemma ReceivePlan(plan: Plan, s: State, data: seq<Byte>)
    requires Framed(s) && Counted(plan, s) && ByPlan(plan, s)
    ensures Counted(plan, Receive(s, data)) && ByPlan(plan, Receive(s, data))
  {
    ReceiveFrames(s, data);
    var lines, more := Lines(s.input), Lines(s.input + data);
    assert lines[..s.count] == more[..s.count];
    ByPlanGrows(plan, s.held, s.sent, lines, more, s.asked, s.asked);
  }

  lemma AskedPlan(plan: Plan, s: State, id: string)
    requires Counted(plan, s) && ByPlan(plan, s)
    ensures Counted(plan, OtherRequest(plan, s, id)) && ByPlan(plan, OtherRequest(plan, s, id))
  {
    RuleForCounts(plan, s.seen, id);
    forall mid ensures Times(s.asked + [id], mid) == Times(s.asked, mid) + if id == mid then 1 else 0 {
      TimesMore(s.asked, id, mid);
    }
    ByPlanGrows(plan, s.held, s.sent, Lines(s.input), Lines(s.input), s.asked, s.asked + [id]);
  }

  // ----- every run

  /** Sent and held lines are lines of the stream, under their own number. */
  ghost predicate Faithful(s: State) {
    var lines := Lines(s.input);
    && (forall k | 0 <= k < |s.sent| :: s.sent[k].Id() < |lines| && s.sent[k].Text() == lines[s.sent[k].Id()])
    && (forall k | 0 <= k < |s.held| :: s.held[k].id < |lines| && s.held[k].line == lines[s.held[k].id])
  }

  ghost predicate Books(s: State) {
    && s.forwarded == |s.sent| + s.others
    && Ascending(s.held, s.count) && DirectInOrder(s.sent, s.count)
    && (forall k | 0 <= k < |s.held| :: s.held[k].base <= s.forwarded)
    && (forall k | 0 <= k < |s.sent| :: Justified(s.sent[k]))
  }

  ghost predicate Inv(plan: Plan, s: State) {
    && Framed(s) && Faithful(s) && Conserved(s) && Books(s) && HeldOnce(s)
    && Counted(plan, s) && ByPlan(plan, s)
  }

  lemma TakeBooks(s: State, verdict: Option<(string, Rule)>, seen: Seen, now: int)
    requires LineLength(s.buf) > 0 && Books(s)
    ensures Books(Apply(s, verdict, seen, now))
  {
  }

  lemma PassBooks(s: State, now: int)
    requires Books(s)
    ensures Books(Release(s, now))
  {
    var due := DueOf(s.held, now, s.forwarded);
    var s' := Release(s, now);
    DueMembers(s.held, now, s.forwarded);
    KeptMembers(s.held, now, s.forwarded);
    KeptAscending(s.held, s.count, now, s.forwarded);
    forall k | 0 <= k < |due| ensures due[k].Released? && Justified(due[k]) && due[k].Id() < s.count {
      assert due[k] in due;
      var i :| 0 <= i < |s.held| && s.held[i] == due[k].h;
    }
    forall k | 0 <= k < |s'.held| ensures s'.held[k].base <= s'.forwarded {
      assert s'.held[k] in s'.held;
      var i :| 0 <= i < |s.held| && s.held[i] == s'.held[k];
    }
  }

  lemma PassFaithful(s: State, now: int)
    requires Faithful(s)
    ensures Faithful(Release(s, now))
  {
    var s' := Release(s, now);
    DueMembers(s.held, now, s.forwarded);
    KeptMembers(s.held, now, s.forwarded);
    forall k | 0 <= k < |s'.sent|
      ensures s'.sent[k].Id() < |Lines(s.input)| && s'.sent[k].Text() == Lines(s.input)[s'.sent[k].Id()]
    {
      if k >= |s.sent| {
        assert s'.sent[k] in DueOf(s.held, now, s.forwarded);
        var i :| 0 <= i < |s.held| && s.held[i] == s'.sent[k].h;
      }
    }
    forall k | 0 <= k < |s'.held|
      ensures s'.held[k].id < |Lines(s.input)| && s'.held[k].line == Lines(s.input)[s'.held[k].id]
    {
      assert s'.held[k] in s'.held;
      var i :| 0 <= i < |s.held| && s.held[i] == s'.held[k];
    }
  }

  lemma TakeInv(plan: Plan, s: State, now: int)
    requires LineLength(s.buf) > 0 && Inv(plan, s)
    ensures Inv(plan, TakeLine(plan, s, now))
  {
    var (verdict, seen) := Verdict(plan, s.seen, NextLine(s));
    VerdictSeen(plan, s.seen, NextLine(s));
    TakeFrames(s, verdict, seen, now);
    TakeConserves(s, verdict, seen, now);
    TakeBooks(s, verdict, seen, now);
    TakeHeldOnce(s, verdict, seen, now);
    TakeFaithful(s, verdict, seen, now);
    TakeCounted(plan, s, now);
    TakeByPlan(plan, s, now);
  }

  lemma PassInv(plan: Plan, s: State, now: int)
    requires Inv(plan, s)
    ensures Inv(plan, Release(s, now))
  {
    PassFaithful(s, now);
    PassConserves(s, now);
    PassBooks(s, now);
    PassHeldOnce(s, now);
    PassByPlan(plan, s, now);
  }

  lemma ReceiveInv(plan: Plan, s: State, data: seq<Byte>)
    requires Inv(plan, s)
    ensures Inv(plan, Receive(s, data))
  {
    ReceiveFrames(s, data);
    ReceivePlan(plan, s, data);
  }

  lemma AskedInv(plan: Plan, s: State, mid: string)
    requires Inv(plan, s)
    ensures Inv(plan, OtherRequest(plan, s, mid))
  {
    RuleForSeen(plan, s.seen, mid);
    AskedPlan(plan, s, mid);
  }

  lemma StepInv(plan: Plan, s: State, e: Event)
    requires Inv(plan, s)
    ensures Inv(plan, Step(plan, s, e))
  {
    match e {
      case Chunk(data) => ReceiveInv(plan, s, data);
      case Take(now) => if LineLength(s.buf) > 0 { TakeInv(plan, s, now); }
      case Pass(now) => PassInv(plan, s, now);
      case Elsewhere =>
      case AskedElsewhere(mid) => AskedInv(plan, s, mid);
    }
  }

  lemma TakeFaithful(s: State, verdict: Option<(string, Rule)>, seen: Seen, now: int)
    requires LineLength(s.buf) > 0 && Faithful(s)
    requires s.count < |Lines(s.input)| && NextLine(s) == Lines(s.input)[s.count]
    ensures Faithful(Apply(s, verdict, seen, now))
  {
  }

  /** The invariant holds after every run: any chunking, any clock, any traffic on
      other connections. */
  lemma {:induction false} RunInv(plan: Plan, events: seq<Event>)
    ensures Inv(plan, Run(plan, events))
  {
    if events != [] {
      RunInv(plan, events[..|events| - 1]);
      StepInv(plan, Run(plan, events[..|events| - 1]), events[|events| - 1]);
    }
  }

  /** No line is late: after any run, the first release pass at or after a held line's
      arrival plus its ceiling forwards it. */
  lemma OutInTime(plan: Plan, events: seq<Event>, h: Held, now: int)
    requires h in Run(plan, events).held && now >= h.since + h.rule.maxHold
    ensures var s := Run(plan, events);
            h !in Release(s, now).held && Released(h, now, s.forwarded) in Release(s, now).sent
    ensures RuleOf(plan, h.line) == Some((h.mid, h.rule))
  {
    var s := Run(plan, events);
    RunInv(plan, events);
    var i :| 0 <= i < |s.held| && s.held[i] == h;
    PassReleases(s, now);
  }

  // ----- which lines are held

  lemma {:induction false} SentSomewhere(sent: seq<Sent>, id: nat) returns (k: nat)
    requires TimesSent(sent, id) > 0
    ensures k < |sent| && sent[k].Id() == id
  {
    if sent[0].Id() == id {
      k := 0;
    } else {
      k := SentSomewhere(sent[1..], id);
      k := k + 1;
    }
  }

  lemma {:induction false} HeldSomewhere(held: seq<Held>, id: nat) returns (k: nat)
    requires TimesHeld(held, id) > 0
    ensures k < |held| && held[k].id == id
  {
    if held[0].id == id {
      k := 0;
    } else {
      k := HeldSomewhere(held[1..], id);
      k := k + 1;
    }
  }

  /** Does the plan ask to hold line `id`, counting the requests before it? */
  ghost predicate Wanted(plan: Plan, lines: seq<Line>, id: nat)
    requires id < |lines|
  {
    match RuleOf(plan, lines[id])
    case None => false
    case Some((mid, rule)) => rule.onlyFirst ==> Requests(lines[..id], mid) == 0
  }

  /** A line that was held was held as the plan asks. */
  lemma HeldIsWanted(plan: Plan, s: State, h: Held)
    requires Inv(plan, s) && EverHeld(s, h)
    ensures h.id < |Lines(s.input)| && h.line == Lines(s.input)[h.id] && Planned(plan, h, Lines(s.input))
    ensures Wanted(plan, Lines(s.input), h.id)
  {
    if h in s.held {
      var k :| 0 <= k < |s.held| && s.held[k] == h;
    } else {
      var k :| 0 <= k < |s.sent| && s.sent[k].Released? && s.sent[k].h == h;
      assert SentByPlan(plan, s.sent[k], Lines(s.input), s.asked);
    }
  }

  /** A line that the plan asks to hold is held, unless it is under a rule that stalls the
      first request and another connection asked for the same id. */
  lemma WantedIsHeld(plan: Plan, s: State, id: nat) returns (h: Held)
    requires Inv(plan, s) && id < s.count && Wanted(plan, Lines(s.input), id)
    requires var (mid, rule) := RuleOf(plan, Lines(s.input)[id]).value; rule.onlyFirst ==> Times(s.asked, mid) == 0
    ensures EverHeld(s, h) && h.id == id
  {
    assert TimesSent(s.sent, id) + TimesHeld(s.held, id) == 1;
    if TimesHeld(s.held, id) > 0 {
      var k := HeldSomewhere(s.held, id);
      h := s.held[k];
    } else {
      var k := SentSomewhere(s.sent, id);
      assert SentByPlan(plan, s.sent[k], Lines(s.input), s.asked);
      h := s.sent[k].h;
    }
  }

  /** No other connection asked for the article that line `id` asks for. */
  ghost predicate OnlyHere(s: State, id: nat) {
    id < |Lines(s.input)| ==>
      var mid := MessageId(Lines(s.input)[id]);
      mid.Some? ==> Times(s.asked, mid.value) == 0
  }

  /** After any run, of the lines whose article no other connection asked for, those that
      are or were held are exactly those the plan asks for: under a rule that stalls every
      request, all of them; under one that stalls the first, the first for each id. */
  lemma HeldExactly(plan: Plan, events: seq<Event>, id: nat)
    requires id < Run(plan, events).count && OnlyHere(Run(plan, events), id)
    ensures var s := Run(plan, events);
            id < |Lines(s.input)| && ((exists h :: EverHeld(s, h) && h.id == id) <==> Wanted(plan, Lines(s.input), id))
  {
    var s := Run(plan, events);
    RunInv(plan, events);
    if h :| EverHeld(s, h) && h.id == id {
      HeldIsWanted(plan, s, h);
    }
    if Wanted(plan, Lines(s.input), id) {
      var h := WantedIsHeld(plan, s, id);
    }
  }

  // ----- when a pass lets a line go

  /** Event `k` of the run takes line `id`. */
  ghost predicate TookAt(plan: Plan, events: seq<Event>, k: nat, id: nat) {
    && k < |events| && events[k].Take?
    && LineLength(Run(plan, events[..k]).buf) > 0 && Run(plan, events[..k]).count == id
  }

  lemma RunStep(plan: Plan, events: seq<Event>, k: nat)
    requires k < |events|
    ensures Run(plan, events[..k + 1]) == Step(plan, Run(plan, events[..k]), events[k])
  {
    assert events[..k + 1][..k] == events[..k];
  }

  lemma {:induction false} CountGrows(plan: Plan, events: seq<Event>, k: nat, j: nat)
    requires k <= j <= |events|
    ensures Run(plan, events[..k]).count <= Run(plan, events[..j]).count
  {
    if k < j {
      CountGrows(plan, events, k, j - 1);
      NextCounts(plan, events, j - 1);
    }
  }

  lemma NextCounts(plan: Plan, events: seq<Event>, j: nat)
    requires j < |events|
    ensures Run(plan, events[..j]).count <= Run(plan, events[..j + 1]).count
  {
    RunStep(plan, events, j);
  }

  lemma TookOnce(plan: Plan, events: seq<Event>, k: nat, j: nat, id: nat)
    requires TookAt(plan, events, k, id) && TookAt(plan, events, j, id)
    ensures k == j
  {
    RunStep(plan, events, k);
    RunStep(plan, events, j);
    if k < j {
      CountGrows(plan, events, k + 1, j);
    } else if j < k {
      CountGrows(plan, events, j + 1, k);
    }
  }

  /** Only taking a line puts one on hold. */
  lemma HeldBefore(plan: Plan, s: State, e: Event, h: Held)
    requires EverHeld(Step(plan, s, e), h)
    ensures EverHeld(s, h)
            || (e.Take? && LineLength(s.buf) > 0 && h.id == s.count && h.base == s.forwarded && h.since == e.now)
  {
    var s' := Step(plan, s, e);
    if h in s'.held {
      if e.Pass? {
        KeptMembers(s.held, e.now, s.forwarded);
      }
    } else {
      var k :| 0 <= k < |s'.sent| && s'.sent[k].Released? && s'.sent[k].h == h;
      if k < |s.sent| {
        assert s.sent[k] == s'.sent[k];
      } else if e.Pass? {
        DueMembers(s.held, e.now, s.forwarded);
        assert s'.sent[k] in DueOf(s.held, e.now, s.forwarded);
      }
    }
  }

  /** Every line that is or was held was taken by one event of the run, which gave it the
      time and the counter of commands forwarded so far. */
  lemma {:induction false} TakenWith(plan: Plan, events: seq<Event>, h: Held) returns (k: nat)
    requires EverHeld(Run(plan, events), h)
    ensures TookAt(plan, events, k, h.id)
    ensures h.base == Run(plan, events[..k]).forwarded && h.since == events[k].now
  {
    var init, e := events[..|events| - 1], events[|events| - 1];
    HeldBefore(plan, Run(plan, init), e, h);
    if EverHeld(Run(plan, init), h) {
      k := TakenWith(plan, init, h);
      assert init[..k] == events[..k];
    } else {
      k := |init|;
    }
  }

  /** So whichever event took the line. */
  lemma BaseIsCounter(plan: Plan, events: seq<Event>, h: Held, k: nat)
    requires EverHeld(Run(plan, events), h) && TookAt(plan, events, k, h.id)
    ensures h.base == Run(plan, events[..k]).forwarded && h.since == events[k].now
  {
    var j := TakenWith(plan, events, h);
    TookOnce(plan, events, k, j, h.id);
  }

  ghost predicate IsHeld(s: State, id: nat) {
    exists i: nat :: i < |s.held| && s.held[i].id == id
  }

  /** Line `id` is among the commands the step from `s` to `s'` has sent. */
  ghost predicate SentNow(s: State, s': State, id: nat) {
    |s.sent| <= |s'.sent| && exists i: nat :: |s.sent| <= i < |s'.sent| && s'.sent[i].Id() == id
  }

  /** A line taken by event `k` and on hold at the pass that is event `j`. The pass leaves
      it on hold if and only if the ceiling has not come and either fewer than
      `after_others` commands have been forwarded since it was taken, or `delay` is not over;
      a line it does not leave on hold is sent. */
  lemma PassDecides(plan: Plan, events: seq<Event>, k: nat, j: nat, id: nat)
    requires TookAt(plan, events, k, id) && k < j < |events| && events[j].Pass? && IsHeld(Run(plan, events[..j]), id)
    ensures id < |Lines(Run(plan, events[..j]).input)| && RuleOf(plan, Lines(Run(plan, events[..j]).input)[id]).Some?
    ensures var before, at, after := Run(plan, events[..k]), Run(plan, events[..j]), Run(plan, events[..j + 1]);
            var rule := RuleOf(plan, Lines(at.input)[id]).value.1;
            var since, now := events[k].now, events[j].now;
            && (IsHeld(after, id) <==>
                  now < since + rule.maxHold
                  && (at.forwarded - before.forwarded < rule.afterOthers || now < since + rule.delay))
            && (!IsHeld(after, id) <==> SentNow(at, after, id))
  {
    var at := Run(plan, events[..j]);
    var i: nat :| i < |at.held| && at.held[i].id == id;
    var h := at.held[i];
    assert events[..j][..k] == events[..k];
    assert TookAt(plan, events[..j], k, id);
    BaseIsCounter(plan, events[..j], h, k);
    RunInv(plan, events[..j]);
    HeldAsPlanned(plan, at, i);
    PassStep(plan, events, j);
    ReleaseOne(at, events[j].now, i);
  }

  lemma PassStep(plan: Plan, events: seq<Event>, j: nat)
    requires j < |events| && events[j].Pass?
    ensures Run(plan, events[..j + 1]) == Release(Run(plan, events[..j]), events[j].now)
  {
    RunStep(plan, events, j);
  }

  lemma HeldAsPlanned(plan: Plan, s: State, i: nat)
    requires Inv(plan, s) && i < |s.held|
    ensures var h := s.held[i];
            && h.id < |Lines(s.input)| && RuleOf(plan, Lines(s.input)[h.id]) == Some((h.mid, h.rule))
            && h.readyAt == h.since + h.rule.delay && h.deadline == h.since + h.rule.maxHold
  {
  }

  /** One pass over one line on hold. */
  lemma ReleaseOne(s: State, now: int, i: nat)
    requires Books(s) && i < |s.held|
    ensures var h := s.held[i];
            && (IsHeld(Release(s, now), h.id) <==> !Due(h, now, s.forwarded))
            && (SentNow(s, Release(s, now), h.id) <==> Due(h, now, s.forwarded))
  {
    StaysHeld(s, now, i);
    GoesOut(s, now, i);
  }

  lemma StaysHeld(s: State, now: int, i: nat)
    requires Books(s) && i < |s.held|
    ensures IsHeld(Release(s, now), s.held[i].id) <==> !Due(s.held[i], now, s.forwarded)
  {
    var h, kept := s.held[i], KeptOf(s.held, now, s.forwarded);
    KeptMembers(s.held, now, s.forwarded);
    if h in kept {
      var n :| 0 <= n < |kept| && kept[n] == h;
    }
    forall n | 0 <= n < |kept| && kept[n].id == h.id ensures !Due(h, now, s.forwarded) {
      assert kept[n] in kept;
      SameLine(s, kept[n], h);
    }
  }

  lemma GoesOut(s: State, now: int, i: nat)
    requires Books(s) && i < |s.held|
    ensures SentNow(s, Release(s, now), s.held[i].id) <==> Due(s.held[i], now, s.forwarded)
  {
    var h, due, s' := s.held[i], DueOf(s.held, now, s.forwarded), Release(s, now);
    DueMembers(s.held, now, s.forwarded);
    if Due(h, now, s.forwarded) {
      assert Released(h, now, s.forwarded) in due;
      var n :| 0 <= n < |due| && due[n] == Released(h, now, s.forwarded);
      assert s'.sent[|s.sent| + n].Id() == h.id;
    }
    forall n: nat | |s.sent| <= n < |s'.sent| && s'.sent[n].Id() == h.id ensures Due(h, now, s.forwarded) {
      assert s'.sent[n] == due[n - |s.sent|] && due[n - |s.sent|] in due;
      SameLine(s, s'.sent[n].h, h);
    }
  }

  /** No two entries of the hold list are for the same line. */
  lemma SameLine(s: State, g: Held, h: Held)
    requires Books(s) && g in s.held && h in s.held && g.id == h.id
    ensures g == h
  {
  }

  /** Nothing but a pass takes a line off the hold list. */
  lemma OnlyPassesRelease(plan: Plan, s: State, e: Event, id: nat)
    requires IsHeld(s, id) && !e.Pass?
    ensures IsHeld(Step(plan, s, e), id)
  {
    var i: nat :| i < |s.held| && s.held[i].id == id;
    assert Step(plan, s, e).held[i] == s.held[i];
  }

  // ----- how a request is read

  /** The shared counter that gates read: one for every command this connection has sent, and
      one for every command another connection forwarded. */
  lemma {:induction false} CounterCounts(plan: Plan, events: seq<Event>)
    ensures Run(plan, events).forwarded == |Run(plan, events).sent| + Elsewheres(events)
  {
    if events != [] {
      CounterCounts(plan, events[..|events| - 1]);
    }
  }

  function Elsewheres(events: seq<Event>): nat {
    if events == [] then 0
    else Elsewheres(events[..|events| - 1]) + if events[|events| - 1] == Elsewhere then 1 else 0
  }

  /** The line asks for `<text>` with command `word`: the letters of the command in either
      case, blanks, and the id up to its first closing bracket. */
  ghost predicate Asks(line: Line, word: string, blanks: nat, text: seq<Byte>) {
    var n := |word| + blanks;
    && blanks > 0 && n + |text| + 2 <= |line|
    && (forall i | 0 <= i < |word| :: line[i] == word[i] as int || line[i] == word[i] as int + 32)
    && (forall i | |word| <= i < n :: line[i] == 32 || 9 <= line[i] <= 13)
    && line[n] == '<' as int && line[n + 1..n + 1 + |text|] == text && line[n + 1 + |text|] == '>' as int
    && '>' as int !in text
  }

  predicate IsCommand(word: string) {
    word == "ARTICLE" || word == "BODY" || word == "HEAD" || word == "STAT"
  }

  function Latin1(text: seq<Byte>): string {
    seq(|text|, i requires 0 <= i < |text| => text[i] as char)
  }

  /** The bytes of a command word. */
  function Letters(word: string): seq<Byte>
    requires IsCommand(word)
  {
    seq(|word|, i requires 0 <= i < |word| => LetterByte(word, i); word[i] as int)
  }

  lemma LetterByte(word: string, i: nat)
    requires IsCommand(word) && i < |word|
    ensures 65 <= word[i] as int <= 90
  {
  }

  lemma CommandsAre()
    ensures |COMMANDS| == 4
    ensures COMMANDS[0] == Letters("ARTICLE") && COMMANDS[1] == Letters("BODY")
    ensures COMMANDS[2] == Letters("HEAD") && COMMANDS[3] == Letters("STAT")
  {
  }

  lemma StartsWithIs(line: Line, word: string)
    requires IsCommand(word)
    ensures StartsWith(line, Letters(word)) <==>
              |word| <= |line|
              && forall i | 0 <= i < |word| :: line[i] == word[i] as int || line[i] == word[i] as int + 32
  {
    var w := Letters(word);
    forall i | 0 <= i < |word| && i < |line|
      ensures Upper(line[i]) == w[i] <==> line[i] == word[i] as int || line[i] == word[i] as int + 32
    {
      LetterByte(word, i);
    }
  }

  lemma {:induction false} SkipsBlanks(line: Line, i: nat, n: nat)
    requires i <= n <= |line| && (forall k | i <= k < n :: IsBlank(line[k])) && (n < |line| ==> !IsBlank(line[n]))
    ensures SkipBlanks(line, i) == n
    decreases n - i
  {
    if i < n {
      SkipsBlanks(line, i + 1, n);
    }
  }

  lemma {:induction false} SkippedBlanks(line: Line, i: nat)
    requires i <= |line|
    ensures forall k | i <= k < SkipBlanks(line, i) :: IsBlank(line[k])
    decreases |line| - i
  {
    if i < |line| && IsBlank(line[i]) {
      SkippedBlanks(line, i + 1);
    }
  }

  lemma {:induction false} FindsClose(line: Line, i: nat, n: nat)
    requires i <= n < |line| && line[n] == 62 && forall k | i <= k < n :: line[k] != 62
    ensures FindClose(line, i) == Some(n)
    decreases n - i
  {
    if i < n {
      FindsClose(line, i + 1, n);
    }
  }

  lemma {:induction false} FoundClose(line: Line, i: nat)
    requires FindClose(line, i).Some?
    ensures line[FindClose(line, i).value] == 62 && forall k | i <= k < FindClose(line, i).value :: line[k] != 62
    decreases |line| - i
  {
    if line[i] != 62 {
      FoundClose(line, i + 1);
    }
  }

  /** A line that asks with a command word gives its id. */
  lemma IdOf(line: Line, word: string, blanks: nat, text: seq<Byte>)
    requires IsCommand(word) && Asks(line, word, blanks, text)
    ensures IdAfter(line, Letters(word)) == Some("<" + Latin1(text) + ">")
  {
    var n := |word| + blanks;
    var m := n + 1 + |text|;
    StartsWithIs(line, word);
    SkipsBlanks(line, |word|, n);
    forall k | n + 1 <= k < m ensures line[k] != 62 {
      assert line[n + 1..m][k - n - 1] == line[k];
    }
    FindsClose(line, n + 1, m);
    IdText(line, n, text);
  }

  lemma IdText(line: Line, n: nat, text: seq<Byte>)
    requires n + |text| + 1 < |line| && line[n] == 60 && line[n + 1 + |text|] == 62
    requires line[n + 1..n + 1 + |text|] == text
    ensures seq(|text| + 2, k requires 0 <= k < |text| + 2 => line[n + k] as char) == "<" + Latin1(text) + ">"
  {
    var s := seq(|text| + 2, k requires 0 <= k < |text| + 2 => line[n + k] as char);
    forall k | 0 < k <= |text| ensures s[k] == Latin1(text)[k - 1] {
      assert line[n + 1..n + 1 + |text|][k - 1] == line[n + k];
    }
  }

  /** And only such a line does. */
  lemma IdFrom(line: Line, word: string) returns (blanks: nat, text: seq<Byte>)
    requires IsCommand(word) && IdAfter(line, Letters(word)).Some?
    ensures Asks(line, word, blanks, text) && IdAfter(line, Letters(word)) == Some("<" + Latin1(text) + ">")
  {
    var n := SkipBlanks(line, |word|);
    var m := FindClose(line, n + 1).value;
    StartsWithIs(line, word);
    SkippedBlanks(line, |word|);
    FoundClose(line, n + 1);
    blanks, text := n - |word|, line[n + 1..m];
    NoneBefore(line, n + 1, m);
    IdText(line, n, text);
  }

  lemma NoneBefore(line: Line, n: nat, m: nat)
    requires n <= m <= |line| && forall k | n <= k < m :: line[k] != 62
    ensures 62 !in line[n..m]
  {
  }

  lemma OneCommand(line: Line, word: string, other: string)
    requires IsCommand(word) && IsCommand(other) && word != other && StartsWith(line, Letters(word))
    ensures IdAfter(line, Letters(other)) == None
  {
    StartsWithIs(line, word);
    StartsWithIs(line, other);
    assert word[0] != other[0];
  }

  /** `ARTICLE_CMD` and the decoding of its id: a line asks for an id if and only if it is a
      command word in any case, blanks, and the id between its brackets. */
  lemma MessageIdIff(line: Line, mid: string)
    ensures MessageId(line) == Some(mid) <==>
              exists word, blanks, text ::
                IsCommand(word) && Asks(line, word, blanks, text) && mid == "<" + Latin1(text) + ">"
  {
    CommandsAre();
    if word, blanks, text :|
        IsCommand(word) && Asks(line, word, blanks, text) && mid == "<" + Latin1(text) + ">" {
      IdOf(line, word, blanks, text);
      FirstCommand(line, word);
    }
    if MessageId(line) == Some(mid) {
      var word := CommandOf(line);
      var blanks, text := IdFrom(line, word);
    }
  }

  lemma FirstCommand(line: Line, word: string)
    requires IsCommand(word) && IdAfter(line, Letters(word)).Some?
    ensures MessageId(line) == IdAfter(line, Letters(word))
  {
    CommandsAre();
    forall other | IsCommand(other) && other != word ensures IdAfter(line, Letters(other)) == None {
      OneCommand(line, word, other);
    }
  }

  lemma CommandOf(line: Line) returns (word: string)
    requires MessageId(line).Some?
    ensures IsCommand(word) && MessageId(line) == IdAfter(line, Letters(word))
  {
    CommandsAre();
    word := if IdAfter(line, COMMANDS[0]).Some? then "ARTICLE" else if IdAfter(line, COMMANDS[1]).Some? then "BODY"
            else if IdAfter(line, COMMANDS[2]).Some? then "HEAD" else "STAT";
  }
}
