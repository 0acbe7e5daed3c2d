/** The output matcher of bench/capability-corpus/roundtrip.py: each expectation
    claims one entry of the output tree, strongest evidence first, and the closed-world
    arm judges what nobody claimed. `claimed` holds the `claimed_by` fields. Unicode
    normalisation, case folding and `fnmatch` are parameters. */
module OutputMatch {
  import opened Basics

  datatype Entry = Entry(rel: string, kind: string, size: int, sha: string)

  datatype Expected =
    Expected(byVolume: map<string, seq<string>>, paths: seq<string>, path: Option<string>, bytes: int, sha: string)

  /** The probed volume, and the text functions of the run. */
  datatype Profile = Profile(kind: string, caseSensitive: bool, nfc: string -> string, casefold: string -> string)

  /** `wanted_paths`: by volume, or an explicit alternation, or one path, or none. */
  function Wanted(exp: Expected, p: Profile): (r: seq<string>) {
    if exp.byVolume != map[] then
      if p.kind in exp.byVolume then exp.byVolume[p.kind]
      else if "any" in exp.byVolume then exp.byVolume["any"]
      else []
    else if exp.paths != [] then exp.paths
    else match exp.path
      case None => []
      case Some(path) => [path]
  }

  predicate SameNfc(e: Entry, wants: seq<string>, p: Profile) {
    exists k | 0 <= k < |wants| :: p.nfc(e.rel) == p.nfc(wants[k])
  }

  predicate SameFold(e: Entry, wants: seq<string>, p: Profile) {
    exists k | 0 <= k < |wants| :: p.casefold(p.nfc(e.rel)) == p.casefold(p.nfc(wants[k]))
  }

  /** A regular file with the expected size and hash. */
  predicate ContentOk(exp: Expected, e: Entry) {
    e.kind == "file" && e.size == exp.bytes && e.sha == exp.sha
  }

  /** A path the expectation may be found at on this volume. */
  predicate PathOk(exp: Expected, e: Entry, p: Profile) {
    var wants := Wanted(exp, p);
    wants == [] || e.rel in wants || SameNfc(e, wants, p) || (!p.caseSensitive && SameFold(e, wants, p))
  }

  // ----- what that means on the fields of an expectation

  /** The entry is named as asked, or is after normalisation, or but for case on a volume
      that ignores it. */
  predicate Near(e: Entry, name: string, p: Profile) {
    || e.rel == name
    || p.nfc(e.rel) == p.nfc(name)
    || (!p.caseSensitive && p.casefold(p.nfc(e.rel)) == p.casefold(p.nfc(name)))
  }

  predicate NearOne(e: Entry, names: seq<string>, p: Profile) {
    exists k | 0 <= k < |names| :: Near(e, names[k], p)
  }

  /** Where the entry must be: the names for the probed kind of volume decide if there are
      any, else those for "any" volume; without names by volume the alternatives, and without
      those the one path. An empty list, like no path at all, asks for no place. */
  predicate AtItsPlace(exp: Expected, e: Entry, p: Profile) {
    && (p.kind in exp.byVolume && exp.byVolume[p.kind] != [] ==> NearOne(e, exp.byVolume[p.kind], p))
    && (p.kind !in exp.byVolume && "any" in exp.byVolume && exp.byVolume["any"] != [] ==>
          NearOne(e, exp.byVolume["any"], p))
    && (|exp.byVolume| == 0 && |exp.paths| > 0 ==> NearOne(e, exp.paths, p))
    && (|exp.byVolume| == 0 && |exp.paths| == 0 && exp.path.Some? ==> Near(e, exp.path.value, p))
  }

  /** An expectation by content only. */
  predicate NoPlace(exp: Expected, p: Profile) {
    if |exp.byVolume| == 0 then exp.paths == [] && exp.path == None
    else && (p.kind in exp.byVolume ==> exp.byVolume[p.kind] == [])
         && (p.kind !in exp.byVolume && "any" in exp.byVolume ==> exp.byVolume["any"] == [])
  }

  lemma PathOkIff(exp: Expected, e: Entry, p: Profile)
    ensures PathOk(exp, e, p) <==> AtItsPlace(exp, e, p)
    ensures Wanted(exp, p) == [] <==> NoPlace(exp, p)
  {
    var wants := Wanted(exp, p);
    assert wants != [] ==> (PathOk(exp, e, p) <==> NearOne(e, wants, p));
    assert exp.path.Some? && wants == [exp.path.value] ==> wants[0] == exp.path.value;
    assert exp.byVolume != map[] <==> |exp.byVolume| > 0;
  }

  /** Every expectation has claimed a regular file of its size and hash, at its place. */
  ghost predicate MetOnDisk(expected: seq<Expected>, entries: seq<Entry>, p: Profile, c: Claims) {
    && |c| == |entries|
    && forall i: nat | i < |expected| :: MetAt(expected[i], entries, p, c, i)
  }

  ghost predicate MetAt(exp: Expected, entries: seq<Entry>, p: Profile, c: Claims, i: nat)
    requires |c| == |entries|
  {
    exists e | 0 <= e < |c| && c[e] == Some(i) :: Meet(exp, entries[e], p)
  }

  predicate Meet(exp: Expected, e: Entry, p: Profile) {
    && e.kind == "file"
    && e.size == exp.bytes
    && e.sha == exp.sha
    && AtItsPlace(exp, e, p)
  }

  lemma ClaimsMeet(expected: seq<Expected>, entries: seq<Entry>, p: Profile, c: Claims)
    requires Sound(expected, entries, p, c)
    ensures AllOk(expected, entries, c) <==>
              forall e | 0 <= e < |c| && c[e].Some? :: Meet(expected[c[e].value], entries[e], p)
  {
    forall e | 0 <= e < |c| && c[e].Some?
      ensures Meet(expected[c[e].value], entries[e], p) <==> ContentOk(expected[c[e].value], entries[e])
    {
      PathOkIff(expected[c[e].value], entries[e], p);
    }
  }

  lemma MetOnDiskIff(expected: seq<Expected>, entries: seq<Entry>, p: Profile, c: Claims)
    requires Sound(expected, entries, p, c)
    ensures AllMet(expected, entries, c) <==> MetOnDisk(expected, entries, p, c)
  {
    if AllMet(expected, entries, c) {
      forall i: nat | i < |expected| ensures MetAt(expected[i], entries, p, c, i) {
        assert Claimed(c, i);
        var e :| 0 <= e < |c| && c[e] == Some(i);
        PathOkIff(expected[i], entries[e], p);
        assert Meet(expected[i], entries[e], p);
      }
    }
    if MetOnDisk(expected, entries, p, c) {
      forall e | 0 <= e < |c| && c[e].Some? ensures ContentOk(expected[c[e].value], entries[e]) {
        assert MetAt(expected[c[e].value], entries, p, c, c[e].value);
        var d :| 0 <= d < |c| && c[d] == c[e] && Meet(expected[c[e].value], entries[d], p);
      }
      forall i: nat | i < |expected| ensures Claimed(c, i) {
        assert MetAt(expected[i], entries, p, c, i);
      }
    }
  }

  type Claims = seq<Option<nat>>

  ghost predicate Claimed(c: Claims, i: nat) {
    exists e | 0 <= e < |c| :: c[e] == Some(i)
  }

  /** No two entries are claimed by the same expectation. */
  ghost predicate OneEach(c: Claims) {
    forall d, e | 0 <= d < e < |c| :: c[d].Some? && c[e].Some? ==> c[d].value != c[e].value
  }

  predicate Distinct(s: seq<nat>) {
    forall i, j | 0 <= i < j < |s| :: s[i] != s[j]
  }

  predicate Ascending(s: seq<nat>) {
    forall i, j | 0 <= i < j < |s| :: s[i] < s[j]
  }

  lemma AscendingMore(s: seq<nat>, k: nat)
    requires Ascending(s) && forall x | x in s :: x < k
    ensures Ascending(s + [k])
  {
    assert forall i | 0 <= i < |s| :: s[i] in s;
  }

  // ----- one pass

  /** The first unclaimed entry from `e` on that expectation `i` accepts. */
  function FirstFree(entries: seq<Entry>, accepts: (nat, Entry) -> bool, c: Claims, i: nat, e: nat): (r: Option<nat>)
    requires e <= |entries| == |c|
    ensures r.Some? ==> e <= r.value < |entries| && c[r.value] == None && accepts(i, entries[r.value])
    ensures forall d | e <= d < (if r.Some? then r.value else |entries|) :: c[d] == None ==> !accepts(i, entries[d])
    decreases |entries| - e
  {
    if e == |entries| then None
    else if c[e] == None && accepts(i, entries[e]) then Some(e)
    else FirstFree(entries, accepts, c, i, e + 1)
  }

  /** The claims of one loop over `todo`, and who is left over. */
  function Greedy(entries: seq<Entry>, accepts: (nat, Entry) -> bool, c: Claims, todo: seq<nat>):
      (r: (Claims, seq<nat>))
    requires |c| == |entries|
    ensures |r.0| == |entries|
  {
    if todo == [] then (c, [])
    else
      var i := todo[|todo| - 1];
      var (mid, left) := Greedy(entries, accepts, c, todo[..|todo| - 1]);
      match FirstFree(entries, accepts, mid, i, 0)
      case None => (mid, left + [i])
      case Some(e) => (mid[e := Some(i)], left)
  }

  lemma GreedyStep(entries: seq<Entry>, accepts: (nat, Entry) -> bool, c: Claims, todo: seq<nat>, k: nat)
    requires |c| == |entries| && k < |todo|
    ensures var (mid, left) := Greedy(entries, accepts, c, todo[..k]);
            Greedy(entries, accepts, c, todo[..k + 1]) ==
              match FirstFree(entries, accepts, mid, todo[k], 0)
              case None => (mid, left + [todo[k]])
              case Some(e) => (mid[e := Some(todo[k])], left)
  {
    assert todo[..k + 1][..k] == todo[..k];
  }

  /** `claim`: the first unclaimed entry that passes the test of expectation `idx`. */
  method Claim(claimed: array<Option<nat>>, entries: seq<Entry>, accepts: (nat, Entry) -> bool, idx: nat)
    returns (r: Option<nat>)
    requires claimed.Length == |entries|
    modifies claimed
    ensures r == FirstFree(entries, accepts, old(claimed[..]), idx, 0)
    ensures r.Some? ==> r.value < |entries| && old(claimed[r.value]) == None && accepts(idx, entries[r.value])
                        && claimed[..] == old(claimed[..])[r.value := Some(idx)]
                        && forall e | 0 <= e < r.value :: claimed[e] == None ==> !accepts(idx, entries[e])
    ensures r.None? ==> claimed[..] == old(claimed[..])
                        && forall e | 0 <= e < |entries| :: claimed[e] == None ==> !accepts(idx, entries[e])
  {
    for e := 0 to |entries|
      invariant claimed[..] == old(claimed[..])
      invariant FirstFree(entries, accepts, claimed[..], idx, 0) == FirstFree(entries, accepts, claimed[..], idx, e)
      invariant forall d | 0 <= d < e :: claimed[d] == None ==> !accepts(idx, entries[d])
    {
      if claimed[e] == None && accepts(idx, entries[e]) {
        claimed[e] := Some(idx);
        return Some(e);
      }
    }
    r := None;
  }

  /** Claims made so far by the first `n` of `todo`: earlier claims stand, each new one
      is by one of these for an entry it accepts, and whoever is left over still finds
      nothing unclaimed to accept. */
  ghost predicate Progress(entries: seq<Entry>, accepts: (nat, Entry) -> bool, before: Claims, after: Claims,
      todo: seq<nat>, left: seq<nat>)
  {
    && |before| == |after| == |entries|
    && (forall e | 0 <= e < |after| :: before[e].Some? ==> after[e] == before[e])
    && (forall e | 0 <= e < |after| :: before[e] == None && after[e].Some? ==>
          after[e].value in todo && accepts(after[e].value, entries[e]))
    && (forall i | i in left :: i in todo && !Claimed(after, i))
    && (forall i | i in todo :: i in left || Claimed(after, i))
    && (forall i, e | i in left && 0 <= e < |after| && after[e] == None :: !accepts(i, entries[e]))
    && (OneEach(before) ==> OneEach(after))
  }

  lemma NobodyYet(entries: seq<Entry>, accepts: (nat, Entry) -> bool, c: Claims)
    requires |c| == |entries|
    ensures Progress(entries, accepts, c, c, [], [])
  {
  }

  lemma ClaimStep(entries: seq<Entry>, accepts: (nat, Entry) -> bool, before: Claims, mid: Claims, done: seq<nat>,
      left: seq<nat>, i: nat, e: nat)
    requires Progress(entries, accepts, before, mid, done, left)
    requires i !in done && !Claimed(mid, i) && e < |mid| && mid[e] == None && accepts(i, entries[e])
    ensures Progress(entries, accepts, before, mid[e := Some(i)], done + [i], left)
    ensures Claimed(mid[e := Some(i)], i)
  {
    var after := mid[e := Some(i)];
    assert after[e] == Some(i);
    forall j | j in done ensures j in left || Claimed(after, j) {
      if j !in left {
        var d :| 0 <= d < |mid| && mid[d] == Some(j);
        assert after[d] == Some(j);
      }
    }
    forall j | j in left ensures !Claimed(after, j) {
      assert forall d | 0 <= d < |after| :: d != e ==> after[d] == mid[d];
    }
  }

  lemma LeaveStep(entries: seq<Entry>, accepts: (nat, Entry) -> bool, before: Claims, mid: Claims, done: seq<nat>,
      left: seq<nat>, i: nat)
    requires Progress(entries, accepts, before, mid, done, left)
    requires !Claimed(mid, i) && forall e | 0 <= e < |mid| && mid[e] == None :: !accepts(i, entries[e])
    ensures Progress(entries, accepts, before, mid, done + [i], left + [i])
  {
  }

  lemma NotYetClaimed(entries: seq<Entry>, accepts: (nat, Entry) -> bool, before: Claims, mid: Claims,
      done: seq<nat>, left: seq<nat>, i: nat)
    requires Progress(entries, accepts, before, mid, done, left) && i !in done && !Claimed(before, i)
    ensures !Claimed(mid, i)
  {
    forall e | 0 <= e < |mid| ensures mid[e] != Some(i) {
      assert before[e] != Some(i);
    }
  }

  /** The turn of `todo[k]`, when it claims entry `e`. */
  lemma ClaimTurn(entries: seq<Entry>, accepts: (nat, Entry) -> bool, before: Claims, mid: Claims, todo: seq<nat>,
      k: nat, left: seq<nat>, e: nat)
    requires Distinct(todo) && k < |todo| && !Claimed(before, todo[k])
    requires Progress(entries, accepts, before, mid, todo[..k], left)
    requires e < |mid| && mid[e] == None && accepts(todo[k], entries[e])
    ensures before[e] == None && Progress(entries, accepts, before, mid[e := Some(todo[k])], todo[..k + 1], left)
  {
    assert todo[..k + 1] == todo[..k] + [todo[k]] && todo[k] !in todo[..k];
    NotYetClaimed(entries, accepts, before, mid, todo[..k], left, todo[k]);
    ClaimStep(entries, accepts, before, mid, todo[..k], left, todo[k], e);
  }

  /** The turn of `todo[k]`, when it finds nothing. */
  lemma LeaveTurn(entries: seq<Entry>, accepts: (nat, Entry) -> bool, before: Claims, mid: Claims, todo: seq<nat>,
      k: nat, left: seq<nat>)
    requires Distinct(todo) && Distinct(left) && k < |todo| && !Claimed(before, todo[k])
    requires Progress(entries, accepts, before, mid, todo[..k], left)
    requires forall e | 0 <= e < |mid| && mid[e] == None :: !accepts(todo[k], entries[e])
    ensures Progress(entries, accepts, before, mid, todo[..k + 1], left + [todo[k]]) && Distinct(left + [todo[k]])
  {
    assert todo[..k + 1] == todo[..k] + [todo[k]] && todo[k] !in todo[..k];
    NotYetClaimed(entries, accepts, before, mid, todo[..k], left, todo[k]);
    LeaveStep(entries, accepts, before, mid, todo[..k], left, todo[k]);
    assert forall j | 0 <= j < |left| :: left[j] in left;
  }

  /** One loop of `match_expected` over the expectations still open: claim, check the
      content of what was claimed, hand on the rest. */
  method Pass(claimed: array<Option<nat>>, expected: seq<Expected>, entries: seq<Entry>,
      accepts: (nat, Entry) -> bool, todo: seq<nat>)
    returns (left: seq<nat>, bad: nat)
    requires claimed.Length == |entries| && Distinct(todo)
    requires forall k | 0 <= k < |todo| :: todo[k] < |expected| && !Claimed(claimed[..], todo[k])
    modifies claimed
    ensures (claimed[..], left) == Greedy(entries, accepts, old(claimed[..]), todo)
    ensures Progress(entries, accepts, old(claimed[..]), claimed[..], todo, left) && Distinct(left)
    ensures bad == 0 <==> NewOk(expected, entries, old(claimed[..]), claimed[..])
  {
    left, bad := [], 0;
    ghost var before := claimed[..];
    NobodyYet(entries, accepts, before);
    for k := 0 to |todo|
      invariant (claimed[..], left) == Greedy(entries, accepts, before, todo[..k])
      invariant Progress(entries, accepts, before, claimed[..], todo[..k], left) && Distinct(left)
      invariant bad == 0 <==> NewOk(expected, entries, before, claimed[..])
    {
      var i := todo[k];
      ghost var mid := claimed[..];
      GreedyStep(entries, accepts, before, todo, k);
      var e := Claim(claimed, entries, accepts, i);
      if e.Some? {
        ClaimTurn(entries, accepts, before, mid, todo, k, left, e.value);
        NewOkStep(expected, entries, before, mid, i, e.value);
        if !ContentOk(expected[i], entries[e.value]) {
          bad := bad + 1;
        }
      } else {
        LeaveTurn(entries, accepts, before, mid, todo, k, left);
        left := left + [i];
      }
    }
    assert todo[..|todo|] == todo;
  }

  /** Every claim made since `before` is for the right bytes. */
  ghost predicate NewOk(expected: seq<Expected>, entries: seq<Entry>, before: Claims, after: Claims)
  {
    |before| == |after| == |entries| &&
    forall e | 0 <= e < |after| && before[e] == None && after[e].Some? ::
      after[e].value < |expected| && ContentOk(expected[after[e].value], entries[e])
  }

  lemma NewOkStep(expected: seq<Expected>, entries: seq<Entry>, before: Claims, mid: Claims, i: nat, e: nat)
    requires |before| == |mid| == |entries| && e < |mid| && mid[e] == None && before[e] == None && i < |expected|
    ensures NewOk(expected, entries, before, mid[e := Some(i)]) <==>
              NewOk(expected, entries, before, mid) && ContentOk(expected[i], entries[e])
  {
    var after := mid[e := Some(i)];
    assert after[e] == Some(i);
    assert forall d | 0 <= d < |after| && d != e :: after[d] == mid[d];
  }

  // ----- match_expected

  datatype Stage = Exact | Normal | Folded | Anywhere

  /** What each loop accepts; on a volume that tells cases apart the third accepts
      nothing. */
  function Accepts(stage: Stage, expected: seq<Expected>, p: Profile): (nat, Entry) -> bool {
    (i: nat, e: Entry) =>
      i < |expected| &&
      match stage
      case Exact => e.rel in Wanted(expected[i], p)
      case Normal => SameNfc(e, Wanted(expected[i], p), p)
      case Folded => !p.caseSensitive && SameFold(e, Wanted(expected[i], p), p)
      case Anywhere => ContentOk(expected[i], e)
  }

  /** The two lists the loops start from. */
  ghost predicate Sorted(expected: seq<Expected>, p: Profile, named: seq<nat>, anywhere: seq<nat>) {
    && Ascending(named) && Ascending(anywhere)
    && (forall i: nat :: i in named <==> i < |expected| && Wanted(expected[i], p) != [])
    && (forall i: nat :: i in anywhere <==> i < |expected| && Wanted(expected[i], p) == [])
  }

  method SortOut(expected: seq<Expected>, p: Profile) returns (named: seq<nat>, anywhere: seq<nat>)
    ensures Sorted(expected, p, named, anywhere)
  {
    named, anywhere := [], [];
    for k := 0 to |expected|
      invariant Ascending(named) && Ascending(anywhere)
      invariant forall i: nat :: i in named <==> i < k && Wanted(expected[i], p) != []
      invariant forall i: nat :: i in anywhere <==> i < k && Wanted(expected[i], p) == []
    {
      AscendingMore(named, k);
      AscendingMore(anywhere, k);
      if Wanted(expected[k], p) != [] {
        named := named + [k];
      } else {
        anywhere := anywhere + [k];
      }
    }
  }

  /** Everything a stage of the run leaves behind, from nothing claimed on. */
  ghost predicate Sound(expected: seq<Expected>, entries: seq<Entry>, p: Profile, c: Claims) {
    && |c| == |entries| && OneEach(c)
    && forall e | 0 <= e < |c| && c[e].Some? ::
         c[e].value < |expected| && PathOk(expected[c[e].value], entries[e], p)
  }

  lemma StageSound(stage: Stage, expected: seq<Expected>, entries: seq<Entry>, p: Profile, c: Claims, d: Claims,
      todo: seq<nat>, left: seq<nat>)
    requires Sound(expected, entries, p, c) && Progress(entries, Accepts(stage, expected, p), c, d, todo, left)
    requires stage == Anywhere ==> forall i | i in todo :: i < |expected| && Wanted(expected[i], p) == []
    ensures Sound(expected, entries, p, d)
  {
    forall e | 0 <= e < |d| && d[e].Some? ensures d[e].value < |expected| && PathOk(expected[d[e].value], entries[e], p) {
      if c[e] == None {
        assert Accepts(stage, expected, p)(d[e].value, entries[e]);
      }
    }
  }

  lemma ClaimsStay(entries: seq<Entry>, accepts: (nat, Entry) -> bool, c: Claims, d: Claims, todo: seq<nat>,
      left: seq<nat>, i: nat)
    requires Progress(entries, accepts, c, d, todo, left) && Claimed(c, i)
    ensures Claimed(d, i)
  {
    var e :| 0 <= e < |c| && c[e] == Some(i);
    assert d[e] == Some(i);
  }

  ghost predicate AllOk(expected: seq<Expected>, entries: seq<Entry>, c: Claims) {
    && |c| == |entries|
    && forall e | 0 <= e < |c| && c[e].Some? ::
         c[e].value < |expected| && ContentOk(expected[c[e].value], entries[e])
  }

  lemma NewOkMore(expected: seq<Expected>, entries: seq<Entry>, accepts: (nat, Entry) -> bool, c: Claims, d: Claims,
      todo: seq<nat>, left: seq<nat>)
    requires Progress(entries, accepts, c, d, todo, left)
    ensures AllOk(expected, entries, d) <==> AllOk(expected, entries, c) && NewOk(expected, entries, c, d)
  {
    assert forall e | 0 <= e < |c| && c[e].Some? :: d[e] == c[e];
  }

  predicate IsNamed(expected: seq<Expected>, p: Profile, i: nat) {
    i < |expected| && Wanted(expected[i], p) != []
  }

  /** The three loops over named expectations, as one function of what was claimed. */
  function NamedClaims(expected: seq<Expected>, entries: seq<Entry>, p: Profile, c: Claims, named: seq<nat>):
      (r: (Claims, seq<nat>))
    requires |c| == |entries|
    ensures |r.0| == |entries|
  {
    var (c1, left1) := Greedy(entries, Accepts(Exact, expected, p), c, named);
    var (c2, left2) := Greedy(entries, Accepts(Normal, expected, p), c1, left1);
    Greedy(entries, Accepts(Folded, expected, p), c2, left2)
  }

  /** The state after those loops: only named expectations hold entries, one each and at
      acceptable paths; the unresolved ones are those that hold none, and no unclaimed
      entry is at a path acceptable to any of them. */
  ghost predicate Settled(expected: seq<Expected>, entries: seq<Entry>, p: Profile, c: Claims, unresolved: seq<nat>) {
    && Sound(expected, entries, p, c)
    && (forall i: nat | Claimed(c, i) :: IsNamed(expected, p, i))
    && (forall i: nat :: i in unresolved <==> IsNamed(expected, p, i) && !Claimed(c, i))
    && (forall i, e | i in unresolved && 0 <= e < |c| && c[e] == None :: !PathOk(expected[i], entries[e], p))
  }

  /** `match_expected` on unclaimed entries. It reports no problem if and only if every
      expectation has claimed an entry and every claim is for the right bytes; whatever
      it reports, claims are one to one and at acceptable paths, the unresolved named
      expectations had nothing left to claim, and the path-free ones are all met exactly
      when some assignment of what the named ones left (`mid`) meets them. Where no named
      expectation accepts two entries, silence means no more and no less than that some
      assignment meets everything. */
  method MatchExpected(expected: seq<Expected>, entries: seq<Entry>, p: Profile, claimed: array<Option<nat>>)
    returns (problems: nat, unresolved: seq<nat>, ghost mid: Claims, ghost named: seq<nat>, ghost free: seq<nat>)
    requires claimed.Length == |entries| && forall e | 0 <= e < |entries| :: claimed[e] == None
    modifies claimed
    ensures Sorted(expected, p, named, free)
    ensures (mid, unresolved) == NamedClaims(expected, entries, p, old(claimed[..]), named)
    ensures StrongestFirst(expected, entries, p, mid)
    ensures problems == 0 <==> MetOnDisk(expected, entries, p, claimed[..])
    ensures Sound(expected, entries, p, claimed[..]) && Settled(expected, entries, p, mid, unresolved)
    ensures Keeps(mid, claimed[..])
    ensures problems == 0 <==> AllMet(expected, entries, claimed[..])
    ensures problems == 0 ==> CanBeMet(expected, entries, p)
    ensures OnePlace(expected, entries, p) ==> (problems == 0 <==> CanBeMet(expected, entries, p))
    ensures (forall i | i in free :: Claimed(claimed[..], i)) <==> CanAssign(expected, entries, mid, free)
  {
    var first, anywhere := SortOut(expected, p);
    named := first;
    var bad: nat;
    unresolved, bad := MatchNamed(expected, entries, p, claimed, first);
    mid, free := claimed[..], anywhere;
    FreeUnclaimed(expected, entries, p, mid, unresolved, named, free);
    var left, wrong := Pass(claimed, expected, entries, Accepts(Anywhere, expected, p), anywhere);
    problems := |unresolved| + bad + |left|;
    ghost var d := claimed[..];
    Outcome(expected, entries, p, mid, unresolved, d, named, free, left);
  }

  /** Claims made so far stand. */
  ghost predicate Keeps(c: Claims, d: Claims) {
    |c| == |d| && forall e | 0 <= e < |c| && c[e].Some? :: d[e] == c[e]
  }

  /** Some assignment meets every expectation. */
  ghost predicate CanBeMet(expected: seq<Expected>, entries: seq<Entry>, p: Profile) {
    exists f: map<nat, nat> :: Meets(expected, entries, p, f)
  }

  ghost predicate CanAssign(expected: seq<Expected>, entries: seq<Entry>, c: Claims, free: seq<nat>) {
    exists f: map<nat, nat> :: Assigns(expected, entries, c, free, f)
  }

  lemma FreeUnclaimed(expected: seq<Expected>, entries: seq<Entry>, p: Profile, c: Claims, unresolved: seq<nat>,
      named: seq<nat>, free: seq<nat>)
    requires Sorted(expected, p, named, free) && Settled(expected, entries, p, c, unresolved)
    ensures Distinct(free)
    ensures forall k | 0 <= k < |free| :: free[k] < |expected| && !Claimed(c, free[k])
  {
    forall k | 0 <= k < |free| ensures free[k] < |expected| && !Claimed(c, free[k]) {
      assert free[k] in free;
      assert !IsNamed(expected, p, free[k]);
    }
  }

  lemma Outcome(expected: seq<Expected>, entries: seq<Entry>, p: Profile, c: Claims, unresolved: seq<nat>, d: Claims,
      named: seq<nat>, free: seq<nat>, left: seq<nat>)
    requires Sorted(expected, p, named, free) && Settled(expected, entries, p, c, unresolved)
    requires forall k | 0 <= k < |free| :: !Claimed(c, free[k])
    requires Progress(entries, Accepts(Anywhere, expected, p), c, d, free, left)
    ensures Sound(expected, entries, p, d) && Keeps(c, d)
    ensures unresolved == [] && AllOk(expected, entries, c) && left == [] <==> AllMet(expected, entries, d)
    ensures AllMet(expected, entries, d) <==> MetOnDisk(expected, entries, p, d)
    ensures AllMet(expected, entries, d) ==> CanBeMet(expected, entries, p)
    ensures OnePlace(expected, entries, p) ==> (AllMet(expected, entries, d) <==> CanBeMet(expected, entries, p))
    ensures (forall i | i in free :: Claimed(d, i)) <==> CanAssign(expected, entries, c, free)
  {
    StageSound(Anywhere, expected, entries, p, c, d, free, left);
    NewOkMore(expected, entries, Accepts(Anywhere, expected, p), c, d, free, left);
    AnywhereRight(expected, entries, p, c, d, free, left);
    FreeComplete(expected, entries, p, c, d, free, left);
    Tally(expected, entries, p, c, d, named, free, left, unresolved);
    MetOnDiskIff(expected, entries, p, d);
    Silence(expected, entries, p, c, unresolved, d, free, left);
  }

  lemma Silence(expected: seq<Expected>, entries: seq<Entry>, p: Profile, c: Claims, unresolved: seq<nat>, d: Claims,
      free: seq<nat>, left: seq<nat>)
    requires Settled(expected, entries, p, c, unresolved) && Sound(expected, entries, p, d)
    requires Progress(entries, Accepts(Anywhere, expected, p), c, d, free, left)
    requires forall i: nat :: i in free <==> i < |expected| && Wanted(expected[i], p) == []
    ensures AllMet(expected, entries, d) ==> exists f: map<nat, nat> :: Meets(expected, entries, p, f)
    ensures OnePlace(expected, entries, p) ==>
              (AllMet(expected, entries, d) <==> exists f: map<nat, nat> :: Meets(expected, entries, p, f))
  {
    if AllMet(expected, entries, d) {
      var f := MetIsAssigned(expected, entries, p, d);
    }
    if OnePlace(expected, entries, p) {
      SilentIffMet(expected, entries, p, c, unresolved, d, free, left);
    }
  }

  lemma FreeComplete(expected: seq<Expected>, entries: seq<Entry>, p: Profile, c: Claims, d: Claims, free: seq<nat>,
      left: seq<nat>)
    requires Progress(entries, Accepts(Anywhere, expected, p), c, d, free, left) && OneEach(c)
    requires forall i | i in free :: i < |expected| && !Claimed(c, i)
    ensures (forall i | i in free :: Claimed(d, i)) <==> exists f: map<nat, nat> :: Assigns(expected, entries, c, free, f)
  {
    GreedyIsComplete(expected, entries, p, c, d, free, left);
    if left != [] {
      assert left[0] in left;
      assert left[0] in free && !Claimed(d, left[0]);
    }
  }

  lemma AnywhereRight(expected: seq<Expected>, entries: seq<Entry>, p: Profile, c: Claims, d: Claims, todo: seq<nat>,
      left: seq<nat>)
    requires Progress(entries, Accepts(Anywhere, expected, p), c, d, todo, left)
    ensures NewOk(expected, entries, c, d)
  {
    forall e | 0 <= e < |d| && c[e] == None && d[e].Some?
      ensures d[e].value < |expected| && ContentOk(expected[d[e].value], entries[e])
    {
      assert Accepts(Anywhere, expected, p)(d[e].value, entries[e]);
    }
  }

  lemma Tally(expected: seq<Expected>, entries: seq<Entry>, p: Profile, c: Claims, d: Claims, named: seq<nat>,
      anywhere: seq<nat>, left: seq<nat>, unresolved: seq<nat>)
    requires Sorted(expected, p, named, anywhere) && Settled(expected, entries, p, c, unresolved)
    requires Progress(entries, Accepts(Anywhere, expected, p), c, d, anywhere, left)
    ensures unresolved == [] && left == [] <==> forall i: nat | i < |expected| :: Claimed(d, i)
  {
    if unresolved == [] && left == [] {
      forall i: nat | i < |expected| ensures Claimed(d, i) {
        if i in named {
          assert i !in unresolved;
          ClaimsStay(entries, Accepts(Anywhere, expected, p), c, d, anywhere, left, i);
        } else {
          assert i in anywhere && i !in left;
        }
      }
    } else if left != [] {
      assert left[0] in left;
      assert left[0] in anywhere;
    } else {
      var i := unresolved[0];
      assert i in unresolved && i !in anywhere;
      forall e | 0 <= e < |d| ensures d[e] != Some(i) {
        assert c[e] != Some(i);
      }
      assert i < |expected| && !Claimed(d, i);
    }
  }

  /** The three loops over the named expectations. */
  method MatchNamed(expected: seq<Expected>, entries: seq<Entry>, p: Profile, claimed: array<Option<nat>>,
      named: seq<nat>)
    returns (unresolved: seq<nat>, bad: nat)
    requires claimed.Length == |entries| && forall e | 0 <= e < |entries| :: claimed[e] == None
    requires Distinct(named) && forall i: nat :: i in named <==> IsNamed(expected, p, i)
    modifies claimed
    ensures (claimed[..], unresolved) == NamedClaims(expected, entries, p, old(claimed[..]), named)
    ensures Settled(expected, entries, p, claimed[..], unresolved)
    ensures StrongestFirst(expected, entries, p, claimed[..])
    ensures bad == 0 <==> AllOk(expected, entries, claimed[..])
  {
    ghost var c0 := claimed[..];
    var left1, bad1 := NamedPass(Exact, expected, entries, p, claimed, named);
    ghost var c1 := claimed[..];
    var left2, bad2 := NamedPass(Normal, expected, entries, p, claimed, left1);
    ghost var c2 := claimed[..];
    var bad3: nat;
    unresolved, bad3 := NamedPass(Folded, expected, entries, p, claimed, left2);
    bad := bad1 + bad2 + bad3;
    ghost var c3 := claimed[..];
    ThreeStages(expected, entries, p, c0, c1, c2, c3, named, left1, left2, unresolved);
    StagesAreOrdered(expected, entries, p, c0, c1, c2, c3, named, left1, left2, unresolved);
  }

  /** What one named loop leaves behind, besides being greedy. */
  ghost predicate StageDone(stage: Stage, expected: seq<Expected>, entries: seq<Entry>, p: Profile, c: Claims,
      d: Claims, todo: seq<nat>, left: seq<nat>)
  {
    && Sound(expected, entries, p, d) && |c| == |d| && Distinct(left)
    && (forall i: nat :: i in left <==> i in todo && !Claimed(d, i))
    && (forall i: nat :: Claimed(c, i) ==> Claimed(d, i))
    && (forall i: nat :: Claimed(d, i) ==> i in todo || Claimed(c, i))
    && (forall e | 0 <= e < |d| && d[e] == None :: c[e] == None)
    && (forall i, e | i in left && 0 <= e < |d| && d[e] == None :: !Accepts(stage, expected, p)(i, entries[e]))
    && (forall e | 0 <= e < |d| && c[e].Some? :: d[e] == c[e])
    && (forall e | 0 <= e < |d| && c[e] == None && d[e].Some? ::
          d[e].value in todo && Accepts(stage, expected, p)(d[e].value, entries[e]))
  }

  predicate Spelt(exp: Expected, e: Entry, p: Profile) { e.rel in Wanted(exp, p) }

  predicate Normalised(exp: Expected, e: Entry, p: Profile) { SameNfc(e, Wanted(exp, p), p) }

  /** Strongest evidence first: whoever settled for an entry not spelt as asked found every
      entry that is spelt so with an owner spelt as asked too, and whoever settled for one
      that is not even after normalisation found those that are with owners like that. */
  ghost predicate StrongestFirst(expected: seq<Expected>, entries: seq<Entry>, p: Profile, c: Claims) {
    && |c| == |entries|
    && (forall e | 0 <= e < |c| && c[e].Some? :: c[e].value < |expected|)
    && (forall d, e | 0 <= d < |c| && 0 <= e < |c| && c[e].Some? && !Spelt(expected[c[e].value], entries[e], p) ::
          Spelt(expected[c[e].value], entries[d], p) ==> c[d].Some? && Spelt(expected[c[d].value], entries[d], p))
    && (forall d, e | 0 <= d < |c| && 0 <= e < |c| && c[e].Some? && !Normalised(expected[c[e].value], entries[e], p) ::
          Normalised(expected[c[e].value], entries[d], p) ==>
            c[d].Some? && Normalised(expected[c[d].value], entries[d], p))
  }

  lemma StagesAreOrdered(expected: seq<Expected>, entries: seq<Entry>, p: Profile, c0: Claims, c1: Claims, c2: Claims,
      c3: Claims, named: seq<nat>, left1: seq<nat>, left2: seq<nat>, left3: seq<nat>)
    requires forall e | 0 <= e < |c0| :: c0[e] == None
    requires StageDone(Exact, expected, entries, p, c0, c1, named, left1)
    requires StageDone(Normal, expected, entries, p, c1, c2, left1, left2)
    requires StageDone(Folded, expected, entries, p, c2, c3, left2, left3)
    ensures StrongestFirst(expected, entries, p, c3)
  {
    var exact, normal := Accepts(Exact, expected, p), Accepts(Normal, expected, p);
    forall d, e | 0 <= d < |c3| && 0 <= e < |c3| && c3[e].Some? && !Spelt(expected[c3[e].value], entries[e], p)
      ensures Spelt(expected[c3[e].value], entries[d], p) ==>
                c3[d].Some? && Spelt(expected[c3[d].value], entries[d], p)
    {
      var i := c3[e].value;
      assert c1[e] == None && i in left1;
      assert Spelt(expected[i], entries[d], p) ==> exact(i, entries[d]);
    }
    forall d, e | 0 <= d < |c3| && 0 <= e < |c3| && c3[e].Some? && !Normalised(expected[c3[e].value], entries[e], p)
      ensures Normalised(expected[c3[e].value], entries[d], p) ==>
                c3[d].Some? && Normalised(expected[c3[d].value], entries[d], p)
    {
      var i := c3[e].value;
      assert c2[e] == None && i in left2;
      assert Normalised(expected[i], entries[d], p) ==> normal(i, entries[d]);
    }
  }

  lemma ThreeStages(expected: seq<Expected>, entries: seq<Entry>, p: Profile, c0: Claims, c1: Claims, c2: Claims,
      c3: Claims, named: seq<nat>, left1: seq<nat>, left2: seq<nat>, left3: seq<nat>)
    requires forall e | 0 <= e < |c0| :: c0[e] == None
    requires forall i: nat :: i in named <==> IsNamed(expected, p, i)
    requires StageDone(Exact, expected, entries, p, c0, c1, named, left1)
    requires StageDone(Normal, expected, entries, p, c1, c2, left1, left2)
    requires StageDone(Folded, expected, entries, p, c2, c3, left2, left3)
    ensures Settled(expected, entries, p, c3, left3)
  {
    forall i: nat ensures !Claimed(c0, i) {
    }
    forall i, e | i in left3 && 0 <= e < |c3| && c3[e] == None ensures !PathOk(expected[i], entries[e], p) {
      assert i in left2 && i in left1 && i in named && IsNamed(expected, p, i);
      assert c2[e] == None && c1[e] == None;
      assert !Accepts(Exact, expected, p)(i, entries[e]);
      assert !Accepts(Normal, expected, p)(i, entries[e]);
      assert !Accepts(Folded, expected, p)(i, entries[e]);
    }
  }

  method NamedPass(stage: Stage, expected: seq<Expected>, entries: seq<Entry>, p: Profile,
      claimed: array<Option<nat>>, todo: seq<nat>)
    returns (left: seq<nat>, bad: nat)
    requires claimed.Length == |entries| && Distinct(todo) && stage != Anywhere
    requires Sound(expected, entries, p, claimed[..])
    requires forall i | i in todo :: i < |expected| && !Claimed(claimed[..], i)
    modifies claimed
    ensures (claimed[..], left) == Greedy(entries, Accepts(stage, expected, p), old(claimed[..]), todo)
    ensures StageDone(stage, expected, entries, p, old(claimed[..]), claimed[..], todo, left)
    ensures AllOk(expected, entries, claimed[..]) <==> AllOk(expected, entries, old(claimed[..])) && bad == 0
  {
    ghost var c := claimed[..];
    var accepts := Accepts(stage, expected, p);
    assert forall k | 0 <= k < |todo| :: todo[k] in todo;
    left, bad := Pass(claimed, expected, entries, accepts, todo);
    ghost var d := claimed[..];
    StageSound(stage, expected, entries, p, c, d, todo, left);
    NewOkMore(expected, entries, accepts, c, d, todo, left);
    PassDone(stage, expected, entries, p, c, d, todo, left);
  }

  lemma PassDone(stage: Stage, expected: seq<Expected>, entries: seq<Entry>, p: Profile, c: Claims, d: Claims,
      todo: seq<nat>, left: seq<nat>)
    requires Progress(entries, Accepts(stage, expected, p), c, d, todo, left)
    requires Sound(expected, entries, p, d) && Distinct(left)
    ensures StageDone(stage, expected, entries, p, c, d, todo, left)
  {
    forall i: nat | Claimed(c, i) ensures Claimed(d, i) {
      ClaimsStay(entries, Accepts(stage, expected, p), c, d, todo, left, i);
    }
    forall i: nat | Claimed(d, i) ensures i in todo || Claimed(c, i) {
      var e :| 0 <= e < |d| && d[e] == Some(i);
      if c[e].Some? { assert c[e] == Some(i); }
    }
  }

  // ----- when the named claims are complete

  /** A way to give each named expectation an entry of its own at an acceptable path. */
  ghost predicate NamedAssigns(expected: seq<Expected>, entries: seq<Entry>, p: Profile, f: map<nat, nat>) {
    && (forall i: nat | IsNamed(expected, p, i) :: i in f && f[i] < |entries| && PathOk(expected[i], entries[f[i]], p))
    && (forall i: nat, j: nat | IsNamed(expected, p, i) && IsNamed(expected, p, j) && i != j ::
          i in f && j in f && f[i] != f[j])
  }

  /** Any two named expectations accept the same entries, or none in common. */
  ghost predicate SameOrApart(expected: seq<Expected>, entries: seq<Entry>, p: Profile) {
    forall i: nat, j: nat, e | IsNamed(expected, p, i) && IsNamed(expected, p, j) && 0 <= e < |entries|
                            && PathOk(expected[i], entries[e], p) && PathOk(expected[j], entries[e], p) ::
      SamePaths(expected, entries, p, i, j)
  }

  ghost predicate SamePaths(expected: seq<Expected>, entries: seq<Entry>, p: Profile, i: nat, j: nat)
    requires i < |expected| && j < |expected|
  {
    forall e | 0 <= e < |entries| :: PathOk(expected[i], entries[e], p) <==> PathOk(expected[j], entries[e], p)
  }

  /** The named expectations that accept the same entries as `x`. */
  ghost function Peers(expected: seq<Expected>, entries: seq<Entry>, p: Profile, x: nat): set<nat>
    requires x < |expected|
  {
    set i: nat | i < |expected| && IsNamed(expected, p, i) && SamePaths(expected, entries, p, i, x)
  }

  ghost function Places(expected: seq<Expected>, entries: seq<Entry>, p: Profile, x: nat): set<nat>
    requires x < |expected|
  {
    set e: nat | e < |entries| && PathOk(expected[x], entries[e], p)
  }

  /** An unresolved expectation means fewer entries at its paths than expectations that
      accept them: each of those entries is held by another peer. */
  lemma UnresolvedCounts(expected: seq<Expected>, entries: seq<Entry>, p: Profile, c: Claims, unresolved: seq<nat>,
      x: nat)
    requires Settled(expected, entries, p, c, unresolved) && SameOrApart(expected, entries, p) && x in unresolved
    ensures x < |expected| && |Places(expected, entries, p, x)| < |Peers(expected, entries, p, x)|
  {
    var peers, places := Peers(expected, entries, p, x), Places(expected, entries, p, x);
    var owner := map e | e in places :: if e < |c| && c[e].Some? then c[e].value else 0;
    forall e | e in places ensures c[e].Some? && owner[e] in peers - {x} {
      HeldByPeer(expected, entries, p, c, unresolved, x, e);
    }
    InjectionBound(places, peers - {x}, owner);
    assert x in peers;
  }

  lemma HeldByPeer(expected: seq<Expected>, entries: seq<Entry>, p: Profile, c: Claims, unresolved: seq<nat>, x: nat,
      e: nat)
    requires Settled(expected, entries, p, c, unresolved) && SameOrApart(expected, entries, p)
    requires x in unresolved && x < |expected| && e in Places(expected, entries, p, x)
    ensures c[e].Some? && c[e].value in Peers(expected, entries, p, x) - {x}
  {
    assert c[e].Some?;
    var j := c[e].value;
    assert Claimed(c, j);
    assert SamePaths(expected, entries, p, j, x);
  }

  lemma NamedAssignmentCounts(expected: seq<Expected>, entries: seq<Entry>, p: Profile, f: map<nat, nat>, x: nat)
    requires NamedAssigns(expected, entries, p, f) && IsNamed(expected, p, x)
    ensures |Peers(expected, entries, p, x)| <= |Places(expected, entries, p, x)|
  {
    InjectionBound(Peers(expected, entries, p, x), Places(expected, entries, p, x), f);
  }

  /** Then the named expectations are all resolved exactly when some assignment
      resolves them. */
  lemma NamedIsComplete(expected: seq<Expected>, entries: seq<Entry>, p: Profile, c: Claims, unresolved: seq<nat>)
    requires Settled(expected, entries, p, c, unresolved) && SameOrApart(expected, entries, p)
    ensures unresolved == [] <==> exists f: map<nat, nat> :: NamedAssigns(expected, entries, p, f)
  {
    if unresolved == [] {
      var f := map i: nat | 0 <= i < |expected| :: EntryOf(c, i);
      forall i: nat | IsNamed(expected, p, i) ensures i in f && Claimed(c, i) {
        assert i !in unresolved;
      }
      assert NamedAssigns(expected, entries, p, f);
    } else {
      var x := unresolved[0];
      assert x in unresolved;
      forall f: map<nat, nat> | NamedAssigns(expected, entries, p, f) ensures false {
        UnresolvedCounts(expected, entries, p, c, unresolved, x);
        NamedAssignmentCounts(expected, entries, p, f, x);
      }
    }
  }

  // ----- when silence is decided by the tree alone

  /** A way to give every expectation an entry of its own at an acceptable path, with the
      right bytes. */
  ghost predicate Meets(expected: seq<Expected>, entries: seq<Entry>, p: Profile, f: map<nat, nat>) {
    && (forall i: nat | i < |expected| ::
          i in f && f[i] < |entries| && PathOk(expected[i], entries[f[i]], p) && ContentOk(expected[i], entries[f[i]]))
    && (forall i: nat, j: nat | i < j < |expected| :: i in f && j in f && f[i] != f[j])
  }

  /** Each named expectation accepts at most one entry. */
  ghost predicate OnePlace(expected: seq<Expected>, entries: seq<Entry>, p: Profile) {
    forall i: nat, d, e | IsNamed(expected, p, i) && 0 <= d < |entries| && 0 <= e < |entries|
                       && PathOk(expected[i], entries[d], p) && PathOk(expected[i], entries[e], p) :: d == e
  }

  /** Every expectation holds an entry, and its bytes are right. */
  ghost predicate AllMet(expected: seq<Expected>, entries: seq<Entry>, c: Claims) {
    AllOk(expected, entries, c) && forall i: nat | i < |expected| :: Claimed(c, i)
  }

  lemma MetIsAssigned(expected: seq<Expected>, entries: seq<Entry>, p: Profile, d: Claims) returns (f: map<nat, nat>)
    requires Sound(expected, entries, p, d) && AllMet(expected, entries, d)
    ensures Meets(expected, entries, p, f)
  {
    f := map i: nat | 0 <= i < |expected| :: EntryOf(d, i);
    forall i: nat | i < |expected| ensures i in f && f[i] < |entries| && d[f[i]] == Some(i) {
      assert Claimed(d, i);
    }
  }

  lemma OnePlaceApart(expected: seq<Expected>, entries: seq<Entry>, p: Profile)
    requires OnePlace(expected, entries, p)
    ensures SameOrApart(expected, entries, p)
  {
  }

  /** The named claims are the ones any full assignment makes. */
  lemma NamedAsAssigned(expected: seq<Expected>, entries: seq<Entry>, p: Profile, c: Claims, unresolved: seq<nat>,
      f: map<nat, nat>)
    requires Settled(expected, entries, p, c, unresolved) && OnePlace(expected, entries, p)
    requires Meets(expected, entries, p, f)
    ensures unresolved == []
    ensures forall e | 0 <= e < |c| && c[e].Some? :: c[e].value < |expected| && f[c[e].value] == e
    ensures AllOk(expected, entries, c)
  {
    OnePlaceApart(expected, entries, p);
    assert NamedAssigns(expected, entries, p, f);
    NamedIsComplete(expected, entries, p, c, unresolved);
    forall e | 0 <= e < |c| && c[e].Some? ensures c[e].value < |expected| && f[c[e].value] == e {
      assert Claimed(c, c[e].value);
    }
  }

  lemma FreeAsAssigned(expected: seq<Expected>, entries: seq<Entry>, p: Profile, c: Claims, free: seq<nat>,
      f: map<nat, nat>)
    requires |c| == |entries| && Meets(expected, entries, p, f)
    requires forall e | 0 <= e < |c| && c[e].Some? :: c[e].value < |expected| && f[c[e].value] == e
    requires forall i | i in free :: i < |expected| && !Claimed(c, i)
    ensures Assigns(expected, entries, c, free, f)
  {
    assert forall e | 0 <= e < |c| && c[e].Some? :: Claimed(c, c[e].value);
  }

  /** When each named expectation accepts at most one entry, the matcher is silent if and
      only if some assignment meets every expectation. */
  lemma SilentIffMet(expected: seq<Expected>, entries: seq<Entry>, p: Profile, c: Claims, unresolved: seq<nat>,
      d: Claims, free: seq<nat>, left: seq<nat>)
    requires OnePlace(expected, entries, p) && Settled(expected, entries, p, c, unresolved)
    requires Sound(expected, entries, p, d)
    requires Progress(entries, Accepts(Anywhere, expected, p), c, d, free, left)
    requires forall i: nat :: i in free <==> i < |expected| && Wanted(expected[i], p) == []
    ensures AllMet(expected, entries, d) <==> exists f: map<nat, nat> :: Meets(expected, entries, p, f)
  {
    if AllMet(expected, entries, d) {
      var f := MetIsAssigned(expected, entries, p, d);
    }
    if f: map<nat, nat> :| Meets(expected, entries, p, f) {
      NamedAsAssigned(expected, entries, p, c, unresolved, f);
      FreeAsAssigned(expected, entries, p, c, free, f);
      GreedyIsComplete(expected, entries, p, c, d, free, left);
      AnywhereRight(expected, entries, p, c, d, free, left);
      NewOkMore(expected, entries, Accepts(Anywhere, expected, p), c, d, free, left);
      AllClaimed(expected, entries, p, c, d, free, left);
    }
  }

  lemma AllClaimed(expected: seq<Expected>, entries: seq<Entry>, p: Profile, c: Claims, d: Claims, free: seq<nat>,
      left: seq<nat>)
    requires Settled(expected, entries, p, c, [])
    requires Progress(entries, Accepts(Anywhere, expected, p), c, d, free, left) && left == []
    requires forall i: nat :: i in free <==> i < |expected| && Wanted(expected[i], p) == []
    ensures forall i: nat | i < |expected| :: Claimed(d, i)
  {
    forall i: nat | i < |expected| ensures Claimed(d, i) {
      if i !in free {
        assert IsNamed(expected, p, i) && i !in [];
        ClaimsStay(entries, Accepts(Anywhere, expected, p), c, d, free, left, i);
      }
    }
  }

  /** Without that, a named claim can take the one entry a later expectation needs: two
      files, one expectation content with either and one that wants the first. */
  lemma NamedClaimCanMiss(p: Profile, a: Expected, b: Expected, x: Entry, y: Entry)
    requires a.byVolume == b.byVolume == map[] && a.paths == ["a", "b"] && b.paths == [] && b.path == Some("a")
    requires x.rel == "a" && y.rel == "b"
    requires p.caseSensitive && p.nfc("a") != p.nfc("b")
    ensures NamedClaims([a, b], [x, y], p, [None, None], [0, 1]) == ([Some(0), None], [1])
    ensures NamedAssigns([a, b], [x, y], p, map[0 := 1, 1 := 0])
  {
    assert Wanted(a, p) == ["a", "b"] && Wanted(b, p) == ["a"];
    var expected, entries := [a, b], [x, y];
    var exact, normal, folded := Accepts(Exact, expected, p), Accepts(Normal, expected, p), Accepts(Folded, expected, p);
    var c: Claims := [Some(0), None];
    assert exact(0, x) && !exact(1, y) by { assert "b" != "a"; }
    OneClaims(entries, exact);
    assert !normal(1, y);
    OneLeft(entries, normal, c);
    OneLeft(entries, folded, c);
  }

  lemma OneClaims(entries: seq<Entry>, accepts: (nat, Entry) -> bool)
    requires |entries| == 2 && accepts(0, entries[0]) && !accepts(1, entries[1])
    ensures Greedy(entries, accepts, [None, None], [0, 1]) == ([Some(0), None], [1])
  {
    var none: Claims, one: Claims := [None, None], [Some(0), None];
    var todo: seq<nat> := [0, 1];
    assert todo[..1] == [0] && todo[..1][..0] == [];
    assert Greedy(entries, accepts, none, todo[..0]) == (none, []);
    GreedyStep(entries, accepts, none, todo, 0);
    assert none[0 := Some(0)] == one;
    GreedyStep(entries, accepts, none, todo, 1);
    assert todo[..2] == todo;
    var nobody: seq<nat> := [];
    assert nobody + [1] == [1];
    assert FirstFree(entries, accepts, one, 1, 2) == None;
    assert FirstFree(entries, accepts, one, 1, 1) == None;
    assert FirstFree(entries, accepts, one, 1, 0) == None;
  }

  lemma OneLeft(entries: seq<Entry>, accepts: (nat, Entry) -> bool, c: Claims)
    requires |entries| == 2 && c == [Some(0), None] && !accepts(1, entries[1])
    ensures Greedy(entries, accepts, c, [1]) == (c, [1])
  {
    var todo: seq<nat> := [1];
    assert todo[..0] == [];
    GreedyStep(entries, accepts, c, todo, 0);
    assert todo[..1] == todo;
    var nobody: seq<nat> := [];
    assert nobody + [1] == [1];
    assert FirstFree(entries, accepts, c, 1, 2) == None;
    assert FirstFree(entries, accepts, c, 1, 1) == None;
    assert FirstFree(entries, accepts, c, 1, 0) == None;
  }

  // ----- the greedy claim by content misses no assignment

  /** A way to give each open expectation an unclaimed entry of its own. */
  ghost predicate Assigns(expected: seq<Expected>, entries: seq<Entry>, c: Claims, todo: seq<nat>, f: map<nat, nat>) {
    && |c| == |entries|
    && (forall i | i in todo ::
          i < |expected| && i in f && f[i] < |entries| && c[f[i]] == None && ContentOk(expected[i], entries[f[i]]))
    && (forall i, j | i in todo && j in todo && i != j :: i in f && j in f && f[i] != f[j])
  }

  lemma {:induction false} InjectionBound(a: set<nat>, b: set<nat>, f: map<nat, nat>)
    requires forall x | x in a :: x in f && f[x] in b
    requires forall x, y | x in a && y in a && x != y :: f[x] != f[y]
    ensures |a| <= |b|
    decreases a
  {
    if a != {} {
      var x :| x in a;
      InjectionBound(a - {x}, b - {f[x]}, f);
    }
  }

  /** The open expectations that want the same content as `x`. */
  ghost function Rivals(expected: seq<Expected>, todo: seq<nat>, x: nat): set<nat>
    requires x < |expected| && forall i | i in todo :: i < |expected|
  {
    set i | i in todo && expected[i].bytes == expected[x].bytes && expected[i].sha == expected[x].sha
  }

  /** The unclaimed entries with that content. */
  ghost function Supply(expected: seq<Expected>, entries: seq<Entry>, c: Claims, x: nat): set<nat>
    requires x < |expected| && |c| == |entries|
  {
    set e: nat | 0 <= e < |entries| && c[e] == None && ContentOk(expected[x], entries[e])
  }

  /** If `x` is left over, every entry it could have had is held by another rival. */
  lemma SupplyIsHeld(expected: seq<Expected>, entries: seq<Entry>, p: Profile, c: Claims, d: Claims, todo: seq<nat>,
      left: seq<nat>, x: nat, e: nat)
    requires Progress(entries, Accepts(Anywhere, expected, p), c, d, todo, left)
    requires x in left && forall i | i in todo :: i < |expected|
    requires e in Supply(expected, entries, c, x)
    ensures d[e].Some? && d[e].value in Rivals(expected, todo, x) - {x}
  {
    assert Accepts(Anywhere, expected, p)(x, entries[e]);
    assert Accepts(Anywhere, expected, p)(d[e].value, entries[e]);
  }

  /** Someone left over means too few entries of that size and hash: everyone who
      holds one wanted the same content. */
  lemma LeftoverCounts(expected: seq<Expected>, entries: seq<Entry>, p: Profile, c: Claims, d: Claims,
      todo: seq<nat>, left: seq<nat>, x: nat)
    requires Progress(entries, Accepts(Anywhere, expected, p), c, d, todo, left) && OneEach(d)
    requires x in left && forall i | i in todo :: i < |expected|
    ensures |Supply(expected, entries, c, x)| < |Rivals(expected, todo, x)|
  {
    var rivals, supply := Rivals(expected, todo, x), Supply(expected, entries, c, x);
    var owner := map e | e in supply :: if d[e].Some? then d[e].value else 0;
    forall e | e in supply ensures d[e].Some? && owner[e] in rivals - {x} {
      SupplyIsHeld(expected, entries, p, c, d, todo, left, x, e);
    }
    InjectionBound(supply, rivals - {x}, owner);
    assert x in rivals;
  }

  lemma AssignmentCounts(expected: seq<Expected>, entries: seq<Entry>, c: Claims, todo: seq<nat>, f: map<nat, nat>,
      x: nat)
    requires Assigns(expected, entries, c, todo, f) && x in todo
    ensures |Rivals(expected, todo, x)| <= |Supply(expected, entries, c, x)|
  {
    InjectionBound(Rivals(expected, todo, x), Supply(expected, entries, c, x), f);
  }

  /** Path-free expectations are all met exactly when some assignment meets them. */
  lemma GreedyIsComplete(expected: seq<Expected>, entries: seq<Entry>, p: Profile, c: Claims, d: Claims,
      todo: seq<nat>, left: seq<nat>)
    requires Progress(entries, Accepts(Anywhere, expected, p), c, d, todo, left) && OneEach(c)
    requires forall i | i in todo :: i < |expected| && !Claimed(c, i)
    ensures left == [] <==> exists f: map<nat, nat> :: Assigns(expected, entries, c, todo, f)
  {
    if left != [] {
      assert left[0] in left;
      forall f: map<nat, nat> | Assigns(expected, entries, c, todo, f) ensures false {
        LeftoverCounts(expected, entries, p, c, d, todo, left, left[0]);
        AssignmentCounts(expected, entries, c, todo, f, left[0]);
      }
    } else {
      var f := map i | i in todo :: EntryOf(d, i);
      forall i | i in todo ensures f[i] < |entries| && c[f[i]] == None && ContentOk(expected[i], entries[f[i]]) {
        var e := EntryOf(d, i);
        assert c[e] != Some(i);
        assert Accepts(Anywhere, expected, p)(i, entries[e]);
      }
      assert Assigns(expected, entries, c, todo, f);
    }
  }

  ghost function EntryOf(c: Claims, i: nat): (e: nat)
    ensures Claimed(c, i) ==> e < |c| && c[e] == Some(i)
  {
    if Claimed(c, i) then
      var e :| 0 <= e < |c| && c[e] == Some(i);
      e
    else 0
  }

  // ----- the closed-world arm

  /** `os.path.basename` */
  function BaseName(rel: string): string {
    if '/' !in rel then rel else BaseName(rel[1..])
  }

  lemma {:induction false} BaseNameLaw(dir: string, base: string)
    requires '/' !in base
    ensures BaseName(base) == base && BaseName(dir + "/" + base) == base
  {
    assert (dir + "/" + base)[|dir|] == '/';
    if dir == "" {
      assert (dir + "/" + base)[1..] == base;
    } else {
      assert (dir + "/" + base)[1..] == dir[1..] + "/" + base;
      BaseNameLaw(dir[1..], base);
    }
  }

  predicate ExtraAllowed(rel: string, patterns: seq<string>, fnmatch: (string, string) -> bool) {
    exists k | 0 <= k < |patterns| :: fnmatch(rel, patterns[k]) || fnmatch(BaseName(rel), patterns[k])
  }

  /** A pattern may match the whole path, or the part behind its last separator. */
  lemma AllowedByBase(dir: string, base: string, patterns: seq<string>, fnmatch: (string, string) -> bool)
    requires '/' !in base
    ensures ExtraAllowed(base, patterns, fnmatch) <==> exists k | 0 <= k < |patterns| :: fnmatch(base, patterns[k])
    ensures ExtraAllowed(dir + "/" + base, patterns, fnmatch) <==>
              exists k | 0 <= k < |patterns| :: fnmatch(dir + "/" + base, patterns[k]) || fnmatch(base, patterns[k])
  {
    BaseNameLaw(dir, base);
  }

  method ClosedWorld(on: bool, patterns: seq<string>, fnmatch: (string, string) -> bool, entries: seq<Entry>,
      claims: Claims, emptyDirs: seq<string>)
    returns (problems: nat)
    requires |claims| == |entries|
    ensures problems == 0 <==>
              (on ==> (forall e | 0 <= e < |entries| && claims[e] == None ::
                         ExtraAllowed(entries[e].rel, patterns, fnmatch))
                      && forall d | 0 <= d < |emptyDirs| :: ExtraAllowed(emptyDirs[d], patterns, fnmatch))
  {
    problems := 0;
    if !on {
      return;
    }
    for e := 0 to |entries|
      invariant problems == 0 <==>
                  forall k | 0 <= k < e && claims[k] == None :: ExtraAllowed(entries[k].rel, patterns, fnmatch)
    {
      if claims[e] == None && !ExtraAllowed(entries[e].rel, patterns, fnmatch) {
        problems := problems + 1;
      }
    }
    ghost var first := problems;
    for d := 0 to |emptyDirs|
      invariant problems == 0 <==> first == 0 && forall k | 0 <= k < d :: ExtraAllowed(emptyDirs[k], patterns, fnmatch)
    {
      if !ExtraAllowed(emptyDirs[d], patterns, fnmatch) {
        problems := problems + 1;
      }
    }
  }

  /** Every expectation holds an entry, every entry held is as its expectation asks, and
      every other one is allowed. */
  ghost predicate Explained(expected: seq<Expected>, entries: seq<Entry>, p: Profile, c: Claims, patterns: seq<string>,
      fnmatch: (string, string) -> bool)
  {
    && |c| == |entries|
    && (forall i: nat | i < |expected| :: Claimed(c, i))
    && (forall e | 0 <= e < |entries| ::
          match c[e]
          case Some(i) => i < |expected| && Meet(expected[i], entries[e], p)
          case None => ExtraAllowed(entries[e].rel, patterns, fnmatch))
  }

  lemma ExplainedIff(expected: seq<Expected>, entries: seq<Entry>, p: Profile, c: Claims, patterns: seq<string>,
      fnmatch: (string, string) -> bool)
    requires Sound(expected, entries, p, c)
    ensures Explained(expected, entries, p, c, patterns, fnmatch) <==>
              && AllMet(expected, entries, c)
              && (forall e | 0 <= e < |entries| && c[e] == None :: ExtraAllowed(entries[e].rel, patterns, fnmatch))
  {
    ClaimsMeet(expected, entries, p, c);
  }

  /** The two arms together: a silent grade leaves nothing unexplained in the tree and
      nothing expected unmet. */
  method Grade(expected: seq<Expected>, entries: seq<Entry>, p: Profile, claimed: array<Option<nat>>,
               patterns: seq<string>, fnmatch: (string, string) -> bool, emptyDirs: seq<string>)
    returns (problems: nat)
    requires claimed.Length == |entries| && forall e | 0 <= e < |entries| :: claimed[e] == None
    modifies claimed
    ensures OneEach(claimed[..])
    ensures problems == 0 <==>
              && Explained(expected, entries, p, claimed[..], patterns, fnmatch)
              && (forall d | 0 <= d < |emptyDirs| :: ExtraAllowed(emptyDirs[d], patterns, fnmatch))
  {
    var a, unresolved, mid, named, free := MatchExpected(expected, entries, p, claimed);
    var b := ClosedWorld(true, patterns, fnmatch, entries, claimed[..], emptyDirs);
    problems := a + b;
    ExplainedIff(expected, entries, p, claimed[..], patterns, fnmatch);
  }
}
