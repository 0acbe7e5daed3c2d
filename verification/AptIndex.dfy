/** `version_key` as a whole, the order it defines, and the pruning of
    packaging/linux/apt-index.py that rests on it. */
module AptIndex {
  import opened Basics
  import opened AptVersion
  import opened StableSort

  /** What `version_key` returns. */
  datatype Key = Key(epoch: nat, upstream: seq<Part>, revision: seq<Part>)

  // ----- cutting a version

  function FirstColon(v: string): (r: Option<nat>)
    ensures r.Some? ==> r.value < |v| && v[r.value] == ':' && ':' !in v[..r.value]
    ensures r.None? ==> ':' !in v
  {
    if v == [] then None
    else if v[0] == ':' then Some(0)
    else match FirstColon(v[1..])
      case None => None
      case Some(i) => Some(i + 1)
  }

  function LastDash(v: string): (r: Option<nat>)
    ensures r.Some? ==> r.value < |v| && v[r.value] == '-' && '-' !in v[r.value + 1..]
    ensures r.None? ==> '-' !in v
  {
    if v == [] then None
    else if v[|v| - 1] == '-' then Some(|v| - 1)
    else LastDash(v[..|v| - 1])
  }

  /** Epoch text, upstream version and revision; the defaults are "0" and "". */
  function Cut(v: string): (string, string, string) {
    var colon := FirstColon(v);
    var epoch := if colon.Some? then v[..colon.value] else "0";
    var rest := if colon.Some? then v[colon.value + 1..] else v;
    match LastDash(rest)
    case Some(i) => (epoch, rest[..i], rest[i + 1..])
    case None => (epoch, rest, "")
  }

  /** `int(epoch or 0)` raises on anything but digits. */
  function VersionKey(v: string): (r: Option<Key>) {
    var (epoch, upstream, revision) := Cut(v);
    if !AllDigits(epoch) then None
    else Some(Key(Horner(0, epoch), Parts(upstream), Parts(revision)))
  }

  lemma {:induction false} ColonAt(a: string, b: string)
    requires ':' !in a
    ensures FirstColon(a + ":" + b) == Some(|a|)
  {
    if a == [] {
      assert a + ":" + b == ":" + b;
    } else {
      assert (a + ":" + b)[1..] == a[1..] + ":" + b;
      ColonAt(a[1..], b);
    }
  }

  lemma {:induction false} DashAt(a: string, b: string)
    requires '-' !in b
    ensures LastDash(a + "-" + b) == Some(|a|)
    decreases |b|
  {
    var v := a + "-" + b;
    if b == [] {
      assert v == a + "-";
    } else {
      assert v[..|v| - 1] == a + "-" + b[..|b| - 1];
      DashAt(a, b[..|b| - 1]);
    }
  }

  /** Epoch up to the first colon, revision behind the last hyphen, upstream between. */
  lemma KeyOfThree(e: string, u: string, r: string)
    requires AllDigits(e) && '-' !in r
    ensures VersionKey(e + ":" + (u + "-" + r)) == Some(Key(Horner(0, e), Parts(u), Parts(r)))
  {
    var rest := u + "-" + r;
    ColonAt(e, rest);
    DashAt(u, r);
    assert e + ":" + rest == e + (":" + rest);
    assert (e + ":" + rest)[|e| + 1..] == rest && (e + ":" + rest)[..|e|] == e;
    assert rest[..|u|] == u && rest[|u| + 1..] == r;
  }

  /** Without a hyphen the revision is empty. */
  lemma KeyWithoutRevision(e: string, u: string)
    requires AllDigits(e) && '-' !in u
    ensures VersionKey(e + ":" + u) == Some(Key(Horner(0, e), Parts(u), []))
  {
    ColonAt(e, u);
    assert (e + ":" + u)[|e| + 1..] == u && (e + ":" + u)[..|e|] == e;
  }

  /** Without a colon the epoch is zero. */
  lemma KeyWithoutEpoch(u: string, r: string)
    requires ':' !in u && ':' !in r && '-' !in r
    ensures VersionKey(u + "-" + r) == Some(Key(0, Parts(u), Parts(r)))
  {
    var v := u + "-" + r;
    NoColon(u, r);
    DashAt(u, r);
    assert v[..|u|] == u && v[|u| + 1..] == r;
  }

  lemma NoColon(u: string, r: string)
    requires ':' !in u && ':' !in r
    ensures ':' !in u + "-" + r && FirstColon(u + "-" + r) == None
    ensures AllDigits("0") && Horner(0, "0") == 0
  {
    var zero := "0";
    assert zero[1..] == "";
  }

  lemma KeyOfUpstream(u: string)
    requires ':' !in u && '-' !in u
    ensures VersionKey(u) == Some(Key(0, Parts(u), []))
  {
    NoColon("", "");
  }

  /** An epoch that is not a number raises, and nothing else does. */
  lemma KeyRaises(v: string)
    ensures VersionKey(v) == None <==> exists e, rest :: v == e + ":" + rest && ':' !in e && !AllDigits(e)
  {
    if e, rest :| v == e + ":" + rest && ':' !in e && !AllDigits(e) {
      ColonAt(e, rest);
      assert v[..|e|] == e;
    }
    if VersionKey(v) == None {
      var i := FirstColon(v).value;
      assert v == v[..i] + ":" + v[i + 1..];
    }
  }

  function CmpKey(a: Key, b: Key): int {
    if a.epoch != b.epoch then Sign(a.epoch - b.epoch)
    else
      var c := CmpParts(a.upstream, b.upstream);
      if c != 0 then c else CmpParts(a.revision, b.revision)
  }

  /** Debian compares epoch, upstream version and revision in turn. */
  function DebianVersionCmp(v: string, w: string): int
    requires VersionKey(v).Some? && VersionKey(w).Some?
  {
    var (e, u, r) := Cut(v);
    var (f, t, q) := Cut(w);
    if Horner(0, e) != Horner(0, f) then Sign(Horner(0, e) - Horner(0, f))
    else
      var c := DebianCmp(u, t);
      if c != 0 then c else DebianCmp(r, q)
  }

  lemma {:induction false} ClashDecides(a: string, b: string)
    requires Clash(a, b)
    ensures CodeCmp(a, b) != 0
    ensures a != [] && b != [] ==> DebianCmp(a, b) != 0
    decreases |a| + |b|
  {
    if a != [] && b != [] {
      CodeStep(a, b);
      DebianByRuns(a, b);
      HeadIsText(a);
      HeadIsText(b);
      TextsAgree(Head(a), Head(b));
      if Head(a) == Head(b) {
        ClashDecides(Rest(a), Rest(b));
        RestClash(Rest(a), Rest(b));
      }
    }
  }

  /** Past the first part a clash is a tilde, and Debian never calls it a tie. */
  lemma RestClash(a: string, b: string)
    requires Clash(a, b) && (a != [] ==> !IsDigit(a[0])) && (b != [] ==> !IsDigit(b[0]))
    requires a != [] && b != [] ==> DebianCmp(a, b) != 0
    ensures DebianCmp(a, b) != 0
  {
    if a == [] {
      TextHead(b);
      DebianByRuns(a, b);
    } else if b == [] {
      TextHead(a);
      DebianByRuns(a, b);
    }
  }

  /** When upstream parts clash, Debian calls them a tie just when one is empty and the
      other all zeros; the code puts the empty one below. */
  lemma ClashTies(u: string, t: string)
    requires Clash(u, t)
    ensures DebianCmp(u, t) == 0 <==> (u == [] && AllZeros(t)) || (t == [] && AllZeros(u))
    ensures CodeCmp(u, t) != 0 && (u == [] ==> CodeCmp(u, t) == -1) && (t == [] ==> CodeCmp(u, t) == 1)
  {
    ClashDecides(u, t);
    if u == [] {
      ZerosTie(t);
    } else if t == [] {
      ZerosTie(u);
    }
  }

  /** Zeros are worth nothing to Debian; zeros and then a tilde are worth less. */
  lemma {:induction false} ZerosTie(s: string)
    requires EmptyClash(s)
    ensures DebianCmp([], s) == 0 <==> AllZeros(s)
    ensures DebianCmp(s, []) == 0 <==> AllZeros(s)
  {
    DropZerosSuffix(s);
    DebianByRuns([], s);
    DebianByRuns(s, []);
    assert Head([]) == [] && Digits([]) == [] && Rest([]) == [];
    if AtText(s) {
      TextHead(s);
      assert Head(s)[0] == s[0];
    } else {
      DigitsThen(s);
      var t := Rest(s);
      if t != [] {
        TextHead(t);
        DebianByRuns([], t);
        DebianByRuns(t, []);
        assert Head(t)[0] == t[0];
      }
    }
  }

  /** For all versions the code can key: it orders them as Debian does exactly when the
      epochs differ; or the upstream parts do not clash and, where they tie, the
      revisions do not either; or the upstream parts clash as nothing against zeros and
      the revisions happen to fall the way the code has already decided. */
  lemma VersionsAgreeIff(v: string, w: string)
    requires VersionKey(v).Some? && VersionKey(w).Some?
    ensures CmpKey(VersionKey(v).value, VersionKey(w).value) == DebianVersionCmp(v, w) <==>
              var (e, u, r) := Cut(v);
              var (f, t, q) := Cut(w);
              || Horner(0, e) != Horner(0, f)
              || (!Clash(u, t) && (CodeCmp(u, t) != 0 || !Clash(r, q)))
              || (u == [] != t && AllZeros(t) && DebianCmp(r, q) == -1)
              || (t == [] != u && AllZeros(u) && DebianCmp(r, q) == 1)
  {
    var (e, u, r) := Cut(v);
    var (f, t, q) := Cut(w);
    AgreesIff(u, t);
    AgreesIff(r, q);
    DropZerosSuffix(u);
    DropZerosSuffix(t);
    if Clash(u, t) {
      ClashTies(u, t);
    }
  }

  // ----- the order is a total preorder

  lemma {:induction false} IntsOrder(a: seq<int>, b: seq<int>, c: seq<int>)
    ensures CmpInts(a, b) == -CmpInts(b, a)
    ensures CmpInts(a, b) <= 0 && CmpInts(b, c) <= 0 ==> CmpInts(a, c) <= 0
    ensures CmpInts(a, b) == 0 ==> a == b
  {
    if a != [] && b != [] && c != [] {
      IntsOrder(a[1..], b[1..], c[1..]);
      assert a == [a[0]] + a[1..] && b == [b[0]] + b[1..];
    } else if a != [] && b != [] {
      IntsOrder(a[1..], b[1..], []);
      assert a == [a[0]] + a[1..] && b == [b[0]] + b[1..];
    }
  }

  lemma PartOrder(a: Part, b: Part, c: Part)
    ensures CmpPart(a, b) == -CmpPart(b, a)
    ensures CmpPart(a, b) <= 0 && CmpPart(b, c) <= 0 ==> CmpPart(a, c) <= 0
    ensures CmpPart(a, b) == 0 ==> a == b
  {
    IntsOrder(a.0, b.0, c.0);
    IntsOrder(a.0, c.0, b.0);
    IntsOrder(b.0, c.0, a.0);
    IntsOrder(c.0, a.0, b.0);
  }

  lemma {:induction false} PartsOrder(a: seq<Part>, b: seq<Part>, c: seq<Part>)
    ensures CmpParts(a, b) == -CmpParts(b, a)
    ensures CmpParts(a, b) <= 0 && CmpParts(b, c) <= 0 ==> CmpParts(a, c) <= 0
    ensures CmpParts(a, b) == 0 ==> a == b
  {
    if a != [] && b != [] {
      PartOrder(a[0], b[0], if c != [] then c[0] else a[0]);
      if c != [] {
        PartOrder(b[0], c[0], a[0]);
        PartOrder(a[0], c[0], b[0]);
      }
      PartsOrder(a[1..], b[1..], if c != [] then c[1..] else []);
      assert a == [a[0]] + a[1..] && b == [b[0]] + b[1..];
    }
  }

  /** Any two keys compare, the comparison is antisymmetric and transitive, and only
      equal keys tie. */
  lemma KeyOrder(a: Key, b: Key, c: Key)
    ensures CmpKey(a, b) == -CmpKey(b, a)
    ensures CmpKey(a, b) <= 0 && CmpKey(b, c) <= 0 ==> CmpKey(a, c) <= 0
    ensures CmpKey(a, b) == 0 <==> a == b
  {
    PartsOrder(a.upstream, b.upstream, c.upstream);
    PartsOrder(b.upstream, c.upstream, a.upstream);
    PartsOrder(a.upstream, c.upstream, b.upstream);
    PartsOrder(a.revision, b.revision, c.revision);
    PartsOrder(b.upstream, a.upstream, b.upstream);
    SelfTies(a.upstream);
    SelfTies(a.revision);
  }

  lemma SelfTies(a: seq<Part>)
    ensures CmpParts(a, a) == 0
  {
    PartsOrder(a, a, a);
  }

  // ----- pruning

  datatype Entry = Entry(pkg: string, ver: string, arch: string, file: string)

  type Group = (string, string)

  function GroupOf(e: Entry): Group { (e.pkg, e.arch) }

  predicate Keyed(es: seq<Entry>) {
    forall i | 0 <= i < |es| :: VersionKey(es[i].ver).Some?
  }

  /** The key to sort by; entries without one never get that far. */
  function SortKey(e: Entry): Key {
    VersionKey(e.ver).GetOr(Key(0, [], []))
  }

  /** The first version is at least the second. */
  predicate AtLeast(a: Entry, b: Entry) {
    CmpKey(SortKey(a), SortKey(b)) >= 0
  }

  lemma AtLeastOrders()
    ensures Total(AtLeast) && Transitive(AtLeast)
  {
    forall a, b, c ensures (AtLeast(a, b) || AtLeast(b, a)) && (AtLeast(a, b) && AtLeast(b, c) ==> AtLeast(a, c)) {
      KeyOrder(SortKey(a), SortKey(b), SortKey(c));
      KeyOrder(SortKey(c), SortKey(b), SortKey(a));
      KeyOrder(SortKey(a), SortKey(c), SortKey(b));
    }
  }

  function NewestFirst(es: seq<Entry>): seq<Entry> {
    Sort(AtLeast, es)
  }

  /** The entries of one package and architecture. */
  function Select(es: seq<Entry>, g: Group): (r: seq<Entry>) {
    if es == [] then []
    else Select(es[..|es| - 1], g) + if GroupOf(es[|es| - 1]) == g then [es[|es| - 1]] else []
  }

  predicate Uniform(es: seq<Entry>, g: Group) {
    forall i | 0 <= i < |es| :: GroupOf(es[i]) == g
  }

  lemma {:induction false} SelectAppend(a: seq<Entry>, b: seq<Entry>, g: Group)
    ensures Select(a + b, g) == Select(a, g) + Select(b, g)
  {
    if b == [] {
      assert a + b == a;
    } else {
      assert (a + b)[..|a + b| - 1] == a + b[..|b| - 1];
      SelectAppend(a, b[..|b| - 1], g);
    }
  }

  lemma {:induction false} SelectUniform(es: seq<Entry>, h: Group, g: Group)
    requires Uniform(es, h)
    ensures Select(es, g) == if g == h then es else []
  {
    if es != [] {
      SelectUniform(es[..|es| - 1], h, g);
      assert es == es[..|es| - 1] + [es[|es| - 1]];
    }
  }

  lemma {:induction false} SelectMembers(es: seq<Entry>, g: Group)
    ensures Uniform(Select(es, g), g)
  {
    if es != [] {
      SelectMembers(es[..|es| - 1], g);
    }
  }

  /** `group[:keep]` cuts here, also for a negative `keep`. */
  function CutAt(keep: int, n: nat): (m: nat)
    ensures m <= n
  {
    if keep >= n then n else if keep >= 0 then keep else if n + keep > 0 then n + keep else 0
  }

  function Newest(group: seq<Entry>, keep: int): seq<Entry> {
    NewestFirst(group)[..CutAt(keep, |NewestFirst(group)|)]
  }

  function Oldest(group: seq<Entry>, keep: int): seq<Entry> {
    NewestFirst(group)[CutAt(keep, |NewestFirst(group)|)..]
  }

  function KeptOf(es: seq<Entry>, g: Group, keep: int): seq<Entry> {
    Newest(Select(es, g), keep)
  }

  function DroppedOf(es: seq<Entry>, g: Group, keep: int): seq<Entry> {
    Oldest(Select(es, g), keep)
  }

  /** A group is the entries of one package and one architecture, as often as they occur. */
  lemma {:induction false} SelectCounts(es: seq<Entry>, g: Group, e: Entry)
    ensures multiset(Select(es, g))[e] == if e.pkg == g.0 && e.arch == g.1 then multiset(es)[e] else 0
  {
    if es != [] {
      var n := |es| - 1;
      SelectCounts(es[..n], g, e);
      assert es == es[..n] + [es[n]];
    }
  }

  /** In each group: nothing is lost, for a `keep` from zero on that many stay (or all), for
      a negative one that many go (or all), and no dropped version has a key above that of
      a kept one. */
  lemma SplitLaw(es: seq<Entry>, g: Group, keep: int)
    requires Keyed(es)
    ensures var kept, dropped := KeptOf(es, g, keep), DroppedOf(es, g, keep);
            && multiset(kept) + multiset(dropped) == multiset(Select(es, g))
            && (keep >= 0 ==> |kept| == if keep < |Select(es, g)| then keep else |Select(es, g)|)
            && (keep < 0 ==> |dropped| == if -keep < |Select(es, g)| then -keep else |Select(es, g)|)
            && Keyed(kept) && Keyed(dropped)
            && (forall i, j | 0 <= i < |kept| && 0 <= j < |dropped| ::
                  CmpKey(VersionKey(kept[i].ver).value, VersionKey(dropped[j].ver).value) >= 0)
  {
    SplitParts(es, g, keep);
    SelectKeyed(es, g);
    var kept, dropped := KeptOf(es, g, keep), DroppedOf(es, g, keep);
    BothKeyed(Select(es, g), kept, dropped);
    forall i, j | 0 <= i < |kept| && 0 <= j < |dropped|
      ensures CmpKey(VersionKey(kept[i].ver).value, VersionKey(dropped[j].ver).value) >= 0
    {
      assert AtLeast(kept[i], dropped[j]);
    }
  }

  lemma BothKeyed(es: seq<Entry>, a: seq<Entry>, b: seq<Entry>)
    requires multiset(a) + multiset(b) == multiset(es) && Keyed(es)
    ensures Keyed(a) && Keyed(b)
  {
    forall e | e in a || e in b ensures VersionKey(e.ver).Some? {
      assert e in multiset(a) + multiset(b);
      var i :| 0 <= i < |es| && es[i] == e;
    }
    assert forall i | 0 <= i < |a| :: a[i] in a;
    assert forall i | 0 <= i < |b| :: b[i] in b;
  }

  lemma {:induction false} SelectKeyed(es: seq<Entry>, g: Group)
    requires Keyed(es)
    ensures Keyed(Select(es, g))
  {
    if es != [] {
      SelectKeyed(es[..|es| - 1], g);
    }
  }

  lemma SplitParts(es: seq<Entry>, g: Group, keep: int)
    ensures var kept, dropped := KeptOf(es, g, keep), DroppedOf(es, g, keep);
            && multiset(kept) + multiset(dropped) == multiset(Select(es, g))
            && |kept| == CutAt(keep, |Select(es, g)|) && |kept| + |dropped| == |Select(es, g)|
            && (forall i, j | 0 <= i < |kept| && 0 <= j < |dropped| :: AtLeast(kept[i], dropped[j]))
  {
    var group := Select(es, g);
    var sorted := NewestFirst(group);
    AtLeastOrders();
    SortLaw(AtLeast, group);
    var m := CutAt(keep, |sorted|);
    assert sorted == sorted[..m] + sorted[m..];
  }

  /** Among versions that tie, the ones that stay are the first in the group. */
  lemma TiesKeptFirst(es: seq<Entry>, g: Group, keep: int, c: Entry)
    ensures Tied(AtLeast, c, KeptOf(es, g, keep)) + Tied(AtLeast, c, DroppedOf(es, g, keep))
         == Tied(AtLeast, c, Select(es, g))
  {
    var sorted := NewestFirst(Select(es, g));
    StaysInOrder(Select(es, g), c);
    TiedCut(AtLeast, c, sorted, CutAt(keep, |sorted|));
  }

  lemma StaysInOrder(group: seq<Entry>, c: Entry)
    ensures Tied(AtLeast, c, NewestFirst(group)) == Tied(AtLeast, c, group)
  {
    AtLeastOrders();
    SortStable(AtLeast, c, group);
  }

  lemma GroupKept(es: seq<Entry>, g: Group, keep: int)
    ensures Uniform(KeptOf(es, g, keep), g) && Uniform(DroppedOf(es, g, keep), g)
  {
    var group := Select(es, g);
    var sorted := NewestFirst(group);
    SelectMembers(es, g);
    AtLeastOrders();
    SortLaw(AtLeast, group);
    forall i | 0 <= i < |sorted| ensures GroupOf(sorted[i]) == g {
      assert sorted[i] in multiset(sorted);
      assert sorted[i] in group;
    }
  }

  /** Which entries `prune` keeps and which it removes, group by group. */
  ghost predicate Pruned(es: seq<Entry>, keep: int, kept: seq<Entry>, dropped: seq<Entry>) {
    forall g: Group :: Select(kept, g) == KeptOf(es, g, keep) && Select(dropped, g) == DroppedOf(es, g, keep)
  }

  /** The dictionary `prune` builds: the groups, in order of first appearance. */
  method Grouped(es: seq<Entry>) returns (order: seq<Group>, groups: map<Group, seq<Entry>>)
    ensures forall g :: g in groups <==> g in order
    ensures forall g: Group :: Select(es, g) == if g in groups then groups[g] else []
    ensures forall i, j | 0 <= i < j < |order| :: order[i] != order[j]
  {
    order, groups := [], map[];
    for i := 0 to |es|
      invariant Listed(order, groups) && Collected(es[..i], groups)
    {
      var e := es[i];
      var g := GroupOf(e);
      assert es[..i + 1] == es[..i] + [e];
      CollectOne(es[..i], e, groups);
      if g !in groups {
        assert [] + [e] == [e];
        ListNew(order, groups, g, [e]);
        order := order + [g];
        groups := groups[g := [e]];
      } else {
        groups := groups[g := groups[g] + [e]];
      }
    }
    assert es[..|es|] == es;
  }

  /** The order lists the keys of the dictionary, each once. */
  ghost predicate Listed(order: seq<Group>, groups: map<Group, seq<Entry>>) {
    && (forall g :: g in groups <==> g in order)
    && forall i, j | 0 <= i < j < |order| :: order[i] != order[j]
  }

  ghost predicate Collected(es: seq<Entry>, groups: map<Group, seq<Entry>>) {
    forall g: Group :: Select(es, g) == if g in groups then groups[g] else []
  }

  lemma ListNew(order: seq<Group>, groups: map<Group, seq<Entry>>, g: Group, first: seq<Entry>)
    requires Listed(order, groups) && g !in groups
    ensures Listed(order + [g], groups[g := first])
  {
    var order' := order + [g];
    forall i, j | 0 <= i < j < |order'| ensures order'[i] != order'[j] {
      if j == |order| {
        assert order[i] in order;
      }
    }
  }

  lemma CollectOne(es: seq<Entry>, e: Entry, groups: map<Group, seq<Entry>>)
    requires Collected(es, groups)
    ensures var g := GroupOf(e);
            Collected(es + [e], groups[g := (if g in groups then groups[g] else []) + [e]])
  {
    assert (es + [e])[..|es|] == es;
  }

  lemma TakeGroup(kept: seq<Entry>, chunk: seq<Entry>, h: Group, g: Group)
    requires Uniform(chunk, h)
    ensures Select(kept + chunk, g) == Select(kept, g) + if g == h then chunk else []
  {
    SelectAppend(kept, chunk, g);
    SelectUniform(chunk, h, g);
  }

  /** One side of the split of one group. */
  function Side(es: seq<Entry>, g: Group, keep: int, keeping: bool): seq<Entry> {
    if keeping then KeptOf(es, g, keep) else DroppedOf(es, g, keep)
  }

  /** One side of the split, group after group. */
  function Joined(es: seq<Entry>, order: seq<Group>, keep: int, keeping: bool): seq<Entry> {
    if order == [] then []
    else Joined(es, order[..|order| - 1], keep, keeping) + Side(es, order[|order| - 1], keep, keeping)
  }

  lemma {:induction false} JoinedSelect(es: seq<Entry>, order: seq<Group>, keep: int, keeping: bool, g: Group)
    requires forall i, j | 0 <= i < j < |order| :: order[i] != order[j]
    ensures Select(Joined(es, order, keep, keeping), g)
         == if g in order then Side(es, g, keep, keeping) else []
  {
    if order != [] {
      var init, h := order[..|order| - 1], order[|order| - 1];
      JoinedSelect(es, init, keep, keeping, g);
      GroupKept(es, h, keep);
      var before, side := Joined(es, init, keep, keeping), Side(es, h, keep, keeping);
      TakeGroup(before, side, h, g);
      LastOnce(order);
      if g == h {
        assert [] + side == side;
      } else {
        assert Select(before, g) + [] == Select(before, g);
      }
    }
  }

  lemma LastOnce(order: seq<Group>)
    requires order != [] && forall i, j | 0 <= i < j < |order| :: order[i] != order[j]
    ensures order[|order| - 1] !in order[..|order| - 1]
    ensures forall g :: g in order <==> g in order[..|order| - 1] || g == order[|order| - 1]
  {
    assert order == order[..|order| - 1] + [order[|order| - 1]];
  }

  lemma JoinedPrunes(es: seq<Entry>, order: seq<Group>, keep: int)
    requires forall i, j | 0 <= i < j < |order| :: order[i] != order[j]
    requires forall g: Group | g !in order :: Select(es, g) == []
    ensures Pruned(es, keep, Joined(es, order, keep, true), Joined(es, order, keep, false))
  {
    forall g: Group
      ensures Select(Joined(es, order, keep, true), g) == KeptOf(es, g, keep)
      ensures Select(Joined(es, order, keep, false), g) == DroppedOf(es, g, keep)
    {
      JoinedSide(es, order, keep, true, g);
      JoinedSide(es, order, keep, false, g);
    }
  }

  lemma JoinedSide(es: seq<Entry>, order: seq<Group>, keep: int, keeping: bool, g: Group)
    requires forall i, j | 0 <= i < j < |order| :: order[i] != order[j]
    requires g !in order ==> Select(es, g) == []
    ensures Select(Joined(es, order, keep, keeping), g) == Side(es, g, keep, keeping)
  {
    JoinedSelect(es, order, keep, keeping, g);
  }

  /** `prune`; a version without a numeric epoch raises. */
  method Prune(es: seq<Entry>, keep: int) returns (r: Option<(seq<Entry>, seq<Entry>)>)
    ensures r.Some? <==> Keyed(es)
    ensures r.Some? ==> Pruned(es, keep, r.value.0, r.value.1)
  {
    var ok := AllKeyed(es);
    if !ok {
      return None;
    }
    var order, groups := Grouped(es);
    var kept, dropped := SplitGroups(es, keep, order, groups);
    JoinedPrunes(es, order, keep);
    r := Some((kept, dropped));
  }

  method AllKeyed(es: seq<Entry>) returns (ok: bool)
    ensures ok <==> Keyed(es)
  {
    for i := 0 to |es|
      invariant forall k | 0 <= k < i :: VersionKey(es[k].ver).Some?
    {
      if VersionKey(es[i].ver).None? {
        return false;
      }
    }
    ok := true;
  }

  /** The second loop of `prune`. */
  method SplitGroups(ghost es: seq<Entry>, keep: int, order: seq<Group>, groups: map<Group, seq<Entry>>)
    returns (kept: seq<Entry>, dropped: seq<Entry>)
    requires forall k | 0 <= k < |order| :: order[k] in groups && groups[order[k]] == Select(es, order[k])
    ensures kept == Joined(es, order, keep, true) && dropped == Joined(es, order, keep, false)
  {
    kept, dropped := [], [];
    for k := 0 to |order|
      invariant kept == Joined(es, order[..k], keep, true) && dropped == Joined(es, order[..k], keep, false)
    {
      var group := groups[order[k]];
      assert order[..k + 1][..k] == order[..k];
      kept := kept + Newest(group, keep);
      dropped := dropped + Oldest(group, keep);
    }
    assert order[..|order|] == order;
  }
}
