/** The thinning of recovery exponents in bench/component/par2-gap-recovery.py: which
    exponents are killed, and how long a consecutive run can survive. The random
    targets are a parameter drawn from the range the source draws from. */
module GapRecovery {
  import opened Basics

  function Lo(maxRun: int): (lo: int)
    ensures lo >= 1
  {
    Max(1, maxRun * 60 / 100)
  }

  function Hi(maxRun: int): (hi: int)
    ensures hi > Lo(maxRun)
  {
    Max(Lo(maxRun) + 1, maxRun * 95 / 100)
  }

  predicate Sorted(exps: seq<int>) {
    forall i, j | 0 <= i < j < |exps| :: exps[i] < exps[j]
  }

  // ----- runs of consecutive numbers

  predicate IsRun(s: seq<int>, i: nat, n: nat) {
    i + n <= |s| && forall k | i <= k < i + n :: s[k] == s[i] + (k - i)
  }

  /** `n` is the length of the longest run. */
  ghost predicate IsLongest(s: seq<int>, n: nat) {
    (exists i: nat :: IsRun(s, i, n)) && forall i: nat, m: nat :: IsRun(s, i, m) ==> m <= n
  }

  /** The length of the run that ends at index `i`. */
  function RunTo(s: seq<int>, i: nat): (n: nat)
    requires i < |s|
    ensures 1 <= n <= i + 1
  {
    if i > 0 && s[i] == s[i - 1] + 1 then RunTo(s, i - 1) + 1 else 1
  }

  lemma {:induction false} RunToIsRun(s: seq<int>, i: nat)
    requires i < |s|
    ensures IsRun(s, i + 1 - RunTo(s, i), RunTo(s, i))
  {
    if i > 0 && s[i] == s[i - 1] + 1 {
      RunToIsRun(s, i - 1);
    }
  }

  lemma {:induction false} RunToIsMaximal(s: seq<int>, i: nat, n: nat)
    requires IsRun(s, i, n) && n > 0
    ensures n <= RunTo(s, i + n - 1)
  {
    if n > 1 {
      assert s[i + n - 1] == s[i + n - 2] + 1;
      assert IsRun(s, i, n - 1);
      RunToIsMaximal(s, i, n - 1);
    }
  }

  /** The report's loop: `cur`, `longest` and `prev` over the survivors. */
  method LongestRun(survivors: seq<int>) returns (longest: nat)
    ensures IsLongest(survivors, longest)
  {
    longest := 0;
    var cur := 0;
    ghost var at: nat := 0;
    for i := 0 to |survivors|
      invariant i > 0 ==> cur == RunTo(survivors, i - 1)
      invariant IsRun(survivors, at, longest)
      invariant forall k | 0 <= k < i :: RunTo(survivors, k) <= longest
    {
      cur := if i > 0 && survivors[i] == survivors[i - 1] + 1 then cur + 1 else 1;
      RunToIsRun(survivors, i);
      if cur > longest {
        longest := cur;
        at := i + 1 - cur;
      }
    }
    assert IsRun(survivors, at, longest);
    forall i: nat, m: nat | IsRun(survivors, i, m) ensures m <= longest {
      if m > 0 {
        RunToIsMaximal(survivors, i, m);
      }
    }
  }

  // ----- the kill loop

  predicate Alive(dead: seq<bool>, s: nat, t: nat) {
    s <= t <= |dead| && forall k | s <= k < t :: !dead[k]
  }

  /** Never `hi - 1` positions in a row without a kill. */
  ghost predicate Spaced(dead: seq<bool>, hi: int) {
    forall s: nat, t: nat | Alive(dead, s, t) :: t - s <= hi - 2
  }

  /** The exponents whose mark is `which`, in order. */
  function Picked(exps: seq<int>, dead: seq<bool>, which: bool): (r: seq<int>)
    requires |exps| == |dead|
  {
    if exps == [] then []
    else
      var n := |exps| - 1;
      Picked(exps[..n], dead[..n], which) + if dead[n] == which then [exps[n]] else []
  }

  /** The selection loop; `target(k)` is the k-th random draw. */
  method SelectKills(exps: seq<int>, maxRun: int, target: nat -> int) returns (kill: seq<int>, ghost dead: seq<bool>)
    requires forall k: nat :: Lo(maxRun) <= target(k) < Hi(maxRun)
    ensures |dead| == |exps| && Spaced(dead, Hi(maxRun)) && kill == Picked(exps, dead, true)
    ensures |kill| * Lo(maxRun) <= |exps|
  {
    kill, dead := [], [];
    var run := 0;
    ghost var lo := Lo(maxRun);
    ghost var spent := 0;
    for i := 0 to |exps|
      invariant |dead| == i && kill == Picked(exps[..i], dead, true)
      invariant 0 <= run <= i && run < target(|kill|)
      invariant run < i ==> dead[i - run - 1]
      invariant Spaced(dead, Hi(maxRun))
      invariant spent + run == i && |kill| * lo <= spent
    {
      var e := exps[i];
      assert exps[..i + 1][..i] == exps[..i];
      run := run + 1;
      var now := run >= target(|kill|);
      ghost var dead' := dead + [now];
      assert dead'[..i] == dead;
      SpacedSnoc(dead, now, run, Hi(maxRun), target(|kill|));
      dead := dead';
      if now {
        assert (|kill| + 1) * lo == |kill| * lo + lo;
        spent := spent + run;
        kill := kill + [e];
        run := 0;
      }
    }
    assert exps[..|exps|] == exps;
  }

  lemma SpacedSnoc(dead: seq<bool>, now: bool, run: int, hi: int, target: int)
    requires Spaced(dead, hi) && 1 <= run <= |dead| + 1 && 1 <= target < hi
    requires run - 1 < |dead| ==> dead[|dead| - run]
    requires now <==> run >= target
    ensures Spaced(dead + [now], hi)
  {
    var all := dead + [now];
    assert run - 1 < |dead| ==> all[|dead| - run];
    forall s: nat, t: nat | Alive(all, s, t) ensures t - s <= hi - 2 {
      if t <= |dead| {
        assert forall k | s <= k < t :: dead[k] == all[k];
        assert Alive(dead, s, t);
      } else if s < t {
        assert !all[|dead|];
      }
    }
  }

  // ----- what survives

  lemma AddOne(a: seq<int>, b: seq<int>, x: int)
    ensures multiset(a + [x]) + multiset(b) == multiset(a) + multiset(b) + multiset{x}
    ensures multiset(a) + multiset(b + [x]) == multiset(a) + multiset(b) + multiset{x}
    ensures a + [] == a && b + [] == b
  {
  }

  lemma {:induction false} PickedSplits(exps: seq<int>, dead: seq<bool>)
    requires |exps| == |dead|
    ensures multiset(Picked(exps, dead, true)) + multiset(Picked(exps, dead, false)) == multiset(exps)
    ensures |Picked(exps, dead, true)| + |Picked(exps, dead, false)| == |exps|
  {
    if exps != [] {
      var n := |exps| - 1;
      PickedSplits(exps[..n], dead[..n]);
      assert exps == exps[..n] + [exps[n]];
      AddOne(Picked(exps[..n], dead[..n], true), Picked(exps[..n], dead[..n], false), exps[n]);
    }
  }

  /** A survivor's place in the list of exponents. */
  lemma {:induction false} PickedAt(exps: seq<int>, dead: seq<bool>, which: bool, j: nat) returns (p: nat)
    requires |exps| == |dead| && j < |Picked(exps, dead, which)|
    ensures p < |exps| && exps[p] == Picked(exps, dead, which)[j] && dead[p] == which
  {
    var n := |exps| - 1;
    if j == |Picked(exps[..n], dead[..n], which)| {
      p := n;
    } else {
      p := PickedAt(exps[..n], dead[..n], which, j);
    }
  }

  /** `e not in set(kill)` picks exactly the unmarked exponents. */
  method Survivors(exps: seq<int>, kill: seq<int>, ghost dead: seq<bool>) returns (r: seq<int>)
    requires Sorted(exps) && |dead| == |exps| && kill == Picked(exps, dead, true)
    ensures r == Picked(exps, dead, false)
  {
    r := [];
    for i := 0 to |exps|
      invariant r == Picked(exps[..i], dead[..i], false)
    {
      assert exps[..i + 1][..i] == exps[..i] && dead[..i + 1][..i] == dead[..i];
      KilledIffMarked(exps, dead, i);
      if exps[i] !in kill {
        r := r + [exps[i]];
      }
    }
    assert exps[..|exps|] == exps && dead[..|dead|] == dead;
  }

  lemma KilledIffMarked(exps: seq<int>, dead: seq<bool>, i: nat)
    requires Sorted(exps) && |dead| == |exps| && i < |exps|
    ensures exps[i] in Picked(exps, dead, true) <==> dead[i]
  {
    if exps[i] in Picked(exps, dead, true) {
      var j :| 0 <= j < |Picked(exps, dead, true)| && Picked(exps, dead, true)[j] == exps[i];
      var p := PickedAt(exps, dead, true, j);
      assert p == i;
    }
    if dead[i] {
      PickedHas(exps, dead, true, i);
    }
  }

  lemma {:induction false} PickedHas(exps: seq<int>, dead: seq<bool>, which: bool, i: nat)
    requires |dead| == |exps| && i < |exps| && dead[i] == which
    ensures exps[i] in Picked(exps, dead, which)
  {
    var n := |exps| - 1;
    if i < n {
      PickedHas(exps[..n], dead[..n], which, i);
      assert exps[..n][i] == exps[i];
    }
  }

  /** Consecutive survivors sit side by side in the sorted list, with no kill between. */
  lemma {:induction false} RunIsStretch(exps: seq<int>, dead: seq<bool>, i: nat, n: nat) returns (s: nat)
    requires Sorted(exps) && |dead| == |exps| && n > 0 && IsRun(Picked(exps, dead, false), i, n)
    ensures s + n <= |exps| && exps[s] == Picked(exps, dead, false)[i] && exps[s + n - 1] == exps[s] + n - 1
    ensures Alive(dead, s, s + n)
  {
    var picked := Picked(exps, dead, false);
    if n == 1 {
      s := PickedAt(exps, dead, false, i);
    } else {
      s := RunIsStretch(exps, dead, i, n - 1);
      assert picked[i + n - 1] == picked[i] + (n - 1);
      var p := PickedAt(exps, dead, false, i + n - 1);
      NextIsNext(exps, s + n - 2, p);
    }
  }

  lemma NextIsNext(exps: seq<int>, q: nat, p: nat)
    requires Sorted(exps) && q < |exps| && p < |exps| && exps[p] == exps[q] + 1
    ensures p == q + 1
  {
    if q + 1 < |exps| {
      assert exps[q] < exps[q + 1];
    }
  }

  /** The whole of `main` after the survey: kills and survivors partition the list, few
      are killed, the reported run is the longest there is, and with a positive
      `max_run` the run is never refused. */
  method ThinOut(exps: seq<int>, maxRun: int, target: nat -> int)
    returns (kill: seq<int>, survivors: seq<int>, longest: nat)
    requires Sorted(exps) && forall k: nat :: Lo(maxRun) <= target(k) < Hi(maxRun)
    ensures multiset(kill) + multiset(survivors) == multiset(exps)
    ensures |kill| * Max(1, maxRun * 60 / 100) <= |exps|
    ensures IsLongest(survivors, longest)
    ensures longest + 2 <= Max(Max(1, maxRun * 60 / 100) + 1, maxRun * 95 / 100)
    ensures longest < maxRun <==> maxRun >= 1
  {
    ghost var dead;
    kill, dead := SelectKills(exps, maxRun, target);
    survivors := Survivors(exps, kill, dead);
    longest := LongestRun(survivors);
    PickedSplits(exps, dead);
    var i: nat :| IsRun(survivors, i, longest);
    if longest > 0 {
      var s := RunIsStretch(exps, dead, i, longest);
      assert longest <= Hi(maxRun) - 2;
    }
  }
}
