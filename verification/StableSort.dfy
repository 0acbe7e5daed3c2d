/** Python's `sort(reverse=True)`: largest first, equals in their original order. */
module StableSort {
  import opened Basics

  ghost predicate Total<T(!new)>(ge: (T, T) -> bool) {
    forall a, b :: ge(a, b) || ge(b, a)
  }

  ghost predicate Transitive<T(!new)>(ge: (T, T) -> bool) {
    forall a, b, c :: ge(a, b) && ge(b, c) ==> ge(a, c)
  }

  ghost predicate Descending<T>(ge: (T, T) -> bool, s: seq<T>) {
    forall i, j | 0 <= i < j < |s| :: ge(s[i], s[j])
  }

  /** A newcomer goes behind its equals. */
  function Insert<T>(ge: (T, T) -> bool, x: T, s: seq<T>): (r: seq<T>) {
    if s == [] then [x]
    else if ge(s[0], x) then [s[0]] + Insert(ge, x, s[1..])
    else [x] + s
  }

  function Sort<T>(ge: (T, T) -> bool, s: seq<T>): (r: seq<T>) {
    if s == [] then [] else Insert(ge, s[|s| - 1], Sort(ge, s[..|s| - 1]))
  }

  lemma {:induction false} InsertKeeps<T>(ge: (T, T) -> bool, x: T, s: seq<T>)
    ensures multiset(Insert(ge, x, s)) == multiset(s) + multiset{x}
  {
    if s != [] && ge(s[0], x) {
      InsertKeeps(ge, x, s[1..]);
      assert s == [s[0]] + s[1..];
    }
  }

  lemma {:induction false} InsertDescends<T(!new)>(ge: (T, T) -> bool, x: T, s: seq<T>)
    requires Total(ge) && Transitive(ge) && Descending(ge, s)
    ensures Descending(ge, Insert(ge, x, s))
  {
    if s != [] {
      if ge(s[0], x) {
        InsertDescends(ge, x, s[1..]);
        InsertKeeps(ge, x, s[1..]);
        var rest := Insert(ge, x, s[1..]);
        forall j | 0 <= j < |rest| ensures ge(s[0], rest[j]) {
          assert rest[j] in multiset(rest);
          assert rest[j] == x || rest[j] in s[1..];
        }
      } else {
        forall j | 0 <= j < |s| ensures ge(x, s[j]) {
          assert ge(x, s[0]);
        }
      }
    }
  }

  lemma {:induction false} SortLaw<T(!new)>(ge: (T, T) -> bool, s: seq<T>)
    requires Total(ge) && Transitive(ge)
    ensures multiset(Sort(ge, s)) == multiset(s) && |Sort(ge, s)| == |s|
    ensures Descending(ge, Sort(ge, s))
  {
    if s != [] {
      var init, last := s[..|s| - 1], s[|s| - 1];
      SortLaw(ge, init);
      InsertKeeps(ge, last, Sort(ge, init));
      InsertDescends(ge, last, Sort(ge, init));
      assert s == init + [last];
    }
    assert |multiset(Sort(ge, s))| == |multiset(s)|;
  }

  // ----- stability

  /** The elements that tie with `c`, in order. */
  function Tied<T>(ge: (T, T) -> bool, c: T, s: seq<T>): (r: seq<T>) {
    if s == [] then []
    else (if ge(c, s[0]) && ge(s[0], c) then [s[0]] else []) + Tied(ge, c, s[1..])
  }

  lemma {:induction false} TiedAppend<T>(ge: (T, T) -> bool, c: T, a: seq<T>, b: seq<T>)
    ensures Tied(ge, c, a + b) == Tied(ge, c, a) + Tied(ge, c, b)
  {
    if a == [] {
      assert a + b == b;
    } else {
      assert (a + b)[1..] == a[1..] + b;
      TiedAppend(ge, c, a[1..], b);
    }
  }

  lemma TiedCut<T>(ge: (T, T) -> bool, c: T, s: seq<T>, m: nat)
    requires m <= |s|
    ensures Tied(ge, c, s[..m]) + Tied(ge, c, s[m..]) == Tied(ge, c, s)
  {
    var a, b := s[..m], s[m..];
    CutJoin(s, m);
    TiedAppend(ge, c, a, b);
  }

  lemma {:induction false} NoneTied<T>(ge: (T, T) -> bool, c: T, s: seq<T>)
    requires forall i | 0 <= i < |s| :: !(ge(c, s[i]) && ge(s[i], c))
    ensures Tied(ge, c, s) == []
  {
    if s != [] {
      NoneTied(ge, c, s[1..]);
    }
  }

  /** A newcomer goes behind everything it ties with, and moves nothing else. */
  lemma {:induction false} InsertStable<T(!new)>(ge: (T, T) -> bool, c: T, x: T, s: seq<T>)
    requires Total(ge) && Transitive(ge) && Descending(ge, s)
    ensures Tied(ge, c, Insert(ge, x, s)) == Tied(ge, c, s) + Tied(ge, c, [x])
  {
    var one := Tied(ge, c, [x]);
    if s == [] {
      assert [] + one == one;
    } else if ge(s[0], x) {
      var rest := Insert(ge, x, s[1..]);
      InsertStable(ge, c, x, s[1..]);
      TiedAppend(ge, c, [s[0]], rest);
      TiedAppend(ge, c, [s[0]], s[1..]);
      assert [s[0]] + s[1..] == s;
      Regroup(Tied(ge, c, [s[0]]), Tied(ge, c, s[1..]), one);
    } else {
      TiedAppend(ge, c, [x], s);
      TieInFront(ge, c, x, s);
    }
  }

  /** In front of elements it is above, the newcomer ties with nothing they tie with. */
  lemma TieInFront<T(!new)>(ge: (T, T) -> bool, c: T, x: T, s: seq<T>)
    requires Transitive(ge) && Descending(ge, s) && s != [] && !ge(s[0], x)
    requires ge(s[0], s[0])
    ensures Tied(ge, c, [x]) + Tied(ge, c, s) == Tied(ge, c, s) + Tied(ge, c, [x])
  {
    if ge(c, x) && ge(x, c) {
      forall i | 0 <= i < |s| ensures !(ge(c, s[i]) && ge(s[i], c)) {
        assert ge(s[0], s[i]);
      }
      NoneTied(ge, c, s);
    } else {
      assert Tied(ge, c, [x]) == [];
    }
  }

  /** Equals keep their order: of the elements that tie with any one, the sorted list
      has the very sequence the original has. */
  lemma {:induction false} SortStable<T(!new)>(ge: (T, T) -> bool, c: T, s: seq<T>)
    requires Total(ge) && Transitive(ge)
    ensures Tied(ge, c, Sort(ge, s)) == Tied(ge, c, s)
  {
    if s != [] {
      var init, last := s[..|s| - 1], s[|s| - 1];
      SortStable(ge, c, init);
      SortLaw(ge, init);
      InsertStable(ge, c, last, Sort(ge, init));
      TiedAppend(ge, c, init, [last]);
      assert s == init + [last];
    }
  }
}
