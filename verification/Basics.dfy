/** Small things several components share. */
module Basics {

  datatype Option<+T> = None | Some(value: T) {
    function GetOr(default: T): T { if Some? then value else default }
  }

  function Abs(x: int): (r: nat)
    ensures r == x || r == -x
  {
    if x < 0 then -x else x
  }

  function Max(a: int, b: int): (m: int)
    ensures (m == a || m == b) && m >= a && m >= b
  {
    if a < b then b else a
  }

  /** A character of a quoted text, as it stands or behind a backslash. */
  datatype Unit = Plain(c: char) | Escaped(c: char)

  lemma Regroup<T>(a: seq<T>, b: seq<T>, c: seq<T>)
    ensures a + (b + c) == a + b + c
  {
  }

  lemma CutJoin<T>(s: seq<T>, n: nat)
    requires n <= |s|
    ensures s[..n] + s[n..] == s
  {
  }

  lemma NothingMore<T>(s: seq<T>)
    ensures s + [] == s && [] + s == s
  {
  }

  /** A multiple of `n` is zero or at least `n` away from it. */
  lemma FarApart(n: nat, k: int)
    ensures k >= 1 ==> n * k >= n
    ensures k <= -1 ==> n * k <= -(n as int)
    ensures k == 0 ==> n * k == 0
  {
    if k >= 1 {
      assert n * k == n + n * (k - 1);
    } else if k <= -1 {
      assert n * k == n * (k + 1) - n;
    }
  }
}
