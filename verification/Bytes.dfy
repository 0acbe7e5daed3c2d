/** Bytes, byte strings and fixed-width integers. */
module Bytes {

  type Byte = x: int | 0 <= x < 256

  function Zeros(n: nat): (r: seq<Byte>)
    ensures |r| == n && forall i | 0 <= i < n :: r[i] == 0
  {
    seq(n, _ => 0)
  }

  lemma SubSlice(s: seq<Byte>, i: nat, j: nat, lo: nat, hi: nat)
    requires i <= j <= |s| && lo <= hi <= j - i
    ensures s[i..j][lo..hi] == s[i + lo..i + hi]
  {
    var a, b := s[i..j][lo..hi], s[i + lo..i + hi];
    forall k | 0 <= k < |b| ensures a[k] == b[k] {
      assert a[k] == s[i..j][lo + k];
    }
  }

  /** The characters with these codes. */
  function Text(s: seq<Byte>): string {
    seq(|s|, i requires 0 <= i < |s| => s[i] as char)
  }

  function Flatten(parts: seq<seq<Byte>>): seq<Byte> {
    if parts == [] then [] else parts[0] + Flatten(parts[1..])
  }

  lemma {:induction false} FlattenSnoc(parts: seq<seq<Byte>>, last: seq<Byte>)
    ensures Flatten(parts + [last]) == Flatten(parts) + last
  {
    if parts == [] {
      assert parts + [last] == [last] && [last][1..] == [];
    } else {
      assert (parts + [last])[1..] == parts[1..] + [last];
      FlattenSnoc(parts[1..], last);
      assert parts[0] + (Flatten(parts[1..]) + last) == parts[0] + Flatten(parts[1..]) + last;
    }
  }

  lemma FlattenStep(parts: seq<seq<Byte>>, i: nat)
    requires i < |parts|
    ensures Flatten(parts[..i + 1]) == Flatten(parts[..i]) + parts[i]
  {
    assert parts[..i + 1] == parts[..i] + [parts[i]];
    FlattenSnoc(parts[..i], parts[i]);
  }

  /** The `width` bytes of `v` modulo 256^width, least significant first. */
  function LeBytes(v: nat, width: nat): (r: seq<Byte>)
    ensures |r| == width
  {
    if width == 0 then [] else [v % 256] + LeBytes(v / 256, width - 1)
  }

  function LeValue(s: seq<Byte>): (v: nat) {
    if s == [] then 0 else s[0] + 256 * LeValue(s[1..])
  }

  function Pow256(n: nat): (r: nat)
    ensures r >= 1
  {
    if n == 0 then 1 else 256 * Pow256(n - 1)
  }

  lemma Pow256Values()
    ensures Pow256(2) == 0x1_0000
    ensures Pow256(4) == 0x1_0000_0000
    ensures Pow256(8) == 0x1_0000_0000_0000_0000
  {
    assert Pow256(2) == 0x1_0000;
    assert Pow256(3) == 0x100_0000;
    assert Pow256(4) == 0x1_0000_0000;
    assert Pow256(5) == 0x100_0000_0000;
    assert Pow256(6) == 0x1_0000_0000_0000;
    assert Pow256(7) == 0x100_0000_0000_0000;
  }

  lemma {:induction false} LeRoundTrip(v: nat, width: nat)
    requires v < Pow256(width)
    ensures LeValue(LeBytes(v, width)) == v
  {
    if width > 0 {
      LeRoundTrip(v / 256, width - 1);
      assert LeBytes(v, width)[1..] == LeBytes(v / 256, width - 1);
    }
  }

  lemma {:induction false} LeBound(s: seq<Byte>)
    ensures LeValue(s) < Pow256(|s|)
  {
    if s != [] {
      LeBound(s[1..]);
    }
  }

  /** Most significant byte first. */
  function BeBytes(v: nat, width: nat): (r: seq<Byte>)
    ensures |r| == width
  {
    if width == 0 then [] else BeBytes(v / 256, width - 1) + [v % 256]
  }

  function BeValue(s: seq<Byte>): (v: nat) {
    if s == [] then 0 else 256 * BeValue(s[..|s| - 1]) + s[|s| - 1]
  }

  lemma {:induction false} BeRoundTrip(v: nat, width: nat)
    requires v < Pow256(width)
    ensures BeValue(BeBytes(v, width)) == v
  {
    if width > 0 {
      BeRoundTrip(v / 256, width - 1);
      var s := BeBytes(v, width);
      assert s[..|s| - 1] == BeBytes(v / 256, width - 1);
    }
  }

  /** The bytes of the fixed widths, spelled out. */
  lemma LeFour(a: Byte, b: Byte, c: Byte, d: Byte)
    ensures LeValue([a, b]) == a + 0x100 * b
    ensures LeValue([a, b, c, d]) == a + 0x100 * b + 0x1_0000 * c + 0x100_0000 * d
  {
    LeOne(a, [b, c, d]);
    LeOne(b, [c, d]);
    LeOne(c, [d]);
    LeOne(d, []);
    LeOne(a, [b]);
    LeOne(b, []);
  }

  lemma LeOne(x: Byte, s: seq<Byte>)
    ensures LeValue([x] + s) == x + 0x100 * LeValue(s)
  {
    assert ([x] + s)[1..] == s;
  }

  lemma {:induction false} LeAppend(s: seq<Byte>, x: Byte)
    ensures LeValue(s + [x]) == LeValue(s) + x * Pow256(|s|)
  {
    if s == [] {
      assert s + [x] == [x] && [x][1..] == [];
    } else {
      assert (s + [x])[1..] == s[1..] + [x];
      LeAppend(s[1..], x);
    }
  }

  lemma BeFour(a: Byte, b: Byte, c: Byte, d: Byte)
    ensures BeValue([a, b, c, d]) == 0x100_0000 * a + 0x1_0000 * b + 0x100 * c + d
  {
    assert [a, b, c, d] == [a, b, c] + [d] && [a, b, c] == [a, b] + [c] && [a, b] == [a] + [b] && [a] == [] + [a];
    BeOne([a, b, c], d);
    BeOne([a, b], c);
    BeOne([a], b);
    BeOne([], a);
  }

  lemma BeOne(s: seq<Byte>, x: Byte)
    ensures BeValue(s + [x]) == 0x100 * BeValue(s) + x
  {
    assert (s + [x])[..|s|] == s;
  }

  lemma {:induction false} BePrepend(x: Byte, s: seq<Byte>)
    ensures BeValue([x] + s) == x * Pow256(|s|) + BeValue(s)
  {
    if s == [] {
      assert [x] + s == [x] && [x][..0] == [];
    } else {
      assert ([x] + s)[..|s|] == [x] + s[..|s| - 1];
      BePrepend(x, s[..|s| - 1]);
    }
  }
}
