/** The streaming SHA-256 of bench/component/shootout.rs. The compression function
    of one block is a parameter: what is proved holds for every one, so for the
    one the source spells out. */
module Sha256 {
  import opened Basics
  import opened Bytes

  type Word = x: int | 0 <= x < 0x1_0000_0000

  /** Eight 32-bit words of chaining state. */
  type Chain = h: seq<Word> | |h| == 8 witness seq(8, _ => 0)

  type Compress = (Chain, seq<Byte>) -> Chain

  const INITIAL: Chain :=
    [0x6a09e667, 0xbb67ae85, 0x3c6ef372, 0xa54ff53a, 0x510e527f, 0x9b05688c, 0x1f83d9ab, 0x5be0cd19]

  /** Section 5.3.3: the first 32 bits of the fractional parts of the square roots of the
      first eight primes. `r` is the whole part of the root. */
  lemma InitialRoots()
    ensures FirstBitsOfRoot(2, 1, INITIAL[0]) && FirstBitsOfRoot(3, 1, INITIAL[1])
    ensures FirstBitsOfRoot(5, 2, INITIAL[2]) && FirstBitsOfRoot(7, 2, INITIAL[3])
    ensures FirstBitsOfRoot(11, 3, INITIAL[4]) && FirstBitsOfRoot(13, 3, INITIAL[5])
    ensures FirstBitsOfRoot(17, 4, INITIAL[6]) && FirstBitsOfRoot(19, 4, INITIAL[7])
  {
  }

  /** `r * 2^32 + w` is the whole part of `2^32` times the root of `p`. */
  predicate FirstBitsOfRoot(p: nat, r: nat, w: Word) {
    var x := r * 0x1_0000_0000 + w;
    x * x <= p * 0x1_0000_0000_0000_0000 < (x + 1) * (x + 1)
  }

  const TWO64 := 0x1_0000_0000_0000_0000
  const TWO61 := 0x2000_0000_0000_0000

  // ----- the definition, on a whole message (FIPS 180-4)

  /** Section 6.2.2: compress the 64-byte blocks from the first to the last. */
  function Absorb(f: Compress, h: Chain, m: seq<Byte>): (r: Chain)
    decreases |m|
  {
    if |m| < 64 then h else Absorb(f, f(h, m[..64]), m[64..])
  }

  /** Section 5.1.1, in bytes: the smallest k with |m| + 1 + k = 56 modulo 64. */
  function ZeroCount(n: nat): (k: nat)
    ensures k < 64 && (n + 1 + k) % 64 == 56
  {
    (119 - n % 64) % 64
  }

  /** The message, a one bit, the zeros, and the 64-bit length in bits. */
  function Padded(m: seq<Byte>, bits: nat): (r: seq<Byte>) {
    m + [0x80] + Zeros(ZeroCount(|m|)) + BeBytes(bits, 8)
  }

  /** Section 5.1.1: the message, a byte 0x80, zeros up to byte 56 of a block, fewer than a
      block of them, and the count as eight bytes, the most significant first. */
  lemma PaddedLaw(m: seq<Byte>, bits: nat)
    requires bits < TWO64
    ensures var p := Padded(m, bits);
            && |p| % 64 == 0 && |m| + 9 <= |p| <= |m| + 72
            && p[..|m|] == m && p[|m|] == 0x80 && (forall i | |m| < i < |p| - 8 :: p[i] == 0)
            && BeValue(p[|p| - 8..]) == bits
  {
    var p := Padded(m, bits);
    Pow256Values();
    BeRoundTrip(bits, 8);
    PaddedLength(m, bits);
    assert p[|p| - 8..] == BeBytes(bits, 8);
  }

  lemma PaddedLength(m: seq<Byte>, bits: nat)
    ensures |Padded(m, bits)| % 64 == 0
  {
  }

  function Encode(h: seq<Word>): seq<Byte>
  {
    if h == [] then [] else BeBytes(h[0], 4) + Encode(h[1..])
  }

  /** The output is the words in order, four bytes each, the most significant first. */
  lemma {:induction false} EncodedWord(h: seq<Word>, i: nat)
    requires i < |h|
    ensures |Encode(h)| == 4 * |h| && BeValue(Encode(h)[4 * i..4 * i + 4]) == h[i]
  {
    EncodedLength(h);
    Pow256Values();
    var first, rest := BeBytes(h[0], 4), Encode(h[1..]);
    if i == 0 {
      BeRoundTrip(h[0], 4);
      assert (first + rest)[0..4] == first;
    } else {
      EncodedWord(h[1..], i - 1);
      assert (first + rest)[4 * i..4 * i + 4] == rest[4 * (i - 1)..4 * (i - 1) + 4];
    }
  }

  lemma {:induction false} EncodedLength(h: seq<Word>)
    ensures |Encode(h)| == 4 * |h|
  {
    if h != [] {
      EncodedLength(h[1..]);
    }
  }

  /** The digest of section 6.2, defined for messages below 2^64 bits. */
  function Digest(f: Compress, m: seq<Byte>): (r: seq<Byte>)
    requires |m| < TWO61
  {
    Encode(Absorb(f, INITIAL, Padded(m, 8 * |m|)))
  }

  /** What the code computes for a message of any length: its bit count is a
      64-bit number that wraps. */
  function WrappedDigest(f: Compress, m: seq<Byte>): (r: seq<Byte>) {
    Encode(Absorb(f, INITIAL, Padded(m, 8 * |m| % TWO64)))
  }

  /** The two agree wherever the standard defines the digest. */
  lemma WrappedIsDigest(f: Compress, m: seq<Byte>)
    requires |m| < TWO61
    ensures WrappedDigest(f, m) == Digest(f, m)
  {
    assert 8 * |m| % TWO64 == 8 * |m|;
  }

  // ----- facts about absorbing

  lemma {:induction false} AbsorbAppend(f: Compress, h: Chain, a: seq<Byte>, b: seq<Byte>)
    requires |a| % 64 == 0
    ensures Absorb(f, h, a + b) == Absorb(f, Absorb(f, h, a), b)
    decreases |a|
  {
    if |a| == 0 {
      assert a + b == b;
    } else {
      assert (a + b)[..64] == a[..64];
      assert (a + b)[64..] == a[64..] + b;
      AbsorbAppend(f, f(h, a[..64]), a[64..], b);
    }
  }

  lemma AbsorbBlock(f: Compress, h: Chain, a: seq<Byte>, block: seq<Byte>)
    requires |a| % 64 == 0 && |block| == 64
    ensures Absorb(f, h, a + block) == f(Absorb(f, h, a), block)
  {
    AbsorbAppend(f, h, a, block);
    assert block[..64] == block && block[64..] == [];
    var g := Absorb(f, h, a);
    assert Absorb(f, f(g, block), []) == f(g, block);
  }

  // ----- the hasher

  class Hasher {
    const f: Compress
    var h: Chain
    var buf: array<Byte>
    var n: nat
    var len: nat
    /** The whole blocks compressed so far. */
    ghost var whole: seq<Byte>

    /** Whole blocks are in `h`, the rest is in `buf`. */
    ghost predicate Running()
      reads this
    {
      buf.Length == 64 && |whole| % 64 == 0 && h == Absorb(f, INITIAL, whole)
    }

    ghost predicate Valid()
      reads this, buf
    {
      Running() && n < 64 && len == |Message()| % TWO64
    }

    /** Everything fed in so far. */
    ghost function Message(): seq<Byte>
      requires n <= buf.Length
      reads this, buf
    {
      whole + buf[..n]
    }

    constructor (f: Compress)
      ensures Valid() && fresh(buf) && Message() == [] && this.f == f
    {
      this.f := f;
      h := INITIAL;
      buf := new Byte[64](_ => 0);
      n := 0;
      len := 0;
      whole := [];
    }

    method Update(data: seq<Byte>)
      requires Valid()
      modifies this, buf
      ensures Valid() && buf == old(buf)
      ensures Message() == old(Message()) + data
    {
      len := (len + |data|) % TWO64;
      LengthAdds(|Message()|, |data|);
      var i := 0;
      if n > 0 {
        i := TopUp(data);
      } else {
        assert old(Message()) + data[..0] == old(Message());
      }
      ghost var middle := Message();
      if n == 0 {
        Blocks(data[i..]);
      } else {
        assert data[i..] == [];
      }
      assert Message() == middle + data[i..];
      Rejoin(old(Message()), data, i);
    }

    /** A part-filled buffer takes what it can; full, it goes into the chain. */
    method TopUp(data: seq<Byte>) returns (i: nat)
      requires Running() && 0 < n < 64
      modifies this`h, this`n, this`whole, buf
      ensures i <= |data| && (i < |data| ==> n == 0)
      ensures n < 64
      ensures Running() && Message() == old(Message()) + data[..i]
    {
      i := if 64 - n < |data| then 64 - n else |data|;
      Copy(data[..i], n);
      n := n + i;
      Regroup(whole, old(buf[..n]), data[..i]);
      if n == 64 {
        Flush();
      }
    }

    /** A full buffer goes into the chain. */
    method Flush()
      requires Running() && n == 64
      modifies this`h, this`n, this`whole
      ensures Running() && n == 0 && Message() == old(Message())
    {
      AbsorbBlock(f, INITIAL, whole, buf[..]);
      h := f(h, buf[..]);
      whole := whole + buf[..];
      n := 0;
      assert buf[..64] == buf[..];
    }

    /** `buf[at..at + |s|].copy_from_slice(s)` */
    method Copy(s: seq<Byte>, at: nat)
      requires at + |s| <= buf.Length
      modifies buf
      ensures buf[..at + |s|] == old(buf[..at]) + s
    {
      for k := 0 to |s|
        invariant buf[..at] == old(buf[..at])
        invariant forall j | 0 <= j < k :: buf[at + j] == s[j]
      {
        buf[at + k] := s[k];
      }
      assert buf[at..at + |s|] == s;
    }

    /** The tail of `update`, once the buffer is empty. */
    method Blocks(data: seq<Byte>)
      requires Running() && n == 0
      modifies this`h, this`n, this`whole, buf
      ensures Running() && n < 64 && Message() == old(Message()) + data
    {
      var i := 0;
      ghost var start := whole;
      assert Message() == start;
      while |data| - i >= 64
        invariant 0 <= i <= |data| && i % 64 == 0
        invariant Running() && n == 0 && whole == start + data[..i]
        modifies this`h, this`whole
      {
        var block := data[i..i + 64];
        AbsorbBlock(f, INITIAL, whole, block);
        h := f(h, block);
        Regroup(start, data[..i], block);
        assert data[..i] + block == data[..i + 64];
        whole := whole + block;
        i := i + 64;
      }
      var rest := data[i..];
      Regroup(start, data[..i], rest);
      assert data[..i] + rest == data;
      if rest != [] {
        Copy(rest, 0);
        n := |rest|;
        assert buf[..n] == rest;
      }
    }

    /** The digest, with the bit count taken modulo 2^64 as the code takes it. */
    method Finish() returns (out: seq<Byte>)
      requires Valid()
      modifies this, buf
      ensures out == WrappedDigest(f, old(Message()))
    {
      ghost var m := Message();
      var bits := len * 8 % TWO64;
      BitCount(|m|);
      PadTail();
      Update(BeBytes(bits, 8));
      PaddedLength(m, bits);
      MessageLength();
      assert buf[..n] == [];
      assert whole == Padded(m, bits);
      out := Output();
    }

    /** The one bit and the zeros: the loop stops, and at the least count that fits. */
    method PadTail()
      requires Valid()
      modifies this, buf
      ensures Valid() && buf == old(buf) && n == 56
      ensures Message() == old(Message()) + [0x80] + Zeros(ZeroCount(|old(Message())|))
    {
      ghost var head := Message() + [0x80];
      ghost var size := |Message()|;
      Update([0x80]);
      ghost var k, zeros := 0, ZeroCount(size);
      assert head + Zeros(0) == head;
      MessageLength();
      PadMod(size, 0);
      while n != 56
        invariant k <= zeros && (n == 56 <==> k == zeros)
        invariant Valid() && buf == old(buf)
        invariant Message() == head + Zeros(k)
        decreases zeros - k
      {
        Update([0]);
        ZerosNext(head, k);
        k := k + 1;
        MessageLength();
        PadMod(size, k);
      }
    }

    lemma MessageLength()
      requires Valid()
      ensures n == |Message()| % 64
    {
    }

    method Output() returns (out: seq<Byte>)
      ensures out == Encode(h)
    {
      out := [];
      ghost var goal := Encode(h);
      for j := 0 to 8
        invariant out + Encode(h[j..]) == goal
      {
        assert h[j..][1..] == h[j + 1..];
        Regroup(out, BeBytes(h[j], 4), Encode(h[j + 1..]));
        out := out + BeBytes(h[j], 4);
      }
      assert h[8..] == [];
    }
  }

  /** However a message is cut into updates, the digest is that of the message. */
  method HashParts(f: Compress, parts: seq<seq<Byte>>) returns (out: seq<Byte>)
    ensures out == WrappedDigest(f, Flatten(parts))
    ensures |Flatten(parts)| < TWO61 ==> out == Digest(f, Flatten(parts))
  {
    var hasher := new Hasher(f);
    for i := 0 to |parts|
      invariant hasher.Valid() && fresh(hasher) && fresh(hasher.buf) && hasher.f == f
      invariant hasher.Message() == Flatten(parts[..i])
    {
      FlattenStep(parts, i);
      hasher.Update(parts[i]);
    }
    assert parts[..|parts|] == parts;
    out := hasher.Finish();
    if |Flatten(parts)| < TWO61 {
      WrappedIsDigest(f, Flatten(parts));
    }
  }

  /** Up to the count of section 5.1.1, only that count fills a block to 56. */
  lemma PadMod(size: nat, k: nat)
    requires k <= ZeroCount(size)
    ensures (size + 1 + k) % 64 == 56 <==> k == ZeroCount(size)
  {
  }

  lemma Rejoin(a: seq<Byte>, data: seq<Byte>, i: nat)
    requires i <= |data|
    ensures a + data[..i] + data[i..] == a + data
  {
  }

  lemma LengthAdds(a: nat, b: nat)
    ensures (a % TWO64 + b) % TWO64 == (a + b) % TWO64
  {
  }

  lemma ZerosNext(head: seq<Byte>, k: nat)
    ensures head + Zeros(k) + [0] == head + Zeros(k + 1)
  {
    assert Zeros(k + 1) == Zeros(k) + [0];
  }

  lemma BitCount(n: nat)
    ensures n % TWO64 * 8 % TWO64 == 8 * n % TWO64
  {
  }
}
