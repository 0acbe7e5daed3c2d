/** The file-level edits of bench/capability-corpus/par2patch.py and the re-walk that
    follows each of them: `rename_filedesc`, `splice_empty` and `verify`. */
module Par2File {
  import opened Basics
  import opened Bytes
  import opened Par2Walk
  import opened Par2Packet

  /** The bytes of a packet of the file. */
  function Slice(d: seq<Byte>, p: Packet): (b: seq<Byte>)
    requires p.End() <= |d|
    ensures |b| == p.length
  {
    d[p.start..p.End()]
  }

  ghost predicate Inside(d: seq<Byte>, ps: seq<Packet>) {
    forall k | 0 <= k < |ps| :: ps[k].End() <= |d| && ps[k].length >= 64
  }

  lemma WalkInside(d: seq<Byte>)
    ensures Inside(d, Walk(d, 0))
  {
    WalkReal(d, 0);
  }

  /** A packet of the walk, cut out, is framed and of the listed kind. */
  lemma SliceFramed(d: seq<Byte>, k: nat)
    requires k < |Walk(d, 0)|
    ensures Inside(d, Walk(d, 0)) && Framed(Slice(d, Walk(d, 0)[k])) && KindOf(Slice(d, Walk(d, 0)[k])) == Walk(d, 0)[k].kind
  {
    WalkReal(d, 0);
    var p := Walk(d, 0)[k];
    var b := Slice(d, p);
    assert b[..8] == d[p.start..p.start + 8];
    assert b[8..16] == d[p.start + 8..p.start + 16];
    assert b[48..64] == d[p.start + 48..p.start + 64];
  }

  // ----- edits that leave the walk alone

  /** A byte no scanner looks at: inside a listed packet, outside the magic, the
      length and the kind. */
  ghost predicate Free(ps: seq<Packet>, x: nat) {
    exists k | 0 <= k < |ps| :: FreeIn(ps[k], x)
  }

  predicate FreeIn(p: Packet, x: nat) {
    p.start + 16 <= x < p.End() && !(p.start + 48 <= x < p.start + 64)
  }

  ghost predicate SameButFree(d: seq<Byte>, e: seq<Byte>, ps: seq<Packet>) {
    |e| == |d| && forall x | 0 <= x < |d| && !Free(ps, x) :: e[x] == d[x]
  }

  lemma HeaderKept(d: seq<Byte>, e: seq<Byte>, j: nat)
    requires |e| == |d| && forall x | j <= x < j + 16 && x < |d| :: e[x] == d[x]
    ensures PacketAt(e, j) <==> PacketAt(d, j)
    ensures j + 16 <= |d| ==> LengthAt(e, j) == LengthAt(d, j)
  {
    if j + 16 <= |d| {
      assert e[j..j + 8] == d[j..j + 8];
      assert e[j + 8..j + 16] == d[j + 8..j + 16];
    }
  }

  lemma NotFreeOutside(ps: seq<Packet>, j: nat, x: nat)
    requires !Covered(ps, j) && j <= x < j + 16
    ensures !Free(ps, x)
  {
    forall k | 0 <= k < |ps| ensures !FreeIn(ps[k], x) {
      assert !(ps[k].start <= j < ps[k].End());
    }
  }

  lemma NotFreeInHeader(ps: seq<Packet>, k: nat, x: nat)
    requires Ordered(ps) && k < |ps| && ps[k].length >= 64
    requires ps[k].start <= x < ps[k].start + 16 || ps[k].start + 48 <= x < ps[k].start + 64
    ensures !Free(ps, x)
  {
    forall m | 0 <= m < |ps| ensures !FreeIn(ps[m], x) {
      assert m < k ==> ps[m].End() <= ps[k].start;
      assert k < m ==> ps[k].End() <= ps[m].start;
    }
  }

  /** Whatever an edit does to free bytes, a re-walk finds the same packets. */
  lemma WalkKept(d: seq<Byte>, e: seq<Byte>)
    requires SameButFree(d, e, Walk(d, 0))
    ensures Walk(e, 0) == Walk(d, 0)
  {
    var ps := Walk(d, 0);
    WalkReal(d, 0);
    WalkOrdered(d, 0);
    WalkComplete(d, 0);
    forall k | 0 <= k < |ps| ensures PacketAt(e, ps[k].start) && ps[k] == ReadPacket(e, ps[k].start) {
      ListedKept(d, e, ps, k);
    }
    forall j: nat | PacketAt(e, j) ensures Covered(ps, j) {
      if !Covered(ps, j) {
        forall x | j <= x < j + 16 && x < |d| ensures e[x] == d[x] {
          NotFreeOutside(ps, j, x);
        }
        HeaderKept(d, e, j);
        assert false;
      }
    }
    WalkUnique(e, 0, ps);
  }

  lemma ListedKept(d: seq<Byte>, e: seq<Byte>, ps: seq<Packet>, k: nat)
    requires Real(d, 0, ps) && Ordered(ps) && SameButFree(d, e, ps) && k < |ps|
    ensures PacketAt(e, ps[k].start) && ps[k] == ReadPacket(e, ps[k].start)
  {
    var s := ps[k].start;
    assert PacketAt(d, s) && ps[k] == ReadPacket(d, s);
    forall x | s <= x < s + 16 || s + 48 <= x < s + 64 ensures e[x] == d[x] {
      NotFreeInHeader(ps, k, x);
    }
    HeaderKept(d, e, s);
    assert e[s + 48..s + 64] == d[s + 48..s + 64];
  }

  // ----- renaming a file

  ghost predicate AllFit(r: Renaming, d: seq<Byte>, ps: seq<Packet>, n: nat)
    requires Inside(d, ps) && n <= |ps|
  {
    forall k | 0 <= k < n :: r.Hits(Slice(d, ps[k])) ==> r.Fits(Slice(d, ps[k]))
  }

  /** How many of the first `n` packets carry the old name. */
  function HitCount(r: Renaming, d: seq<Byte>, ps: seq<Packet>, n: nat): (c: nat)
    requires Inside(d, ps) && n <= |ps|
  {
    if n == 0 then 0 else HitCount(r, d, ps, n - 1) + if r.Hits(Slice(d, ps[n - 1])) then 1 else 0
  }

  /** One packet more: it counts when it carries the old name, and then it must fit. */
  lemma FitNext(r: Renaming, d: seq<Byte>, ps: seq<Packet>, n: nat)
    requires Inside(d, ps) && n < |ps| && AllFit(r, d, ps, n)
    requires r.Hits(Slice(d, ps[n])) ==> r.Fits(Slice(d, ps[n]))
    ensures AllFit(r, d, ps, n + 1)
    ensures HitCount(r, d, ps, n + 1) == HitCount(r, d, ps, n) + if r.Hits(Slice(d, ps[n])) then 1 else 0
  {
  }

  lemma Misfit(r: Renaming, d: seq<Byte>, ps: seq<Packet>, n: nat)
    requires Inside(d, ps) && n < |ps| && r.Hits(Slice(d, ps[n])) && !r.Fits(Slice(d, ps[n]))
    ensures !AllFit(r, d, ps, |ps|)
  {
  }

  /** Every packet that carries the name is counted once. */
  lemma {:induction false} HitCountIs(r: Renaming, d: seq<Byte>, ps: seq<Packet>, n: nat)
    requires Inside(d, ps) && n <= |ps|
    ensures HitCount(r, d, ps, n) == |HitSet(r, d, ps, n)|
  {
    if n > 0 {
      HitCountIs(r, d, ps, n - 1);
      HitSetMore(r, d, ps, n - 1, r.Hits(Slice(d, ps[n - 1])));
    }
  }

  lemma HitSetMore(r: Renaming, d: seq<Byte>, ps: seq<Packet>, n: nat, hit: bool)
    requires Inside(d, ps) && n < |ps| && hit == r.Hits(Slice(d, ps[n]))
    ensures |HitSet(r, d, ps, n + 1)| == |HitSet(r, d, ps, n)| + if hit then 1 else 0
  {
    var before := HitSet(r, d, ps, n);
    assert HitSet(r, d, ps, n + 1) == if hit then before + {n} else before;
  }

  ghost function HitSet(r: Renaming, d: seq<Byte>, ps: seq<Packet>, n: nat): set<nat>
    requires Inside(d, ps) && n <= |ps|
  {
    set k: nat | k < n && r.Hits(Slice(d, ps[k]))
  }

  lemma {:induction false} HitCountPositive(r: Renaming, d: seq<Byte>, ps: seq<Packet>, n: nat)
    requires Inside(d, ps) && n <= |ps|
    ensures HitCount(r, d, ps, n) > 0 <==> exists k | 0 <= k < n :: r.Hits(Slice(d, ps[k]))
  {
    if n > 0 {
      HitCountPositive(r, d, ps, n - 1);
    }
  }

  /** The first `n` packets are in their new form, everything else is as it was. */
  ghost predicate Renamed(r: Renaming, d: seq<Byte>, e: seq<Byte>, ps: seq<Packet>, n: nat)
    requires Inside(d, ps)
  {
    && |e| == |d|
    && (forall x | 0 <= x < |d| && !Covered(ps, x) :: e[x] == d[x])
    && (forall k | 0 <= k < |ps| :: Slice(e, ps[k]) == if k < n then r.Apply(Slice(d, ps[k])) else Slice(d, ps[k]))
  }

  /** Overwriting one packet touches no other packet and no gap. */
  lemma OverwriteOne(e: seq<Byte>, f: seq<Byte>, p: Packet, b: seq<Byte>)
    requires p.End() <= |e| && |b| == p.length && f == e[..p.start] + b + e[p.End()..]
    ensures |f| == |e| && Slice(f, p) == b
    ensures forall x | 0 <= x < |e| && !(p.start <= x < p.End()) :: f[x] == e[x]
    ensures forall q: Packet | q.End() <= |e| && (q.End() <= p.start || p.End() <= q.start) :: Slice(f, q) == Slice(e, q)
  {
  }

  lemma RenamedNext(r: Renaming, d: seq<Byte>, e: seq<Byte>, f: seq<Byte>, ps: seq<Packet>, n: nat)
    requires Inside(d, ps) && Ordered(ps) && n < |ps| && Renamed(r, d, e, ps, n)
    requires f == e[..ps[n].start] + r.Apply(Slice(d, ps[n])) + e[ps[n].End()..]
    ensures Renamed(r, d, f, ps, n + 1)
  {
    OverwriteOne(e, f, ps[n], r.Apply(Slice(d, ps[n])));
    forall x | 0 <= x < |d| && !Covered(ps, x) ensures f[x] == d[x] {
      assert !(ps[n].start <= x < ps[n].End());
    }
    forall k | 0 <= k < |ps| && k != n ensures Slice(f, ps[k]) == Slice(e, ps[k]) {
      assert k < n ==> ps[k].End() <= ps[n].start;
      assert n < k ==> ps[n].End() <= ps[k].start;
    }
  }

  lemma RenamedSame(r: Renaming, d: seq<Byte>, e: seq<Byte>, ps: seq<Packet>)
    requires Inside(d, ps) && Renamed(r, d, e, ps, |ps|) && AllFit(r, d, ps, |ps|)
    ensures SameButFree(d, e, ps)
  {
    forall x | 0 <= x < |d| && !Free(ps, x) ensures e[x] == d[x] {
      if Covered(ps, x) {
        var k :| 0 <= k < |ps| && ps[k].start <= x < ps[k].End();
        assert !FreeIn(ps[k], x);
        assert e[x] == Slice(e, ps[k])[x - ps[k].start];
        HeaderByte(r, d, ps[k], x);
      }
    }
  }

  lemma HeaderByte(r: Renaming, d: seq<Byte>, p: Packet, x: nat)
    requires p.End() <= |d| && p.length >= 64 && p.start <= x < p.End() && !FreeIn(p, x)
    requires r.Hits(Slice(d, p)) ==> r.Fits(Slice(d, p))
    ensures r.Apply(Slice(d, p))[x - p.start] == d[x]
  {
    ApplyHeader(r, Slice(d, p), x - p.start);
  }

  lemma ApplyHeader(r: Renaming, b: seq<Byte>, y: nat)
    requires |b| >= 64 && (r.Hits(b) ==> r.Fits(b)) && (y < 16 || 48 <= y < 64)
    ensures r.Apply(b)[y] == b[y]
  {
    r.ApplyLaw(b);
    if y < 16 {
      assert r.Apply(b)[..16][y] == b[..16][y];
    } else {
      assert r.Apply(b)[32..64][y - 32] == b[32..64][y - 32];
    }
  }

  /** What a rename does to a file: the same packets in the same places, each in its
      renamed form, and every byte between them copied. */
  ghost predicate RenamedTo(r: Renaming, d: seq<Byte>, e: seq<Byte>) {
    var ps := Walk(d, 0);
    Inside(d, ps) && Walk(e, 0) == ps && Renamed(r, d, e, ps, |ps|)
  }

  lemma RenameKeepsWalk(r: Renaming, d: seq<Byte>, e: seq<Byte>)
    requires Inside(d, Walk(d, 0)) && AllFit(r, d, Walk(d, 0), |Walk(d, 0)|) && Renamed(r, d, e, Walk(d, 0), |Walk(d, 0)|)
    ensures RenamedTo(r, d, e)
  {
    RenamedSame(r, d, e, Walk(d, 0));
    WalkKept(d, e);
  }

  /** After a rename no packet carries the old name, each one that did is sealed and
      carries the new one, and the rest are the packets they were. */
  lemma RenameLaw(r: Renaming, d: seq<Byte>, e: seq<Byte>, k: nat)
    requires RenamedTo(r, d, e) && AllFit(r, d, Walk(d, 0), |Walk(d, 0)|) && NoTrailingNul(r.dst) && k < |Walk(d, 0)|
    ensures var p := Walk(d, 0)[k];
            && (r.Hits(Slice(d, p)) ==> Named(Slice(e, p), r.dst) && Sealed(r.md5, Slice(e, p)))
            && (!r.Hits(Slice(d, p)) ==> Slice(e, p) == Slice(d, p))
            && (r.src != r.dst ==> !Named(Slice(e, p), r.src))
  {
    r.ApplyLaw(Slice(d, Walk(d, 0)[k]));
  }

  // ----- walking a concatenation

  ghost predicate AllFramed(bs: seq<seq<Byte>>) {
    forall k | 0 <= k < |bs| :: Framed(bs[k])
  }

  /** Where the parts land when they are written one after the other from `at`. */
  function Landed(bs: seq<seq<Byte>>, at: nat): (ps: seq<Packet>)
    requires AllFramed(bs)
    ensures |ps| == |bs|
  {
    if bs == [] then []
    else [Packet(at, |bs[0]|, KindOf(bs[0]))] + Landed(bs[1..], at + |bs[0]|)
  }

  lemma {:induction false} WalkConcat(pre: seq<Byte>, bs: seq<seq<Byte>>)
    requires AllFramed(bs)
    ensures Walk(pre + Flatten(bs), |pre|) == Landed(bs, |pre|)
    decreases |bs|
  {
    var d := pre + Flatten(bs);
    if bs == [] {
      assert d == pre;
    } else {
      var b, rest := bs[0], bs[1..];
      FrameBetween(pre, b, Flatten(rest));
      assert d == pre + (b + Flatten(rest)) == (pre + b) + Flatten(rest);
      assert |pre + b| == |pre| + |b|;
      WalkHere(d, |pre|);
      WalkConcat(pre + b, rest);
      LandedCons(bs, |pre|);
    }
  }

  lemma LandedCons(bs: seq<seq<Byte>>, at: nat)
    requires AllFramed(bs) && bs != []
    ensures Landed(bs, at) == [Packet(at, |bs[0]|, KindOf(bs[0]))] + Landed(bs[1..], at + |bs[0]|)
  {
  }

  lemma FrameBetween(pre: seq<Byte>, b: seq<Byte>, rest: seq<Byte>)
    requires Framed(b)
    ensures pre + (b + rest) == (pre + b) + rest
    ensures PacketAt(pre + (b + rest), |pre|) && ReadPacket(pre + (b + rest), |pre|) == Packet(|pre|, |b|, KindOf(b))
  {
    assert (pre + b + rest)[|pre|..|pre| + |b|] == b;
    assert pre + (b + rest) == pre + b + rest;
    FrameAt(pre + b + rest, |pre|, b);
  }

  lemma FrameAt(d: seq<Byte>, i: nat, b: seq<Byte>)
    requires Framed(b) && i + |b| <= |d| && d[i..i + |b|] == b
    ensures PacketAt(d, i) && ReadPacket(d, i) == Packet(i, |b|, KindOf(b))
  {
    SubSlice(d, i, i + |b|, 0, 8);
    SubSlice(d, i, i + |b|, 8, 16);
    SubSlice(d, i, i + |b|, 48, 64);
  }

  /** The packets of a file, as byte strings. */
  function PacketBytes(d: seq<Byte>): (bs: seq<seq<Byte>>)
    ensures |bs| == |Walk(d, 0)|
    ensures forall k | 0 <= k < |bs| :: Walk(d, 0)[k].End() <= |d| && bs[k] == Slice(d, Walk(d, 0)[k])
  {
    WalkInside(d);
    var ps := Walk(d, 0);
    seq(|ps|, k requires 0 <= k < |ps| && Inside(d, ps) => Slice(d, ps[k]))
  }

  lemma {:induction false} LandedSlice(pre: seq<Byte>, bs: seq<seq<Byte>>, k: nat)
    requires AllFramed(bs) && k < |bs|
    ensures Landed(bs, |pre|)[k].End() <= |pre + Flatten(bs)|
    ensures Slice(pre + Flatten(bs), Landed(bs, |pre|)[k]) == bs[k]
    decreases |bs|
  {
    var d := pre + Flatten(bs);
    var b, rest := bs[0], Flatten(bs[1..]);
    assert d == (pre + b) + rest;
    if k == 0 {
      assert d[|pre|..|pre| + |b|] == b;
    } else {
      LandedSlice(pre + b, bs[1..], k - 1);
    }
  }

  /** A file of framed parts holds exactly those packets. */
  lemma ConcatPackets(bs: seq<seq<Byte>>)
    requires AllFramed(bs)
    ensures PacketBytes(Flatten(bs)) == bs
  {
    var d := Flatten(bs);
    assert [] + d == d;
    WalkConcat([], bs);
    forall k | 0 <= k < |bs| ensures PacketBytes(d)[k] == bs[k] {
      LandedSlice([], bs, k);
    }
  }

  // ----- where the strict scanner differs

  /** A magic and a length of zero in front of a file: the two resynchronising scanners
      find every packet, the strict one none. */
  lemma StrayHeaderHidesAll(bs: seq<seq<Byte>>)
    requires AllFramed(bs) && bs != []
    ensures var d := MAGIC + Zeros(8) + Flatten(bs);
            Walk(d, 0) == Landed(bs, 16) != [] && Before(Walk(d, 0), FirstMalformed(d, 0)) == []
  {
    var stray, d := MAGIC + Zeros(8), MAGIC + Zeros(8) + Flatten(bs);
    WalkConcat(stray, bs);
    NothingInStray(d, Flatten(bs));
    WalkSkip(d, 0, 16);
    assert Flatten(bs) == bs[0] + Flatten(bs[1..]);
    assert FirstMalformed(d, 0) == Some(0);
    NothingBefore(d, 0);
  }

  lemma NothingInStray(d: seq<Byte>, rest: seq<Byte>)
    requires d == MAGIC + Zeros(8) + rest
    ensures MagicAt(d, 0) && LengthAt(d, 0) == 0 && forall j | 0 <= j < 16 :: !PacketAt(d, j)
  {
    assert d[0..8] == MAGIC && d[8..16] == Zeros(8);
    ZeroLength(8);
    forall j | 0 < j < 16 ensures !MagicAt(d, j) {
      if j < 8 {
        MagicHasNoBorder(d, 0, j);
      } else {
        assert d[j] == d[8..16][j - 8] == 0;
        assert j + 8 <= |d| ==> d[j..j + 8][0] == d[j] != MAGIC[0];
      }
    }
  }

  lemma {:induction false} ZeroLength(n: nat)
    ensures LeValue(Zeros(n)) == 0
  {
    if n > 0 {
      assert Zeros(n)[1..] == Zeros(n - 1);
      ZeroLength(n - 1);
    }
  }
}
