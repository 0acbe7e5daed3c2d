/** The three packet scanners: bench/capability-corpus/par2patch.py steps one byte
    past a malformed header, bench/component/par2-gap-recovery.py steps eight, and
    bench/component/par2-ifsc-surgery.py stops there. One recursion says which
    packets a file holds; the scanners are compared with it. */
module Par2Walk {
  import opened Basics
  import opened Bytes

  /** "PAR2\0PKT" */
  const MAGIC: seq<Byte> := [0x50, 0x41, 0x52, 0x32, 0x00, 0x50, 0x4B, 0x54]

  datatype Packet = Packet(start: nat, length: nat, kind: seq<Byte>) {
    function End(): nat { start + length }
  }

  predicate MagicAt(d: seq<Byte>, i: nat) {
    i + 8 <= |d| && d[i..i + 8] == MAGIC
  }

  function LengthAt(d: seq<Byte>, i: nat): (r: nat)
    requires i + 16 <= |d|
  {
    LeValue(d[i + 8..i + 16])
  }

  /** A structurally valid packet starts here. */
  predicate PacketAt(d: seq<Byte>, i: nat) {
    i + 64 <= |d| && MagicAt(d, i) && LengthAt(d, i) >= 64 && i + LengthAt(d, i) <= |d|
  }

  /** A header starts here and its length field is unusable. */
  predicate MalformedAt(d: seq<Byte>, i: nat) {
    i + 64 <= |d| && MagicAt(d, i) && !PacketAt(d, i)
  }

  function ReadPacket(d: seq<Byte>, i: nat): (p: Packet)
    requires PacketAt(d, i)
  {
    Packet(i, LengthAt(d, i), d[i + 48..i + 64])
  }

  /** The packets from `i` on, looking at every byte in turn outside of packets. */
  function Walk(d: seq<Byte>, i: nat): (r: seq<Packet>)
    decreases |d| - i
  {
    if i + 64 > |d| then []
    else if PacketAt(d, i) then [ReadPacket(d, i)] + Walk(d, i + LengthAt(d, i))
    else Walk(d, i + 1)
  }

  // ----- the list is the only one of its kind

  ghost predicate Covered(ps: seq<Packet>, i: nat) {
    exists k | 0 <= k < |ps| :: ps[k].start <= i < ps[k].End()
  }

  /** Each listed packet is in the file, from `i` on. */
  ghost predicate Real(d: seq<Byte>, i: nat, ps: seq<Packet>) {
    forall k | 0 <= k < |ps| :: i <= ps[k].start && PacketAt(d, ps[k].start) && ps[k] == ReadPacket(d, ps[k].start)
  }

  ghost predicate Ordered(ps: seq<Packet>) {
    forall a, b | 0 <= a < b < |ps| :: ps[a].End() <= ps[b].start
  }

  /** None is left out: a valid header from `i` on is the start of a listed packet
      or lies inside one. */
  ghost predicate Complete(d: seq<Byte>, i: nat, ps: seq<Packet>) {
    forall j: nat | i <= j && PacketAt(d, j) :: Covered(ps, j)
  }

  lemma CoveredCons(p: Packet, rest: seq<Packet>, j: nat)
    ensures Covered([p] + rest, j) <==> p.start <= j < p.End() || Covered(rest, j)
  {
    var ps := [p] + rest;
    assert ps[0] == p;
    assert forall k | 0 <= k < |rest| :: ps[k + 1] == rest[k];
    assert forall k | 0 < k < |ps| :: ps[k] == rest[k - 1];
  }

  lemma {:induction false} WalkReal(d: seq<Byte>, i: nat)
    ensures Real(d, i, Walk(d, i))
    decreases |d| - i
  {
    if i + 64 > |d| {
    } else if PacketAt(d, i) {
      WalkReal(d, i + LengthAt(d, i));
    } else {
      WalkReal(d, i + 1);
    }
  }

  lemma {:induction false} WalkOrdered(d: seq<Byte>, i: nat)
    ensures Ordered(Walk(d, i))
    decreases |d| - i
  {
    if i + 64 > |d| {
    } else if PacketAt(d, i) {
      WalkReal(d, i + LengthAt(d, i));
      WalkOrdered(d, i + LengthAt(d, i));
    } else {
      WalkOrdered(d, i + 1);
    }
  }

  lemma {:induction false} WalkComplete(d: seq<Byte>, i: nat)
    ensures Complete(d, i, Walk(d, i))
    decreases |d| - i
  {
    if i + 64 > |d| {
    } else if PacketAt(d, i) {
      var p := ReadPacket(d, i);
      var rest := Walk(d, p.End());
      WalkComplete(d, p.End());
      CompleteCons(d, p, rest);
    } else {
      WalkComplete(d, i + 1);
    }
  }

  lemma CompleteCons(d: seq<Byte>, p: Packet, rest: seq<Packet>)
    ensures Complete(d, p.End(), rest) ==> Complete(d, p.start, [p] + rest)
    ensures Complete(d, p.start, [p] + rest) ==> Complete(d, p.End(), rest)
  {
    forall j: nat ensures Covered([p] + rest, j) <==> p.start <= j < p.End() || Covered(rest, j) {
      CoveredCons(p, rest, j);
    }
  }

  /** The walk is the only list of real packets, in order, with none left out. */
  lemma {:induction false} WalkUnique(d: seq<Byte>, i: nat, ps: seq<Packet>)
    requires Real(d, i, ps) && Ordered(ps) && Complete(d, i, ps)
    ensures ps == Walk(d, i)
    decreases |d| - i
  {
    if i + 64 > |d| {
      assert ps == [];
    } else if PacketAt(d, i) {
      HeadListed(d, i, ps);
      WalkUnique(d, ps[0].End(), ps[1..]);
      WalkHere(d, i);
    } else {
      RealShift(d, i, ps);
      WalkUnique(d, i + 1, ps);
    }
  }

  lemma WalkHere(d: seq<Byte>, i: nat)
    requires PacketAt(d, i)
    ensures Walk(d, i) == [ReadPacket(d, i)] + Walk(d, ReadPacket(d, i).End())
  {
  }

  lemma HeadListed(d: seq<Byte>, i: nat, ps: seq<Packet>)
    requires Real(d, i, ps) && Ordered(ps) && Complete(d, i, ps) && PacketAt(d, i)
    ensures ps != [] && ps[0] == ReadPacket(d, i) && ps == [ps[0]] + ps[1..]
    ensures var next := ps[0].End();
            Real(d, next, ps[1..]) && Ordered(ps[1..]) && Complete(d, next, ps[1..])
  {
    FirstListed(d, i, ps);
    assert ps == [ps[0]] + ps[1..];
    CompleteCons(d, ps[0], ps[1..]);
    RealTail(d, i, ps);
  }

  lemma RealShift(d: seq<Byte>, i: nat, ps: seq<Packet>)
    requires Real(d, i, ps) && !PacketAt(d, i)
    ensures Real(d, i + 1, ps)
    ensures Complete(d, i, ps) ==> Complete(d, i + 1, ps)
  {
  }

  lemma FirstListed(d: seq<Byte>, i: nat, ps: seq<Packet>)
    requires Real(d, i, ps) && Ordered(ps) && Covered(ps, i) && PacketAt(d, i)
    ensures ps != [] && ps[0] == ReadPacket(d, i)
  {
    var k :| 0 <= k < |ps| && ps[k].start <= i < ps[k].End();
    assert ps[0].End() > i;
    assert k == 0;
  }

  lemma RealTail(d: seq<Byte>, i: nat, ps: seq<Packet>)
    requires Real(d, i, ps) && Ordered(ps) && ps != []
    ensures Real(d, ps[0].End(), ps[1..]) && Ordered(ps[1..])
  {
    assert forall k | 0 <= k < |ps[1..]| :: ps[1..][k] == ps[k + 1];
  }

  // ----- skipping

  lemma {:induction false} WalkSkip(d: seq<Byte>, a: nat, b: nat)
    requires a <= b && forall j | a <= j < b :: !PacketAt(d, j)
    ensures Walk(d, a) == Walk(d, b)
    decreases b - a
  {
    if a < b {
      WalkSkip(d, a + 1, b);
    }
  }

  /** The magic has no border, so no header starts inside another one's magic. */
  lemma MagicHasNoBorder(d: seq<Byte>, i: nat, k: nat)
    requires MagicAt(d, i) && 1 <= k < 8
    ensures !MagicAt(d, i + k)
  {
    assert d[i..i + 8][k] == d[i + k];
    assert d[i..i + 8][6] == d[i + 6];
    assert d[i + k] != MAGIC[0] || d[i + k + 1] != MAGIC[1];
  }

  // ----- data.find(MAGIC, from)

  predicate FirstMagic(d: seq<Byte>, from: nat, r: Option<nat>) {
    match r
    case Some(i) => from <= i && MagicAt(d, i) && forall j | from <= j < i :: !MagicAt(d, j)
    case None => forall j | from <= j < |d| :: !MagicAt(d, j)
  }

  method FindMagic(d: seq<Byte>, from: nat) returns (r: Option<nat>)
    ensures FirstMagic(d, from, r)
  {
    var i := from;
    while i + 8 <= |d|
      invariant from <= i
      invariant forall j | from <= j < i :: !MagicAt(d, j)
    {
      if d[i..i + 8] == MAGIC {
        return Some(i);
      }
      i := i + 1;
    }
    return None;
  }

  /** Nothing can start before the next magic; with none in reach, nothing at all. */
  lemma WalkToMagic(d: seq<Byte>, from: nat, r: Option<nat>)
    requires FirstMagic(d, from, r)
    ensures r.Some? ==> Walk(d, from) == Walk(d, r.value)
    ensures r.None? || r.value + 64 > |d| ==> Walk(d, from) == []
  {
    match r {
      case Some(i) => WalkSkip(d, from, i);
      case None =>
        if from <= |d| { WalkSkip(d, from, |d|); }
    }
  }

  // ----- the three scanners

  /** par2patch.py: after a malformed header, look again one byte later. */
  method Packets(d: seq<Byte>) returns (out: seq<Packet>)
    ensures out == Walk(d, 0)
  {
    out := [];
    var off := 0;
    ghost var goal := Walk(d, 0);
    while off + 64 <= |d|
      invariant out + Walk(d, off) == goal
      decreases |d| - off
    {
      var rel := FindMagic(d, off);
      WalkToMagic(d, off, rel);
      if rel.None? || rel.value + 64 > |d| {
        break;
      }
      var at := rel.value;
      var length := LengthAt(d, at);
      if length < 64 || at + length > |d| {
        off := at + 1;
        continue;
      }
      Regroup(out, [ReadPacket(d, at)], Walk(d, at + length));
      out := out + [Packet(at, length, d[at + 48..at + 64])];
      off := at + length;
    }
  }

  lemma PastMagic(d: seq<Byte>, i: nat)
    requires MagicAt(d, i) && !PacketAt(d, i)
    ensures Walk(d, i) == Walk(d, i + 8)
  {
    forall j | i <= j < i + 8 ensures !PacketAt(d, j) {
      if j > i { MagicHasNoBorder(d, i, j - i); }
    }
    WalkSkip(d, i, i + 8);
  }

  /** par2-gap-recovery.py: after a malformed header, look again past its magic. */
  method PacketsByMagic(d: seq<Byte>) returns (out: seq<Packet>)
    ensures out == Walk(d, 0)
  {
    out := [];
    var i, n := 0, |d|;
    ghost var goal := Walk(d, 0);
    while true
      invariant out + Walk(d, i) == goal
      decreases n - i
    {
      var rel := FindMagic(d, i);
      WalkToMagic(d, i, rel);
      if rel.None? || rel.value + 64 > n {
        return;
      }
      i := rel.value;
      var length := LengthAt(d, i);
      if length < 64 || i + length > n {
        PastMagic(d, i);
        i := i + 8;
        continue;
      }
      Regroup(out, [ReadPacket(d, i)], Walk(d, i + length));
      out := out + [Packet(i, length, d[i + 48..i + 64])];
      i := i + length;
    }
  }

  /** The first malformed header a left-to-right walk runs into. */
  function FirstMalformed(d: seq<Byte>, i: nat): (r: Option<nat>)
    decreases |d| - i
  {
    if i + 64 > |d| then None
    else if PacketAt(d, i) then FirstMalformed(d, i + LengthAt(d, i))
    else if MagicAt(d, i) then Some(i)
    else FirstMalformed(d, i + 1)
  }

  /** It is the least malformed header that lies in no packet. */
  ghost predicate LeastMalformed(d: seq<Byte>, i: nat, ps: seq<Packet>, r: Option<nat>) {
    && (r.Some? ==> i <= r.value && MalformedAt(d, r.value) && !Covered(ps, r.value))
    && forall j: nat | i <= j && MalformedAt(d, j) && !Covered(ps, j) :: r.Some? && r.value <= j
  }

  lemma {:induction false} FirstMalformedLeast(d: seq<Byte>, i: nat)
    ensures LeastMalformed(d, i, Walk(d, i), FirstMalformed(d, i))
    decreases |d| - i
  {
    if i + 64 > |d| {
    } else if PacketAt(d, i) {
      var p := ReadPacket(d, i);
      FirstMalformedLeast(d, p.End());
      MalformedPast(d, p, Walk(d, p.End()), FirstMalformed(d, p.End()));
    } else if MagicAt(d, i) {
      NoneListedAt(d, i);
    } else {
      FirstMalformedLeast(d, i + 1);
      PlainPast(d, i, Walk(d, i + 1), FirstMalformed(d, i + 1));
    }
  }

  lemma PlainPast(d: seq<Byte>, i: nat, ps: seq<Packet>, r: Option<nat>)
    requires !MagicAt(d, i) && LeastMalformed(d, i + 1, ps, r)
    ensures LeastMalformed(d, i, ps, r)
  {
  }

  lemma NoneListedAt(d: seq<Byte>, i: nat)
    requires !PacketAt(d, i)
    ensures !Covered(Walk(d, i), i)
  {
    WalkReal(d, i);
  }

  lemma MalformedPast(d: seq<Byte>, p: Packet, rest: seq<Packet>, r: Option<nat>)
    requires LeastMalformed(d, p.End(), rest, r)
    ensures LeastMalformed(d, p.start, [p] + rest, r)
  {
    forall j: nat ensures Covered([p] + rest, j) <==> p.start <= j < p.End() || Covered(rest, j) {
      CoveredCons(p, rest, j);
    }
  }

  /** The packets before a position. */
  function Before(ps: seq<Packet>, stop: Option<nat>): (r: seq<Packet>)
  {
    if ps == [] || (stop.Some? && ps[0].start >= stop.value) then []
    else [ps[0]] + Before(ps[1..], stop)
  }

  lemma {:induction false} BeforePrefix(ps: seq<Packet>, stop: Option<nat>)
    ensures Before(ps, stop) <= ps
    ensures stop.None? ==> Before(ps, stop) == ps
    ensures forall k | 0 <= k < |Before(ps, stop)| :: stop.Some? ==> ps[k].start < stop.value
    ensures |Before(ps, stop)| < |ps| ==> stop.Some? && ps[|Before(ps, stop)|].start >= stop.value
  {
    if ps == [] || (stop.Some? && ps[0].start >= stop.value) {
    } else {
      BeforePrefix(ps[1..], stop);
    }
  }

  /** par2-ifsc-surgery.py: stop at the first malformed header. */
  method PacketsStrict(d: seq<Byte>) returns (out: seq<Packet>)
    ensures out == Before(Walk(d, 0), FirstMalformed(d, 0))
  {
    out := [];
    var off := 0;
    ghost var stop := FirstMalformed(d, 0);
    ghost var goal := Before(Walk(d, 0), stop);
    while off + 64 <= |d|
      invariant FirstMalformed(d, off) == stop
      invariant out + Before(Walk(d, off), stop) == goal
      decreases |d| - off
    {
      if d[off..off + 8] != MAGIC {
        off := off + 1;
        continue;
      }
      var ln := LengthAt(d, off);
      if ln < 64 || off + ln > |d| {
        NothingBefore(d, off);
        break;
      }
      StrictStep(d, off, stop);
      Regroup(out, [ReadPacket(d, off)], Before(Walk(d, off + ln), stop));
      out := out + [Packet(off, ln, d[off + 48..off + 64])];
      off := off + ln;
    }
  }

  lemma NothingBefore(d: seq<Byte>, i: nat)
    requires MalformedAt(d, i)
    ensures Before(Walk(d, i), Some(i)) == []
  {
    WalkReal(d, i);
  }

  lemma StrictStep(d: seq<Byte>, i: nat, stop: Option<nat>)
    requires PacketAt(d, i) && FirstMalformed(d, i) == stop
    ensures Before(Walk(d, i), stop) == [ReadPacket(d, i)] + Before(Walk(d, i + LengthAt(d, i)), stop)
  {
    FirstMalformedLeast(d, i + LengthAt(d, i));
    var rest := Walk(d, i + LengthAt(d, i));
    assert ([ReadPacket(d, i)] + rest)[1..] == rest;
  }

  /** What the strict scanner misses: it agrees with the others exactly when no
      packet follows a malformed header that lies outside all packets. */
  lemma StrictAgrees(d: seq<Byte>)
    ensures Before(Walk(d, 0), FirstMalformed(d, 0)) == Walk(d, 0)
       <==> !exists j: nat, k: nat :: k < |Walk(d, 0)| && j < Walk(d, 0)[k].start
                                      && MalformedAt(d, j) && !Covered(Walk(d, 0), j)
  {
    var ps, stop := Walk(d, 0), FirstMalformed(d, 0);
    BeforePrefix(ps, stop);
    FirstMalformedLeast(d, 0);
    WalkReal(d, 0);
    var n := |Before(ps, stop)|;
    if n < |ps| {
      assert PacketAt(d, ps[n].start);
      assert stop.value < ps[n].start && MalformedAt(d, stop.value) && !Covered(ps, stop.value);
    } else {
      assert Before(ps, stop) == ps;
    }
  }
}
