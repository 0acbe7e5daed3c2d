/** One PAR2 packet as bytes: its frame, its seal, its file name, and the two edits
    bench/capability-corpus/par2patch.py makes to it. MD5 is a parameter: what is
    proved holds for every digest function. */
module Par2Packet {
  import opened Basics
  import opened Bytes
  import opened Par2Walk

  type Digest = s: seq<Byte> | |s| == 16 witness seq(16, _ => 0)
  type Md5 = seq<Byte> -> Digest

  /** "PAR 2.0\0FileDesc" */
  const T_FILEDESC: Digest :=
    [0x50, 0x41, 0x52, 0x20, 0x32, 0x2E, 0x30, 0x00, 0x46, 0x69, 0x6C, 0x65, 0x44, 0x65, 0x73, 0x63]
  /** "PAR 2.0\0Main\0\0\0\0" */
  const T_MAIN: Digest :=
    [0x50, 0x41, 0x52, 0x20, 0x32, 0x2E, 0x30, 0x00, 0x4D, 0x61, 0x69, 0x6E, 0x00, 0x00, 0x00, 0x00]

  /** The markers are the texts of the format. */
  lemma MarkersSpell()
    ensures Text(MAGIC) == "PAR2\0PKT"
    ensures Text(T_MAIN) == "PAR 2.0\0Main\0\0\0\0"
    ensures Text(T_FILEDESC) == "PAR 2.0\0FileDesc"
  {
  }

  /** The bytes are one packet: a magic, and a length field that says how many. */
  predicate Framed(b: seq<Byte>) {
    |b| >= 64 && b[..8] == MAGIC && LeValue(b[8..16]) == |b|
  }

  function KindOf(b: seq<Byte>): seq<Byte>
    requires |b| >= 64
  {
    b[48..64]
  }

  predicate Sealed(md5: Md5, b: seq<Byte>)
    requires |b| >= 64
  {
    b[16..32] == md5(b[32..])
  }

  function Reseal(md5: Md5, b: seq<Byte>): (r: seq<Byte>)
    requires |b| >= 64
    ensures |r| == |b| && Sealed(md5, r)
    ensures r[..16] == b[..16] && r[32..] == b[32..]
  {
    b[..16] + md5(b[32..]) + b[32..]
  }

  function StripNul(s: seq<Byte>): (r: seq<Byte>) {
    if s != [] && s[|s| - 1] == 0 then StripNul(s[..|s| - 1]) else s
  }

  predicate NoTrailingNul(s: seq<Byte>) {
    s == [] || s[|s| - 1] != 0
  }

  /** The name field of a File Description packet; too short a packet has none. */
  function NameOf(b: seq<Byte>): seq<Byte> {
    StripNul(if |b| >= 120 then b[120..] else [])
  }

  predicate Named(b: seq<Byte>, name: seq<Byte>)
    requires |b| >= 64
  {
    KindOf(b) == T_FILEDESC && NameOf(b) == name
  }

  lemma {:induction false} StripPadding(s: seq<Byte>, k: nat)
    ensures StripNul(s + Zeros(k)) == StripNul(s)
  {
    if k == 0 {
      assert s + Zeros(0) == s;
    } else {
      var t := s + Zeros(k);
      assert t[..|t| - 1] == s + Zeros(k - 1);
      StripPadding(s, k - 1);
    }
  }

  lemma {:induction false} StripStops(s: seq<Byte>)
    ensures NoTrailingNul(StripNul(s))
    ensures NoTrailingNul(s) ==> StripNul(s) == s
  {
    if s != [] && s[|s| - 1] == 0 {
      StripStops(s[..|s| - 1]);
    }
  }

  // ----- renaming

  /** `rename_filedesc` on one packet of the right name, when the name fits. */
  datatype Renaming = Renaming(md5: Md5, src: seq<Byte>, dst: seq<Byte>) {

    predicate Hits(b: seq<Byte>)
      requires |b| >= 64
    {
      Named(b, src)
    }

    predicate Fits(b: seq<Byte>) {
      |dst| <= |b| - 120
    }

    function Rewritten(b: seq<Byte>): (r: seq<Byte>)
      requires Fits(b)
      ensures |r| == |b| && r[..120] == b[..120] && r[120..] == dst + Zeros(|b| - 120 - |dst|)
    {
      b[..120] + (dst + Zeros(|b| - 120 - |dst|))
    }

    function Apply(b: seq<Byte>): (r: seq<Byte>)
      requires |b| >= 64
      ensures |r| == |b|
    {
      if Hits(b) && Fits(b) then Reseal(md5, Rewritten(b)) else b
    }

    /** A packet that is hit reads back the new name if and only if that name has no
        trailing NUL, is sealed, and is otherwise untouched; any other packet is
        left alone. */
    lemma ApplyLaw(b: seq<Byte>)
      requires |b| >= 64 && (Hits(b) ==> Fits(b))
      ensures Apply(b)[..16] == b[..16] && Apply(b)[32..64] == b[32..64]
      ensures Hits(b) ==> Sealed(md5, Apply(b)) && Apply(b)[64..120] == b[64..120]
      ensures Hits(b) ==> NameOf(Apply(b)) == StripNul(dst)
      ensures Hits(b) ==> (Named(Apply(b), dst) <==> NoTrailingNul(dst))
      ensures !Hits(b) ==> Apply(b) == b
      ensures src != dst && NoTrailingNul(dst) ==> !Named(Apply(b), src)
    {
      if Hits(b) {
        var t := Rewritten(b);
        var r := Apply(b);
        assert r[120..] == r[32..][88..] == t[32..][88..] == t[120..];
        assert r[32..120] == r[32..][..88] == t[32..][..88] == t[32..120] == t[..120][32..];
        assert r[32..64] == r[32..120][..32] && b[32..64] == b[..120][32..][..32];
        assert r[64..120] == r[32..120][32..] && b[64..120] == b[..120][32..][32..];
        assert r[48..64] == r[32..64][16..] && b[48..64] == b[32..64][16..];
        assert r[..16] == t[..16] == t[..120][..16];
        StripPadding(dst, |b| - 120 - |dst|);
        StripStops(dst);
      }
    }
  }

  // ----- splicing

  function FileId(md5: Md5, name: seq<Byte>): Digest {
    md5(md5([]) + LeBytes(0, 8) + name)
  }

  /** A whole packet; `struct.pack` refuses a length of 2^64 or more. */
  function Repack(md5: Md5, setId: seq<Byte>, kind: Digest, body: seq<Byte>): (r: Option<seq<Byte>>)
    requires |setId| == 16
  {
    if 64 + |body| >= Pow256(8) then None
    else Some(Reseal(md5, MAGIC + LeBytes(64 + |body|, 8) + Zeros(16) + setId + kind + body))
  }

  lemma RepackLaw(md5: Md5, setId: seq<Byte>, kind: Digest, body: seq<Byte>)
    requires |setId| == 16
    ensures var r := Repack(md5, setId, kind, body);
            r.Some? ==>
              && Framed(r.value) && Sealed(md5, r.value)
              && r.value[32..48] == setId && KindOf(r.value) == kind && r.value[64..] == body
  {
    if 64 + |body| < Pow256(8) {
      var head, tail := MAGIC + LeBytes(64 + |body|, 8), setId + kind + body;
      var b := MAGIC + LeBytes(64 + |body|, 8) + Zeros(16) + setId + kind + body;
      var r := Reseal(md5, b);
      LeRoundTrip(64 + |body|, 8);
      assert b == head + Zeros(16) + tail;
      assert b[..16] == head && b[32..] == tail;
      HeadParts(r, MAGIC, LeBytes(64 + |body|, 8));
      TailParts(r, setId, kind, body);
    }
  }

  lemma HeadParts(r: seq<Byte>, magic: seq<Byte>, length: seq<Byte>)
    requires |r| >= 16 && |magic| == 8 && |length| == 8 && r[..16] == magic + length
    ensures r[..8] == magic && r[8..16] == length
  {
    assert r[..8] == r[..16][..8];
    assert r[8..16] == r[..16][8..];
  }

  lemma TailParts(r: seq<Byte>, setId: seq<Byte>, kind: seq<Byte>, body: seq<Byte>)
    requires |r| >= 64 && |setId| == 16 && |kind| == 16 && r[32..] == setId + kind + body
    ensures r[32..48] == setId && r[48..64] == kind && r[64..] == body
  {
    assert r[32..48] == r[32..][..16];
    assert r[48..64] == r[32..][16..32];
    assert r[64..] == r[32..][32..];
  }

  /** The body of the new descriptor: id, two digests of nothing, length zero, name. */
  function DescBody(md5: Md5, name: seq<Byte>): seq<Byte> {
    FileId(md5, name) + md5([]) + md5([]) + LeBytes(0, 8) + (name + Zeros((4 - |name| % 4) % 4))
  }

  /** A File Description packet for a file of no bytes. */
  predicate EmptyDesc(md5: Md5, b: seq<Byte>, name: seq<Byte>)
    requires |b| >= 64
  {
    Named(b, name) && |b| >= 120 && LeValue(b[112..120]) == 0 && b[80..96] == md5([])
  }

  lemma ZeroLength()
    ensures LeBytes(0, 8) == [0, 0, 0, 0, 0, 0, 0, 0]
  {
    assert LeBytes(0, 1) == [0] && LeBytes(0, 2) == [0, 0] && LeBytes(0, 3) == [0, 0, 0];
    assert LeBytes(0, 4) == [0, 0, 0, 0] && LeBytes(0, 5) == [0, 0, 0, 0, 0];
    assert LeBytes(0, 6) == [0, 0, 0, 0, 0, 0] && LeBytes(0, 7) == [0, 0, 0, 0, 0, 0, 0];
  }

  lemma DescLaw(md5: Md5, setId: seq<Byte>, name: seq<Byte>)
    requires |setId| == 16
    ensures var r := Repack(md5, setId, T_FILEDESC, DescBody(md5, name));
            r.Some? ==>
              && Framed(r.value) && Sealed(md5, r.value)
              && r.value[32..48] == setId
              && (NoTrailingNul(name) <==> EmptyDesc(md5, r.value, name))
              && DescriptorOfNothing(md5, r.value, name)
  {
    var body := DescBody(md5, name);
    var r := Repack(md5, setId, T_FILEDESC, body);
    RepackLaw(md5, setId, T_FILEDESC, body);
    if r.Some? {
      var b := r.value;
      var k := (4 - |name| % 4) % 4;
      DescFields(md5, b, name);
      assert b[120..] == b[64..][56..] == name + Zeros(k);
      LeRoundTrip(0, 8);
      StripPadding(name, k);
      StripStops(name);
    }
  }

  /** Field by field: the id is the digest of the digest of nothing, the length zero and the
      name; then twice the digest of nothing, the length zero, and the name, padded with
      zeros to the next multiple of four. */
  ghost predicate DescriptorOfNothing(md5: Md5, b: seq<Byte>, name: seq<Byte>) {
    && |b| % 4 == 0 && 120 + |name| <= |b| < 124 + |name|
    && b[64..80] == md5(md5([]) + [0, 0, 0, 0, 0, 0, 0, 0] + name)
    && b[80..96] == md5([]) && b[96..112] == md5([]) && b[112..120] == [0, 0, 0, 0, 0, 0, 0, 0]
    && b[120..120 + |name|] == name && forall i | 120 + |name| <= i < |b| :: b[i] == 0
  }

  lemma DescFields(md5: Md5, b: seq<Byte>, name: seq<Byte>)
    requires |b| >= 64 && b[64..] == DescBody(md5, name)
    ensures DescriptorOfNothing(md5, b, name) && b[112..120] == LeBytes(0, 8)
  {
    var body, tail := b[64..], name + Zeros((4 - |name| % 4) % 4);
    ZeroLength();
    SubSlice(b, 64, |b|, 0, 16);
    SubSlice(b, 64, |b|, 16, 32);
    SubSlice(b, 64, |b|, 32, 48);
    SubSlice(b, 64, |b|, 48, 56);
    FiveParts(FileId(md5, name), md5([]), md5([]), LeBytes(0, 8), tail);
    PaddedName(b, name, tail);
  }

  lemma FiveParts(a: seq<Byte>, b: seq<Byte>, c: seq<Byte>, d: seq<Byte>, e: seq<Byte>)
    requires |a| == |b| == |c| == 16 && |d| == 8
    ensures var s := a + b + c + d + e;
            s[0..16] == a && s[16..32] == b && s[32..48] == c && s[48..56] == d && s[56..] == e
  {
  }

  lemma PaddedName(b: seq<Byte>, name: seq<Byte>, tail: seq<Byte>)
    requires tail == name + Zeros((4 - |name| % 4) % 4) && |b| == 120 + |tail| && b[64..][56..] == tail
    ensures |b| % 4 == 0 && 120 + |name| <= |b| < 124 + |name|
    ensures b[120..120 + |name|] == name && forall i | 120 + |name| <= i < |b| :: b[i] == 0
  {
    assert forall i | 0 <= i < |tail| :: b[120 + i] == b[64..][56 + i] == tail[i];
    forall i | 120 + |name| <= i < |b| ensures b[i] == 0 {
      assert b[120 + (i - 120)] == tail[i - 120];
    }
  }

  /** The file count of a Main packet's recovery set. */
  function MainCount(body: seq<Byte>): (n: nat)
    requires |body| >= 12
  {
    LeValue(body[8..12])
  }

  /** The body edit of `splice_empty`; a body too short for the count, or a count
      that does not fit its field, is a `struct.error`. */
  function MainBody(body: seq<Byte>, fid: Digest): (r: Option<seq<Byte>>) {
    if |body| < 12 || MainCount(body) + 1 >= Pow256(4) then None
    else
      var n := MainCount(body);
      var bumped := body[..8] + LeBytes(n + 1, 4) + body[12..];
      var at := if 12 + 16 * n < |bumped| then 12 + 16 * n else |bumped|;
      Some(bumped[..at] + fid + bumped[at..])
  }

  /** The list of ids fits in the body. */
  predicate MainOk(body: seq<Byte>) {
    |body| >= 12 && 12 + 16 * MainCount(body) <= |body|
  }

  /** A well-formed Main body stays well formed, counts one more, lists the new id
      last, and keeps its slice size, its ids and what follows them. On a body whose
      list does not fit, the result does not either. */
  lemma MainLaw(body: seq<Byte>, fid: Digest)
    requires MainBody(body, fid).Some?
    ensures var r := MainBody(body, fid).value;
            var n := MainCount(body);
            && |r| == |body| + 16
            && r[..8] == body[..8]
            && MainCount(r) == n + 1
            && (MainOk(r) <==> MainOk(body))
            && (MainOk(body) ==>
                  && r[12..12 + 16 * n] == body[12..12 + 16 * n]
                  && r[12 + 16 * n..12 + 16 * (n + 1)] == fid
                  && r[12 + 16 * (n + 1)..] == body[12 + 16 * n..])
  {
    var n := MainCount(body);
    var bumped := body[..8] + LeBytes(n + 1, 4) + body[12..];
    var at := if 12 + 16 * n < |bumped| then 12 + 16 * n else |bumped|;
    LeRoundTrip(n + 1, 4);
    Bumped(body, LeBytes(n + 1, 4), at);
    Inserted(bumped, at, fid);
    InFront(bumped, at, fid, 0, 8);
    InFront(bumped, at, fid, 8, 12);
    InFront(bumped, at, fid, 12, at);
  }

  /** The new count replaces the old one and nothing else. */
  lemma Bumped(body: seq<Byte>, count: seq<Byte>, at: nat)
    requires 12 <= at <= |body| && |count| == 4
    ensures var b := body[..8] + count + body[12..];
            && |b| == |body| && b[0..8] == body[..8] && b[8..12] == count
            && b[12..at] == body[12..at] && b[at..] == body[at..]
  {
  }

  lemma Inserted(b: seq<Byte>, at: nat, fid: Digest)
    requires at <= |b|
    ensures var r := b[..at] + fid + b[at..];
            r[at..at + 16] == fid && r[at + 16..] == b[at..]
  {
  }

  lemma InFront(b: seq<Byte>, at: nat, fid: Digest, lo: nat, hi: nat)
    requires lo <= hi <= at <= |b|
    ensures (b[..at] + fid + b[at..])[lo..hi] == b[lo..hi]
  {
  }
}
