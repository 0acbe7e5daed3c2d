/** The editor itself: bench/capability-corpus/par2patch.py as an object holding the
    byte array its functions edit, and what a successful command leaves on disk. */
module Par2Patch {
  import opened Basics
  import opened Bytes
  import opened Par2Walk
  import opened Par2Packet
  import opened Par2File

  /** `Died` is a call of `die`; `Raised` is an exception of the struct module. */
  datatype Result<T> = Ok(value: T) | Died | Raised

  lemma PacketsFramed(d: seq<Byte>)
    ensures AllFramed(PacketBytes(d))
  {
    forall k | 0 <= k < |Walk(d, 0)| ensures Framed(PacketBytes(d)[k]) {
      SliceFramed(d, k);
    }
  }

  // ----- splicing, packet by packet

  /** A Main packet with the new member; any other packet as it is. */
  function Patched(md5: Md5, b: seq<Byte>, fid: Digest): (r: Option<seq<Byte>>)
    requires |b| >= 64
  {
    if KindOf(b) != T_MAIN then Some(b)
    else
      match MainBody(b[64..], fid)
      case None => None
      case Some(body) => Repack(md5, b[32..48], T_MAIN, body)
  }

  /** A patched packet is framed and of the same kind and set; a Main is sealed
      and its body is the edited one. */
  lemma PatchedLaw(md5: Md5, b: seq<Byte>, fid: Digest)
    requires Framed(b) && Patched(md5, b, fid).Some?
    ensures var r := Patched(md5, b, fid).value;
            && Framed(r) && KindOf(r) == KindOf(b) && r[32..48] == b[32..48]
            && (KindOf(b) != T_MAIN ==> r == b)
            && (KindOf(b) == T_MAIN ==> Sealed(md5, r) && MainBody(b[64..], fid) == Some(r[64..]))
  {
    if KindOf(b) == T_MAIN {
      RepackLaw(md5, b[32..48], T_MAIN, MainBody(b[64..], fid).value);
    }
  }

  lemma PatchedFramed(md5: Md5, b: seq<Byte>, fid: Digest)
    requires Framed(b) && Patched(md5, b, fid).Some?
    ensures Framed(Patched(md5, b, fid).value)
  {
    PatchedLaw(md5, b, fid);
  }

  function PatchAll(md5: Md5, bs: seq<seq<Byte>>, fid: Digest): (r: Option<seq<seq<Byte>>>)
    requires AllFramed(bs)
    ensures r.Some? ==> |r.value| == |bs|
  {
    if bs == [] then Some([])
    else
      var init, last := bs[..|bs| - 1], bs[|bs| - 1];
      var rs := PatchAll(md5, init, fid);
      match (rs, Patched(md5, last, fid))
      case (Some(rs), Some(r)) => Some(rs + [r])
      case _ => None
  }

  /** All packets are patched, or one of them cannot be. */
  lemma {:induction false} PatchAllLaw(md5: Md5, bs: seq<seq<Byte>>, fid: Digest)
    requires AllFramed(bs)
    ensures var r := PatchAll(md5, bs, fid);
            && (r.Some? ==> forall k | 0 <= k < |bs| :: Patched(md5, bs[k], fid) == Some(r.value[k]))
            && (r.None? ==> exists k | 0 <= k < |bs| :: Patched(md5, bs[k], fid) == None)
            && (r.Some? ==> AllFramed(r.value))
  {
    if bs != [] {
      var init, last := bs[..|bs| - 1], bs[|bs| - 1];
      PatchAllLaw(md5, init, fid);
      assert forall k | 0 <= k < |init| :: bs[k] == init[k];
      if PatchAll(md5, bs, fid).Some? {
        PatchedFramed(md5, last, fid);
        assert PatchAll(md5, bs, fid).value == PatchAll(md5, init, fid).value + [Patched(md5, last, fid).value];
      } else if PatchAll(md5, init, fid).Some? {
        assert Patched(md5, bs[|bs| - 1], fid) == None;
      }
    }
  }

  /** Every Main is counted once. */
  lemma {:induction false} MainsAre(bs: seq<seq<Byte>>)
    requires AllFramed(bs)
    ensures MainsIn(bs) == |MainSet(bs)|
  {
    if bs != [] {
      MainsAre(bs[..|bs| - 1]);
      MainSetMore(bs[..|bs| - 1], bs[|bs| - 1]);
      assert bs == bs[..|bs| - 1] + [bs[|bs| - 1]];
    }
  }

  ghost function MainSet(bs: seq<seq<Byte>>): set<nat>
    requires AllFramed(bs)
  {
    set k: nat | k < |bs| && KindOf(bs[k]) == T_MAIN
  }

  lemma MainSetMore(bs: seq<seq<Byte>>, b: seq<Byte>)
    requires AllFramed(bs) && Framed(b) && AllFramed(bs + [b])
    ensures |MainSet(bs + [b])| == |MainSet(bs)| + if KindOf(b) == T_MAIN then 1 else 0
  {
    var before := MainSet(bs);
    assert MainSet(bs + [b]) == if KindOf(b) == T_MAIN then before + {|bs|} else before;
  }

  function MainsIn(bs: seq<seq<Byte>>): nat
    requires AllFramed(bs)
  {
    if bs == [] then 0
    else MainsIn(bs[..|bs| - 1]) + if KindOf(bs[|bs| - 1]) == T_MAIN then 1 else 0
  }

  // ----- the editor

  class Editor {
    const md5: Md5
    var data: seq<Byte>

    constructor (md5: Md5, data: seq<Byte>)
      ensures this.md5 == md5 && this.data == data
    {
      this.md5 := md5;
      this.data := data;
    }

    /** The sixteen bytes of the seal are recomputed in place. */
    method ResealAt(p: Packet)
      requires p.length >= 64 && p.End() <= |data|
      modifies this`data
      ensures data == old(data)[..p.start] + Reseal(md5, Slice(old(data), p)) + old(data)[p.End()..]
    {
      ghost var d := data;
      ghost var b := Slice(d, p);
      var s := p.start;
      data := data[..s + 16] + md5(data[s + 32..p.End()]) + data[s + 32..];
      assert b[32..] == d[s + 32..p.End()];
      assert d[..s + 16] == d[..s] + b[..16];
      assert d[s + 32..] == b[32..] + d[p.End()..];
    }

    /** Blank the name region, write the new name, reseal. */
    method RewriteAt(p: Packet, src: seq<Byte>, dst: seq<Byte>)
      requires p.length >= 64 && p.End() <= |data|
      requires Renaming(md5, src, dst).Fits(Slice(data, p))
      modifies this`data
      ensures var r := Renaming(md5, src, dst);
              data == old(data)[..p.start] + Reseal(md5, r.Rewritten(Slice(old(data), p))) + old(data)[p.End()..]
    {
      ghost var d := data;
      ghost var b := Slice(d, p);
      var s, region := p.start, p.length - 120;
      data := data[..s + 120] + Zeros(region) + data[p.End()..];
      data := data[..s + 120] + dst + data[s + 120 + |dst|..];
      assert data == d[..s] + Renaming(md5, src, dst).Rewritten(b) + d[p.End()..] by {
        assert d[..s + 120] == d[..s] + b[..120];
      }
      ghost var e := data;
      assert Slice(e, p) == Renaming(md5, src, dst).Rewritten(b);
      ResealAt(p);
      assert e[..s] == d[..s] && e[p.End()..] == d[p.End()..];
    }

    /** One turn of the loop of `rename_filedesc`; `None` is the fatal misfit. */
    method RenamePacket(p: Packet, src: seq<Byte>, dst: seq<Byte>) returns (hits: Option<nat>)
      requires p.length >= 64 && p.End() <= |data|
      modifies this`data
      ensures var r, b := Renaming(md5, src, dst), Slice(old(data), p);
              && (hits.None? <==> r.Hits(b) && !r.Fits(b))
              && (hits.Some? ==> hits.value == if r.Hits(b) then 1 else 0)
              && (hits.Some? ==> data == old(data)[..p.start] + r.Apply(b) + old(data)[p.End()..])
    {
      if !Named(Slice(data, p), src) {
        assert data == data[..p.start] + Slice(data, p) + data[p.End()..];
        return Some(0);
      }
      if |dst| > p.length - 120 {
        return None;
      }
      RewriteAt(p, src, dst);
      hits := Some(1);
    }

    /** The same turn, with the packets before it in their new form. */
    method RenameNext(ghost d: seq<Byte>, ps: seq<Packet>, k: nat, src: seq<Byte>, dst: seq<Byte>)
      returns (hits: Option<nat>)
      requires Inside(d, ps) && Ordered(ps) && k < |ps| && Renamed(Renaming(md5, src, dst), d, data, ps, k)
      modifies this`data
      ensures var r, b := Renaming(md5, src, dst), Slice(d, ps[k]);
              && (hits.None? <==> r.Hits(b) && !r.Fits(b))
              && (hits.Some? ==> hits.value == if r.Hits(b) then 1 else 0)
              && (hits.Some? ==> Renamed(r, d, data, ps, k + 1))
    {
      ghost var was := data;
      assert Slice(data, ps[k]) == Slice(d, ps[k]);
      hits := RenamePacket(ps[k], src, dst);
      if hits.Some? {
        RenamedNext(Renaming(md5, src, dst), d, was, data, ps, k);
      }
    }

    /** The loop of `rename_filedesc` over the listed packets. */
    method RenameListed(ps: seq<Packet>, src: seq<Byte>, dst: seq<Byte>) returns (hits: Option<nat>)
      requires Inside(data, ps) && Ordered(ps)
      modifies this`data
      ensures var r := Renaming(md5, src, dst);
              && (hits.Some? <==> AllFit(r, old(data), ps, |ps|))
              && (hits.Some? ==> hits.value == HitCount(r, old(data), ps, |ps|))
              && (hits.Some? ==> Renamed(r, old(data), data, ps, |ps|))
    {
      var count := 0;
      ghost var r := Renaming(md5, src, dst);
      ghost var d := data;
      for k := 0 to |ps|
        invariant Renamed(r, d, data, ps, k) && AllFit(r, d, ps, k)
        invariant count == HitCount(r, d, ps, k)
      {
        var hit := RenameNext(d, ps, k, src, dst);
        if hit.None? {
          Misfit(r, d, ps, k);
          return None;
        }
        FitNext(r, d, ps, k);
        count := count + hit.value;
      }
      hits := Some(count);
    }

    /** `rename_filedesc`: it succeeds if and only if some packet carries the old
        name and the new one fits in each that does; it then returns their number
        and has renamed exactly those. */
    method RenameFileDesc(src: seq<Byte>, dst: seq<Byte>) returns (res: Result<nat>)
      modifies this`data
      ensures var r := Renaming(md5, src, dst);
              var ps := Walk(old(data), 0);
              && Inside(old(data), ps) && !res.Raised?
              && (res.Ok? <==> AllFit(r, old(data), ps, |ps|) && HitCount(r, old(data), ps, |ps|) > 0)
              && (res.Ok? ==> res.value == HitCount(r, old(data), ps, |ps|) && RenamedTo(r, old(data), data))
    {
      ghost var d := data;
      var ps := Packets(data);
      WalkInside(d);
      WalkOrdered(d, 0);
      var hits := RenameListed(ps, src, dst);
      if hits.None? || hits.value == 0 {
        return Died;
      }
      RenameKeepsWalk(Renaming(md5, src, dst), d, data);
      res := Ok(hits.value);
    }

    /** `splice_empty`: with no packet it dies, on a Main it cannot edit it raises,
        both leaving the bytes alone; otherwise a re-walk finds the old packets in
        order, the Mains edited, and the new descriptor last. */
    method SpliceEmpty(name: seq<Byte>) returns (res: Result<nat>)
      modifies this`data
      ensures AllFramed(PacketBytes(old(data)))
      ensures var bs := PacketBytes(old(data));
              && (res.Died? <==> bs == [])
              && (res.Raised? <==> bs != [] && Spliced(md5, bs, name).None?)
              && (res.Ok? ==> res.value == MainsIn(bs) && PacketBytes(data) == Spliced(md5, bs, name).value)
              && (!res.Ok? ==> data == old(data))
    {
      PacketsFramed(data);
      var ps := Packets(data);
      ghost var bs := PacketBytes(data);
      var body := PatchListed(ps, FileId(md5, name));
      if body.None? {
        return Raised;
      }
      if |ps| == 0 {
        return Died;
      }
      var first := Slice(data, ps[0]);
      var desc := Repack(md5, first[32..48], T_FILEDESC, DescBody(md5, name));
      if desc.None? {
        return Raised;
      }
      SplicedWalk(md5, bs, name);
      data := body.value.0 + desc.value;
      res := Ok(body.value.1);
    }

    /** The loop of `splice_empty`: the output buffer and the number of Mains. */
    method PatchListed(ps: seq<Packet>, fid: Digest) returns (r: Option<(seq<Byte>, nat)>)
      requires ps == Walk(data, 0) && AllFramed(PacketBytes(data))
      ensures var rs := PatchAll(md5, PacketBytes(data), fid);
              && (r.None? <==> rs.None?)
              && (r.Some? ==> r.value == (Flatten(rs.value), MainsIn(PacketBytes(data))))
    {
      ghost var bs := PacketBytes(data);
      var out: seq<Byte>, mains := [], 0;
      ghost var parts: seq<seq<Byte>> := [];
      for k := 0 to |ps|
        invariant PatchAll(md5, bs[..k], fid) == Some(parts) && out == Flatten(parts)
        invariant mains == MainsIn(bs[..k])
      {
        SliceFramed(data, k);
        var pkt := Slice(data, ps[k]);
        PrefixGrows(bs, k);
        var edited := Patched(md5, pkt, fid);
        if edited.None? {
          PatchPrefix(md5, bs, fid, k + 1);
          return None;
        }
        FlattenSnoc(parts, edited.value);
        out := out + edited.value;
        parts := parts + [edited.value];
        if ps[k].kind == T_MAIN {
          mains := mains + 1;
        }
      }
      assert bs[..|ps|] == bs;
      r := Some((out, mains));
    }
  }

  lemma PrefixGrows(bs: seq<seq<Byte>>, k: nat)
    requires k < |bs|
    ensures bs[..k + 1][..k] == bs[..k] && bs[..k + 1][k] == bs[k]
  {
  }

  /** The packets of the spliced file: the new descriptor takes the set id of the
      first packet. */
  function Spliced(md5: Md5, bs: seq<seq<Byte>>, name: seq<Byte>): (r: Option<seq<seq<Byte>>>)
    requires AllFramed(bs) && bs != []
  {
    match (PatchAll(md5, bs, FileId(md5, name)), Repack(md5, bs[0][32..48], T_FILEDESC, DescBody(md5, name)))
    case (Some(parts), Some(desc)) => Some(parts + [desc])
    case _ => None
  }

  /** Writing the parts out and walking them again gives the parts back. */
  lemma SplicedWalk(md5: Md5, bs: seq<seq<Byte>>, name: seq<Byte>)
    requires AllFramed(bs) && bs != [] && Spliced(md5, bs, name).Some?
    ensures var parts := PatchAll(md5, bs, FileId(md5, name));
            var desc := Repack(md5, bs[0][32..48], T_FILEDESC, DescBody(md5, name));
            PacketBytes(Flatten(parts.value) + desc.value) == Spliced(md5, bs, name).value
  {
    SplicedFramed(md5, bs, name);
    ConcatPackets(Spliced(md5, bs, name).value);
    var parts, desc := PatchAll(md5, bs, FileId(md5, name)), Repack(md5, bs[0][32..48], T_FILEDESC, DescBody(md5, name));
    FlattenSnoc(parts.value, desc.value);
  }

  /** A Main that lists one file more, byte by byte: the count goes up by one, the id stands
      behind those listed, everything else is as it was, and the digest is of the new bytes. */
  ghost predicate ListsOneMore(md5: Md5, b: seq<Byte>, c: seq<Byte>, id: seq<Byte>)
    requires |b| >= 76
  {
    var at := 76 + 16 * LeValue(b[72..76]);
    && |c| == |b| + 16 && c[..8] == b[..8] && c[16..32] == md5(c[32..]) && c[32..72] == b[32..72]
    && LeValue(c[72..76]) == LeValue(b[72..76]) + 1
    && (at <= |b| ==> c[76..at] == b[76..at] && c[at..at + 16] == id && c[at + 16..] == b[at..])
  }

  /** What a splice leaves: the packets in order, Mains listing the id that the descriptor
      behind them has, any other packet the same bytes; and that descriptor, in the set of the
      first packet. */
  lemma SplicedLinked(md5: Md5, bs: seq<seq<Byte>>, name: seq<Byte>)
    requires AllFramed(bs) && bs != [] && Spliced(md5, bs, name).Some?
    ensures var out := Spliced(md5, bs, name).value;
            && |out| == |bs| + 1
            && |out[|bs|]| >= 120 && out[|bs|][32..48] == bs[0][32..48] && Text(out[|bs|][48..64]) == "PAR 2.0\0FileDesc"
            && DescriptorOfNothing(md5, out[|bs|], name)
            && forall k | 0 <= k < |bs| :: PartOf(md5, bs[k], out[k], out[|bs|][64..80])
  {
    var id := FileId(md5, name);
    DescPart(md5, bs[0][32..48], name);
    PatchAllLaw(md5, bs, id);
    var parts := PatchAll(md5, bs, id).value;
    forall k | 0 <= k < |bs| ensures PartOf(md5, bs[k], parts[k], id) {
      PartLinked(md5, bs[k], parts[k], id);
    }
  }

  lemma DescPart(md5: Md5, setId: seq<Byte>, name: seq<Byte>)
    requires |setId| == 16
    ensures var r := Repack(md5, setId, T_FILEDESC, DescBody(md5, name));
            r.Some? ==>
              && |r.value| >= 120 && r.value[32..48] == setId && Text(r.value[48..64]) == "PAR 2.0\0FileDesc"
              && DescriptorOfNothing(md5, r.value, name) && r.value[64..80] == FileId(md5, name)
  {
    MarkersSpell();
    DescLaw(md5, setId, name);
    RepackLaw(md5, setId, T_FILEDESC, DescBody(md5, name));
  }

  /** A Main lists one more, any other packet is as it was. */
  ghost predicate PartOf(md5: Md5, b: seq<Byte>, c: seq<Byte>, id: seq<Byte>)
    requires |b| >= 64
  {
    if Text(b[48..64]) == "PAR 2.0\0Main\0\0\0\0" then |b| >= 76 && ListsOneMore(md5, b, c, id) else c == b
  }

  lemma PartLinked(md5: Md5, b: seq<Byte>, c: seq<Byte>, id: Digest)
    requires Framed(b) && Patched(md5, b, id) == Some(c)
    ensures PartOf(md5, b, c, id)
  {
    PatchedLaw(md5, b, id);
    MarkersApart(b[48..64]);
    if KindOf(b) == T_MAIN {
      MainLists(md5, b, id);
    }
  }

  lemma MarkersApart(kind: seq<Byte>)
    requires |kind| == 16
    ensures Text(kind) == "PAR 2.0\0Main\0\0\0\0" <==> kind == T_MAIN
  {
    MarkersSpell();
    if Text(kind) == Text(T_MAIN) {
      forall i | 0 <= i < 16 ensures kind[i] == T_MAIN[i] {
        assert Text(kind)[i] == Text(T_MAIN)[i];
      }
    }
  }

  lemma MainLists(md5: Md5, b: seq<Byte>, id: Digest)
    requires Framed(b) && KindOf(b) == T_MAIN && Patched(md5, b, id).Some?
    ensures |b| >= 76 && ListsOneMore(md5, b, Patched(md5, b, id).value, id)
  {
    var c, n := Patched(md5, b, id).value, MainCount(b[64..]);
    PatchedLaw(md5, b, id);
    MainLaw(b[64..], id);
    UpToCount(c);
    UpToCount(b);
    Behind(c, 8, 12);
    Behind(b, 8, 12);
    if 12 + 16 * n <= |b| - 64 {
      ListMoves(b, c, 12 + 16 * n, id);
    }
  }

  lemma UpToCount(b: seq<Byte>)
    requires |b| >= 72
    ensures b[32..72] == b[32..48] + b[48..64] + b[64..][..8]
  {
  }

  lemma ListMoves(b: seq<Byte>, c: seq<Byte>, at: nat, id: Digest)
    requires 12 <= at && 64 + at <= |b| && |c| == |b| + 16
    requires c[64..][12..at] == b[64..][12..at] && c[64..][at..at + 16] == id && c[64..][at + 16..] == b[64..][at..]
    ensures c[76..64 + at] == b[76..64 + at] && c[64 + at..80 + at] == id && c[80 + at..] == b[64 + at..]
  {
    Behind(c, 12, at);
    Behind(b, 12, at);
    Behind(c, at, at + 16);
  }

  /** A slice of the body is a slice of the packet. */
  lemma Behind(b: seq<Byte>, i: nat, j: nat)
    requires 64 + j <= |b| && i <= j
    ensures b[64..][i..j] == b[64 + i..64 + j]
  {
  }

  lemma SplicedFramed(md5: Md5, bs: seq<seq<Byte>>, name: seq<Byte>)
    requires AllFramed(bs) && bs != [] && Spliced(md5, bs, name).Some?
    ensures AllFramed(Spliced(md5, bs, name).value)
  {
    PatchAllLaw(md5, bs, FileId(md5, name));
    DescLaw(md5, bs[0][32..48], name);
  }

  lemma {:induction false} PatchPrefix(md5: Md5, bs: seq<seq<Byte>>, fid: Digest, k: nat)
    requires AllFramed(bs) && k <= |bs| && PatchAll(md5, bs[..k], fid).None?
    ensures PatchAll(md5, bs, fid).None?
    decreases |bs| - k
  {
    if k < |bs| {
      PrefixGrows(bs, k);
      PatchPrefix(md5, bs, fid, k + 1);
    } else {
      assert bs[..k] == bs;
    }
  }

  // ----- verify, and what the two commands leave behind

  /** The test of the second loop of `verify`, on file offsets: in a packet too short
      for a name it reads on into what follows. */
  predicate EmptyAt(md5: Md5, d: seq<Byte>, p: Packet, name: seq<Byte>)
    requires p.length >= 64 && p.End() <= |d|
  {
    && Named(Slice(d, p), name) && p.start + 120 <= |d|
    && LeValue(d[p.start + 112..p.start + 120]) == 0 && d[p.start + 80..p.start + 96] == md5([])
  }

  /** Every packet holds its own digest, there is one, and the wanted names are in. */
  ghost predicate Verified(md5: Md5, d: seq<Byte>, wantName: Option<seq<Byte>>, wantEmpty: Option<seq<Byte>>)
    requires Inside(d, Walk(d, 0))
  {
    var ps := Walk(d, 0);
    && ps != []
    && (forall k | 0 <= k < |ps| :: Sealed(md5, Slice(d, ps[k])))
    && (wantName.Some? ==> exists k | 0 <= k < |ps| :: Named(Slice(d, ps[k]), wantName.value))
    && (wantEmpty.Some? ==>
          && (forall k | 0 <= k < |ps| :: Named(Slice(d, ps[k]), wantEmpty.value) ==> ps[k].start + 120 <= |d|)
          && exists k | 0 <= k < |ps| :: EmptyAt(md5, d, ps[k], wantEmpty.value))
  }

  /** `verify`, as two loops over the packets. */
  method Verify(md5: Md5, d: seq<Byte>, wantName: Option<seq<Byte>>, wantEmpty: Option<seq<Byte>>) returns (ok: bool)
    ensures Inside(d, Walk(d, 0)) && (ok <==> Verified(md5, d, wantName, wantEmpty))
  {
    var ps := Packets(d);
    WalkInside(d);
    var names: set<seq<Byte>> := {};
    for k := 0 to |ps|
      invariant forall j | 0 <= j < k :: Sealed(md5, Slice(d, ps[j]))
      invariant forall n :: n in names <==> exists j | 0 <= j < k :: Named(Slice(d, ps[j]), n)
    {
      var b := Slice(d, ps[k]);
      if b[16..32] != md5(b[32..]) {
        return false;
      }
      if KindOf(b) == T_FILEDESC {
        names := names + {NameOf(b)};
      }
    }
    if ps == [] || (wantName.Some? && wantName.value !in names) {
      return false;
    }
    if wantEmpty.Some? {
      ok := VerifyEmpty(md5, d, ps, wantEmpty.value);
    } else {
      ok := true;
    }
  }

  method VerifyEmpty(md5: Md5, d: seq<Byte>, ps: seq<Packet>, name: seq<Byte>) returns (ok: bool)
    requires Inside(d, ps)
    ensures ok <==>
              && (forall k | 0 <= k < |ps| :: Named(Slice(d, ps[k]), name) ==> ps[k].start + 120 <= |d|)
              && exists k | 0 <= k < |ps| :: EmptyAt(md5, d, ps[k], name)
  {
    ok := false;
    for k := 0 to |ps|
      invariant forall j | 0 <= j < k :: Named(Slice(d, ps[j]), name) ==> ps[j].start + 120 <= |d|
      invariant ok <==> exists j | 0 <= j < k :: EmptyAt(md5, d, ps[j], name)
    {
      var s := ps[k].start;
      if Named(Slice(d, ps[k]), name) {
        if s + 120 > |d| {
          return false;
        }
        if LeValue(d[s + 112..s + 120]) == 0 && d[s + 80..s + 96] == md5([]) {
          ok := true;
        }
      }
    }
  }

  /** The `rename` command: after a rename to a name without trailing NULs the check
      that follows passes if and only if every packet left alone was sealed before. */
  lemma RenameVerifies(r: Renaming, d: seq<Byte>, e: seq<Byte>)
    requires RenamedTo(r, d, e) && AllFit(r, d, Walk(d, 0), |Walk(d, 0)|) && HitCount(r, d, Walk(d, 0), |Walk(d, 0)|) > 0
    requires NoTrailingNul(r.dst)
    ensures Inside(e, Walk(e, 0))
    ensures Verified(r.md5, e, Some(r.dst), None) <==>
              forall k | 0 <= k < |Walk(d, 0)| && !r.Hits(Slice(d, Walk(d, 0)[k])) :: Sealed(r.md5, Slice(d, Walk(d, 0)[k]))
  {
    var ps := Walk(d, 0);
    NewNameIn(r, d, e);
    forall k | 0 <= k < |ps|
      ensures Sealed(r.md5, Slice(e, ps[k])) <==> r.Hits(Slice(d, ps[k])) || Sealed(r.md5, Slice(d, ps[k]))
    {
      RenameLaw(r, d, e, k);
    }
  }

  lemma NewNameIn(r: Renaming, d: seq<Byte>, e: seq<Byte>)
    requires RenamedTo(r, d, e) && AllFit(r, d, Walk(d, 0), |Walk(d, 0)|) && HitCount(r, d, Walk(d, 0), |Walk(d, 0)|) > 0
    requires NoTrailingNul(r.dst)
    ensures exists k | 0 <= k < |Walk(d, 0)| :: Named(Slice(e, Walk(d, 0)[k]), r.dst)
  {
    HitCountPositive(r, d, Walk(d, 0), |Walk(d, 0)|);
    var h :| 0 <= h < |Walk(d, 0)| && r.Hits(Slice(d, Walk(d, 0)[h]));
    RenameLaw(r, d, e, h);
  }

  /** The `splice-empty` command: for a name without trailing NULs the check that
      follows passes if and only if every packet other than the Mains was sealed
      before. */
  lemma SpliceVerifies(md5: Md5, d: seq<Byte>, e: seq<Byte>, name: seq<Byte>)
    requires AllFramed(PacketBytes(d)) && PacketBytes(d) != [] && NoTrailingNul(name)
    requires Spliced(md5, PacketBytes(d), name) == Some(PacketBytes(e))
    ensures Inside(e, Walk(e, 0))
    ensures Verified(md5, e, None, Some(name)) <==>
              forall k | 0 <= k < |PacketBytes(d)| && KindOf(PacketBytes(d)[k]) != T_MAIN :: Sealed(md5, PacketBytes(d)[k])
  {
    WalkInside(e);
    DescLaw(md5, PacketBytes(d)[0][32..48], name);
    SpliceDesc(md5, e, name);
    SealsDecide(md5, e, name);
    SplicedSealed(md5, PacketBytes(d), PacketBytes(e), name);
  }

  /** With an empty file found at the end, the check comes down to the seals. */
  lemma SealsDecide(md5: Md5, e: seq<Byte>, name: seq<Byte>)
    requires var ps := Walk(e, 0);
             && ps != [] && Inside(e, ps) && EmptyAt(md5, e, ps[|ps| - 1], name)
             && forall k | 0 <= k < |ps| :: ps[k].start + 120 <= |e|
    ensures AllFramed(PacketBytes(e))
    ensures Verified(md5, e, None, Some(name)) <==>
              forall k | 0 <= k < |PacketBytes(e)| :: Sealed(md5, PacketBytes(e)[k])
  {
    PacketsFramed(e);
    var ps := Walk(e, 0);
    assert forall k | 0 <= k < |ps| :: PacketBytes(e)[k] == Slice(e, ps[k]);
  }

  lemma SplicedSealed(md5: Md5, bs: seq<seq<Byte>>, es: seq<seq<Byte>>, name: seq<Byte>)
    requires AllFramed(bs) && bs != [] && Spliced(md5, bs, name) == Some(es)
    ensures AllFramed(es)
    ensures (forall k | 0 <= k < |es| :: Sealed(md5, es[k])) <==>
              forall k | 0 <= k < |bs| && KindOf(bs[k]) != T_MAIN :: Sealed(md5, bs[k])
  {
    SplicedFramed(md5, bs, name);
    PatchAllLaw(md5, bs, FileId(md5, name));
    RepackLaw(md5, bs[0][32..48], T_FILEDESC, DescBody(md5, name));
    forall k | 0 <= k < |bs| ensures Sealed(md5, es[k]) <==> KindOf(bs[k]) == T_MAIN || Sealed(md5, bs[k]) {
      SpliceSeals(md5, bs, name, k);
    }
    assert Sealed(md5, es[|bs|]);
  }

  lemma SpliceSeals(md5: Md5, bs: seq<seq<Byte>>, name: seq<Byte>, k: nat)
    requires AllFramed(bs) && k < |bs| && Spliced(md5, bs, name).Some?
    ensures var es := Spliced(md5, bs, name).value;
            k < |es| && Framed(es[k]) && (Sealed(md5, es[k]) <==> KindOf(bs[k]) == T_MAIN || Sealed(md5, bs[k]))
  {
    PatchAllLaw(md5, bs, FileId(md5, name));
    PatchedLaw(md5, bs[k], FileId(md5, name));
  }

  /** A last packet that describes an empty file is found by `verify`, and no read of
      the second loop runs past the end. */
  lemma SpliceDesc(md5: Md5, e: seq<Byte>, name: seq<Byte>)
    requires var ps := Walk(e, 0);
             ps != [] && Inside(e, ps) && EmptyDesc(md5, Slice(e, ps[|ps| - 1]), name)
    ensures var ps := Walk(e, 0);
            && EmptyAt(md5, e, ps[|ps| - 1], name)
            && forall k | 0 <= k < |ps| :: ps[k].start + 120 <= |e|
  {
    var ps := Walk(e, 0);
    var p := ps[|ps| - 1];
    WalkOrdered(e, 0);
    SubSlice(e, p.start, p.End(), 112, 120);
    SubSlice(e, p.start, p.End(), 80, 96);
    forall k | 0 <= k < |ps| ensures ps[k].start + 120 <= |e| {
      assert k < |ps| - 1 ==> ps[k].End() <= p.start;
    }
  }
}
