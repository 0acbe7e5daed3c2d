/** Undoing PNG row filters in place, as packaging/icon/rasterize.py does, against the
    filters of section 9 of the PNG Specification. */
module PngFilter {
  import opened Basics
  import opened Bytes

  /** The Paeth predictor: the neighbour nearest to a + b - c, ties in that order. */
  function Paeth(a: Byte, b: Byte, c: Byte): Byte {
    var p := a + b - c;
    if Abs(p - a) <= Abs(p - b) && Abs(p - a) <= Abs(p - c) then a
    else if Abs(p - b) <= Abs(p - c) then b
    else c
  }

  /** `q` is one of the three neighbours, none is nearer to a + b - c, and ties go to the left
      one, then to the one above. */
  predicate Nearest(q: Byte, a: Byte, b: Byte, c: Byte) {
    var p := a + b - c;
    && (q == a || q == b || q == c)
    && Distance(p, q) <= Distance(p, a) && Distance(p, q) <= Distance(p, b) && Distance(p, q) <= Distance(p, c)
    && (Distance(p, a) == Distance(p, q) ==> q == a)
    && (Distance(p, b) == Distance(p, q) && q != a ==> q == b)
  }

  function Distance(x: int, y: int): (d: nat)
    ensures d == x - y || d == y - x
  {
    if x < y then y - x else x - y
  }

  lemma PaethIsNearest(a: Byte, b: Byte, c: Byte)
    ensures Nearest(Paeth(a, b, c), a, b, c)
    ensures forall q: Byte :: Nearest(q, a, b, c) ==> q == Paeth(a, b, c)
  {
  }

  /** The prediction for byte `x` of a row from its neighbours; outside the image they
      are zero. Kinds other than the five of the standard predict nothing. */
  function Predict(kind: Byte, row: seq<Byte>, prev: seq<Byte>, bpp: nat, x: nat): (p: Byte)
    requires x < |row| == |prev| && bpp > 0
  {
    var a: Byte := if x >= bpp then row[x - bpp] else 0;
    var b: Byte := prev[x];
    var c: Byte := if x >= bpp then prev[x - bpp] else 0;
    Mix(kind, a, b, c)
  }

  function Mix(kind: Byte, a: Byte, b: Byte, c: Byte): Byte {
    if kind == 1 then a
    else if kind == 2 then b
    else if kind == 3 then (a + b) / 2
    else if kind == 4 then Paeth(a, b, c)
    else 0
  }

  /** What an encoder stores for a row: each byte less its prediction. */
  function FilterRow(kind: Byte, row: seq<Byte>, prev: seq<Byte>, bpp: nat): (r: seq<Byte>)
    requires |row| == |prev| && bpp > 0
    ensures |r| == |row|
  {
    seq(|row|, x requires 0 <= x < |row| => (row[x] - Predict(kind, row, prev, bpp, x)) % 256)
  }

  /** The byte `bpp` places before `x`, zero outside the image. */
  function Back(row: seq<Byte>, bpp: nat, x: nat): Byte
    requires x < |row| && bpp > 0
  {
    if x < bpp then 0 else row[x - bpp]
  }

  /** What each kind of filter stores for `v`, in terms of the bytes left of it, above it and
      above left: the byte itself, the difference to the left or the upper one, to their
      mean rounded down, or to the nearest of the three. */
  predicate Stores(kind: Byte, stored: Byte, v: Byte, left: Byte, above: Byte, corner: Byte) {
    && (kind == 0 || kind > 4 ==> stored == v)
    && (kind == 1 ==> v == (stored + left) % 256)
    && (kind == 2 ==> v == (stored + above) % 256)
    && (kind == 3 ==> v == (stored + (left + above) / 2) % 256)
    && (kind == 4 ==> forall q: Byte :: Nearest(q, left, above, corner) ==> v == (stored + q) % 256)
  }

  /** Each byte of a filtered row is what its kind of filter stores. */
  lemma FilteredByte(kind: Byte, row: seq<Byte>, prev: seq<Byte>, bpp: nat, x: nat)
    requires x < |row| == |prev| && bpp > 0
    ensures Stores(kind, FilterRow(kind, row, prev, bpp)[x], row[x], Back(row, bpp, x), prev[x], Back(prev, bpp, x))
  {
    StoredByte(kind, row[x], Back(row, bpp, x), prev[x], Back(prev, bpp, x));
  }

  lemma StoredByte(kind: Byte, v: Byte, left: Byte, above: Byte, corner: Byte)
    ensures Stores(kind, (v - Mix(kind, left, above, corner)) % 256, v, left, above, corner)
  {
    PaethIsNearest(left, above, corner);
    Redo(v, Mix(kind, left, above, corner));
  }

  lemma Redo(v: Byte, p: Byte)
    ensures ((v - p) % 256 + p) % 256 == v
  {
  }

  /** The prediction for a byte depends on nothing at or after it in its row. */
  lemma PredictCausal(kind: Byte, row: seq<Byte>, row': seq<Byte>, prev: seq<Byte>, bpp: nat, x: nat)
    requires x < |row| == |row'| == |prev| && bpp > 0 && row[..x] == row'[..x]
    ensures Predict(kind, row, prev, bpp, x) == Predict(kind, row', prev, bpp, x)
  {
    if x >= bpp {
      assert row[x - bpp] == row[..x][x - bpp] == row'[..x][x - bpp];
    }
  }

  /** So the filtered row, with the row above, determines the row. */
  lemma {:induction false} FilterPrefix(kind: Byte, row: seq<Byte>, row': seq<Byte>, prev: seq<Byte>, bpp: nat, n: nat)
    requires |row| == |row'| == |prev| && bpp > 0 && n <= |row|
    requires FilterRow(kind, row, prev, bpp) == FilterRow(kind, row', prev, bpp)
    ensures row[..n] == row'[..n]
  {
    if n > 0 {
      FilterPrefix(kind, row, row', prev, bpp, n - 1);
      PredictCausal(kind, row, row', prev, bpp, n - 1);
      assert FilterRow(kind, row, prev, bpp)[n - 1] == FilterRow(kind, row', prev, bpp)[n - 1];
      assert row[..n] == row[..n - 1] + [row[n - 1]] && row'[..n] == row'[..n - 1] + [row'[n - 1]];
    }
  }

  lemma FilterInjective(kind: Byte, row: seq<Byte>, row': seq<Byte>, prev: seq<Byte>, bpp: nat)
    requires |row| == |row'| == |prev| && bpp > 0
    requires FilterRow(kind, row, prev, bpp) == FilterRow(kind, row', prev, bpp)
    ensures row == row'
  {
    FilterPrefix(kind, row, row', prev, bpp, |row|);
    assert row[..|row|] == row && row'[..|row|] == row';
  }

  /** Up to `x` the line holds the row that filters to `was`; from there on, `was`. */
  ghost predicate Undone(line: seq<Byte>, was: seq<Byte>, kind: Byte, prev: seq<Byte>, bpp: nat, x: nat)
    requires |line| == |was| == |prev| && bpp > 0 && x <= |line|
  {
    && (forall k | 0 <= k < x :: (line[k] - Predict(kind, line, prev, bpp, k)) % 256 == was[k])
    && (forall k | x <= k < |line| :: line[k] == was[k])
  }

  function Refilled(v: Byte, p: Byte): Byte { (v + p) % 256 }

  lemma UndoneNext(line: seq<Byte>, was: seq<Byte>, kind: Byte, prev: seq<Byte>, bpp: nat, x: nat)
    requires |line| == |was| == |prev| && bpp > 0 && x < |line| && Undone(line, was, kind, prev, bpp, x)
    ensures Undone(line[x := Refilled(line[x], Predict(kind, line, prev, bpp, x))], was, kind, prev, bpp, x + 1)
  {
    var p := Predict(kind, line, prev, bpp, x);
    var next := line[x := Refilled(line[x], p)];
    forall k | 0 <= k <= x ensures (next[k] - Predict(kind, next, prev, bpp, k)) % 256 == was[k] {
      assert line[..k] == next[..k];
      PredictCausal(kind, line, next, prev, bpp, k);
      if k == x {
        Undo(line[x], p);
      }
    }
  }

  /** One byte in place, from its neighbours in the order left, above, above left. */
  method Refill(line: array<Byte>, x: nat, kind: Byte, a: Byte, b: Byte, c: Byte)
    requires x < line.Length
    modifies line
    ensures line[..] == old(line[..])[x := Refilled(old(line[x]), Mix(kind, a, b, c))]
  {
    if kind == 1 {
      line[x] := (line[x] + a) % 256;
    } else if kind == 2 {
      line[x] := (line[x] + b) % 256;
    } else if kind == 3 {
      line[x] := (line[x] + (a + b) / 2) % 256;
    } else if kind == 4 {
      line[x] := (line[x] + Paeth(a, b, c)) % 256;
    }
  }

  /** The four filters that read the byte they rewrite. */
  predicate Rewrites(kind: Byte) { 1 <= kind <= 4 }

  /** A line cut short by `missing` bytes that the byte loop still gets through: the
      filter rewrites nothing, and looks back far enough never to leave the line. */
  predicate GetsThrough(kind: Byte, missing: nat, bpp: nat) {
    missing == 0 || (!Rewrites(kind) && missing <= bpp)
  }

  /** The byte loop over a whole row, on a line that may be cut short; not `ok` is an
      IndexError. Afterwards a whole line is the row whose filtered form it held, and
      a short one is what it was. */
  method UnfilterRow(line: array<Byte>, prev: seq<Byte>, bpp: nat, kind: Byte) returns (ok: bool)
    requires line.Length <= |prev| && bpp > 0
    modifies line
    ensures ok <==> GetsThrough(kind, |prev| - line.Length, bpp)
    ensures line.Length == |prev| ==> FilterRow(kind, line[..], prev, bpp) == old(line[..])
    ensures line.Length == |prev| ==>
              forall x | 0 <= x < |prev| ::
                Stores(kind, old(line[x]), line[x], Back(line[..], bpp, x), prev[x], Back(prev, bpp, x))
    ensures ok && line.Length < |prev| ==> line[..] == old(line[..])
  {
    ghost var was := line[..];
    for x := 0 to |prev|
      invariant line.Length == |prev| ==> Undone(line[..], was, kind, prev, bpp, x)
      invariant line.Length < |prev| && !Rewrites(kind) ==> line[..] == was && x <= line.Length + bpp
      invariant line.Length < |prev| && Rewrites(kind) ==> x <= line.Length
    {
      if x >= bpp && x - bpp >= line.Length {
        return false;
      }
      var a: Byte := if x >= bpp then line[x - bpp] else 0;
      var b: Byte := prev[x];
      var c: Byte := if x >= bpp then prev[x - bpp] else 0;
      if Rewrites(kind) && x >= line.Length {
        return false;
      }
      ghost var before := line[..];
      if x < line.Length {
        Refill(line, x, kind, a, b, c);
        if line.Length == |prev| {
          UndoneNext(before, was, kind, prev, bpp, x);
        }
      }
    }
    ok := true;
    if line.Length == |prev| {
      forall x | 0 <= x < |prev|
        ensures Stores(kind, was[x], line[x], Back(line[..], bpp, x), prev[x], Back(prev, bpp, x))
      {
        FilteredByte(kind, line[..], prev, bpp, x);
      }
    }
  }

  lemma Undo(v: Byte, p: Byte)
    ensures ((v + p) % 256 - p) % 256 == v
  {
  }

  // ----- whole images

  /** The stream of an image: each row behind the byte that names its filter. */
  function EncodeRows(rows: seq<seq<Byte>>, kinds: seq<Byte>, prev: seq<Byte>, bpp: nat): (s: seq<Byte>)
    requires |kinds| == |rows| && bpp > 0 && forall k | 0 <= k < |rows| :: |rows[k]| == |prev|
  {
    if rows == [] then []
    else [kinds[0]] + FilterRow(kinds[0], rows[0], prev, bpp) + EncodeRows(rows[1..], kinds[1..], rows[0], bpp)
  }

  /** Where row `y` starts, its filter byte included: the size of the rows before it. */
  function RowAt(y: nat, stride: nat): (at: nat) {
    if y == 0 then 0 else RowAt(y - 1, stride) + 1 + stride
  }

  lemma {:induction false} RowAtGrows(y: nat, z: nat, stride: nat)
    requires y < z
    ensures RowAt(y + 1, stride) <= RowAt(z, stride)
  {
    if y + 1 < z {
      RowAtGrows(y, z - 1, stride);
    }
  }

  /** The one kind of stream that is too short and read all the same: only the last
      row is cut, and the byte loop gets through what is left of it. */
  predicate ShortButRead(raw: seq<Byte>, height: nat, stride: nat, bpp: nat) {
    && height > 0 && RowAt(height - 1, stride) < |raw| < RowAt(height, stride)
    && GetsThrough(raw[RowAt(height - 1, stride)], RowAt(height, stride) - |raw|, bpp)
  }

  /** The rows of a stream that holds them all. */
  ghost predicate Holds(raw: seq<Byte>, rows: seq<seq<Byte>>, kinds: seq<Byte>, height: nat, stride: nat, bpp: nat)
    requires bpp > 0
  {
    && |rows| == |kinds| == height && (forall k | 0 <= k < height :: |rows[k]| == stride)
    && EncodeRows(rows, kinds, Zeros(stride), bpp) <= raw
  }

  /** The row loop, slices past the end of the stream included; `None` is an
      IndexError. It reads every stream that is long enough and, short by up to one
      pixel in an unfiltered last row, some that are not: then the image is short. */
  method ReadRows(raw: seq<Byte>, height: nat, stride: nat, bpp: nat)
    returns (r: Option<seq<seq<Byte>>>, ghost kinds: seq<Byte>)
    requires bpp > 0
    ensures r.Some? <==> |raw| >= RowAt(height, stride) || ShortButRead(raw, height, stride, bpp)
    ensures |raw| >= RowAt(height, stride) ==> r.Some? && Holds(raw, r.value, kinds, height, stride, bpp)
    ensures ShortButRead(raw, height, stride, bpp) ==>
              && |r.value| == height && r.value[height - 1] == raw[RowAt(height - 1, stride) + 1..]
              && Holds(raw, r.value[..height - 1], kinds, height - 1, stride, bpp)
  {
    var rows: seq<seq<Byte>>, prev: seq<Byte>, pos := [], Zeros(stride), 0;
    kinds := [];
    for y := 0 to height
      invariant pos == RowAt(y, stride) <= |raw|
      invariant ReadSoFar(raw[..pos], rows, kinds, y, prev, stride, bpp)
    {
      RowAtGrows(y, height, stride);
      if pos >= |raw| {
        TooShort(|raw|, y, height, stride);
        return None, kinds;
      }
      var kind := raw[pos];
      pos := pos + 1;
      var row := ReadRow(raw[pos..if pos + stride < |raw| then pos + stride else |raw|], prev, bpp, kind);
      if pos + stride > |raw| {
        TooShort(|raw|, y, height, stride);
        if row.None? || y + 1 < height { // with rows to come, their filter byte is missing
          return None, kinds;
        }
        assert (rows + [row.value])[..height - 1] == rows;
        return Some(rows + [row.value]), kinds;
      }
      RowRead(raw, pos - 1, rows, kinds, y, prev, kind, row.value, stride, bpp);
      rows, kinds, prev, pos := rows + [row.value], kinds + [kind], row.value, pos + stride;
    }
    r := Some(rows);
  }

  /** The first `y` rows, which `front` encodes; `prev` is the last of them. */
  ghost predicate ReadSoFar(front: seq<Byte>, rows: seq<seq<Byte>>, kinds: seq<Byte>, y: nat, prev: seq<Byte>,
      stride: nat, bpp: nat)
    requires bpp > 0
  {
    && |rows| == |kinds| == y && (forall k | 0 <= k < y :: |rows[k]| == stride)
    && EncodeRows(rows, kinds, Zeros(stride), bpp) == front
    && prev == (if y == 0 then Zeros(stride) else rows[y - 1])
  }

  lemma RowRead(raw: seq<Byte>, at: nat, rows: seq<seq<Byte>>, kinds: seq<Byte>, y: nat, prev: seq<Byte>, kind: Byte,
      row: seq<Byte>, stride: nat, bpp: nat)
    requires bpp > 0 && at + 1 + stride <= |raw| && raw[at] == kind && |row| == stride
    requires ReadSoFar(raw[..at], rows, kinds, y, prev, stride, bpp)
    requires FilterRow(kind, row, prev, bpp) == raw[at + 1..at + 1 + stride]
    ensures ReadSoFar(raw[..at + 1 + stride], rows + [row], kinds + [kind], y + 1, row, stride, bpp)
  {
    EncodeSnoc(rows, kinds, row, kind, Zeros(stride), bpp);
    assert raw[..at + 1 + stride] == raw[..at] + ([kind] + raw[at + 1..at + 1 + stride]);
  }

  /** A stream that ends in row `y`, or in front of it, reaches the last row only if
      that is this one. */
  lemma TooShort(size: nat, y: nat, height: nat, stride: nat)
    requires y < height && RowAt(y, stride) <= size < RowAt(y + 1, stride)
    ensures size < RowAt(height, stride)
    ensures y < height - 1 ==> size < RowAt(height - 1, stride)
  {
    RowAtGrows(y, height, stride);
    if y < height - 1 {
      RowAtGrows(y, height - 1, stride);
    }
  }

  /** One pixel of four bytes, and a stream of nothing but its filter byte: read, as a
      row of no bytes. */
  lemma EmptyRowIsRead()
    ensures var raw: seq<Byte> := [0]; |raw| < RowAt(1, 4) && ShortButRead(raw, 1, 4, 4)
  {
    assert RowAt(0, 4) == 0 && RowAt(1, 4) == 5;
  }

  method ReadRow(bytes: seq<Byte>, prev: seq<Byte>, bpp: nat, kind: Byte) returns (row: Option<seq<Byte>>)
    requires |bytes| <= |prev| && bpp > 0
    ensures row.Some? <==> GetsThrough(kind, |prev| - |bytes|, bpp)
    ensures |bytes| == |prev| ==> row.Some? && |row.value| == |prev| && FilterRow(kind, row.value, prev, bpp) == bytes
    ensures row.Some? && |bytes| < |prev| ==> row.value == bytes
  {
    var line := new Byte[|bytes|](i requires 0 <= i < |bytes| => bytes[i]);
    assert line[..] == bytes;
    var ok := UnfilterRow(line, prev, bpp, kind);
    row := if ok then Some(line[..]) else None;
  }

  lemma {:induction false} EncodeSnoc(rows: seq<seq<Byte>>, kinds: seq<Byte>, row: seq<Byte>, kind: Byte,
      prev: seq<Byte>, bpp: nat)
    requires |kinds| == |rows| && bpp > 0 && |row| == |prev| && forall k | 0 <= k < |rows| :: |rows[k]| == |prev|
    ensures EncodeRows(rows + [row], kinds + [kind], prev, bpp)
         == EncodeRows(rows, kinds, prev, bpp)
            + ([kind] + FilterRow(kind, row, if rows == [] then prev else rows[|rows| - 1], bpp))
  {
    if rows == [] {
      assert [row][1..] == [] && [kind][1..] == [];
    } else {
      assert (rows + [row])[1..] == rows[1..] + [row] && (kinds + [kind])[1..] == kinds[1..] + [kind];
      EncodeSnoc(rows[1..], kinds[1..], row, kind, rows[0], bpp);
    }
  }

  /** One stream, one image. */
  lemma {:induction false} EncodeInjective(rows: seq<seq<Byte>>, kinds: seq<Byte>, rows': seq<seq<Byte>>,
      kinds': seq<Byte>, prev: seq<Byte>, bpp: nat, raw: seq<Byte>)
    requires |kinds| == |rows| == |kinds'| == |rows'| && bpp > 0
    requires forall k | 0 <= k < |rows| :: |rows[k]| == |prev| == |rows'[k]|
    requires EncodeRows(rows, kinds, prev, bpp) <= raw && EncodeRows(rows', kinds', prev, bpp) <= raw
    ensures rows == rows' && kinds == kinds'
    decreases |rows|
  {
    if rows != [] {
      var s, s' := FilterRow(kinds[0], rows[0], prev, bpp), FilterRow(kinds'[0], rows'[0], prev, bpp);
      var t, t' := EncodeRows(rows[1..], kinds[1..], rows[0], bpp), EncodeRows(rows'[1..], kinds'[1..], rows'[0], bpp);
      assert raw[0] == kinds[0] == kinds'[0];
      HeadOf(kinds[0], s, t, raw);
      HeadOf(kinds'[0], s', t', raw);
      FilterInjective(kinds[0], rows[0], rows'[0], prev, bpp);
      EncodeInjective(rows[1..], kinds[1..], rows'[1..], kinds'[1..], rows[0], bpp, raw[1 + |s|..]);
      assert rows == [rows[0]] + rows[1..] && rows' == [rows'[0]] + rows'[1..];
      assert kinds == [kinds[0]] + kinds[1..] && kinds' == [kinds'[0]] + kinds'[1..];
    }
  }

  lemma HeadOf(k: Byte, s: seq<Byte>, t: seq<Byte>, raw: seq<Byte>)
    requires [k] + s + t <= raw
    ensures raw[1..1 + |s|] == s && t <= raw[1 + |s|..]
  {
  }

  /** For every image and every choice of filters, reading the encoded stream (and
      whatever may follow it) gives the image back. */
  method ReadImage(ghost rows: seq<seq<Byte>>, ghost kinds: seq<Byte>, raw: seq<Byte>, height: nat, stride: nat,
      bpp: nat) returns (out: seq<Byte>)
    requires |kinds| == |rows| == height && bpp > 0 && forall k | 0 <= k < height :: |rows[k]| == stride
    requires EncodeRows(rows, kinds, Zeros(stride), bpp) <= raw
    ensures out == Flatten(rows)
  {
    var r, ks := ReadRows(raw, height, stride, bpp);
    EncodedLength(rows, kinds, Zeros(stride), bpp);
    assert r.Some?;
    EncodeInjective(rows, kinds, r.value, ks, Zeros(stride), bpp, raw);
    out := [];
    for y := 0 to |r.value|
      invariant out == Flatten(r.value[..y])
    {
      FlattenStep(r.value, y);
      out := out + r.value[y];
    }
    assert r.value[..|r.value|] == r.value;
  }

  lemma {:induction false} EncodedLength(rows: seq<seq<Byte>>, kinds: seq<Byte>, prev: seq<Byte>, bpp: nat)
    requires |kinds| == |rows| && bpp > 0 && forall k | 0 <= k < |rows| :: |rows[k]| == |prev|
    ensures |EncodeRows(rows, kinds, prev, bpp)| == RowAt(|rows|, |prev|)
  {
    if rows != [] {
      EncodedLength(rows[1..], kinds[1..], rows[0], bpp);
    }
  }
}
