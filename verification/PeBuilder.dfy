/** The image builder of packaging/pe-imports.py and its round trip through the
    reader: for every list of names, both header layouts and any directory count. */
module PeBuilder {
  import opened Basics
  import opened Bytes
  import opened PeReader

  const SEC_VA: nat := 0x1000
  const SEC_RAW: nat := 0x400
  const PE_OFF: nat := 0x80

  // ----- fields written into a blank header

  /** Some bytes at an offset. */
  datatype Field = Field(off: nat, bytes: seq<Byte>) {
    function End(): nat { off + |bytes| }
  }

  function Put(s: seq<Byte>, f: Field): (r: seq<Byte>)
    requires f.End() <= |s|
    ensures |r| == |s|
  {
    s[..f.off] + f.bytes + s[f.End()..]
  }

  /** In bounds, in ascending order, not overlapping. */
  predicate Laid(fields: seq<Field>, size: nat) {
    && (forall k | 0 <= k < |fields| :: fields[k].End() <= size)
    && (forall k | 0 < k < |fields| :: fields[k - 1].End() <= fields[k].off)
  }

  lemma {:induction false} LaidApart(fields: seq<Field>, size: nat, j: nat, k: nat)
    requires Laid(fields, size) && j < k < |fields|
    ensures fields[j].End() <= fields[k].off
  {
    if j < k - 1 {
      LaidApart(fields, size, j, k - 1);
    }
  }

  function PutAll(s: seq<Byte>, fields: seq<Field>): (r: seq<Byte>)
    requires Laid(fields, |s|)
    ensures |r| == |s|
  {
    if fields == [] then s else Put(PutAll(s, fields[..|fields| - 1]), fields[|fields| - 1])
  }

  lemma PutOther(s: seq<Byte>, f: Field, lo: nat, hi: nat)
    requires f.End() <= |s| && lo <= hi <= |s| && hi <= f.off
    ensures Put(s, f)[lo..hi] == s[lo..hi]
  {
  }

  lemma {:induction false} FieldReads(s: seq<Byte>, fields: seq<Field>, k: nat)
    requires Laid(fields, |s|) && k < |fields|
    ensures PutAll(s, fields)[fields[k].off..fields[k].End()] == fields[k].bytes
  {
    var init, last := fields[..|fields| - 1], fields[|fields| - 1];
    if k < |init| {
      FieldReads(s, init, k);
      LaidApart(fields, |s|, k, |init|);
      PutOther(PutAll(s, init), last, fields[k].off, fields[k].End());
    }
  }

  // ----- the blob

  predicate AsciiName(s: string) {
    forall i | 0 <= i < |s| :: 0 < s[i] as int < 128
  }

  predicate AsciiNames(names: seq<string>) {
    forall k | 0 <= k < |names| :: AsciiName(names[k])
  }

  function Encode(s: string): (b: seq<Byte>)
    requires AsciiName(s)
    ensures |b| == |s|
  {
    seq(|s|, i requires 0 <= i < |s| => s[i] as int)
  }

  /** The names, each with its NUL. */
  function NameBytes(names: seq<string>): (b: seq<Byte>)
    requires AsciiNames(names)
  {
    if names == [] then [] else Encode(names[0]) + [0] + NameBytes(names[1..])
  }

  /** Where name `i` starts in the blob, after the descriptor table. */
  function Cursor(names: seq<string>, i: nat): nat
    requires i <= |names| && AsciiNames(names)
  {
    20 * (|names| + 1) + |NameBytes(names[..i])|
  }

  function Descriptor(rva: nat): (d: seq<Byte>)
    ensures |d| == 20
  {
    Zeros(12) + LeBytes(rva, 4) + Zeros(4)
  }

  /** The descriptors from the i-th on. */
  function DescriptorTable(names: seq<string>, i: nat): (b: seq<Byte>)
    requires i <= |names| && AsciiNames(names)
    ensures |b| == 20 * (|names| - i)
    decreases |names| - i
  {
    if i == |names| then [] else Descriptor(SEC_VA + Cursor(names, i)) + DescriptorTable(names, i + 1)
  }

  function Blob(names: seq<string>): (b: seq<Byte>)
    requires AsciiNames(names)
  {
    DescriptorTable(names, 0) + Zeros(20) + NameBytes(names)
  }

  // ----- the image

  function OptSize(magic: nat): nat { if magic == 0x20B then 240 else 224 }

  const COFF: nat := PE_OFF + 4
  const OPT: nat := COFF + 20

  function Dirs(magic: nat): nat { OPT + if magic == 0x20B then 112 else 96 }

  function SecOff(magic: nat): nat { OPT + OptSize(magic) }

  function HeaderFields(magic: nat, nDirs: nat, size: nat): seq<Field> {
    [ Field(0, [0x4D, 0x5A]),
      Field(0x3C, LeBytes(PE_OFF, 4)),
      Field(PE_OFF, [0x50, 0x45, 0, 0]),
      Field(COFF + 2, LeBytes(1, 2)),
      Field(COFF + 16, LeBytes(OptSize(magic), 2)),
      Field(OPT, LeBytes(magic, 2)),
      Field(Dirs(magic) - 4, LeBytes(nDirs, 4)),
      Field(Dirs(magic) + 8, LeBytes(SEC_VA, 4)),
      Field(Dirs(magic) + 12, LeBytes(size, 4)),
      Field(SecOff(magic), [0x2E, 0x72, 0x64, 0x61, 0x74, 0x61, 0, 0]),
      Field(SecOff(magic) + 8, LeBytes(size, 4)),
      Field(SecOff(magic) + 12, LeBytes(SEC_VA, 4)),
      Field(SecOff(magic) + 16, LeBytes(size, 4)),
      Field(SecOff(magic) + 20, LeBytes(SEC_RAW, 4)) ]
  }

  lemma HeaderLaid(magic: nat, nDirs: nat, size: nat)
    ensures Laid(HeaderFields(magic, nDirs, size), SEC_RAW)
  {
    HeaderInside(magic, nDirs, size);
    HeaderApart(magic, nDirs, size);
  }

  lemma HeaderInside(magic: nat, nDirs: nat, size: nat)
    ensures var fields := HeaderFields(magic, nDirs, size);
            forall k | 0 <= k < |fields| :: fields[k].End() <= SEC_RAW
  {
  }

  lemma HeaderApart(magic: nat, nDirs: nat, size: nat)
    ensures var fields := HeaderFields(magic, nDirs, size);
            forall k | 0 < k < |fields| :: fields[k - 1].End() <= fields[k].off
  {
  }

  function Header(magic: nat, nDirs: nat, size: nat): (h: seq<Byte>)
    ensures |h| == SEC_RAW
  {
    HeaderLaid(magic, nDirs, size);
    PutAll(Zeros(SEC_RAW), HeaderFields(magic, nDirs, size))
  }

  /** `to_bytes` raises when a value does not fit its field. */
  predicate FitsFields(names: seq<string>, magic: nat, nDirs: nat)
    requires AsciiNames(names)
  {
    && magic < 0x1_0000 && nDirs < 0x1_0000_0000 && |Blob(names)| < 0x1_0000_0000
    && Addressable(names)
  }

  predicate Addressable(names: seq<string>)
    requires AsciiNames(names)
  {
    forall i | 0 <= i < |names| :: SEC_VA + Cursor(names, i) < 0x1_0000_0000
  }

  function Image(names: seq<string>, magic: nat, nDirs: nat): (pe: seq<Byte>)
    requires AsciiNames(names)
  {
    Header(magic, nDirs, |Blob(names)|) + Blob(names)
  }

  // ----- reading the header back

  lemma FieldAt(fields: seq<Field>, blob: seq<Byte>, k: nat)
    requires Laid(fields, SEC_RAW) && k < |fields|
    ensures var f, head := fields[k], PutAll(Zeros(SEC_RAW), fields);
            f.End() <= SEC_RAW && (head + blob)[f.off..f.End()] == f.bytes
  {
    FieldReads(Zeros(SEC_RAW), fields, k);
    SliceExtends(PutAll(Zeros(SEC_RAW), fields), blob, fields[k].off, fields[k].End());
  }

  /** A number written into the header is the number read back. */
  lemma NumberAt(fields: seq<Field>, blob: seq<Byte>, k: nat, f: Field, v: nat, width: nat)
    requires Laid(fields, SEC_RAW) && k < |fields| && fields[k] == f && f.bytes == LeBytes(v, width)
    requires v < Pow256(width)
    ensures Read(PutAll(Zeros(SEC_RAW), fields) + blob, f.off, width) == Ok(v)
  {
    FieldAt(fields, blob, k);
    LeRoundTrip(v, width);
  }

  lemma CoffNumbers(magic: nat, nDirs: nat, size: nat, blob: seq<Byte>)
    ensures var pe := Header(magic, nDirs, size) + blob;
            U32(pe, 0x3C) == Ok(PE_OFF) && U16(pe, COFF + 2) == Ok(1) && U16(pe, COFF + 16) == Ok(OptSize(magic))
  {
    var fields := HeaderFields(magic, nDirs, size);
    HeaderLaid(magic, nDirs, size);
    Pow256Values();
    NumberAt(fields, blob, 1, Field(0x3C, LeBytes(PE_OFF, 4)), PE_OFF, 4);
    NumberAt(fields, blob, 3, Field(COFF + 2, LeBytes(1, 2)), 1, 2);
    NumberAt(fields, blob, 4, Field(COFF + 16, LeBytes(OptSize(magic), 2)), OptSize(magic), 2);
  }

  lemma OptNumbers(magic: nat, nDirs: nat, size: nat, blob: seq<Byte>)
    requires magic < 0x1_0000 && nDirs < 0x1_0000_0000
    ensures var pe := Header(magic, nDirs, size) + blob;
            U16(pe, OPT) == Ok(magic) && U32(pe, Dirs(magic) - 4) == Ok(nDirs) && U32(pe, Dirs(magic) + 8) == Ok(SEC_VA)
  {
    var fields := HeaderFields(magic, nDirs, size);
    HeaderLaid(magic, nDirs, size);
    Pow256Values();
    NumberAt(fields, blob, 5, Field(OPT, LeBytes(magic, 2)), magic, 2);
    NumberAt(fields, blob, 6, Field(Dirs(magic) - 4, LeBytes(nDirs, 4)), nDirs, 4);
    NumberAt(fields, blob, 7, Field(Dirs(magic) + 8, LeBytes(SEC_VA, 4)), SEC_VA, 4);
  }

  lemma SectionNumbers(magic: nat, nDirs: nat, size: nat, blob: seq<Byte>)
    requires size < 0x1_0000_0000
    ensures ReadSections(Header(magic, nDirs, size) + blob, SecOff(magic), 1) == Ok([Section(SEC_VA, size, SEC_RAW, size)])
  {
    var fields, at := HeaderFields(magic, nDirs, size), SecOff(magic);
    HeaderLaid(magic, nDirs, size);
    Pow256Values();
    NumberAt(fields, blob, 10, Field(at + 8, LeBytes(size, 4)), size, 4);
    NumberAt(fields, blob, 11, Field(at + 12, LeBytes(SEC_VA, 4)), SEC_VA, 4);
    NumberAt(fields, blob, 12, Field(at + 16, LeBytes(size, 4)), size, 4);
    NumberAt(fields, blob, 13, Field(at + 20, LeBytes(SEC_RAW, 4)), SEC_RAW, 4);
    OneSection(Header(magic, nDirs, size) + blob, at, Section(SEC_VA, size, SEC_RAW, size));
  }

  lemma OneSection(pe: seq<Byte>, at: nat, section: Section)
    requires ReadSection(pe, at) == Ok(section)
    ensures ReadSections(pe, at, 1) == Ok([section])
  {
    assert ReadSections(pe, at + 40, 0) == Ok([]);
    assert [section] + [] == [section];
  }

  lemma Signatures(magic: nat, nDirs: nat, size: nat, blob: seq<Byte>)
    ensures var pe := Header(magic, nDirs, size) + blob;
            |pe| >= 64 && pe[..2] == [0x4D, 0x5A] && HasSignature(pe, PE_OFF)
  {
    HeaderLaid(magic, nDirs, size);
    FieldAt(HeaderFields(magic, nDirs, size), blob, 0);
    FieldAt(HeaderFields(magic, nDirs, size), blob, 2);
  }

  /** Where everything is in the file: one section at address 4096 whose bytes start at 1024,
      the headers at 128, and the section header behind an optional header of 240 bytes, or of
      224 in the 32-bit format. */
  lemma HeaderLayout(names: seq<string>, magic: nat, nDirs: nat)
    requires AsciiNames(names) && FitsFields(names, magic, nDirs)
    ensures var pe, size := Image(names, magic, nDirs), |Blob(names)|;
            var dirs, sec := if magic == 0x20B then 264 else 248, if magic == 0x20B then 392 else 376;
            && |pe| == 1024 + size
            && U32(pe, 60) == Ok(128) && U16(pe, 134) == Ok(1) && U16(pe, 148) == Ok(sec - 152)
            && U16(pe, 152) == Ok(magic) && U32(pe, dirs - 4) == Ok(nDirs) && U32(pe, dirs + 8) == Ok(4096)
            && ReadSections(pe, sec, 1) == Ok([Section(4096, size, 1024, size)])
  {
    var blob := Blob(names);
    CoffNumbers(magic, nDirs, |blob|, blob);
    OptNumbers(magic, nDirs, |blob|, blob);
    SectionNumbers(magic, nDirs, |blob|, blob);
  }

  lemma SizeInDirectory(names: seq<string>, magic: nat, nDirs: nat)
    requires AsciiNames(names) && FitsFields(names, magic, nDirs)
    ensures U32(Image(names, magic, nDirs), if magic == 0x20B then 276 else 260) == Ok(|Blob(names)|)
  {
    var size := |Blob(names)|;
    var fields := HeaderFields(magic, nDirs, size);
    HeaderLaid(magic, nDirs, size);
    Pow256Values();
    NumberAt(fields, Blob(names), 8, Field(Dirs(magic) + 12, LeBytes(size, 4)), size, 4);
  }

  lemma SectionName(names: seq<string>, magic: nat, nDirs: nat)
    requires AsciiNames(names)
    ensures var sec := if magic == 0x20B then 392 else 376;
            Text(Image(names, magic, nDirs)[sec..sec + 8]) == ".rdata\0\0"
  {
    var size := |Blob(names)|;
    HeaderLaid(magic, nDirs, size);
    NameSpells();
    FieldAt(HeaderFields(magic, nDirs, size), Blob(names), 9);
  }

  lemma NameSpells()
    ensures Text([0x2E, 0x72, 0x64, 0x61, 0x74, 0x61, 0, 0]) == ".rdata\0\0"
  {
  }

  // ----- reading the descriptors back

  lemma {:induction false} NamesSplit(names: seq<string>, i: nat)
    requires AsciiNames(names) && i <= |names|
    ensures NameBytes(names) == NameBytes(names[..i]) + NameBytes(names[i..])
  {
    if i == 0 {
      assert names[..0] == [] && names[0..] == names;
    } else {
      var front, back := names[1..][..i - 1], names[i..];
      NamesSplit(names[1..], i - 1);
      assert names[1..][i - 1..] == back;
      assert names[..i] == [names[0]] + front;
      NamesCons(names[0], front);
      NamesCons(names[0], names[1..]);
      assert names == [names[0]] + names[1..];
      Regroup(Encode(names[0]) + [0], NameBytes(front), NameBytes(back));
    }
  }

  lemma NamesCons(first: string, rest: seq<string>)
    requires AsciiNames([first] + rest)
    ensures AsciiName(first) && AsciiNames(rest)
    ensures NameBytes([first] + rest) == Encode(first) + [0] + NameBytes(rest)
  {
    var names := [first] + rest;
    assert names[0] == first && names[1..] == rest;
    forall k | 0 <= k < |rest| ensures AsciiName(rest[k]) {
      assert rest[k] == names[k + 1];
    }
  }

  /** The blob around name `i`. */
  lemma NameInBlob(names: seq<string>, i: nat)
    requires AsciiNames(names) && i < |names|
    ensures Cursor(names, i) + |names[i]| < |Blob(names)|
    ensures Blob(names)[Cursor(names, i)..Cursor(names, i) + |names[i]|] == Encode(names[i])
    ensures Blob(names)[Cursor(names, i) + |names[i]|] == 0
  {
    NamesSplit(names, i);
    var table, before := DescriptorTable(names, 0) + Zeros(20), NameBytes(names[..i]);
    var name, after := Encode(names[i]), NameBytes(names[i..][1..]);
    assert names[i..][0] == names[i];
    assert NameBytes(names) == before + (name + [0] + after);
    Placed(table, before, name, after);
  }

  lemma Placed(table: seq<Byte>, before: seq<Byte>, name: seq<Byte>, after: seq<Byte>)
    ensures var b, at := table + (before + (name + [0] + after)), |table| + |before|;
            at + |name| < |b| && b[at..at + |name|] == name && b[at + |name|] == 0
  {
    assert table + (before + (name + [0] + after)) == (table + before) + name + ([0] + after);
  }

  lemma {:induction false} TableSplit(names: seq<string>, i: nat, k: nat)
    requires AsciiNames(names) && i <= k < |names|
    ensures DescriptorTable(names, i)[20 * (k - i)..20 * (k - i) + 20] == Descriptor(SEC_VA + Cursor(names, k))
    decreases k - i
  {
    if i < k {
      TableSplit(names, i + 1, k);
      DropFront(Descriptor(SEC_VA + Cursor(names, i)), DescriptorTable(names, i + 1), 20 * (k - i - 1),
                20 * (k - i - 1) + 20);
    }
  }

  lemma DropFront(a: seq<Byte>, b: seq<Byte>, lo: nat, hi: nat)
    requires lo <= hi <= |b|
    ensures (a + b)[|a| + lo..|a| + hi] == b[lo..hi]
  {
  }

  lemma {:induction false} NulAfter(data: seq<Byte>, off: nat, len: nat)
    requires off + len < |data| && data[off + len] == 0
    requires forall k | off <= k < off + len :: data[k] != 0
    ensures FindNul(data, off) == Some(off + len)
    decreases len
  {
    if len > 0 {
      NulAfter(data, off + 1, len - 1);
    }
  }

  lemma DecodeEncode(s: string)
    requires AsciiName(s)
    ensures DecodeAscii(Encode(s)) == s
  {
  }

  /** One section that holds the whole blob. */
  function TheSection(size: nat): seq<Section> {
    [Section(SEC_VA, size, SEC_RAW, size)]
  }

  lemma NameReads(head: seq<Byte>, names: seq<string>, i: nat)
    requires |head| == SEC_RAW && AsciiNames(names) && i < |names|
    ensures Asciiz(head + Blob(names), SEC_RAW + Cursor(names, i)) == Ok(names[i])
    ensures Cursor(names, i) < |Blob(names)|
  {
    NameInBlob(names, i);
    var pe, blob, at, len := head + Blob(names), Blob(names), Cursor(names, i), |names[i]|;
    DropFront(head, blob, at, at + len);
    assert pe[SEC_RAW + at..SEC_RAW + at + len] == Encode(names[i]);
    forall k | SEC_RAW + at <= k < SEC_RAW + at + len ensures pe[k] != 0 {
      assert pe[k] == pe[SEC_RAW + at..SEC_RAW + at + len][k - SEC_RAW - at] == Encode(names[i])[k - SEC_RAW - at];
    }
    assert pe[SEC_RAW + at + len] == 0;
    NulAfter(pe, SEC_RAW + at, len);
    DecodeEncode(names[i]);
  }

  lemma DescriptorBytes(head: seq<Byte>, names: seq<string>, i: nat)
    requires |head| == SEC_RAW && AsciiNames(names) && i < |names|
    ensures var pe, at := head + Blob(names), SEC_RAW + 20 * i;
            at + 20 <= |pe| && pe[at..at + 20] == Descriptor(SEC_VA + Cursor(names, i))
  {
    TableSplit(names, 0, i);
    var table := DescriptorTable(names, 0);
    assert Blob(names) == table + (Zeros(20) + NameBytes(names));
    SliceExtends(table, Zeros(20) + NameBytes(names), 20 * i, 20 * i + 20);
    DropFront(head, Blob(names), 20 * i, 20 * i + 20);
  }

  lemma DescriptorAddress(pe: seq<Byte>, at: nat, rva: nat)
    requires at + 20 <= |pe| && pe[at..at + 20] == Descriptor(rva) && 0 < rva < 0x1_0000_0000
    ensures U32(pe, at + 12) == Ok(rva) && pe[at..at + 20] != Zeros(20)
  {
    SubSlice(pe, at, at + 20, 12, 16);
    assert Descriptor(rva)[12..16] == LeBytes(rva, 4);
    Pow256Values();
    LeRoundTrip(rva, 4);
    NotBlank(rva);
  }

  lemma DescriptorReads(head: seq<Byte>, names: seq<string>, i: nat)
    requires |head| == SEC_RAW && AsciiNames(names) && i < |names| && Addressable(names)
    ensures var pe, at := head + Blob(names), SEC_RAW + 20 * i;
            && at + 20 <= |pe| && pe[at..at + 20] != Zeros(20)
            && DescriptorName(pe, TheSection(|Blob(names)|), at) == Ok([names[i]])
  {
    DescriptorBytes(head, names, i);
    DescriptorAddress(head + Blob(names), SEC_RAW + 20 * i, SEC_VA + Cursor(names, i));
    NameReads(head, names, i);
  }

  lemma NotBlank(rva: nat)
    requires 0 < rva < 0x1_0000_0000
    ensures Descriptor(rva) != Zeros(20)
  {
    Pow256Values();
    LeRoundTrip(rva, 4);
    LeRoundTrip(0, 4);
    assert Descriptor(rva)[12..16] == LeBytes(rva, 4);
    assert Zeros(20)[12..16] == LeBytes(0, 4);
  }

  lemma TerminatorReads(head: seq<Byte>, names: seq<string>)
    requires |head| == SEC_RAW && AsciiNames(names)
    ensures var pe, at := head + Blob(names), SEC_RAW + 20 * |names|;
            at + 20 <= |pe| && pe[at..at + 20] == Zeros(20)
  {
    DropFront(head, Blob(names), 20 * |names|, 20 * |names| + 20);
    assert Blob(names)[20 * |names|..20 * |names| + 20] == Zeros(20);
  }

  lemma TableStep(head: seq<Byte>, names: seq<string>, i: nat, left: nat)
    requires |head| == SEC_RAW && AsciiNames(names) && i < |names| && Addressable(names) && left > 0
    ensures TableFrom(head, names, i, left) == Prepend([names[i]], TableFrom(head, names, i + 1, left - 1))
  {
    DescriptorReads(head, names, i);
  }

  function TableFrom(head: seq<Byte>, names: seq<string>, i: nat, left: nat): Outcome<seq<string>>
    requires AsciiNames(names)
  {
    Descriptors(head + Blob(names), TheSection(|Blob(names)|), SEC_RAW + 20 * i, left)
  }

  lemma TableEnd(head: seq<Byte>, names: seq<string>, left: nat)
    requires |head| == SEC_RAW && AsciiNames(names) && left > 0
    ensures TableFrom(head, names, |names|, left) == Ok([])
  {
    TerminatorReads(head, names);
  }

  /** What a walk of `left` descriptors from the i-th finds: the remaining names,
      unless the budget runs out before the terminator. */
  function Remaining(names: seq<string>, i: nat, left: nat): Outcome<seq<string>>
    requires i <= |names|
  {
    if left > |names| - i then Ok(names[i..]) else BadPE
  }

  lemma RemainingStep(names: seq<string>, i: nat, left: nat)
    requires i < |names| && left > 0
    ensures Prepend([names[i]], Remaining(names, i + 1, left - 1)) == Remaining(names, i, left)
  {
    assert names[i..] == [names[i]] + names[i + 1..];
  }

  lemma {:induction false} TableReads(head: seq<Byte>, names: seq<string>, i: nat, left: nat)
    requires |head| == SEC_RAW && AsciiNames(names) && i <= |names| && Addressable(names)
    ensures TableFrom(head, names, i, left) == Remaining(names, i, left)
    decreases left
  {
    if left == 0 {
    } else if i == |names| {
      TableEnd(head, names, left);
      assert names[i..] == [];
    } else {
      TableReads(head, names, i + 1, left - 1);
      TableStep(head, names, i, left);
      RemainingStep(names, i, left);
    }
  }

  // ----- the round trip

  /** What the reader makes of a built image, in every case: the names it was built
      from when there are at least two directories and fewer than 4096 names. */
  lemma RoundTrip(names: seq<string>, magic: nat, nDirs: nat)
    requires AsciiNames(names) && FitsFields(names, magic, nDirs)
    ensures ImportedDlls(Image(names, magic, nDirs)) ==
              if magic != 0x20B && magic != 0x10B then BadPE
              else if nDirs < 2 then Ok([])
              else if |names| < 4096 then Ok(names)
              else BadPE
  {
    HeadReads(names, magic, nDirs);
    if magic == 0x20B || magic == 0x10B {
      ImportsRead(names, magic, nDirs);
    }
  }

  lemma HeadReads(names: seq<string>, magic: nat, nDirs: nat)
    requires AsciiNames(names) && FitsFields(names, magic, nDirs)
    ensures ImportedDlls(Image(names, magic, nDirs)) == ImportsAt(Image(names, magic, nDirs), COFF)
    ensures ReadHeader(Image(names, magic, nDirs), COFF) ==
              if magic == 0x20B || magic == 0x10B then Ok(Head(Dirs(magic), SecOff(magic), 1)) else BadPE
  {
    var blob := Blob(names);
    Signatures(magic, nDirs, |blob|, blob);
    CoffNumbers(magic, nDirs, |blob|, blob);
    OptNumbers(magic, nDirs, |blob|, blob);
  }

  lemma ImportsRead(names: seq<string>, magic: nat, nDirs: nat)
    requires AsciiNames(names) && FitsFields(names, magic, nDirs)
    ensures ImportsListed(Image(names, magic, nDirs), Dirs(magic), SecOff(magic), 1) ==
              if nDirs < 2 then Ok([]) else if |names| < 4096 then Ok(names) else BadPE
  {
    var blob := Blob(names);
    OptNumbers(magic, nDirs, |blob|, blob);
    SectionNumbers(magic, nDirs, |blob|, blob);
    TableReads(Header(magic, nDirs, |blob|), names, 0, MAX_DESCRIPTORS);
    assert names[0..] == names;
    assert ToOff(TheSection(|blob|), SEC_VA) == Ok(SEC_RAW);
  }

  // ----- the builder's loops

  /** One slice assignment into the header. */
  method Write(hdr: array<Byte>, f: Field)
    requires f.End() <= hdr.Length
    modifies hdr
    ensures hdr[..] == Put(old(hdr[..]), f)
  {
    ghost var was := hdr[..];
    assert was == was[..f.off] + f.bytes[..0] + was[f.off..];
    for k := 0 to |f.bytes|
      invariant hdr[..] == was[..f.off] + f.bytes[..k] + was[f.off + k..]
    {
      ghost var before := hdr[..];
      hdr[f.off + k] := f.bytes[k];
      assert hdr[..] == before[f.off + k := f.bytes[k]];
      WriteOne(was, f, k);
    }
    assert f.bytes[..|f.bytes|] == f.bytes;
  }

  lemma WriteOne(was: seq<Byte>, f: Field, k: nat)
    requires f.End() <= |was| && k < |f.bytes|
    ensures (was[..f.off] + f.bytes[..k] + was[f.off + k..])[f.off + k := f.bytes[k]]
         == was[..f.off] + f.bytes[..k + 1] + was[f.off + k + 1..]
  {
  }

  /** The slice assignments of the header, in the order the fields are listed. */
  method BuildHeader(magic: nat, nDirs: nat, size: nat) returns (h: seq<Byte>)
    ensures h == Header(magic, nDirs, size)
  {
    var hdr := new Byte[SEC_RAW](_ => 0);
    var fields := HeaderFields(magic, nDirs, size);
    HeaderLaid(magic, nDirs, size);
    assert hdr[..] == Zeros(SEC_RAW);
    for k := 0 to |fields|
      invariant Laid(fields[..k], SEC_RAW)
      invariant hdr[..] == PutAll(Zeros(SEC_RAW), fields[..k])
    {
      Write(hdr, fields[k]);
      assert fields[..k + 1][..k] == fields[..k];
    }
    assert fields[..|fields|] == fields;
    h := hdr[..];
  }

  lemma NameBytesSnoc(names: seq<string>, i: nat)
    requires AsciiNames(names) && i < |names|
    ensures NameBytes(names[..i + 1]) == NameBytes(names[..i]) + (Encode(names[i]) + [0])
  {
    NamesSplit(names[..i + 1], i);
    assert names[..i + 1][..i] == names[..i] && names[..i + 1][i..] == [names[i]];
    assert [names[i]][1..] == [];
    assert Encode(names[i]) + [0] + [] == Encode(names[i]) + [0];
  }

  /** The addresses of the names, laid out one after the other past the table. */
  method NameAddresses(names: seq<string>) returns (rvas: seq<nat>)
    requires AsciiNames(names)
    ensures |rvas| == |names| && forall i | 0 <= i < |names| :: rvas[i] == SEC_VA + Cursor(names, i)
  {
    var cursor := (|names| + 1) * 20;
    rvas := [];
    for i := 0 to |names|
      invariant cursor == Cursor(names, i) && |rvas| == i
      invariant forall k | 0 <= k < i :: rvas[k] == SEC_VA + Cursor(names, k)
    {
      rvas := rvas + [SEC_VA + cursor];
      NameBytesSnoc(names, i);
      cursor := cursor + |names[i]| + 1;
    }
  }

  lemma TableNext(names: seq<string>, i: nat, rva: nat)
    requires AsciiNames(names) && i < |names| && rva == SEC_VA + Cursor(names, i)
    ensures DescriptorTable(names, i) == Descriptor(rva) + DescriptorTable(names, i + 1)
  {
  }

  method BuildTable(names: seq<string>) returns (table: seq<Byte>)
    requires AsciiNames(names)
    ensures table == DescriptorTable(names, 0)
  {
    var rvas := NameAddresses(names);
    table := [];
    ghost var goal := DescriptorTable(names, 0);
    for i := 0 to |names|
      invariant table + DescriptorTable(names, i) == goal
    {
      TableNext(names, i, rvas[i]);
      Regroup(table, Descriptor(rvas[i]), DescriptorTable(names, i + 1));
      table := table + Descriptor(rvas[i]);
    }
  }

  method BuildBlob(names: seq<string>) returns (blob: seq<Byte>)
    requires AsciiNames(names)
    ensures blob == Blob(names)
  {
    var table := BuildTable(names);
    blob := table + Zeros(20);
    ghost var front := blob;
    assert front + NameBytes(names[..0]) == front;
    for i := 0 to |names|
      invariant blob == front + NameBytes(names[..i])
    {
      NameBytesSnoc(names, i);
      Regroup(front, NameBytes(names[..i]), Encode(names[i]) + [0]);
      blob := blob + (Encode(names[i]) + [0]);
    }
    assert names[..|names|] == names;
  }

  /** `_build_pe`; a value too wide for its field is an OverflowError. */
  method BuildPe(names: seq<string>, magic: nat, nDirs: nat) returns (pe: Option<seq<Byte>>)
    requires AsciiNames(names)
    ensures pe.Some? <==> FitsFields(names, magic, nDirs)
    ensures pe.Some? ==> pe.value == Image(names, magic, nDirs)
  {
    var rvas := NameAddresses(names);
    var blob := BuildBlob(names);
    if magic >= 0x1_0000 || nDirs >= 0x1_0000_0000 || |blob| >= 0x1_0000_0000 {
      return None;
    }
    for i := 0 to |rvas|
      invariant forall k | 0 <= k < i :: SEC_VA + Cursor(names, k) < 0x1_0000_0000
    {
      if rvas[i] >= 0x1_0000_0000 {
        return None;
      }
    }
    var head := BuildHeader(magic, nDirs, |blob|);
    pe := Some(head + blob);
  }
}
