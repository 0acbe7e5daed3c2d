/** The import-table reader of packaging/pe-imports.py: offset arithmetic over an
    untrusted file, with three outcomes and no silent one. */
module PeReader {
  import opened Basics
  import opened Bytes

  datatype Outcome<+T> = Ok(value: T) | NotPE | BadPE {
    predicate IsFailure() { !Ok? }
    function PropagateFailure<U>(): Outcome<U>
      requires IsFailure()
    {
      if NotPE? then NotPE else BadPE
    }
    function Extract(): T
      requires Ok?
    {
      value
    }
  }

  /** A section: where it is in memory, and where its bytes are in the file. */
  datatype Section = Section(va: nat, vsize: nat, rawPtr: nat, rawSize: nat)

  const MAX_DESCRIPTORS: nat := 4096

  function Read(b: seq<Byte>, off: nat, width: nat): (r: Outcome<nat>) {
    if off + width > |b| then BadPE else Ok(LeValue(b[off..off + width]))
  }

  function U16(b: seq<Byte>, off: nat): Outcome<nat> { Read(b, off, 2) }

  function U32(b: seq<Byte>, off: nat): Outcome<nat> { Read(b, off, 4) }

  function ReadSection(data: seq<Byte>, s: nat): (r: Outcome<Section>) {
    if s + 40 > |data| then BadPE
    else
      var va :- U32(data, s + 12);
      var vsize :- U32(data, s + 8);
      var rawSize :- U32(data, s + 16);
      var rawPtr :- U32(data, s + 20);
      Ok(Section(va, Max(vsize, rawSize), rawPtr, rawSize))
  }

  /** The first `n` section headers, starting at `at`. */
  function ReadSections(data: seq<Byte>, at: nat, n: nat): (r: Outcome<seq<Section>>)
    decreases n
  {
    if n == 0 then Ok([])
    else
      var first :- ReadSection(data, at);
      var rest :- ReadSections(data, at + 40, n - 1);
      Ok([first] + rest)
  }

  /** An address to a file offset: the first section that covers it decides. */
  function ToOff(sections: seq<Section>, rva: nat): (r: Outcome<nat>) {
    if sections == [] then BadPE
    else
      var s := sections[0];
      if s.va <= rva < s.va + s.vsize then
        if rva - s.va >= s.rawSize then BadPE else Ok(s.rawPtr + (rva - s.va))
      else ToOff(sections[1..], rva)
  }

  /** Section `k` covers the address, and no earlier one does. */
  predicate FirstCovering(sections: seq<Section>, rva: nat, k: nat) {
    && k < |sections| && sections[k].va <= rva < sections[k].va + sections[k].vsize
    && forall j | 0 <= j < k :: !(sections[j].va <= rva < sections[j].va + sections[j].vsize)
  }

  lemma {:induction false} ToOffAt(sections: seq<Section>, rva: nat, k: nat)
    requires FirstCovering(sections, rva, k)
    ensures var s := sections[k];
            ToOff(sections, rva) == if rva - s.va < s.rawSize then Ok(s.rawPtr + (rva - s.va)) else BadPE
  {
    if k > 0 {
      assert forall j | 0 < j <= k :: sections[j] == sections[1..][j - 1];
      ToOffAt(sections[1..], rva, k - 1);
    }
  }

  lemma {:induction false} ToOffNowhere(sections: seq<Section>, rva: nat)
    requires forall j | 0 <= j < |sections| :: !(sections[j].va <= rva < sections[j].va + sections[j].vsize)
    ensures ToOff(sections, rva) == BadPE
  {
    if sections != [] {
      assert forall j | 0 < j < |sections| :: sections[j] == sections[1..][j - 1];
      ToOffNowhere(sections[1..], rva);
    }
  }

  /** A section table that is read is read header by header, 40 bytes apart: each entry has
      the four fields of its own header, little endian, and covers the larger of its sizes. */
  lemma {:induction false} SectionAt(data: seq<Byte>, at: nat, n: nat, k: nat)
    requires ReadSections(data, at, n).Ok? && k < n
    ensures |ReadSections(data, at, n).value| == n && at + 40 * k + 40 <= |data|
    ensures var s, header := ReadSections(data, at, n).value[k], data[at + 40 * k..at + 40 * k + 40];
            && s.va == LeValue(header[12..16]) && s.rawSize == LeValue(header[16..20])
            && s.rawPtr == LeValue(header[20..24])
            && s.vsize >= s.rawSize && s.vsize >= LeValue(header[8..12])
            && (s.vsize == s.rawSize || s.vsize == LeValue(header[8..12]))
    decreases n
  {
    if k > 0 {
      SectionAt(data, at + 40, n - 1, k - 1);
    } else {
      HeaderFields(data, at);
      SectionsLength(data, at, n);
    }
  }

  lemma {:induction false} SectionsLength(data: seq<Byte>, at: nat, n: nat)
    requires ReadSections(data, at, n).Ok?
    ensures |ReadSections(data, at, n).value| == n
    decreases n
  {
    if n > 0 {
      SectionsLength(data, at + 40, n - 1);
    }
  }

  lemma HeaderFields(data: seq<Byte>, s: nat)
    requires s + 40 <= |data|
    ensures var h := data[s..s + 40];
            && h[12..16] == data[s + 12..s + 16] && h[8..12] == data[s + 8..s + 12]
            && h[16..20] == data[s + 16..s + 20] && h[20..24] == data[s + 20..s + 24]
  {
    SubSlice(data, s, s + 40, 8, 12);
    SubSlice(data, s, s + 40, 12, 16);
    SubSlice(data, s, s + 40, 16, 20);
    SubSlice(data, s, s + 40, 20, 24);
  }

  /** The table is read if and only if every header is inside the file. */
  lemma {:induction false} SectionsRead(data: seq<Byte>, at: nat, n: nat)
    ensures ReadSections(data, at, n).Ok? <==> n == 0 || at + 40 * n <= |data|
    ensures ReadSections(data, at, n).Ok? || ReadSections(data, at, n) == BadPE
    decreases n
  {
    if n > 0 {
      SectionsRead(data, at + 40, n - 1);
    }
  }

  /** `data.find(b"\0", off)` */
  function FindNul(data: seq<Byte>, off: nat): (r: Option<nat>)
    ensures r.Some? ==> off <= r.value < |data|
    decreases |data| - off
  {
    if off >= |data| then None
    else if data[off] == 0 then Some(off)
    else FindNul(data, off + 1)
  }

  /** ASCII, with the replacement character for any other byte. */
  function DecodeAscii(b: seq<Byte>): (s: string) {
    seq(|b|, i requires 0 <= i < |b| => if b[i] < 128 then b[i] as char else '\U{FFFD}')
  }

  function Asciiz(data: seq<Byte>, off: nat): (r: Outcome<string>) {
    match FindNul(data, off)
    case None => BadPE
    case Some(end) => Ok(DecodeAscii(data[off..end]))
  }

  /** The descriptors from `desc` on; `left` bounds how many are looked at. */
  function Descriptors(data: seq<Byte>, sections: seq<Section>, desc: nat, left: nat): (r: Outcome<seq<string>>)
    decreases left
  {
    if left == 0 || desc + 20 > |data| then BadPE
    else if data[desc..desc + 20] == Zeros(20) then Ok([])
    else
      var name :- DescriptorName(data, sections, desc);
      var rest :- Descriptors(data, sections, desc + 20, left - 1);
      Ok(name + rest)
  }

  /** A descriptor without a name address is stepped over. */
  lemma NamelessSkipped(data: seq<Byte>, sections: seq<Section>, desc: nat, left: nat)
    requires left > 0 && desc + 20 <= |data| && data[desc..desc + 20] != Zeros(20)
    requires data[desc + 12..desc + 16] == [0, 0, 0, 0]
    ensures Descriptors(data, sections, desc, left) == Descriptors(data, sections, desc + 20, left - 1)
  {
    LeFour(0, 0, 0, 0);
    var rest := Descriptors(data, sections, desc + 20, left - 1);
    assert rest.Ok? ==> [] + rest.value == rest.value;
    NamesOrBad(data, sections, desc + 20, left - 1);
  }

  /** The name of one descriptor, or nothing when its name address is zero. */
  function DescriptorName(data: seq<Byte>, sections: seq<Section>, desc: nat): (r: Outcome<seq<string>>) {
    var rva :- U32(data, desc + 12);
    if rva == 0 then Ok([])
    else
      var off :- ToOff(sections, rva);
      var name :- Asciiz(data, off);
      Ok([name])
  }

  /** Offset of the data directories, by the optional header's magic. */
  function DirsOff(opt: nat, magic: nat): Outcome<nat> {
    if magic == 0x20B then Ok(opt + 112) else if magic == 0x10B then Ok(opt + 96) else BadPE
  }

  predicate HasSignature(data: seq<Byte>, at: nat) {
    at + 24 <= |data| && data[at..at + 4] == [0x50, 0x45, 0, 0]
  }

  function ImportedDlls(data: seq<Byte>): (r: Outcome<seq<string>>) {
    if |data| < 64 || data[..2] != [0x4D, 0x5A] then NotPE
    else
      var peOff :- U32(data, 0x3C);
      if !HasSignature(data, peOff) then NotPE else ImportsAt(data, peOff + 4)
  }

  /** The rest of `imported_dlls`, from the COFF header. */
  function ImportsAt(data: seq<Byte>, coff: nat): (r: Outcome<seq<string>>) {
    var head :- ReadHeader(data, coff);
    ImportsListed(data, head.dirs, head.table, head.n)
  }

  /** What the headers say: where the data directories and the section table are, and how
      many sections there are. */
  datatype Head = Head(dirs: nat, table: nat, n: nat)

  function ReadHeader(data: seq<Byte>, coff: nat): (r: Outcome<Head>)
    ensures r.Ok? ==> r.value.dirs >= 4
  {
    var nSections :- U16(data, coff + 2);
    var optSize :- U16(data, coff + 16);
    var opt := coff + 20;
    if optSize == 0 then BadPE
    else
      var magic :- U16(data, opt);
      var dirs :- DirsOff(opt, magic);
      Ok(Head(dirs, opt + optSize, nSections))
  }

  /** From the data directories, the section table being at `at`. */
  function ImportsListed(data: seq<Byte>, dirs: nat, at: nat, nSections: nat): (r: Outcome<seq<string>>)
    requires dirs >= 4
  {
    var nDirs :- U32(data, dirs - 4);
    if nDirs < 2 then Ok([])
    else
      var importRva :- U32(data, dirs + 8);
      if importRva == 0 then Ok([])
      else ImportsIn(data, at, nSections, importRva)
  }

  /** The section table, then the descriptor table the directory points at. */
  function ImportsIn(data: seq<Byte>, at: nat, nSections: nat, importRva: nat): (r: Outcome<seq<string>>) {
    var sections :- ReadSections(data, at, nSections);
    var desc :- ToOff(sections, importRva);
    Descriptors(data, sections, desc, MAX_DESCRIPTORS)
  }

  // ----- the header cases, byte by byte

  lemma NeverNotPE(data: seq<Byte>, coff: nat)
    ensures ImportsAt(data, coff) != NotPE
  {
    ReadsOrBad(data, coff + 2, 2);
    ReadsOrBad(data, coff + 16, 2);
    ReadsOrBad(data, coff + 20, 2);
    forall dirs: nat, at: nat, n: nat | dirs >= 4 ensures ImportsListed(data, dirs, at, n) != NotPE {
      ListedNeverNotPE(data, dirs, at, n);
    }
  }

  lemma ReadsOrBad(data: seq<Byte>, off: nat, width: nat)
    ensures Read(data, off, width) != NotPE
  {
  }

  lemma ListedNeverNotPE(data: seq<Byte>, dirs: nat, at: nat, n: nat)
    requires dirs >= 4
    ensures ImportsListed(data, dirs, at, n) != NotPE
  {
    SectionsRead(data, at, n);
    forall sections, rva: nat ensures ToOff(sections, rva) != NotPE {
      OffOrBad(sections, rva);
    }
    forall sections, desc: nat ensures Descriptors(data, sections, desc, MAX_DESCRIPTORS) != NotPE {
      NamesOrBad(data, sections, desc, MAX_DESCRIPTORS);
    }
  }

  lemma {:induction false} OffOrBad(sections: seq<Section>, rva: nat)
    ensures ToOff(sections, rva) != NotPE
  {
    if sections != [] {
      OffOrBad(sections[1..], rva);
    }
  }

  lemma {:induction false} NamesOrBad(data: seq<Byte>, sections: seq<Section>, desc: nat, left: nat)
    ensures Descriptors(data, sections, desc, left) != NotPE
    decreases left
  {
    if left > 0 {
      NamesOrBad(data, sections, desc + 20, left - 1);
      forall rva: nat ensures ToOff(sections, rva) != NotPE {
        OffOrBad(sections, rva);
      }
    }
  }

  function Two(data: seq<Byte>, i: nat): nat
    requires i + 2 <= |data|
  {
    data[i] as int + 0x100 * data[i + 1] as int
  }

  function Four(data: seq<Byte>, i: nat): nat
    requires i + 4 <= |data|
  {
    data[i] as int + 0x100 * data[i + 1] as int + 0x1_0000 * data[i + 2] as int + 0x100_0000 * data[i + 3] as int
  }

  lemma FourBytes(data: seq<Byte>, off: nat)
    requires off + 4 <= |data|
    ensures U32(data, off) == Ok(Four(data, off))
  {
    LeFour(data[off], data[off + 1], data[off + 2], data[off + 3]);
    assert data[off..off + 4] == [data[off], data[off + 1], data[off + 2], data[off + 3]];
  }

  /** Two kinds of failure: a file is "not a PE file" exactly when it is shorter than 64
      bytes, does not start with "MZ", or has no "PE" and two zeros, with the 20 bytes of the
      next header behind them, at the offset that bytes 60 to 63 name. */
  lemma NotPeIff(data: seq<Byte>)
    ensures ImportedDlls(data) == NotPE <==>
              || |data| < 64
              || data[0] != 'M' as int || data[1] != 'Z' as int
              || (var at := Four(data, 60);
                  || at + 24 > |data|
                  || data[at] != 'P' as int || data[at + 1] != 'E' as int || data[at + 2] != 0 || data[at + 3] != 0)
  {
    if |data| >= 64 {
      FourBytes(data, 60);
      assert data[..2] == [data[0], data[1]];
      var at := Four(data, 60);
      NeverNotPE(data, at + 4);
      if at + 24 <= |data| {
        assert data[at..at + 4] == [data[at], data[at + 1], data[at + 2], data[at + 3]];
      }
    }
  }

  /** What the fields of the header decide, where they are all inside the file: no optional
      header, or one of an unknown format, is an error; fewer than two directories, or no
      import directory, is no imports; anything else is read from the sections behind it. */
  lemma HeaderCases(data: seq<Byte>, coff: nat)
    requires coff + 20 + 128 <= |data|
    ensures var size, magic := Two(data, coff + 16), Two(data, coff + 20);
            var dirs := if magic == 0x20B then coff + 132 else coff + 116;
            if size == 0 || (magic != 0x20B && magic != 0x10B) then ImportsAt(data, coff) == BadPE
            else if Four(data, dirs - 4) < 2 || Four(data, dirs + 8) == 0 then ImportsAt(data, coff) == Ok([])
            else
              ImportsAt(data, coff) == ImportsIn(data, coff + 20 + size, Two(data, coff + 2), Four(data, dirs + 8))
  {
    forall off: nat | off + 4 <= |data| ensures U32(data, off) == Ok(Four(data, off)) {
      FourBytes(data, off);
    }
    TwoBytes(data, coff + 2);
    TwoBytes(data, coff + 16);
    TwoBytes(data, coff + 20);
  }

  lemma TwoBytes(data: seq<Byte>, off: nat)
    requires off + 2 <= |data|
    ensures U16(data, off) == Ok(Two(data, off))
  {
    assert data[off..off + 2] == [data[off]] + [data[off + 1]];
    assert [data[off + 1]] == [data[off + 1]] + [];
    LeOne(data[off], [data[off + 1]]);
    LeOne(data[off + 1], []);
  }

  // ----- the loops

  /** What has been collected, in front of what is still to come. */
  function Prepend<T>(done: seq<T>, rest: Outcome<seq<T>>): Outcome<seq<T>> {
    if rest.Ok? then Ok(done + rest.value) else rest
  }

  lemma PrependNone<T>(rest: Outcome<seq<T>>)
    ensures Prepend([], rest) == rest
  {
    assert rest.Ok? ==> [] + rest.value == rest.value;
  }

  lemma PrependMore<T>(a: seq<T>, b: seq<T>, rest: Outcome<seq<T>>)
    ensures Prepend(a, Prepend(b, rest)) == Prepend(a + b, rest)
  {
    assert rest.Ok? ==> a + (b + rest.value) == a + b + rest.value;
  }

  method SectionTable(data: seq<Byte>, at: nat, n: nat) returns (r: Outcome<seq<Section>>)
    ensures r == ReadSections(data, at, n)
  {
    var sections: seq<Section> := [];
    ghost var goal := ReadSections(data, at, n);
    PrependNone(goal);
    for i := 0 to n
      invariant goal == Prepend(sections, ReadSections(data, at + 40 * i, n - i))
    {
      var s := at + i * 40;
      var section := ReadSection(data, s);
      if section.IsFailure() {
        return section.PropagateFailure();
      }
      PrependMore(sections, [section.value], ReadSections(data, s + 40, n - i - 1));
      sections := sections + [section.value];
    }
    assert sections + [] == sections;
    r := Ok(sections);
  }

  method Resolve(sections: seq<Section>, rva: nat) returns (r: Outcome<nat>)
    ensures r == ToOff(sections, rva)
    ensures forall k: nat | FirstCovering(sections, rva, k) ::
              r == if rva - sections[k].va < sections[k].rawSize then Ok(sections[k].rawPtr + (rva - sections[k].va))
                   else BadPE
    ensures (forall j | 0 <= j < |sections| :: !(sections[j].va <= rva < sections[j].va + sections[j].vsize)) ==>
              r == BadPE
  {
    forall k: nat | FirstCovering(sections, rva, k)
      ensures ToOff(sections, rva) == if rva - sections[k].va < sections[k].rawSize
                                      then Ok(sections[k].rawPtr + (rva - sections[k].va)) else BadPE
    {
      ToOffAt(sections, rva, k);
    }
    if forall j | 0 <= j < |sections| :: !(sections[j].va <= rva < sections[j].va + sections[j].vsize) {
      ToOffNowhere(sections, rva);
    }
    for i := 0 to |sections|
      invariant ToOff(sections, rva) == ToOff(sections[i..], rva)
    {
      var s := sections[i];
      assert sections[i..][1..] == sections[i + 1..];
      if s.va <= rva < s.va + s.vsize {
        if rva - s.va >= s.rawSize {
          return BadPE;
        }
        return Ok(s.rawPtr + (rva - s.va));
      }
    }
    r := BadPE;
  }

  method WalkDescriptors(data: seq<Byte>, sections: seq<Section>, first: nat) returns (r: Outcome<seq<string>>)
    ensures r == Descriptors(data, sections, first, MAX_DESCRIPTORS)
  {
    var names: seq<string>, desc: nat := [], first;
    ghost var goal := Descriptors(data, sections, first, MAX_DESCRIPTORS);
    PrependNone(goal);
    for k := 0 to MAX_DESCRIPTORS
      invariant goal == Prepend(names, Descriptors(data, sections, desc, MAX_DESCRIPTORS - k))
    {
      if desc + 20 > |data| {
        return BadPE;
      }
      if data[desc..desc + 20] == Zeros(20) {
        assert names + [] == names;
        return Ok(names);
      }
      var name := DescriptorName(data, sections, desc);
      if name.IsFailure() {
        return name.PropagateFailure();
      }
      PrependMore(names, name.value, Descriptors(data, sections, desc + 20, MAX_DESCRIPTORS - k - 1));
      names := names + name.value;
      desc := desc + 20;
    }
    r := BadPE;
  }

  /** The whole of `imported_dlls`, with its loops. */
  method ReadImports(data: seq<Byte>) returns (r: Outcome<seq<string>>)
    ensures r == ImportedDlls(data)
  {
    if |data| < 64 || data[..2] != [0x4D, 0x5A] {
      return NotPE;
    }
    var peOff :- U32(data, 0x3C);
    if !HasSignature(data, peOff) {
      return NotPE;
    }
    r := ReadHeaders(data, peOff + 4);
  }

  method ReadHeaders(data: seq<Byte>, coff: nat) returns (r: Outcome<seq<string>>)
    ensures r == ImportsAt(data, coff)
  {
    var nSections :- U16(data, coff + 2);
    var optSize :- U16(data, coff + 16);
    var opt := coff + 20;
    if optSize == 0 {
      return BadPE;
    }
    var magic :- U16(data, opt);
    var dirs :- DirsOff(opt, magic);
    var nDirs :- U32(data, dirs - 4);
    if nDirs < 2 {
      return Ok([]);
    }
    var importRva :- U32(data, dirs + 8);
    if importRva == 0 {
      return Ok([]);
    }
    r := LocateImports(data, opt + optSize, nSections, importRva);
  }

  method LocateImports(data: seq<Byte>, at: nat, nSections: nat, importRva: nat) returns (r: Outcome<seq<string>>)
    ensures r == ImportsIn(data, at, nSections, importRva)
  {
    var sections :- SectionTable(data, at, nSections);
    var desc :- Resolve(sections, importRva);
    r := WalkDescriptors(data, sections, desc);
  }

  // ----- stable under extension

  lemma SliceExtends(data: seq<Byte>, more: seq<Byte>, lo: nat, hi: nat)
    requires lo <= hi <= |data|
    ensures (data + more)[lo..hi] == data[lo..hi]
  {
  }

  lemma ReadExtends(data: seq<Byte>, more: seq<Byte>, off: nat, width: nat)
    ensures Read(data, off, width).Ok? ==> Read(data + more, off, width) == Read(data, off, width)
  {
    if off + width <= |data| {
      SliceExtends(data, more, off, off + width);
    }
  }

  lemma SectionExtends(data: seq<Byte>, more: seq<Byte>, s: nat)
    ensures ReadSection(data, s).Ok? ==> ReadSection(data + more, s) == ReadSection(data, s)
  {
    ReadExtends(data, more, s + 12, 4);
    ReadExtends(data, more, s + 8, 4);
    ReadExtends(data, more, s + 16, 4);
    ReadExtends(data, more, s + 20, 4);
  }

  lemma {:induction false} SectionsExtend(data: seq<Byte>, more: seq<Byte>, at: nat, n: nat)
    ensures ReadSections(data, at, n).Ok? ==> ReadSections(data + more, at, n) == ReadSections(data, at, n)
    decreases n
  {
    if n > 0 {
      SectionExtends(data, more, at);
      SectionsExtend(data, more, at + 40, n - 1);
    }
  }

  lemma {:induction false} FindNulExtends(data: seq<Byte>, more: seq<Byte>, off: nat)
    ensures FindNul(data, off).Some? ==> FindNul(data + more, off) == FindNul(data, off)
    decreases |data| - off
  {
    if off < |data| && data[off] != 0 {
      FindNulExtends(data, more, off + 1);
    }
  }

  lemma NameExtends(data: seq<Byte>, more: seq<Byte>, sections: seq<Section>, desc: nat)
    ensures DescriptorName(data, sections, desc).Ok? ==>
              DescriptorName(data + more, sections, desc) == DescriptorName(data, sections, desc)
  {
    ReadExtends(data, more, desc + 12, 4);
    var rva := U32(data, desc + 12);
    if rva.Ok? && ToOff(sections, rva.value).Ok? {
      var off := ToOff(sections, rva.value).value;
      FindNulExtends(data, more, off);
      if FindNul(data, off).Some? {
        SliceExtends(data, more, off, FindNul(data, off).value);
      }
    }
  }

  lemma {:induction false} DescriptorsExtend(data: seq<Byte>, more: seq<Byte>, sections: seq<Section>, desc: nat,
      left: nat)
    ensures Descriptors(data, sections, desc, left).Ok? ==>
              Descriptors(data + more, sections, desc, left) == Descriptors(data, sections, desc, left)
    decreases left
  {
    if left > 0 && desc + 20 <= |data| {
      SliceExtends(data, more, desc, desc + 20);
      NameExtends(data, more, sections, desc);
      DescriptorsExtend(data, more, sections, desc + 20, left - 1);
    }
  }

  lemma ImportsInExtend(data: seq<Byte>, more: seq<Byte>, at: nat, n: nat, rva: nat)
    ensures ImportsIn(data, at, n, rva).Ok? ==> ImportsIn(data + more, at, n, rva) == ImportsIn(data, at, n, rva)
  {
    SectionsExtend(data, more, at, n);
    var sections := ReadSections(data, at, n);
    if sections.Ok? && ToOff(sections.value, rva).Ok? {
      DescriptorsExtend(data, more, sections.value, ToOff(sections.value, rva).value, MAX_DESCRIPTORS);
    }
  }

  lemma ImportsExtend(data: seq<Byte>, more: seq<Byte>, coff: nat)
    ensures ImportsAt(data, coff).Ok? ==> ImportsAt(data + more, coff) == ImportsAt(data, coff)
  {
    HeaderExtends(data, more, coff);
    var head := ReadHeader(data, coff);
    if head.Ok? {
      ListedExtend(data, more, head.value.dirs, head.value.table, head.value.n);
    }
  }

  lemma HeaderExtends(data: seq<Byte>, more: seq<Byte>, coff: nat)
    ensures ReadHeader(data, coff).Ok? ==> ReadHeader(data + more, coff) == ReadHeader(data, coff)
  {
    ReadExtends(data, more, coff + 2, 2);
    ReadExtends(data, more, coff + 16, 2);
    ReadExtends(data, more, coff + 20, 2);
  }

  lemma ListedExtend(data: seq<Byte>, more: seq<Byte>, dirs: nat, at: nat, n: nat)
    requires dirs >= 4
    ensures ImportsListed(data, dirs, at, n).Ok? ==>
              ImportsListed(data + more, dirs, at, n) == ImportsListed(data, dirs, at, n)
  {
    ReadExtends(data, more, dirs - 4, 4);
    ReadExtends(data, more, dirs + 8, 4);
    if U32(data, dirs + 8).Ok? {
      ImportsInExtend(data, more, at, n, U32(data, dirs + 8).value);
    }
  }

  /** Once the reader has an answer, no bytes after it can change that answer. */
  lemma ImportedDllsExtend(data: seq<Byte>, more: seq<Byte>)
    requires ImportedDlls(data).Ok?
    ensures ImportedDlls(data + more) == ImportedDlls(data)
  {
    SliceExtends(data, more, 0, 2);
    ReadExtends(data, more, 0x3C, 4);
    SignatureExtends(data, more, U32(data, 0x3C).value);
    ImportsExtend(data, more, U32(data, 0x3C).value + 4);
  }

  lemma SignatureExtends(data: seq<Byte>, more: seq<Byte>, at: nat)
    requires HasSignature(data, at)
    ensures HasSignature(data + more, at)
  {
    SliceExtends(data, more, at, at + 4);
  }

  /** So a truncated file is refused or read as the whole file is. */
  lemma TruncationNeverMisreads(data: seq<Byte>, k: nat)
    requires k <= |data|
    ensures ImportedDlls(data[..k]).Ok? ==> ImportedDlls(data[..k]) == ImportedDlls(data)
  {
    if ImportedDlls(data[..k]).Ok? {
      WholeExtends(data[..k], data[k..], data);
    }
  }

  lemma WholeExtends(data: seq<Byte>, more: seq<Byte>, whole: seq<Byte>)
    requires whole == data + more && ImportedDlls(data).Ok?
    ensures ImportedDlls(whole) == ImportedDlls(data)
  {
    ImportedDllsExtend(data, more);
  }
}
