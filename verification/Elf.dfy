/** The parts of a 64-bit ELF file that the loader reads. */
module Elf {
  import opened Common
  import opened Word64
  import LE = LittleEndian

  const HEADER_SIZE: nat := 64
  const SECTION_HEADER_SIZE: nat := 64
  const SHF_ALLOC: nat := 0x2
  const SHT_NOBITS: nat := 0x8

  datatype Section = Section(kind: nat, flags: Word, addr: Word, offset: Word, size: Word)

  function Field(file: seq<byte>, at: nat, width: nat): nat
    requires at + width <= |file|
  {
    LE.Decode(file[at..at + width])
  }

  function WordField(file: seq<byte>, at: nat): Word
    requires at + 8 <= |file|
  {
    LE.FieldWidths();
    LE.EncodeDecode(file[at..at + 8]);
    Field(file, at, 8)
  }

  function SectionTable(file: seq<byte>): Word
    requires |file| >= HEADER_SIZE
  {
    WordField(file, 0x28)
  }

  function SectionCount(file: seq<byte>): nat
    requires |file| >= HEADER_SIZE
  {
    Field(file, 0x3C, 2)
  }

  /** The magic number is there and the section header table lies in the file, at an offset that fits a C int. */
  predicate ValidFile(file: seq<byte>) {
    && |file| >= HEADER_SIZE
    && file[0] == 0x7f && file[1] == 0x45 && file[2] == 0x4c && file[3] == 0x46
    && SectionTable(file) < 0x8000_0000
    && SectionTable(file) + SECTION_HEADER_SIZE * SectionCount(file) <= |file|
  }

  function ParseSection(file: seq<byte>, at: nat): Section
    requires at + SECTION_HEADER_SIZE <= |file|
  {
    Section(Field(file, at + 4, 4), WordField(file, at + 8), WordField(file, at + 16),
            WordField(file, at + 24), WordField(file, at + 32))
  }

  function Sections(file: seq<byte>): seq<Section>
    requires ValidFile(file)
  {
    seq(SectionCount(file), i requires 0 <= i < SectionCount(file) =>
      ParseSection(file, SectionTable(file) + SECTION_HEADER_SIZE * i))
  }

  /** The entry point, truncated to a C int on return. */
  function EntryPoint(file: seq<byte>): int
    requires |file| >= HEADER_SIZE
  {
    var low := WordField(file, 0x18) % 0x1_0000_0000;
    if low < 0x8000_0000 then low else low - 0x1_0000_0000
  }

  // ---------- Where the fields lie ----------

  /** The positions of struct Elf64_Ehdr: e_entry, e_shoff and e_shnum. */
  lemma {:induction false} HeaderPositions(file: seq<byte>)
    requires |file| >= 64
    ensures WordField(file, 0x18) == LE.WordAt(file, 24)
    ensures SectionTable(file) == LE.WordAt(file, 40) && SectionCount(file) == LE.ShortAt(file, 60)
  {
    LE.DecodesWord(file, 24);
    LE.DecodesWord(file, 40);
    LE.DecodesShort(file, 60);
  }

  /** The positions of struct Elf64_Shdr: sh_type, sh_flags, sh_addr, sh_offset and sh_size. */
  lemma {:induction false} SectionPositions(file: seq<byte>, at: nat)
    requires at + 64 <= |file|
    ensures ParseSection(file, at) == Section(LE.IntAt(file, at + 4), LE.WordAt(file, at + 8), LE.WordAt(file, at + 16),
                                              LE.WordAt(file, at + 24), LE.WordAt(file, at + 32))
  {
    LE.DecodesInt(file, at + 4);
    LE.DecodesWord(file, at + 8);
    LE.DecodesWord(file, at + 16);
    LE.DecodesWord(file, at + 24);
    LE.DecodesWord(file, at + 32);
  }

  /** Section header i of a file lies 64 * i bytes behind e_shoff, and there are e_shnum of them. */
  lemma {:induction false} SectionsOfFile(file: seq<byte>, i: nat)
    requires ValidFile(file) && i < LE.ShortAt(file, 60)
    ensures |Sections(file)| == LE.ShortAt(file, 60)
    ensures var at := LE.WordAt(file, 40) + 64 * i;
            && at + 64 <= |file|
            && Sections(file)[i] == Section(LE.IntAt(file, at + 4), LE.WordAt(file, at + 8), LE.WordAt(file, at + 16),
                                            LE.WordAt(file, at + 24), LE.WordAt(file, at + 32))
  {
    hide ParseSection;
    HeaderPositions(file);
    SectionPositions(file, LE.WordAt(file, 40) + 64 * i);
  }

  /** The entry point is e_entry, taken as a C int: equal modulo 2^32, and e_entry itself exactly below 2^31. */
  lemma {:induction false} EntryPointIsEntry(file: seq<byte>)
    requires |file| >= 64
    ensures var e := LE.WordAt(file, 24);
            && -0x8000_0000 <= EntryPoint(file) < 0x8000_0000
            && EntryPoint(file) % 0x1_0000_0000 == e % 0x1_0000_0000
            && (EntryPoint(file) == e <==> e < 0x8000_0000)
  {
    HeaderPositions(file);
  }

  // ---------- One section ----------

  lemma {:induction false} BitOne(x: nat)
    ensures And(x, SHF_ALLOC) == 0 <==> x / 2 % 2 == 0
  {
    assert And(x, 2) == 2 * And(x / 2, 1) + 0;
    assert And(x / 2, 1) == if x / 2 % 2 == 1 then 1 else 0;
  }

  lemma {:induction false} BitThree(x: nat)
    ensures And(x, SHT_NOBITS) == 0 <==> x / 8 % 2 == 0
  {
    assert x / 2 / 2 / 2 == x / 8;
    assert And(x / 8, 1) == if x / 8 % 2 == 1 then 1 else 0;
    assert And(x / 2 / 2, 2) == 2 * And(x / 8, 1);
    assert And(x / 2, 4) == 2 * And(x / 2 / 2, 2);
    assert And(x, 8) == 2 * And(x / 2, 4);
  }

  /** Loaded are the sections with bit 1 of the flags set and an address other than 0; data is read for those with bit 3
      of the type clear. */
  lemma {:induction false} SectionTests(sh: Section)
    ensures Skipped(sh) <==> sh.flags / 2 % 2 == 0 || sh.addr == 0
    ensures ReadsFile(sh) <==> sh.kind / 8 % 2 == 0
  {
    BitOne(sh.flags);
    BitThree(sh.kind);
  }

  /** Sections that take no memory, or lie at address 0, are skipped. */
  predicate Skipped(sh: Section) {
    And(sh.flags, SHF_ALLOC) == 0 || sh.addr == 0
  }

  /** The loader's test: bit 3 of the type. */
  predicate ReadsFile(sh: Section) {
    And(sh.kind, SHT_NOBITS) == 0
  }

  /** Sizes and offsets are kept in 32-bit variables. */
  function Size(sh: Section): nat {
    sh.size % 0x1_0000_0000
  }

  function FileOffset(sh: Section): nat {
    sh.offset % 0x1_0000_0000
  }

  /** The byte that the loader puts at distance k from the start of the section. */
  function SectionByte(file: seq<byte>, sh: Section, k: nat): byte {
    if ReadsFile(sh) && FileOffset(sh) + k < |file| then file[FileOffset(sh) + k] else 0
  }

  function SectionBytes(file: seq<byte>, sh: Section): (r: seq<byte>)
    ensures |r| == Size(sh)
  {
    seq(Size(sh), k requires 0 <= k => SectionByte(file, sh, k))
  }

  /** get_content takes offset and size as C int. From 2^31 on they turn negative: the stream is not positioned, or the
      count becomes huge. Nothing is read for an empty section. */
  predicate ReadFits(sh: Section) {
    ReadsFile(sh) && Size(sh) != 0 ==> FileOffset(sh) < 0x8000_0000 && Size(sh) < 0x8000_0000
  }

  /** What the loader copies. Fault also stands for a read whose position or length is not that of the section. */
  function LoadedBytes(file: seq<byte>, sh: Section): Outcome<seq<byte>> {
    if ReadFits(sh) then Ok(SectionBytes(file, sh)) else Fault
  }

  /** What the System V gABI asks for: file contents for every type but SHT_NOBITS, at the full offset and size. */
  function SpecifiedByte(file: seq<byte>, sh: Section, k: nat): byte {
    if sh.kind != SHT_NOBITS && sh.offset + k < |file| then file[sh.offset + k] else 0
  }

  function SpecifiedBytes(file: seq<byte>, sh: Section): (r: seq<byte>)
    ensures |r| == sh.size
  {
    seq(sh.size, k requires 0 <= k => SpecifiedByte(file, sh, k))
  }

  predicate ZeroInFile(file: seq<byte>, sh: Section) {
    forall x :: sh.offset <= x < sh.offset + sh.size && x < |file| ==> file[x] == 0
  }

  lemma {:induction false} NoBitsBit()
    ensures And(SHT_NOBITS, SHT_NOBITS) != 0
    ensures And(14, SHT_NOBITS) != 0 && And(15, SHT_NOBITS) != 0
  {
  }

  lemma {:induction false} BytesDiffer(file: seq<byte>, sh: Section, k: nat)
    requires k < sh.size && k < Size(sh) && SectionByte(file, sh, k) != SpecifiedByte(file, sh, k)
    ensures SectionBytes(file, sh) != SpecifiedBytes(file, sh)
  {
    hide ReadsFile;
    assert SectionBytes(file, sh)[k] != SpecifiedBytes(file, sh)[k];
  }

  /** For one file: if the offset of a section that is read fits 32 bits, the loader's bytes are the specified ones
      exactly when the size fits 32 bits and the section is empty, has type SHT_NOBITS, has bit 3 of its type clear and
      an offset and a size that fit a C int, or has that bit set and is zero in the file anyway. */
  lemma {:induction false} ContentsAsSpecified(file: seq<byte>, sh: Section)
    requires ReadsFile(sh) && sh.size != 0 ==> sh.offset < 0x1_0000_0000
    ensures LoadedBytes(file, sh) == Ok(SpecifiedBytes(file, sh)) <==>
            FaithfulHeader(sh) || (sh.size < 0x1_0000_0000 && !ReadsFile(sh) && ZeroInFile(file, sh))
  {
    hide SectionBytes, SpecifiedBytes, ReadsFile;
    if FaithfulHeader(sh) {
      FaithfulBytes(file, sh);
    } else if sh.size < 0x1_0000_0000 && !ReadsFile(sh) {
      UnreadSection(file, sh);
    } else if sh.size >= 0x1_0000_0000 {
      LengthsDiffer(file, sh);
    }
  }

  lemma {:induction false} LengthsDiffer(file: seq<byte>, sh: Section)
    requires sh.size >= 0x1_0000_0000
    ensures SectionBytes(file, sh) != SpecifiedBytes(file, sh)
  {
    assert |SectionBytes(file, sh)| != |SpecifiedBytes(file, sh)|;
  }

  lemma {:induction false} UnreadSection(file: seq<byte>, sh: Section)
    requires sh.size < 0x1_0000_0000 && !ReadsFile(sh) && sh.kind != SHT_NOBITS
    ensures SectionBytes(file, sh) == SpecifiedBytes(file, sh) <==> ZeroInFile(file, sh)
  {
    hide ReadsFile;
    if SectionBytes(file, sh) == SpecifiedBytes(file, sh) {
      forall x | sh.offset <= x < sh.offset + sh.size && x < |file|
        ensures file[x] == 0
      {
        assert SectionBytes(file, sh)[x - sh.offset] == SpecifiedBytes(file, sh)[x - sh.offset];
      }
    }
  }

  /** What a section header must be like for its contents to come out right. */
  predicate FaithfulHeader(sh: Section) {
    && sh.size < 0x1_0000_0000
    && (sh.size == 0 || sh.kind == SHT_NOBITS || (ReadsFile(sh) && sh.offset < 0x8000_0000 && sh.size < 0x8000_0000))
  }

  /** For every file: the loader's bytes are the specified ones whatever the file holds exactly when the size fits 32
      bits and the section is empty, has type SHT_NOBITS, or has bit 3 of its type clear and an offset and a size that
      fit a C int. */
  lemma {:induction false} FaithfulForEveryFile(sh: Section)
    ensures (forall file: seq<byte> :: LoadedBytes(file, sh) == Ok(SpecifiedBytes(file, sh))) <==> FaithfulHeader(sh)
  {
    hide LoadedBytes, SpecifiedBytes, FaithfulHeader;
    if FaithfulHeader(sh) {
      forall file: seq<byte>
        ensures LoadedBytes(file, sh) == Ok(SpecifiedBytes(file, sh))
      {
        FaithfulBytes(file, sh);
      }
    } else {
      var file := UnfaithfulFile(sh);
    }
  }

  lemma {:induction false} FaithfulBytes(file: seq<byte>, sh: Section)
    requires FaithfulHeader(sh)
    ensures LoadedBytes(file, sh) == Ok(SpecifiedBytes(file, sh))
  {
    hide And;
    NoBitsBit();
    assert SectionBytes(file, sh) == SpecifiedBytes(file, sh);
  }

  /** A file that shows the difference. */
  lemma {:induction false} UnfaithfulFile(sh: Section) returns (file: seq<byte>)
    requires !FaithfulHeader(sh)
    ensures LoadedBytes(file, sh) != Ok(SpecifiedBytes(file, sh))
  {
    hide ReadsFile;
    if sh.size >= 0x1_0000_0000 {
      file := [];
      LengthsDiffer(file, sh);
    } else if !ReadsFile(sh) {
      file := seq(sh.offset + 1, _ => 1);
      BytesDiffer(file, sh, 0);
    } else {
      file := seq(FileOffset(sh) + 1, _ => 1);
      if ReadFits(sh) {
        BytesDiffer(file, sh, 0);
      }
    }
  }
}
