/** A writer of ELF files, the inverse of the parser: every list of sections is the section list of some valid file. */
module ElfWriter {
  import opened Common
  import opened Word64
  import opened Elf
  import LE = LittleEndian

  function Zeros(n: nat): (r: seq<byte>)
    ensures |r| == n
  {
    seq(n, _ => 0)
  }

  /** Types have 32 bits; the other fields are words. */
  predicate Encodable(sh: Section) {
    sh.kind < 0x1_0000_0000
  }

  function EncodeSection(sh: Section): (r: seq<byte>)
    ensures |r| == SECTION_HEADER_SIZE
  {
    Zeros(4) + LE.Encode(sh.kind, 4) + LE.Encode(sh.flags, 8) + LE.Encode(sh.addr, 8) + LE.Encode(sh.offset, 8)
    + LE.Encode(sh.size, 8) + Zeros(24)
  }

  function EncodeSections(shs: seq<Section>): (r: seq<byte>)
    ensures |r| == SECTION_HEADER_SIZE * |shs|
  {
    if shs == [] then [] else EncodeSection(shs[0]) + EncodeSections(shs[1..])
  }

  /** The ELF header: magic number, entry point, section table right behind the header, number of sections. */
  function EncodeHeader(entry: Word, count: nat): (r: seq<byte>)
    ensures |r| == HEADER_SIZE
  {
    [0x7f, 0x45, 0x4c, 0x46] + Zeros(20) + LE.Encode(entry, 8) + Zeros(8) + LE.Encode(HEADER_SIZE, 8) + Zeros(12)
    + LE.Encode(count, 2) + Zeros(2)
  }

  /** Header, section headers, and then the data that section offsets refer to. */
  function MakeFile(entry: Word, shs: seq<Section>, data: seq<byte>): seq<byte> {
    EncodeHeader(entry, |shs|) + EncodeSections(shs) + data
  }

  function DataAt(shs: seq<Section>): nat {
    HEADER_SIZE + SECTION_HEADER_SIZE * |shs|
  }

  lemma {:induction false} HeaderFields(entry: Word, count: nat, rest: seq<byte>)
    requires count < 0x1_0000
    ensures var file := EncodeHeader(entry, count) + rest;
            && file[0] == 0x7f && file[1] == 0x45 && file[2] == 0x4c && file[3] == 0x46
            && SectionTable(file) == HEADER_SIZE && SectionCount(file) == count && WordField(file, 0x18) == entry
  {
    hide LE.Encode, LE.Decode, LE.Pow256;
    var file := EncodeHeader(entry, count) + rest;
    LE.FieldWidths();
    assert file[0x28..0x30] == LE.Encode(HEADER_SIZE, 8);
    assert file[0x3C..0x3E] == LE.Encode(count, 2);
    assert file[0x18..0x20] == LE.Encode(entry, 8);
    LE.DecodeEncode(HEADER_SIZE, 8);
    LE.DecodeEncode(entry, 8);
    assert LE.Pow256(2) == 0x1_0000 by { LE.TwoBytes(); }
    LE.DecodeEncode(count, 2);
  }

  lemma {:induction false} SectionFields(sh: Section, before: seq<byte>, after: seq<byte>)
    requires Encodable(sh)
    ensures ParseSection(before + EncodeSection(sh) + after, |before|) == sh
  {
    hide LE.Encode, LE.Decode, LE.Pow256;
    var file, at := before + EncodeSection(sh) + after, |before|;
    LE.FieldWidths();
    assert file[at + 4..at + 8] == LE.Encode(sh.kind, 4);
    assert file[at + 8..at + 16] == LE.Encode(sh.flags, 8);
    assert file[at + 16..at + 24] == LE.Encode(sh.addr, 8);
    assert file[at + 24..at + 32] == LE.Encode(sh.offset, 8);
    assert file[at + 32..at + 40] == LE.Encode(sh.size, 8);
    LE.DecodeEncode(sh.kind, 4);
    LE.DecodeEncode(sh.flags, 8);
    LE.DecodeEncode(sh.addr, 8);
    LE.DecodeEncode(sh.offset, 8);
    LE.DecodeEncode(sh.size, 8);
  }

  lemma {:induction false} SectionsFields(shs: seq<Section>, before: seq<byte>, after: seq<byte>, i: nat)
    requires i < |shs| && forall sh :: sh in shs ==> Encodable(sh)
    ensures ParseSection(before + EncodeSections(shs) + after, |before| + SECTION_HEADER_SIZE * i) == shs[i]
    decreases i
  {
    hide ParseSection, EncodeSection;
    var head, tail := EncodeSection(shs[0]), EncodeSections(shs[1..]);
    if i == 0 {
      assert before + EncodeSections(shs) + after == before + head + (tail + after);
      SectionFields(shs[0], before, tail + after);
    } else {
      assert before + EncodeSections(shs) + after == (before + head) + tail + after;
      SectionsFields(shs[1..], before + head, after, i - 1);
    }
  }

  /** Reading back what was written: the file is valid and has the given sections, entry point and data. */
  lemma {:induction false} WriteThenParse(entry: Word, shs: seq<Section>, data: seq<byte>)
    requires |shs| < 0x1_0000 && forall sh :: sh in shs ==> Encodable(sh)
    ensures var file := MakeFile(entry, shs, data);
            && ValidFile(file) && Sections(file) == shs && WordField(file, 0x18) == entry
            && |file| == DataAt(shs) + |data| && file[DataAt(shs)..] == data
  {
    hide ParseSection, EncodeSections, EncodeHeader;
    var file := MakeFile(entry, shs, data);
    var header := EncodeHeader(entry, |shs|);
    assert file == header + (EncodeSections(shs) + data);
    HeaderFields(entry, |shs|, EncodeSections(shs) + data);
    forall i | 0 <= i < |shs|
      ensures Sections(file)[i] == shs[i]
    {
      SectionsFields(shs, header, data, i);
    }
  }

  /** The entry point written into a file is the one that the loader returns, as long as it fits a C int. */
  lemma {:induction false} WriteThenEnter(entry: Word, shs: seq<Section>, data: seq<byte>)
    requires |shs| < 0x1_0000 && forall sh :: sh in shs ==> Encodable(sh)
    ensures ValidFile(MakeFile(entry, shs, data))
    ensures -0x8000_0000 <= EntryPoint(MakeFile(entry, shs, data)) < 0x8000_0000
    ensures EntryPoint(MakeFile(entry, shs, data)) % 0x1_0000_0000 == entry % 0x1_0000_0000
    ensures EntryPoint(MakeFile(entry, shs, data)) == entry <==> entry < 0x8000_0000
  {
    hide MakeFile, ValidFile, WordField, EntryPoint;
    var file := MakeFile(entry, shs, data);
    WriteThenParse(entry, shs, data);
    assert |file| >= 64 by { LongEnough(file); }
    HeaderPositions(file);
    EntryPointIsEntry(file);
  }

  lemma {:induction false} LongEnough(file: seq<byte>)
    requires ValidFile(file)
    ensures |file| >= 64
  {
  }
}
