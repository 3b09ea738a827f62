/** The VM image: what dump_vm_state writes and what restore_vm_state makes of any file. */
module Image {
  import opened Common
  import opened Word64
  import LE = LittleEndian

  // ---------- The state of a VM ----------

  /** The sixteen general registers, rip and rflags, in the order of struct kvm_regs. */
  type Regs = r: seq<Word> | |r| == 18 witness seq(18, _ => 0)

  const RAX := 0
  const RDX := 3
  const RSI := 4
  const RDI := 5
  const R14 := 14
  const R15 := 15
  const RIP := 16
  const RFLAGS := 17

  /** struct kvm_sregs and struct kvm_fpu are copied as blocks of bytes. */
  type Sregs = s: seq<byte> | |s| == 312 witness seq(312, _ => 0)
  type Fpu = f: seq<byte> | |f| == 416 witness seq(416, _ => 0)

  datatype VmState = VmState(regs: Regs, sregs: Sregs, fpu: Fpu, mem: seq<byte>)

  // ---------- Layout of the image ----------

  const MAGIC: nat := 0x56_4D49_4D47
  const VERSION: nat := 1

  const REGS_AT: nat := 48
  const SREGS_AT: nat := 192
  const FPU_AT: nat := 504
  const MEMORY_AT: nat := 920

  /** Bytes that the compiler inserts between the fields of the header; their values are arbitrary. */
  type Padding = p: seq<byte> | |p| == 12 witness seq(12, _ => 0)

  function Header(size: Word, timestamp: Word, pad: Padding): (h: seq<byte>)
    ensures |h| == REGS_AT
  {
    LE.Encode(MAGIC, 8) + LE.Encode(VERSION, 4) + pad[..4] + LE.Encode(size, 8) + LE.Encode(0, 4) + pad[4..8]
    + LE.Encode(timestamp, 8) + LE.Encode(0, 4) + pad[8..]
  }

  function EncodeWords(ws: seq<Word>): (b: seq<byte>)
    ensures |b| == 8 * |ws|
  {
    if ws == [] then [] else LE.Encode(ws[0], 8) + EncodeWords(ws[1..])
  }

  function DecodeWords(b: seq<byte>): (ws: seq<Word>)
    requires |b| % 8 == 0
    ensures |ws| == |b| / 8
    decreases |b|
  {
    if b == [] then []
    else
      LE.FieldWidths();
      LE.EncodeDecode(b[..8]);
      [LE.Decode(b[..8])] + DecodeWords(b[8..])
  }

  /** The whole file. Open descriptors and pending I/O are written as two zero counters. */
  function Dump(vm: VmState, size: Word, timestamp: Word, pad: Padding): (img: seq<byte>)
    requires size <= |vm.mem|
    ensures |img| == MEMORY_AT + size + 8
  {
    Header(size, timestamp, pad) + EncodeWords(vm.regs) + vm.sregs + vm.fpu + vm.mem[..size]
    + LE.Encode(0, 4) + LE.Encode(0, 4)
  }

  // ---------- Restoring ----------

  predicate HeaderAccepted(img: seq<byte>, size: Word) {
    && |img| >= REGS_AT
    && LE.Decode(img[0..8]) == MAGIC && LE.Decode(img[8..12]) == VERSION && LE.Decode(img[16..24]) == size
  }

  /** Component after component is read and put in place until the file is too short; memory is filled as far as it
      goes. */
  function Restore(img: seq<byte>, vm: VmState, size: Word): (r: (VmState, int))
    requires size <= |vm.mem|
    ensures r.1 == 0 <==> HeaderAccepted(img, size) && |img| >= MEMORY_AT + size + 8
    ensures r.1 == 0 || r.1 == -1
    ensures !HeaderAccepted(img, size) ==> r.0 == vm
    ensures |r.0.mem| == |vm.mem| && r.0.mem[size..] == vm.mem[size..]
  {
    if !HeaderAccepted(img, size) then (vm, -1)
    else if |img| < SREGS_AT then (vm, -1)
    else
      var vm1 := vm.(regs := DecodeWords(img[REGS_AT..SREGS_AT]));
      if |img| < FPU_AT then (vm1, -1)
      else
        var vm2 := vm1.(sregs := img[SREGS_AT..FPU_AT]);
        if |img| < MEMORY_AT then (vm2, -1)
        else
          var vm3 := vm2.(fpu := img[FPU_AT..MEMORY_AT]);
          var avail := if |img| < MEMORY_AT + size then |img| else MEMORY_AT + size;
          var vm4 := vm3.(mem := Put(vm.mem, 0, img[MEMORY_AT..avail]));
          (vm4, if |img| < MEMORY_AT + size + 8 then -1 else 0)
  }

  // ---------- Codec lemmas ----------

  lemma {:induction false} WordsRoundTrip(ws: seq<Word>)
    ensures DecodeWords(EncodeWords(ws)) == ws
  {
    if ws != [] {
      WordsRoundTrip(ws[1..]);
      LE.FieldWidths();
      LE.DecodeEncode(ws[0], 8);
      var b := EncodeWords(ws);
      assert b[..8] == LE.Encode(ws[0], 8) && b[8..] == EncodeWords(ws[1..]);
    }
  }

  lemma {:induction false} BytesRoundTrip(b: seq<byte>)
    requires |b| % 8 == 0
    ensures EncodeWords(DecodeWords(b)) == b
    decreases |b|
  {
    if b != [] {
      BytesRoundTrip(b[8..]);
      LE.EncodeDecode(b[..8]);
      assert DecodeWords(b)[1..] == DecodeWords(b[8..]);
      assert b == b[..8] + b[8..];
    }
  }

  lemma {:induction false} HeaderFields(size: Word, timestamp: Word, pad: Padding)
    ensures var h := Header(size, timestamp, pad);
            h[0..8] == LE.Encode(MAGIC, 8) && h[8..12] == LE.Encode(VERSION, 4) && h[16..24] == LE.Encode(size, 8)
  {
    hide LE.Encode;
  }

  lemma {:induction false} FieldValues(size: Word)
    ensures LE.Decode(LE.Encode(MAGIC, 8)) == MAGIC && LE.Decode(LE.Encode(VERSION, 4)) == VERSION
    ensures LE.Decode(LE.Encode(size, 8)) == size
  {
    hide LE.Encode, LE.Decode, LE.Pow256;
    LE.FieldWidths();
    LE.DecodeEncode(MAGIC, 8);
    LE.DecodeEncode(VERSION, 4);
    LE.DecodeEncode(size, 8);
  }

  lemma {:induction false} HeaderIsAccepted(img: seq<byte>, size: Word, timestamp: Word, pad: Padding)
    requires |img| >= REGS_AT && img[..REGS_AT] == Header(size, timestamp, pad)
    ensures HeaderAccepted(img, size)
  {
    hide LE.Encode, LE.Decode, Header;
    var h := Header(size, timestamp, pad);
    HeaderFields(size, timestamp, pad);
    FieldValues(size);
    assert img[0..8] == h[0..8] && img[8..12] == h[8..12] && img[16..24] == h[16..24];
  }

  /** Where the components of a dumped image lie. */
  lemma {:induction false} DumpLayout(vm: VmState, size: Word, timestamp: Word, pad: Padding)
    requires size <= |vm.mem|
    ensures var img := Dump(vm, size, timestamp, pad);
            && img[..REGS_AT] == Header(size, timestamp, pad)
            && img[REGS_AT..SREGS_AT] == EncodeWords(vm.regs)
            && img[SREGS_AT..FPU_AT] == vm.sregs && img[FPU_AT..MEMORY_AT] == vm.fpu
            && img[MEMORY_AT..MEMORY_AT + size] == vm.mem[..size]
  {
    hide Header, EncodeWords, LE.Encode;
  }

  // ---------- Round trips ----------

  /** The VM that results from reading the first n bytes of an image of vm into old. */
  ghost predicate PartlyRestored(r: VmState, vm: VmState, before: VmState, size: nat, n: nat)
    requires size <= |vm.mem| && size <= |before.mem|
  {
    && r.regs == (if n >= SREGS_AT then vm.regs else before.regs)
    && r.sregs == (if n >= FPU_AT then vm.sregs else before.sregs)
    && r.fpu == (if n >= MEMORY_AT then vm.fpu else before.fpu)
    && |r.mem| == |before.mem|
    && forall k :: 0 <= k < |r.mem| ==>
         r.mem[k] == if k < size && MEMORY_AT + k < n then vm.mem[k] else before.mem[k]
  }

  /** Reading any prefix of an image: 0 is returned for the whole image only, and each component is replaced exactly
      when the prefix covers it, memory byte by byte. */
  lemma {:induction false} RestorePrefix(
    vm: VmState, before: VmState, size: Word, timestamp: Word, pad: Padding, n: nat)
    requires size <= |vm.mem| && size <= |before.mem| && n <= MEMORY_AT + size + 8
    ensures var (r, rc) := Restore(Dump(vm, size, timestamp, pad)[..n], before, size);
            && rc == (if n == MEMORY_AT + size + 8 then 0 else -1)
            && PartlyRestored(r, vm, before, size, n)
  {
    hide Dump, Header, EncodeWords, DecodeWords, LE.Decode, HeaderAccepted;
    var img := Dump(vm, size, timestamp, pad);
    DumpLayout(vm, size, timestamp, pad);
    WordsRoundTrip(vm.regs);
    var part := img[..n];
    if n < REGS_AT {
      assert !HeaderAccepted(part, size) by { ShortHeader(part, size); }
    } else {
      assert part[..REGS_AT] == img[..REGS_AT];
      HeaderIsAccepted(part, size, timestamp, pad);
      assert n >= SREGS_AT ==> part[REGS_AT..SREGS_AT] == img[REGS_AT..SREGS_AT];
      assert n >= FPU_AT ==> part[SREGS_AT..FPU_AT] == img[SREGS_AT..FPU_AT];
      assert n >= MEMORY_AT ==> part[FPU_AT..MEMORY_AT] == img[FPU_AT..MEMORY_AT];
      forall k | 0 <= k < size
        ensures img[MEMORY_AT + k] == vm.mem[k]
      {
        assert img[MEMORY_AT..MEMORY_AT + size][k] == vm.mem[..size][k];
      }
    }
  }

  lemma {:induction false} ShortHeader(img: seq<byte>, size: Word)
    requires |img| < REGS_AT
    ensures !HeaderAccepted(img, size)
  {
  }

  /** Restoring a dumped image reproduces registers, sregs, fpu and the dumped memory; memory beyond it is kept. */
  lemma {:induction false} RoundTrip(vm: VmState, blank: VmState, size: Word, timestamp: Word, pad: Padding)
    requires size <= |vm.mem| && size <= |blank.mem|
    ensures Restore(Dump(vm, size, timestamp, pad), blank, size)
         == (vm.(mem := vm.mem[..size] + blank.mem[size..]), 0)
  {
    hide Dump, Restore;
    var img := Dump(vm, size, timestamp, pad);
    RestorePrefix(vm, blank, size, timestamp, pad, |img|);
    assert img[..|img|] == img;
    var r := Restore(img, blank, size).0;
    assert r.mem == vm.mem[..size] + blank.mem[size..];
  }

  /** Dumping after an accepted restore reproduces the file, but for padding, counters, time stamp and trailing data. */
  lemma {:induction false} RedumpReproduces(img: seq<byte>, blank: VmState, size: Word, timestamp: Word, pad: Padding)
    requires size <= |blank.mem| && Restore(img, blank, size).1 == 0
    ensures var again := Dump(Restore(img, blank, size).0, size, timestamp, pad);
            && |again| <= |img| && again[..12] == img[..12] && again[16..24] == img[16..24]
            && again[REGS_AT..MEMORY_AT + size] == img[REGS_AT..MEMORY_AT + size]
  {
    hide EncodeWords, DecodeWords, LE.Decode, Dump, Header;
    var vm := Restore(img, blank, size).0;
    var again := Dump(vm, size, timestamp, pad);
    DumpLayout(vm, size, timestamp, pad);
    BytesRoundTrip(img[REGS_AT..SREGS_AT]);
    SameHeader(img, again, size, timestamp, pad);
    forall k | REGS_AT <= k < MEMORY_AT + size
      ensures again[k] == img[k]
    {
      if k < SREGS_AT {
        assert again[REGS_AT..SREGS_AT][k - REGS_AT] == img[REGS_AT..SREGS_AT][k - REGS_AT];
      } else if k < FPU_AT {
        assert again[SREGS_AT..FPU_AT][k - SREGS_AT] == img[SREGS_AT..FPU_AT][k - SREGS_AT];
      } else if k < MEMORY_AT {
        assert again[FPU_AT..MEMORY_AT][k - FPU_AT] == img[FPU_AT..MEMORY_AT][k - FPU_AT];
      } else {
        assert again[MEMORY_AT..MEMORY_AT + size][k - MEMORY_AT] == vm.mem[k - MEMORY_AT];
      }
    }
  }

  lemma {:induction false} SameHeader(img: seq<byte>, again: seq<byte>, size: Word, timestamp: Word, pad: Padding)
    requires HeaderAccepted(img, size) && |again| >= REGS_AT && again[..REGS_AT] == Header(size, timestamp, pad)
    ensures again[..12] == img[..12] && again[16..24] == img[16..24]
  {
    HeaderIsAccepted(again, size, timestamp, pad);
    SameField(img[0..8], again[0..8]);
    SameField(img[8..12], again[8..12]);
    SameField(img[16..24], again[16..24]);
    assert again[..12] == again[0..8] + again[8..12];
    assert img[..12] == img[0..8] + img[8..12];
  }

  lemma {:induction false} SameField(a: seq<byte>, b: seq<byte>)
    requires |a| == |b| && LE.Decode(a) == LE.Decode(b)
    ensures a == b
  {
    LE.EncodeDecode(a);
    LE.EncodeDecode(b);
  }

  // ---------- The bytes of an image ----------

  lemma {:induction false} MagicBytes()
    ensures LE.Encode(MAGIC, 8) == [0x47, 0x4D, 0x49, 0x4D, 0x56, 0, 0, 0]
  {
    assert LE.Encode(MAGIC, 8) == [0x47, 0x4D] + LE.Encode(0x56_4D49, 6);
    HighMagicBytes();
  }

  lemma {:induction false} HighMagicBytes()
    ensures LE.Encode(0x56_4D49, 6) == [0x49, 0x4D, 0x56, 0, 0, 0]
  {
    assert LE.Encode(0x56_4D49, 6) == [0x49, 0x4D, 0x56] + LE.Encode(0, 3);
  }

  lemma {:induction false} SmallFields()
    ensures LE.Encode(VERSION, 4) == [1, 0, 0, 0] && LE.Encode(0, 4) == [0, 0, 0, 0]
  {
    assert LE.Encode(0, 3) == [0, 0, 0];
  }

  /** The header: the letters GMIMV, version 1, size of memory, zero descriptors, time stamp, zero requests. */
  lemma {:induction false} HeaderBytes(size: Word, timestamp: Word, pad: Padding)
    ensures var h := Header(size, timestamp, pad);
            && h[0..8] == [0x47, 0x4D, 0x49, 0x4D, 0x56, 0, 0, 0] && h[8..12] == [1, 0, 0, 0]
            && LE.WordAt(h, 16) == size && h[24..28] == [0, 0, 0, 0]
            && LE.WordAt(h, 32) == timestamp && h[40..44] == [0, 0, 0, 0]
  {
    hide LE.Encode, LE.Decode, LE.WordAt;
    var h := Header(size, timestamp, pad);
    MagicBytes();
    SmallFields();
    LE.FieldWidths();
    LE.DecodeEncode(size, 8);
    LE.DecodeEncode(timestamp, 8);
    assert h[16..24] == LE.Encode(size, 8) && h[32..40] == LE.Encode(timestamp, 8);
    LE.DecodesWord(h, 16);
    LE.DecodesWord(h, 32);
  }

  /** Exactly which files are accepted. */
  lemma {:induction false} AcceptedExactly(img: seq<byte>, size: Word)
    ensures HeaderAccepted(img, size) <==>
              && |img| >= 48 && img[0..8] == [0x47, 0x4D, 0x49, 0x4D, 0x56, 0, 0, 0] && img[8..12] == [1, 0, 0, 0]
              && LE.WordAt(img, 16) == size
  {
    hide LE.Encode, LE.Decode, LE.WordAt;
    MagicBytes();
    SmallFields();
    FieldValues(size);
    if |img| >= 48 {
      LE.DecodesWord(img, 16);
      if LE.Decode(img[0..8]) == MAGIC {
        SameField(img[0..8], LE.Encode(MAGIC, 8));
      }
      if LE.Decode(img[8..12]) == VERSION {
        SameField(img[8..12], LE.Encode(VERSION, 4));
      }
    }
  }

  lemma {:induction false} WordsAt(ws: seq<Word>, i: nat)
    requires i < |ws|
    ensures LE.WordAt(EncodeWords(ws), 8 * i) == ws[i]
    decreases i
  {
    hide LE.Encode, LE.Decode;
    var b := EncodeWords(ws);
    if i == 0 {
      LE.FieldWidths();
      LE.DecodeEncode(ws[0], 8);
      assert b[0..8] == LE.Encode(ws[0], 8);
      LE.DecodesWord(b, 0);
    } else {
      WordsAt(ws[1..], i - 1);
      assert b[8..] == EncodeWords(ws[1..]);
      LaterWord(b, 8 * (i - 1));
    }
  }

  lemma {:induction false} LaterWord(b: seq<byte>, a: nat)
    requires a + 16 <= |b|
    ensures LE.WordAt(b[8..], a) == LE.WordAt(b, a + 8)
  {
  }

  lemma {:induction false} PartWord(b: seq<byte>, lo: nat, hi: nat, a: nat)
    requires lo <= hi <= |b| && a + 8 <= hi - lo
    ensures LE.WordAt(b[lo..hi], a) == LE.WordAt(b, lo + a)
  {
  }

  /** Byte by byte: header, the eighteen registers as words from 48 on, sregs from 192, fpu from 504, guest memory from
      920, and eight zeros at the end. */
  lemma {:induction false} ImageBytes(vm: VmState, size: Word, timestamp: Word, pad: Padding)
    requires size <= |vm.mem|
    ensures var img := Dump(vm, size, timestamp, pad);
            && |img| == 928 + size
            && img[0..8] == [0x47, 0x4D, 0x49, 0x4D, 0x56, 0, 0, 0] && img[8..12] == [1, 0, 0, 0]
            && LE.WordAt(img, 16) == size && img[24..28] == [0, 0, 0, 0]
            && LE.WordAt(img, 32) == timestamp && img[40..44] == [0, 0, 0, 0]
            && (forall i :: 0 <= i < 18 ==> LE.WordAt(img, 48 + 8 * i) == vm.regs[i])
            && img[192..504] == vm.sregs && img[504..920] == vm.fpu && img[920..920 + size] == vm.mem[..size]
            && img[920 + size..] == [0, 0, 0, 0, 0, 0, 0, 0]
  {
    hide LE.WordAt, Dump, Header, EncodeWords;
    var img, h := Dump(vm, size, timestamp, pad), Header(size, timestamp, pad);
    DumpLayout(vm, size, timestamp, pad);
    HeaderBytes(size, timestamp, pad);
    forall k | 0 <= k < 48
      ensures img[k] == h[k]
    {
      assert img[..48][k] == img[k];
    }
    PartWord(img, 0, 48, 16);
    PartWord(img, 0, 48, 32);
    assert img[0..48] == h;
    forall i | 0 <= i < 18
      ensures LE.WordAt(img, 48 + 8 * i) == vm.regs[i]
    {
      WordsAt(vm.regs, i);
      PartWord(img, 48, 192, 8 * i);
    }
    ImageTail(vm, size, timestamp, pad);
  }

  lemma {:induction false} ImageTail(vm: VmState, size: Word, timestamp: Word, pad: Padding)
    requires size <= |vm.mem|
    ensures Dump(vm, size, timestamp, pad)[920 + size..] == [0, 0, 0, 0, 0, 0, 0, 0]
  {
    hide Header, EncodeWords, LE.Encode;
    SmallFields();
  }

  /** Byte by byte, what an accepted and complete file puts into the VM. */
  lemma {:induction false} RestoredBytes(img: seq<byte>, before: VmState, size: Word)
    requires size <= |before.mem| && Restore(img, before, size).1 == 0
    ensures var vm := Restore(img, before, size).0;
            && |img| >= 928 + size && (forall i :: 0 <= i < 18 ==> vm.regs[i] == LE.WordAt(img, 48 + 8 * i))
            && vm.sregs == img[192..504] && vm.fpu == img[504..920] && vm.mem[..size] == img[920..920 + size]
            && vm.mem[size..] == before.mem[size..]
  {
    hide LE.WordAt, EncodeWords, DecodeWords, HeaderAccepted;
    var vm := Restore(img, before, size).0;
    BytesRoundTrip(img[48..192]);
    forall i | 0 <= i < 18
      ensures vm.regs[i] == LE.WordAt(img, 48 + 8 * i)
    {
      WordsAt(vm.regs, i);
      PartWord(img, 48, 192, 8 * i);
    }
  }
}
