/** Dump and restore as they work on an open file, the vCPU and guest memory. */
module VirtualMachine {
  import opened Common
  import opened Word64
  import opened Image

  /** A file with a cursor. Writing appends, as for a file opened for writing. */
  class File {
    var data: seq<byte>
    var pos: nat

    ghost predicate Valid()
      reads this
    {
      pos <= |data|
    }

    constructor (contents: seq<byte>)
      ensures Valid() && data == contents && pos == 0
    {
      data, pos := contents, 0;
    }

    /** Reads up to n bytes; the cursor stands behind them. */
    method Read(n: nat) returns (bytes: seq<byte>)
      requires Valid()
      modifies this`pos
      ensures pos == if old(pos) + n <= |data| then old(pos) + n else |data|
      ensures Valid() && bytes == data[old(pos)..pos]
    {
      var next := if pos + n <= |data| then pos + n else |data|;
      bytes := data[pos..next];
      pos := next;
    }

    method Append(bytes: seq<byte>)
      modifies this`data
      ensures data == old(data) + bytes
    {
      data := data + bytes;
    }
  }

  class Vm {
    var regs: Regs
    var sregs: Sregs
    var fpu: Fpu
    const memory: array<byte>

    ghost function Contents(): VmState
      reads this, memory
    {
      VmState(regs, sregs, fpu, memory[..])
    }

    constructor (r: Regs, s: Sregs, f: Fpu, m: array<byte>)
      ensures regs == r && sregs == s && fpu == f && memory == m
    {
      regs, sregs, fpu, memory := r, s, f, m;
    }

    // ---------- Dump ----------

    method DumpVcpuRegs(fp: File)
      modifies fp
      ensures fp.data == old(fp.data) + EncodeWords(regs)
    {
      fp.Append(EncodeWords(regs));
    }

    method DumpVcpuSregs(fp: File)
      modifies fp
      ensures fp.data == old(fp.data) + sregs
    {
      fp.Append(sregs);
    }

    method DumpVcpuFpu(fp: File)
      modifies fp
      ensures fp.data == old(fp.data) + fpu
    {
      fp.Append(fpu);
    }

    method DumpGuestMemory(size: Word, fp: File)
      requires size <= memory.Length
      modifies fp
      ensures fp.data == old(fp.data) + memory[..size]
    {
      fp.Append(memory[..size]);
    }

    /** No descriptor and no I/O request is tracked: both counters are written as zero. */
    method DumpCounter(fp: File)
      modifies fp
      ensures fp.data == old(fp.data) + LE.Encode(0, 4)
    {
      fp.Append(LE.Encode(0, 4));
    }

    method DumpVmState(size: Word, timestamp: Word, pad: Padding) returns (fp: File, rc: int)
      requires size <= memory.Length
      ensures fresh(fp) && rc == 0 && fp.data == Dump(Contents(), size, timestamp, pad)
    {
      hide Header, EncodeWords, LE.Encode;
      fp := new File([]);
      fp.Append(Header(size, timestamp, pad));
      DumpVcpuRegs(fp);
      DumpVcpuSregs(fp);
      DumpVcpuFpu(fp);
      DumpGuestMemory(size, fp);
      DumpCounter(fp);
      DumpCounter(fp);
      assert memory[..size] == memory[..][..size];
      rc := 0;
    }

    // ---------- Restore ----------

    method RestoreVcpuRegs(fp: File) returns (rc: int)
      requires fp.Valid()
      modifies this`regs, fp`pos
      ensures fp.Valid() && fp.pos == (if old(fp.pos) + 144 <= |fp.data| then old(fp.pos) + 144 else |fp.data|)
      ensures rc == if old(fp.pos) + 144 <= |fp.data| then 0 else -1
      ensures regs == if rc == 0 then DecodeWords(fp.data[old(fp.pos)..fp.pos]) else old(regs)
    {
      var buffer := fp.Read(144);
      if |buffer| != 144 { return -1; }
      regs := DecodeWords(buffer);
      rc := 0;
    }

    method RestoreVcpuSregs(fp: File) returns (rc: int)
      requires fp.Valid()
      modifies this`sregs, fp`pos
      ensures fp.Valid() && fp.pos == (if old(fp.pos) + 312 <= |fp.data| then old(fp.pos) + 312 else |fp.data|)
      ensures rc == if old(fp.pos) + 312 <= |fp.data| then 0 else -1
      ensures sregs == if rc == 0 then fp.data[old(fp.pos)..fp.pos] else old(sregs)
    {
      var buffer := fp.Read(312);
      if |buffer| != 312 { return -1; }
      sregs := buffer;
      rc := 0;
    }

    method RestoreVcpuFpu(fp: File) returns (rc: int)
      requires fp.Valid()
      modifies this`fpu, fp`pos
      ensures fp.Valid() && fp.pos == (if old(fp.pos) + 416 <= |fp.data| then old(fp.pos) + 416 else |fp.data|)
      ensures rc == if old(fp.pos) + 416 <= |fp.data| then 0 else -1
      ensures fpu == if rc == 0 then fp.data[old(fp.pos)..fp.pos] else old(fpu)
    {
      var buffer := fp.Read(416);
      if |buffer| != 416 { return -1; }
      fpu := buffer;
      rc := 0;
    }

    /** Guest memory is overwritten as far as the file goes, also when the file is too short. */
    method RestoreGuestMemory(size: Word, fp: File) returns (rc: int)
      requires fp.Valid() && size <= memory.Length
      modifies memory, fp`pos
      ensures fp.Valid() && fp.pos == (if old(fp.pos) + size <= |fp.data| then old(fp.pos) + size else |fp.data|)
      ensures rc == if old(fp.pos) + size <= |fp.data| then 0 else -1
      ensures memory[..] == Put(old(memory[..]), 0, fp.data[old(fp.pos)..fp.pos])
    {
      var buffer := fp.Read(size);
      forall k | 0 <= k < |buffer| {
        memory[k] := buffer[k];
      }
      rc := if |buffer| == size then 0 else -1;
    }

    method RestoreCounter(fp: File) returns (rc: int)
      requires fp.Valid()
      modifies fp`pos
      ensures fp.Valid() && fp.pos == (if old(fp.pos) + 4 <= |fp.data| then old(fp.pos) + 4 else |fp.data|)
      ensures rc == if old(fp.pos) + 4 <= |fp.data| then 0 else -1
    {
      var buffer := fp.Read(4);
      rc := if |buffer| == 4 then 0 else -1;
    }

    method CheckHeader(fp: File, size: Word) returns (ok: bool)
      requires fp.Valid() && fp.pos == 0
      modifies fp`pos
      ensures fp.Valid() && ok == HeaderAccepted(fp.data, size) && (ok ==> fp.pos == REGS_AT)
    {
      hide LE.Decode;
      var header := fp.Read(REGS_AT);
      if |header| != REGS_AT { return false; }
      assert header[0..8] == fp.data[0..8] && header[8..12] == fp.data[8..12] && header[16..24] == fp.data[16..24];
      if LE.Decode(header[0..8]) != MAGIC { return false; }
      if LE.Decode(header[8..12]) != VERSION { return false; }
      if LE.Decode(header[16..24]) != size { return false; }
      ok := true;
    }

    method RestoreVmState(fp: File, size: Word) returns (rc: int)
      requires fp.Valid() && fp.pos == 0 && size <= memory.Length
      modifies this, memory, fp
      ensures (Contents(), rc) == Restore(fp.data, old(Contents()), size)
      ensures fp.data == old(fp.data)
    {
      hide HeaderAccepted, DecodeWords;
      var ok := CheckHeader(fp, size);
      if !ok { return -1; }
      rc := RestoreVcpuRegs(fp);
      if rc < 0 { return -1; }
      rc := RestoreVcpuSregs(fp);
      if rc < 0 { return -1; }
      rc := RestoreVcpuFpu(fp);
      if rc < 0 { return -1; }
      rc := RestoreGuestMemory(size, fp);
      if rc < 0 { return -1; }
      rc := RestoreCounter(fp);
      if rc < 0 { return -1; }
      rc := RestoreCounter(fp);
    }
  }
}
