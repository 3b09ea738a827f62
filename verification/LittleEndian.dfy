/** Little-endian integers, as the host stores them in guest memory, ELF files and VM images. */
module LittleEndian {
  import opened Common
  import opened Word64

  function Pow256(n: nat): (r: nat)
    ensures r > 0
  {
    if n == 0 then 1 else 256 * Pow256(n - 1)
  }

  function Decode(b: seq<byte>): nat {
    if b == [] then 0 else b[0] + 256 * Decode(b[1..])
  }

  function Encode(w: nat, n: nat): (b: seq<byte>)
    ensures |b| == n
  {
    if n == 0 then [] else [w % 256] + Encode(w / 256, n - 1)
  }

  lemma {:induction false} DecodeEncode(w: nat, n: nat)
    requires w < Pow256(n)
    ensures Decode(Encode(w, n)) == w
  {
    if n > 0 {
      DecodeEncode(w / 256, n - 1);
      assert Encode(w, n)[1..] == Encode(w / 256, n - 1);
    }
  }

  lemma {:induction false} EncodeDecode(b: seq<byte>)
    ensures Decode(b) < Pow256(|b|)
    ensures Encode(Decode(b), |b|) == b
  {
    if b != [] {
      EncodeDecode(b[1..]);
      assert Decode(b) / 256 == Decode(b[1..]);
    }
  }

  lemma {:induction false} DecodeZeros(b: seq<byte>)
    requires forall k :: 0 <= k < |b| ==> b[k] == 0
    ensures Decode(b) == 0
  {
    if b != [] {
      DecodeZeros(b[1..]);
    }
  }

  lemma {:induction false} FieldWidths()
    ensures Pow256(4) == 0x1_0000_0000
    ensures Pow256(8) == 0x1_0000_0000_0000_0000
  {
    assert Pow256(2) == 0x1_0000;
    assert Pow256(6) == 0x1_0000_0000_0000;
  }

  lemma {:induction false} TwoBytes()
    ensures Pow256(2) == 0x1_0000
  {
  }

  // ---------- The order of the bytes ----------

  lemma {:induction false} DivideTwice(w: nat, p: nat)
    requires p > 0
    ensures w / 256 / p == w / (256 * p)
  {
    var q, r := w / 256 / p, w / 256 % p;
    assert w / 256 == q * p + r;
    assert q * (256 * p) == 256 * (q * p);
    DivModUnique(w, 256 * p, q, 256 * r + w % 256);
  }

  /** Byte k of an encoded number is its digit k in base 256, lowest first. */
  lemma {:induction false} EncodeDigit(w: nat, n: nat, k: nat)
    requires k < n
    ensures Encode(w, n)[k] == w / Pow256(k) % 256
    decreases k
  {
    if k > 0 {
      EncodeDigit(w / 256, n - 1, k - 1);
      DivideTwice(w, Pow256(k - 1));
    }
  }

  /** Digit k in base 256 of a decoded number is byte k. */
  lemma {:induction false} DecodeDigit(b: seq<byte>, k: nat)
    requires k < |b|
    ensures Decode(b) / Pow256(k) % 256 == b[k]
  {
    EncodeDecode(b);
    EncodeDigit(Decode(b), |b|, k);
  }

  /** The number that the eight bytes from index a on hold on a little-endian machine. */
  function WordAt(m: seq<byte>, a: nat): nat
    requires a + 8 <= |m|
  {
    m[a] as nat + 0x100 * m[a + 1] as nat + 0x1_0000 * m[a + 2] as nat + 0x100_0000 * m[a + 3] as nat
    + 0x1_0000_0000 * m[a + 4] as nat + 0x100_0000_0000 * m[a + 5] as nat
    + 0x1_0000_0000_0000 * m[a + 6] as nat + 0x100_0000_0000_0000 * m[a + 7] as nat
  }

  /** The same for two and four bytes. */
  function ShortAt(m: seq<byte>, a: nat): nat
    requires a + 2 <= |m|
  {
    m[a] as nat + 0x100 * m[a + 1] as nat
  }

  function IntAt(m: seq<byte>, a: nat): nat
    requires a + 4 <= |m|
  {
    m[a] as nat + 0x100 * m[a + 1] as nat + 0x1_0000 * m[a + 2] as nat + 0x100_0000 * m[a + 3] as nat
  }

  lemma {:induction false} DecodeTail(m: seq<byte>, a: nat, n: nat)
    requires n > 0 && a + n <= |m|
    ensures Decode(m[a..a + n]) == m[a] + 256 * Decode(m[a + 1..a + n])
  {
    assert m[a..a + n][1..] == m[a + 1..a + n];
  }

  lemma {:induction false} DecodesShort(m: seq<byte>, a: nat)
    requires a + 2 <= |m|
    ensures Decode(m[a..a + 2]) == ShortAt(m, a)
  {
    DecodeTail(m, a, 2);
    DecodeTail(m, a + 1, 1);
    assert Decode(m[a + 2..a + 2]) == 0;
  }

  lemma {:induction false} DecodesInt(m: seq<byte>, a: nat)
    requires a + 4 <= |m|
    ensures Decode(m[a..a + 4]) == IntAt(m, a)
  {
    DecodeTail(m, a, 4);
    DecodeTail(m, a + 1, 3);
    DecodesShort(m, a + 2);
  }

  lemma {:induction false} DecodesWord(m: seq<byte>, a: nat)
    requires a + 8 <= |m|
    ensures Decode(m[a..a + 8]) == WordAt(m, a)
  {
    DecodeTail(m, a, 8);
    DecodeTail(m, a + 1, 7);
    DecodeTail(m, a + 2, 6);
    DecodeTail(m, a + 3, 5);
    DecodesInt(m, a + 4);
  }

  lemma {:induction false} LowByte(m: seq<byte>, a: nat)
    requires a + 8 <= |m|
    ensures WordAt(m, a) % 256 == m[a]
  {
    DivModUnique(WordAt(m, a), 256,
                 m[a + 1] as nat + 0x100 * m[a + 2] as nat + 0x1_0000 * m[a + 3] as nat + 0x100_0000 * m[a + 4] as nat
                 + 0x1_0000_0000 * m[a + 5] as nat + 0x100_0000_0000 * m[a + 6] as nat
                 + 0x1_0000_0000_0000 * m[a + 7] as nat,
                 m[a]);
  }

  /** 0x123456789ABCDEF0 and its eight bytes. */
  lemma {:induction false} LowByteFirst()
    ensures Encode(0x1234_5678_9ABC_DEF0, 8) == [0xF0, 0xDE, 0xBC, 0x9A, 0x78, 0x56, 0x34, 0x12]
    ensures WordAt([0xF0, 0xDE, 0xBC, 0x9A, 0x78, 0x56, 0x34, 0x12], 0) == 0x1234_5678_9ABC_DEF0
  {
    var w: nat := 0x1234_5678_9ABC_DEF0;
    assert Encode(w, 8) == [w % 256] + Encode(w / 256, 7);
    assert Encode(0x12_3456_789A_BCDE, 7) == [0xDE, 0xBC] + Encode(0x12_3456_789A, 5);
    assert Encode(0x12_3456_789A, 5) == [0x9A, 0x78] + Encode(0x12_3456, 3);
    assert Encode(0x12_3456, 3) == [0x56, 0x34, 0x12];
  }
}
