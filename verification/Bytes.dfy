/** Bytes, 32-bit words, sectors, and the little-endian loads and stores of ff.c. */
module Bytes {
  import opened Arith

  type byte = x: int | 0 <= x < 0x100
  type u32 = x: int | 0 <= x < 0x1_0000_0000

  /** Size of a sector: the volume is configured with FF_MIN_SS == FF_MAX_SS == 512. */
  const SS: nat := 512

  /** DWORD value with all bits set: "disk error" as a cluster status, "no sector" as an LBA. */
  const ALL_ONES: u32 := 0xFFFF_FFFF

  type Sector = s: seq<byte> | |s| == SS witness seq(SS, _ => 0)

  /** Unsigned 32-bit subtraction, wrapping below zero. */
  function Sub32(a: u32, b: u32): u32 {
    (a - b) % 0x1_0000_0000
  }

  /** Unsigned 32-bit addition, wrapping above 2^32 - 1. */
  function Add32(a: u32, b: u32): u32 {
    (a + b) % 0x1_0000_0000
  }

  /** Byte number k (0 is the least significant) of a DWORD: the cast (BYTE)(v >> 8*k). */
  function ByteOf(v: nat, k: nat): byte
    requires k < 4
  {
    match k
    case 0 => v % 0x100
    case 1 => v / 0x100 % 0x100
    case 2 => v / 0x1_0000 % 0x100
    case _ => v / 0x100_0000 % 0x100
  }

  function Word(b0: byte, b1: byte): (w: u32)
    ensures w < 0x1_0000
  {
    b0 + 0x100 * b1
  }

  function DWord(b0: byte, b1: byte, b2: byte, b3: byte): u32 {
    b0 + 0x100 * b1 + 0x1_0000 * b2 + 0x100_0000 * b3
  }

  /** Storing a DWORD byte by byte and loading it again gives the DWORD back. */
  lemma StoreLoadDWord(v: u32)
    ensures DWord(ByteOf(v, 0), ByteOf(v, 1), ByteOf(v, 2), ByteOf(v, 3)) == v
  {
    var h := v / 0x100;
    var h2 := h / 0x100;
    assert h == v / 0x100 && v == 0x100 * h + ByteOf(v, 0);
    assert h2 == v / 0x1_0000 && h == 0x100 * h2 + ByteOf(v, 1);
    assert h2 / 0x100 == v / 0x100_0000 && h2 == 0x100 * (h2 / 0x100) + ByteOf(v, 2);
  }

  /** The same for a WORD, which keeps only the low 16 bits. */
  lemma StoreLoadWord(v: u32)
    ensures Word(ByteOf(v, 0), ByteOf(v, 1)) == v % 0x1_0000
  {
    var h := v / 0x100;
    assert v == 0x100 * h + ByteOf(v, 0) && h == 0x100 * (h / 0x100) + ByteOf(v, 1);
    ModUnique(v, 0x1_0000, h / 0x100, Word(ByteOf(v, 0), ByteOf(v, 1)));
  }

  // ld_word and ld_dword, in a sector.

  function LdWord(s: Sector, o: nat): (w: u32)
    requires o + 1 < SS
    ensures w < 0x1_0000
  {
    Word(s[o], s[o + 1])
  }

  function LdDWord(s: Sector, o: nat): u32
    requires o + 3 < SS
  {
    DWord(s[o], s[o + 1], s[o + 2], s[o + 3])
  }

  // st_word and st_dword, in a buffer.

  method StWord(win: array<byte>, at: nat, v: u32)
    requires at + 2 <= win.Length
    modifies win
    ensures win[at] == ByteOf(v, 0) && win[at + 1] == ByteOf(v, 1)
    ensures forall i | 0 <= i < win.Length && i != at && i != at + 1 :: win[i] == old(win[i])
  {
    win[at], win[at + 1] := ByteOf(v, 0), ByteOf(v, 1);
  }

  method StDWord(win: array<byte>, at: nat, v: u32)
    requires at + 4 <= win.Length
    modifies win
    ensures win[at] == ByteOf(v, 0) && win[at + 1] == ByteOf(v, 1) && win[at + 2] == ByteOf(v, 2) && win[at + 3] == ByteOf(v, 3)
    ensures forall i | 0 <= i < win.Length && !(at <= i < at + 4) :: win[i] == old(win[i])
  {
    win[at], win[at + 1], win[at + 2], win[at + 3] := ByteOf(v, 0), ByteOf(v, 1), ByteOf(v, 2), ByteOf(v, 3);
  }
}
