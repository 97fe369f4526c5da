/** Bytes, machine words, and little-endian fields. */
module MachineBytes {

  type byte = x: int | 0 <= x < 256

  type u32 = x: int | 0 <= x < 0x1_0000_0000

  const WORD: nat := 0x1_0000_0000_0000_0000

  function W32(x: int): u32 { x % 0x1_0000_0000 }

  function W64(x: int): nat { x % WORD }

  /** Little-endian 16-bit read at an offset. */
  function Rd16(s: seq<byte>, off: nat): nat
    requires off + 2 <= |s|
  {
    s[off] as int + 256 * s[off + 1] as int
  }

  /** Little-endian 32-bit read at an offset. */
  function Rd32(s: seq<byte>, off: nat): nat
    requires off + 4 <= |s|
  {
    s[off] as int + 256 * s[off + 1] as int + 0x1_0000 * s[off + 2] as int + 0x100_0000 * s[off + 3] as int
  }

  /** Little-endian 64-bit read at an offset. */
  function Rd64(s: seq<byte>, off: nat): (r: nat)
    requires off + 8 <= |s|
    ensures r < WORD
  {
    Rd32(s, off) + 0x1_0000_0000 * Rd32(s, off + 4)
  }

  /** The number that bytes stand for, least significant first. */
  function Number(bytes: seq<byte>): nat { if |bytes| == 0 then 0 else bytes[0] as int + 256 * Number(bytes[1..]) }

  lemma PairNumber(bytes: seq<byte>)
    requires |bytes| >= 2
    ensures Number(bytes) == bytes[0] as int + 256 * bytes[1] as int + 0x1_0000 * Number(bytes[2..])
  {
    assert bytes[1..][1..] == bytes[2..];
  }

  /** What the reads give is what the bytes stand for. */
  lemma ReadsNumbers(s: seq<byte>, off: nat)
    ensures off + 2 <= |s| ==> Rd16(s, off) == Number(s[off..off + 2])
    ensures off + 4 <= |s| ==> Rd32(s, off) == Number(s[off..off + 4])
    ensures off + 8 <= |s| ==> Rd64(s, off) == Number(s[off..off + 8])
  {
    if off + 2 <= |s| {
      PairNumber(s[off..off + 2]);
      assert s[off..off + 2][2..] == [];
    }
    if off + 4 <= |s| { FourNumber(s[off..off + 4]); }
    if off + 8 <= |s| {
      FourNumber(s[off..off + 8]);
      FourNumber(s[off + 4..off + 8]);
      assert s[off..off + 8][4..] == s[off + 4..off + 8];
    }
  }

  lemma FourNumber(bytes: seq<byte>)
    requires |bytes| >= 4
    ensures Number(bytes) == Rd32(bytes, 0) + 0x1_0000_0000 * Number(bytes[4..])
  {
    PairNumber(bytes);
    PairNumber(bytes[2..]);
    assert bytes[2..][2..] == bytes[4..];
  }
}
