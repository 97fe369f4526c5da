/** Internet checksums: the folded one's-complement sum of RFC 1071, summed in either byte order. */
module NetChecksum {
  import opened MachineBytes

  const ONES: nat := 0xFFFF
  const PROTO_TCP: byte := 6

  /** Sums of 16-bit words, least and most significant byte first; an odd last byte is padded with a zero. */
  function LeSum(s: seq<byte>): nat {
    if |s| == 0 then 0 else if |s| == 1 then s[0] else s[0] + 256 * s[1] + LeSum(s[2..])
  }

  function BeSum(s: seq<byte>): nat {
    if |s| == 0 then 0 else if |s| == 1 then BeWord(s[0], 0) else BeWord(s[0], s[1]) + BeSum(s[2..])
  }

  function BeWord(high: byte, low: byte): nat { 256 * high as int + low as int }

  /** What each byte adds to the sums: one at an even place is the low half of a word, one at an odd place the high
      half, and the other way round in network order; a last byte without a partner is followed by zero. */
  lemma {:induction false} ByteWeights(s: seq<byte>, x: byte)
    ensures LeSum([]) == 0 && BeSum([]) == 0
    ensures LeSum(s + [x]) == LeSum(s) + if |s| % 2 == 0 then x else 256 * x
    ensures BeSum(s + [x]) == BeSum(s) + if |s| % 2 == 0 then 256 * x else x
    decreases |s|
  {
    if |s| == 0 {
      assert s + [x] == [x];
    } else if |s| > 1 {
      ByteWeights(s[2..], x);
      assert (s + [x])[2..] == s[2..] + [x];
    }
  }

  /** The number of one's-complement arithmetic that a sum stands for: sums are equal modulo 2^16 - 1, and only zero
      stands for zero. */
  function Residue(x: nat): (r: nat)
    ensures r <= ONES
  {
    if x == 0 then 0 else (x - 1) % ONES + 1
  }

  function Checksum(s: seq<byte>): (r: nat)
    ensures r <= ONES
  {
    ONES - Residue(LeSum(s))
  }

  function Swap16(x: nat): nat
    requires x <= ONES
  {
    x % 256 * 256 + x / 256
  }

  // ---- Folding ----

  lemma FoldStep(x: nat)
    requires x > ONES
    ensures 0 < x % 0x1_0000 + x / 0x1_0000 < x && Residue(x % 0x1_0000 + x / 0x1_0000) == Residue(x)
  {
    var q, r := x / 0x1_0000, x % 0x1_0000;
    assert x - 1 == (q + r - 1) + q * ONES;
    ModAdd(q + r - 1, q);
  }

  lemma ModAdd(a: nat, q: nat)
    ensures (a + q * ONES) % ONES == a % ONES
  {
  }

  method Fold(total: nat) returns (sum: nat)
    ensures sum == Residue(total)
  {
    sum := total;
    while sum / 0x1_0000 != 0
      invariant Residue(sum) == Residue(total)
      decreases sum
    {
      FoldStep(sum);
      sum := sum % 0x1_0000 + sum / 0x1_0000;
    }
  }

  /** The sum of less than 2^48 bytes does not overflow 64 bits. */
  lemma {:induction false} SumFits(s: seq<byte>)
    ensures LeSum(s) <= ONES * ((|s| + 1) / 2)
    ensures |s| < 0x1_0000_0000_0000 ==> LeSum(s) < WORD
  {
    if |s| > 1 { SumFits(s[2..]); }
  }

  /** The checksum of a buffer, summed least significant byte first. */
  method IpChecksum(data: seq<byte>) returns (r: nat)
    ensures r == Checksum(data)
  {
    var sum: nat := 0;
    assert data[0..] == data;
    for i := 0 to |data| / 2
      invariant sum + LeSum(data[2 * i..]) == LeSum(data)
    {
      assert data[2 * i..][2..] == data[2 * (i + 1)..];
      sum := sum + Rd16(data, 2 * i);
    }
    if |data| % 2 == 1 { sum := sum + data[|data| - 1]; }
    sum := Fold(sum);
    r := ONES - sum;
  }

  // ---- A buffer that carries its checksum sums to zero ----

  /** A word stored in a buffer, least significant byte first. */
  function Store16(s: seq<byte>, at: nat, v: nat): (r: seq<byte>)
    requires at + 1 < |s| && v <= ONES
    ensures |r| == |s|
  {
    s[at := v % 256][at + 1 := v / 256]
  }

  lemma {:induction false} SumWithWord(s: seq<byte>, at: nat, v: nat)
    requires at % 2 == 0 && at + 1 < |s| && v <= ONES
    ensures LeSum(Store16(s, at, v)) == LeSum(s) - Rd16(s, at) + v
    ensures LeSum(s) >= Rd16(s, at)
  {
    var t := Store16(s, at, v);
    if at == 0 {
      assert t[2..] == s[2..];
    } else {
      SumWithWord(s[2..], at - 2, v);
      assert t[2..] == Store16(s[2..], at - 2, v);
    }
  }

  lemma ResidueFills(x: nat)
    ensures Residue(x + (ONES - Residue(x))) == ONES
  {
    if x > 0 {
      var q := (x - 1) / ONES;
      assert x + (ONES - Residue(x)) - 1 == ONES - 1 + q * ONES;
      ModAdd(ONES - 1, q);
    }
  }

  /** Storing the checksum of a buffer, taken with the checksum's own word zero, in that word makes the checksum of the
      whole zero. */
  lemma StoredVerifies(s: seq<byte>, at: nat)
    requires at % 2 == 0 && at + 1 < |s| && Rd16(s, at) == 0
    ensures Checksum(Store16(s, at, Checksum(s))) == 0
  {
    SumWithWord(s, at, Checksum(s));
    ResidueFills(LeSum(s));
  }

  /** Changing one word of a buffer whose checksum is zero makes it another, unless all its bits are flipped from all
      zeros or all ones. */
  lemma ChangeShows(s: seq<byte>, at: nat, v: nat)
    requires at % 2 == 0 && at + 1 < |s| && v <= ONES && v != Rd16(s, at)
    requires Checksum(s) == 0 && Checksum(Store16(s, at, v)) == 0
    ensures (v == 0 && Rd16(s, at) == ONES) || (v == ONES && Rd16(s, at) == 0)
  {
    SumWithWord(s, at, v);
    FullResidue(LeSum(s));
    FullResidue(LeSum(Store16(s, at, v)));
    Apart(LeSum(s) / ONES, LeSum(Store16(s, at, v)) / ONES, Rd16(s, at), v);
  }

  lemma FullResidue(x: nat)
    requires Residue(x) == ONES
    ensures x == x / ONES * ONES
  {
  }

  lemma Apart(p: nat, q: nat, w: nat, v: nat)
    requires v - w == (q - p) * ONES && v <= ONES && w <= ONES && v != w
    ensures (v == 0 && w == ONES) || (v == ONES && w == 0)
  {
  }

  // ---- Byte order ----

  /** Summing in the other byte order multiplies the sum by 256. */
  lemma {:induction false} OrdersAgree(s: seq<byte>)
    ensures LeSum(s) % ONES == (256 * BeSum(s)) % ONES
    ensures LeSum(s) == 0 <==> BeSum(s) == 0
  {
    if |s| == 1 {
      ModAdd(s[0], s[0]);
    } else if |s| > 1 {
      OrdersAgree(s[2..]);
      var a, b, x, y := s[0], s[1], LeSum(s[2..]), BeSum(s[2..]);
      assert 256 * BeSum(s) == (a + 256 * b + 256 * y) + a * ONES;
      ModAdd(a + 256 * b + 256 * y, a);
      ModSum(a + 256 * b, x, 256 * y);
    }
  }

  lemma ModSum(a: nat, x: nat, y: nat)
    requires x % ONES == y % ONES
    ensures (a + x) % ONES == (a + y) % ONES
  {
    if x <= y {
      assert y == x + (y / ONES - x / ONES) * ONES;
      ModAdd(a + x, y / ONES - x / ONES);
    } else {
      assert x == y + (x / ONES - y / ONES) * ONES;
      ModAdd(a + y, x / ONES - y / ONES);
    }
  }

  lemma SwapIs(x: nat)
    requires x <= ONES
    ensures Swap16(x) <= ONES && Swap16(x) % ONES == (256 * x) % ONES && (Swap16(x) == 0 <==> x == 0)
    ensures Swap16(ONES - x) == ONES - Swap16(x)
  {
    var h, l := x / 256, x % 256;
    assert 256 * x == Swap16(x) + h * ONES;
    ModAdd(Swap16(x), h);
    assert (ONES - x) / 256 == 255 - h && (ONES - x) % 256 == 255 - l;
  }

  lemma SameResidue(x: nat, y: nat)
    requires x % ONES == y % ONES && (x == 0 <==> y == 0)
    ensures Residue(x) == Residue(y)
  {
    if x > 0 {
      if x <= y {
        assert y - 1 == x - 1 + (y / ONES - x / ONES) * ONES;
        ModAdd(x - 1, y / ONES - x / ONES);
      } else {
        assert x - 1 == y - 1 + (x / ONES - y / ONES) * ONES;
        ModAdd(y - 1, x / ONES - y / ONES);
      }
    }
  }

  lemma ResidueIs(x: nat)
    ensures Residue(x) % ONES == x % ONES && (Residue(x) == 0 <==> x == 0)
  {
    if x > 0 {
      assert x == Residue(x) + (x - 1) / ONES * ONES;
      ModAdd(Residue(x), (x - 1) / ONES);
    }
  }

  lemma OwnResidue(x: nat)
    requires x <= ONES
    ensures Residue(x) == x
  {
  }

  lemma SwapResidue(x: nat, le: nat, be: nat)
    requires le % ONES == (256 * be) % ONES && (le == 0 <==> be == 0) && x == Residue(be)
    ensures Swap16(ONES - x) == ONES - Residue(le)
  {
    ResidueIs(be);
    SwapIs(x);
    ModTimes(x, be);
    SameResidue(le, Swap16(x));
    OwnResidue(Swap16(x));
  }

  /** The sum taken most significant byte first and swapped is the checksum. */
  lemma SwappedIsChecksum(s: seq<byte>)
    ensures Swap16(ONES - Residue(BeSum(s))) == Checksum(s)
  {
    OrdersAgree(s);
    SwapResidue(Residue(BeSum(s)), LeSum(s), BeSum(s));
  }

  lemma ModTimes(x: nat, y: nat)
    requires x % ONES == y % ONES
    ensures (256 * x) % ONES == (256 * y) % ONES
  {
    if x <= y {
      assert 256 * y == 256 * x + (256 * (y / ONES - x / ONES)) * ONES;
      ModAdd(256 * x, 256 * (y / ONES - x / ONES));
    } else {
      assert 256 * x == 256 * y + (256 * (x / ONES - y / ONES)) * ONES;
      ModAdd(256 * y, 256 * (x / ONES - y / ONES));
    }
  }

  // ---- TCP ----

  type Ip = s: seq<byte> | |s| == 4 witness [0, 0, 0, 0]

  /** The header that a TCP segment is summed with: addresses, protocol and length. */
  function PseudoHeader(src: Ip, dst: Ip, len: nat): (r: seq<byte>)
    ensures |r| == 12
  {
    src + dst + LengthPart(len)
  }

  function LengthPart(len: nat): (r: seq<byte>)
    ensures |r| == 4
  {
    [0, PROTO_TCP, len / 256 % 256, len % 256]
  }

  lemma {:induction false} BeConcat(a: seq<byte>, b: seq<byte>)
    requires |a| % 2 == 0
    ensures BeSum(a + b) == BeSum(a) + BeSum(b)
  {
    if |a| == 0 {
      assert a + b == b;
    } else {
      BeConcat(a[2..], b);
      assert (a + b)[2..] == a[2..] + b;
    }
  }

  lemma BeFour(s: seq<byte>)
    requires |s| == 4
    ensures BeSum(s) == BeWord(s[0], s[1]) + BeWord(s[2], s[3])
  {
    var t := s[2..];
    assert t[2..] == [] && BeSum(t) == BeWord(t[0], t[1]) + BeSum(t[2..]);
  }

  lemma PseudoSum(src: Ip, dst: Ip, len: nat, seg: seq<byte>)
    ensures BeSum(PseudoHeader(src, dst, len) + seg) ==
            BeWord(src[0], src[1]) + BeWord(src[2], src[3]) + BeWord(dst[0], dst[1]) + BeWord(dst[2], dst[3]) +
            PROTO_TCP + len % 0x1_0000 + BeSum(seg)
  {
    var tail := LengthPart(len);
    BeConcat(PseudoHeader(src, dst, len), seg);
    BeConcat(src + dst, tail);
    BeConcat(src, dst);
    BeFour(src);
    BeFour(dst);
    BeFour(tail);
    LengthSum(len);
  }

  lemma LengthSum(len: nat)
    ensures 256 * (len / 256 % 256) + len % 256 == len % 0x1_0000
  {
  }

  /** The checksum of a TCP segment, summed most significant byte first: that of the pseudo header and the segment. */
  method TcpChecksum(src: Ip, dst: Ip, seg: seq<byte>) returns (r: nat)
    ensures r == Checksum(PseudoHeader(src, dst, |seg|) + seg)
  {
    var sum := BeWord(src[0], src[1]);
    sum := sum + BeWord(src[2], src[3]);
    sum := sum + BeWord(dst[0], dst[1]);
    sum := sum + BeWord(dst[2], dst[3]);
    sum := sum + PROTO_TCP;
    sum := sum + |seg| % 0x1_0000;
    ghost var header := sum;
    assert seg[0..] == seg;
    for i := 0 to |seg| / 2
      invariant sum + BeSum(seg[2 * i..]) == header + BeSum(seg)
    {
      assert seg[2 * i..][2..] == seg[2 * (i + 1)..];
      sum := sum + Swap16(Rd16(seg, 2 * i));
    }
    if |seg| % 2 == 1 { sum := sum + BeWord(seg[|seg| - 1], 0); }
    PseudoSum(src, dst, |seg|, seg);
    sum := Fold(sum);
    SwappedIsChecksum(PseudoHeader(src, dst, |seg|) + seg);
    r := Swap16(ONES - sum);
  }

  /** A segment that carries its checksum verifies: with the pseudo header its checksum is zero. */
  lemma SegmentVerifies(src: Ip, dst: Ip, seg: seq<byte>, at: nat)
    requires at % 2 == 0 && at + 1 < |seg| && Rd16(seg, at) == 0
    ensures var h := PseudoHeader(src, dst, |seg|); Checksum(h + Store16(seg, at, Checksum(h + seg))) == 0
  {
    var h := PseudoHeader(src, dst, |seg|);
    StoredVerifies(h + seg, 12 + at);
    assert Store16(h + seg, 12 + at, Checksum(h + seg)) == h + Store16(seg, at, Checksum(h + seg));
  }
}
