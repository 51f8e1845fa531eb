/**
 * Bytes, bit numbering and byte-length arithmetic shared by the JTAG player.
 *
 * Bits are numbered from the least significant (bit 0). A run of n bits is
 * stored least-significant-bit first within each byte: bit k of the run is
 * bit k % 8 of byte k / 8. This is the order in which libgpiojtag shifts data
 * through TDI and collects samples from TDO.
 */
module Bytes {

  /** An unsigned 8-bit value (C `uint8`). */
  type byte = x: int | 0 <= x < 256

  /** An unsigned 32-bit value (C `uint32`). */
  const WORD: nat := 0x1_0000_0000

  function Pow2(k: nat): (r: nat)
    ensures r >= 1
  {
    if k == 0 then 1 else 2 * Pow2(k - 1)
  }

  function Min(a: int, b: int): int
  {
    if a <= b then a else b
  }

  /**
   * The `bitsToBytes` macro: (x >> 3) + (x & 7 ? 1 : 0). Its contract says it
   * is the ceiling of x / 8, the least byte count whose bits cover x bits.
   */
  function BitsToBytes(x: nat): (r: nat)
    ensures 8 * r >= x
    ensures r > 0 ==> 8 * (r - 1) < x
  {
    x / 8 + (if x % 8 != 0 then 1 else 0)
  }

  /** q whole bytes, and q whole bytes followed by 1 to 8 more bits. */
  lemma BitsToBytesChunk(q: nat, c: nat)
    requires 1 <= c <= 8
    ensures BitsToBytes(8 * q) == q && BitsToBytes(8 * q + c) == q + 1
  {
  }

  /** No smaller byte count holds x bits. */
  lemma BitsToBytesIsLeast(x: nat, n: nat)
    requires 8 * n >= x
    ensures BitsToBytes(x) <= n
  {
  }

  /** The boundary cases: sub-byte, exact byte and multi-byte lengths. */
  lemma BitsToBytesBoundaries()
    ensures BitsToBytes(0) == 0 && BitsToBytes(1) == 1 && BitsToBytes(7) == 1
    ensures BitsToBytes(8) == 1 && BitsToBytes(9) == 2
    ensures BitsToBytes(63) == 8 && BitsToBytes(64) == 8
  {
  }

  /** Bit k of x: the C test `x & (1 << k)` for a mask that is a single bit. */
  function Bit(x: nat, k: nat): bool
  {
    if k == 0 then x % 2 == 1 else Bit(x / 2, k - 1)
  }

  /** A value below 2^k has no bit set at k or above. */
  lemma {:induction false} BitAboveWidth(x: nat, m: nat, k: nat)
    requires x < Pow2(m) && m <= k
    ensures !Bit(x, k)
  {
    if k == 0 {
    } else if m == 0 {
      BitAboveWidth(x / 2, 0, k - 1);
    } else {
      BitAboveWidth(x / 2, m - 1, k - 1);
    }
  }

  /** Two values below 2^m that agree on bits 0 .. m-1 are equal. */
  lemma {:induction false} BitsDetermineValue(x: nat, y: nat, m: nat)
    requires x < Pow2(m) && y < Pow2(m)
    requires forall k :: 0 <= k < m ==> Bit(x, k) == Bit(y, k)
    ensures x == y
  {
    if m > 0 {
      assert Bit(x, 0) == Bit(y, 0);
      forall k | 0 <= k < m - 1
        ensures Bit(x / 2, k) == Bit(y / 2, k)
      {
        assert Bit(x, k + 1) == Bit(y, k + 1);
      }
      BitsDetermineValue(x / 2, y / 2, m - 1);
    }
  }

  /**
   * The byte whose bits 0 .. |s|-1 are the booleans of s, in order, and whose
   * higher bits are clear: how `outByte |= mask` accumulates TDO samples.
   */
  function PackByte(s: seq<bool>): (r: nat)
    ensures r < Pow2(|s|)
  {
    if s == [] then 0 else (if s[0] then 1 else 0) + 2 * PackByte(s[1..])
  }

  lemma {:induction false} PackByteBit(s: seq<bool>, k: nat)
    ensures Bit(PackByte(s), k) == (k < |s| && s[k])
  {
    if s == [] {
      BitAboveWidth(0, 0, k);
    } else if k == 0 {
    } else {
      assert PackByte(s) / 2 == PackByte(s[1..]);
      PackByteBit(s[1..], k - 1);
    }
  }

  /** Accumulating one more sample sets exactly the next bit. */
  lemma {:induction false} PackByteSnoc(s: seq<bool>, v: bool)
    ensures PackByte(s + [v]) == PackByte(s) + (if v then Pow2(|s|) else 0)
  {
    if s == [] {
      assert ([] + [v])[1..] == [];
    } else {
      assert (s + [v])[1..] == s[1..] + [v];
      PackByteSnoc(s[1..], v);
    }
  }

  lemma {:induction false} Pow2Byte(k: nat)
    requires k <= 8
    ensures Pow2(k) <= 256
    decreases 8 - k
  {
    if k < 8 {
      Pow2Byte(k + 1);
    } else {
      assert Pow2(8) == 256 by {
        assert Pow2(4) == 16;
      }
    }
  }

  /** A byte holds exactly the values below 2^8. */
  lemma Pow2Eight()
    ensures Pow2(8) == 256
  {
    assert Pow2(4) == 16;
  }

  /** Byte j of the packing of s: the samples 8j .. 8j+7 (fewer in a short last byte). */
  function ChunkByte(s: seq<bool>, j: nat): byte
    requires j < BitsToBytes(|s|)
  {
    var c := s[8 * j .. Min(8 * j + 8, |s|)];
    Pow2Byte(|c|);
    PackByte(c)
  }

  /** Bits packed least-significant-bit first into ceil(|s|/8) bytes. */
  function PackBits(s: seq<bool>): (r: seq<byte>)
    ensures |r| == BitsToBytes(|s|)
  {
    seq(BitsToBytes(|s|), j requires 0 <= j < BitsToBytes(|s|) => ChunkByte(s, j))
  }

  /** Bit k of the packed run is s[k]; the unused high bits of a short last byte are clear. */
  lemma PackBitsBit(s: seq<bool>, k: nat)
    requires k < 8 * BitsToBytes(|s|)
    ensures Bit(PackBits(s)[k / 8], k % 8) == (k < |s| && s[k])
  {
    var j, i := k / 8, k % 8;
    assert k == 8 * j + i && i < 8 && j < BitsToBytes(|s|);
    var hi := Min(8 * j + 8, |s|);
    assert 8 * j <= hi <= |s| && hi - 8 * j <= 8;
    var c := s[8 * j .. hi];
    assert PackBits(s)[j] == PackByte(c);
    PackByteBit(c, i);
    if i < |c| {
      SliceAt(s, 8 * j, hi, i);
      assert k < |s| && Bit(PackBits(s)[j], i) == s[k];
    } else {
      assert k >= |s| && !Bit(PackBits(s)[j], i);
    }
  }

  lemma SliceAt(s: seq<bool>, lo: nat, hi: nat, i: nat)
    requires lo <= hi <= |s| && i < hi - lo
    ensures s[lo..hi][i] == s[lo + i]
  {
  }

  /** At most eight bits pack into a byte. */
  lemma PackByteFits(c: seq<bool>)
    requires |c| <= 8
    ensures PackByte(c) < 256
  {
    Pow2Byte(|c|);
  }

  /** A whole byte of a run is unaffected by what follows the run. */
  lemma ChunkByteExtend(s: seq<bool>, c: seq<bool>, j: nat)
    requires 8 * j + 8 <= |s|
    ensures j < BitsToBytes(|s|) && j < BitsToBytes(|s + c|)
    ensures ChunkByte(s + c, j) == ChunkByte(s, j)
  {
    assert (s + c)[8 * j .. 8 * j + 8] == s[8 * j .. 8 * j + 8];
  }

  /** The byte starting at bit 8q, the end of the run s, holds the bits after s (at most eight). */
  lemma ChunkByteTail(s: seq<bool>, c: seq<bool>, q: nat)
    requires |s| == 8 * q && 1 <= |c| <= 8
    ensures q < BitsToBytes(|s + c|)
    ensures ChunkByte(s + c, q) == PackByte(c)
  {
    assert (s + c)[8 * q .. |s + c|] == c;
  }

  /** Byte j of a run extended by a chunk at byte boundary q, read off one byte at a time. */
  lemma PackBitsAppendChunkAt(s: seq<bool>, c: seq<bool>, q: nat, j: nat)
    requires |s| == 8 * q && 1 <= |c| <= 8 && j <= q
    ensures j < |PackBits(s + c)|
    ensures PackBits(s + c)[j] == if j < q then PackBits(s)[j] else PackByte(c)
  {
    if j < q {
      ChunkByteExtend(s, c, j);
      assert PackBits(s)[j] == ChunkByte(s, j);
    } else {
      ChunkByteTail(s, c, q);
    }
    assert PackBits(s + c)[j] == ChunkByte(s + c, j);
  }

  /** A whole byte's worth of samples after byte boundary q packs into one more byte. */
  lemma PackBitsAppendChunk(s: seq<bool>, c: seq<bool>, q: nat)
    requires |s| == 8 * q && 1 <= |c| <= 8
    ensures PackByte(c) < 256
    ensures PackBits(s + c) == PackBits(s) + [PackByte(c)]
  {
    PackByteFits(c);
    PackBitsAppendChunkEach(s, c, q);
    SameBytes(PackBits(s + c), PackBits(s) + [PackByte(c)]);
  }

  lemma PackBitsAppendChunkEach(s: seq<bool>, c: seq<bool>, q: nat)
    requires |s| == 8 * q && 1 <= |c| <= 8
    ensures PackByte(c) < 256
    ensures |PackBits(s + c)| == |PackBits(s) + [PackByte(c)]|
    ensures forall j :: 0 <= j < |PackBits(s + c)| ==> PackBits(s + c)[j] == (PackBits(s) + [PackByte(c)])[j]
  {
    PackByteFits(c);
    BitsToBytesChunk(q, |c|);
    forall j | 0 <= j < q + 1
      ensures PackBits(s + c)[j] == (PackBits(s) + [PackByte(c)])[j]
    {
      PackBitsAppendChunkAt(s, c, q, j);
    }
  }

  lemma SameBytes(a: seq<byte>, b: seq<byte>)
    requires |a| == |b| && forall j :: 0 <= j < |a| ==> a[j] == b[j]
    ensures a == b
  {
  }

  /**
   * One more sample lands in the last, partly filled byte (or starts a new one
   * at a byte boundary): the earlier whole bytes are unchanged.
   */
  lemma PackBitsAppendBit(s: seq<bool>, x: bool)
    ensures |s| / 8 < |PackBits(s + [x])| && |s| / 8 <= |PackBits(s)|
    ensures PackBits(s + [x]) == PackBits(s)[..|s| / 8] + [PackBits(s + [x])[|s| / 8]]
    ensures PackBits(s + [x])[|s| / 8] == PackByte(s[8 * (|s| / 8)..] + [x])
    ensures |s| % 8 != 0 ==> PackBits(s)[|s| / 8] == PackByte(s[8 * (|s| / 8)..])
  {
    var q := |s| / 8;
    var t := s + [x];
    assert BitsToBytes(|t|) == q + 1;
    assert t[8 * q .. |t|] == s[8 * q..] + [x];
    if |s| % 8 != 0 {
      assert q < BitsToBytes(|s|) && Min(8 * q + 8, |s|) == |s|;
      assert s[8 * q .. |s|] == s[8 * q..];
      assert PackBits(s)[q] == ChunkByte(s, q) == PackByte(s[8 * q..]);
    }
    forall j | 0 <= j < q
      ensures PackBits(t)[j] == PackBits(s)[j]
    {
      ChunkByteExtend(s, [x], j);
    }
  }

  /** The first n bits of data, in shift order. */
  function InBits(data: seq<byte>, n: nat): (r: seq<bool>)
    requires BitsToBytes(n) <= |data|
    ensures |r| == n
  {
    seq(n, k requires 0 <= k < n => Bit(data[k / 8], k % 8))
  }

  /** Only the first ceil(n/8) bytes of a buffer are shifted. */
  lemma InBitsPrefix(a: seq<byte>, b: seq<byte>, n: nat)
    requires BitsToBytes(n) <= |a| && BitsToBytes(n) <= |b|
    requires a[..BitsToBytes(n)] == b[..BitsToBytes(n)]
    ensures InBits(a, n) == InBits(b, n)
  {
    forall k | 0 <= k < n
      ensures InBits(a, n)[k] == InBits(b, n)[k]
    {
      assert a[k / 8] == a[..BitsToBytes(n)][k / 8];
    }
  }

  /** Packing a run of bits and shifting it back out yields the same bits. */
  lemma PackThenShift(s: seq<bool>)
    ensures InBits(PackBits(s), |s|) == s
  {
    forall k | 0 <= k < |s|
      ensures InBits(PackBits(s), |s|)[k] == s[k]
    {
      PackBitsBit(s, k);
    }
  }

  /** Shifting a buffer out and packing the bits again gives the buffer back, when every bit is used. */
  lemma {:induction false} ShiftThenPack(data: seq<byte>)
    ensures PackBits(InBits(data, 8 * |data|)) == data
  {
    var s := InBits(data, 8 * |data|);
    forall j | 0 <= j < |data|
      ensures PackBits(s)[j] == data[j]
    {
      forall b | 0 <= b < 8
        ensures Bit(PackBits(s)[j], b) == Bit(data[j], b)
      {
        PackBitsBit(s, 8 * j + b);
        assert (8 * j + b) / 8 == j && (8 * j + b) % 8 == b;
      }
      Pow2Eight();
      BitsDetermineValue(PackBits(s)[j], data[j], 8);
    }
  }

  /** Four bytes read most significant first, as `x = *p++; x <<= 8; x |= *p++; ...` does. */
  function BigEndian32(bs: seq<byte>): (r: nat)
    requires |bs| == 4
    ensures r < WORD
  {
    ((bs[0] as int * 256 + bs[1]) * 256 + bs[2]) * 256 + bs[3]
  }

  /** The four big-endian bytes of a 32-bit value. */
  function Encode32(v: nat): (r: seq<byte>)
    requires v < WORD
    ensures |r| == 4
  {
    [v / 0x100_0000, (v / 0x1_0000) % 256, (v / 256) % 256, v % 256]
  }

  lemma Encode32Decodes(v: nat)
    requires v < WORD
    ensures BigEndian32(Encode32(v)) == v
  {
    var bs := Encode32(v);
    assert bs[0] as int * 256 + bs[1] == v / 0x1_0000;
    assert (v / 0x1_0000) * 256 + bs[2] == v / 256;
  }

  lemma DecodeEncodes32(bs: seq<byte>)
    requires |bs| == 4
    ensures Encode32(BigEndian32(bs)) == bs
  {
    var v := BigEndian32(bs);
    assert v / 256 == (bs[0] as int * 256 + bs[1]) * 256 + bs[2];
    assert v / 0x1_0000 == bs[0] as int * 256 + bs[1];
    assert v / 0x100_0000 == bs[0];
  }

  /** Bitwise AND, the C `a & b`. */
  function And(a: nat, b: nat): (r: nat)
    ensures r <= a && r <= b
    decreases a
  {
    if a == 0 || b == 0 then 0
    else 2 * And(a / 2, b / 2) + (if a % 2 == 1 && b % 2 == 1 then 1 else 0)
  }

  lemma {:induction false} AndBit(a: nat, b: nat, k: nat)
    ensures Bit(And(a, b), k) == (Bit(a, k) && Bit(b, k))
    decreases k
  {
    if a == 0 || b == 0 {
      ZeroHasNoBits(k);
    } else {
      var h := And(a / 2, b / 2);
      var lo := if a % 2 == 1 && b % 2 == 1 then 1 else 0;
      assert And(a, b) == 2 * h + lo;
      Halves(And(a, b), h, lo);
      if k > 0 {
        AndBit(a / 2, b / 2, k - 1);
      }
    }
  }

  /** The halving that Bit and And step by. */
  lemma Halves(x: nat, h: nat, lo: nat)
    requires lo < 2 && x == 2 * h + lo
    ensures x / 2 == h && x % 2 == lo
  {
  }

  lemma {:induction false} ZeroHasNoBits(k: nat)
    ensures !Bit(0, k)
  {
    if k > 0 {
      ZeroHasNoBits(k - 1);
    }
  }

  /** Two bytes are equal under a mask exactly when they agree on every bit the mask selects. */
  lemma MaskedEqual(d: byte, e: byte, m: byte)
    ensures And(d, m) == And(e, m) <==> forall k :: 0 <= k < 8 && Bit(m, k) ==> Bit(d, k) == Bit(e, k)
  {
    Pow2Byte(8);
    if forall k :: 0 <= k < 8 && Bit(m, k) ==> Bit(d, k) == Bit(e, k) {
      forall k | 0 <= k < 8
        ensures Bit(And(d, m), k) == Bit(And(e, m), k)
      {
        AndBit(d, m, k);
        AndBit(e, m, k);
      }
      BitsDetermineValue(And(d, m), And(e, m), 8);
    } else {
      var k :| 0 <= k < 8 && Bit(m, k) && Bit(d, k) != Bit(e, k);
      AndBit(d, m, k);
      AndBit(e, m, k);
    }
  }
}
