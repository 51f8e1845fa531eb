/**
 * The final bit of jShiftInOnly and jShiftInOut as libgpiojtag.c writes it.
 *
 * Both kernels shift all bits but the last in chunks of at most eight and
 * then shift the last bit with the byte and mask the chunk loop left behind.
 * When the last chunk was a whole byte (numBits = 8m + 1, m >= 1) the mask
 * has moved past bit 7: the last TDI level is always low and the last TDO
 * sample has nowhere to go. jShiftInOut also stores its last byte one place
 * before the buffer when numBits is 1, and `numBits--` on a 32-bit unsigned
 * count wraps when numBits is 0.
 *
 * Kernels models the corrected kernels; the lemmas here say where the code as
 * written agrees with them and exhibit inputs where it does not.
 */
module ShiftDefects {
  import opened Bytes
  import opened Pins
  import opened Kernels

  // ---------------------------------------------------------------------------
  // numBits == 0

  /** `numBits--` on a uint32: the number of leading bits the chunk loop shifts. */
  function AsWrittenLeadingBits(numBits: nat): (r: nat)
    requires numBits < WORD
    ensures r < WORD
  {
    (numBits + WORD - 1) % WORD
  }

  /** For every count the callers pass, one bit is kept back for the final step. */
  lemma LeadingBitsAsIntended(numBits: nat)
    requires 1 <= numBits < WORD
    ensures AsWrittenLeadingBits(numBits) == numBits - 1
  {
  }

  /** A zero count wraps: the loop shifts 2^32 - 1 bits, reading 2^29 bytes of inData. */
  lemma LeadingBitsUnderflow()
    ensures AsWrittenLeadingBits(0) == WORD - 1
    ensures BitsToBytes(AsWrittenLeadingBits(0)) == 0x2000_0000
  {
  }

  // ---------------------------------------------------------------------------
  // The last TDI level

  /**
   * The level `inByte & mask` puts on TDI for the last bit: inByte is the
   * byte the last chunk loaded, and mask is 1 shifted once per bit of that
   * chunk. With no chunk at all (numBits == 1) it is bit 0 of the first byte.
   */
  function AsWrittenFinalTdi(data: seq<byte>, numBits: nat): bool
    requires numBits >= 1 && BitsToBytes(numBits) <= |data|
  {
    if numBits == 1 then Bit(data[0], 0)
    else Bit(data[(numBits - 2) / 8], (numBits - 2) % 8 + 1)
  }

  /** Whenever the last chunk is short, the level is the last bit of the run, as intended. */
  lemma FinalTdiAsIntended(data: seq<byte>, numBits: nat)
    requires numBits >= 1 && BitsToBytes(numBits) <= |data|
    requires numBits == 1 || numBits % 8 != 1
    ensures AsWrittenFinalTdi(data, numBits) == InBits(data, numBits)[numBits - 1]
  {
    if numBits > 1 {
      assert (numBits - 2) / 8 == (numBits - 1) / 8 && (numBits - 2) % 8 + 1 == (numBits - 1) % 8;
    }
  }

  /** After a whole last chunk the mask is 0x100, above every bit of a byte: TDI is driven low. */
  lemma FinalTdiLost(data: seq<byte>, numBits: nat)
    requires numBits >= 9 && numBits % 8 == 1 && BitsToBytes(numBits) <= |data|
    ensures !AsWrittenFinalTdi(data, numBits)
  {
    assert (numBits - 2) % 8 + 1 == 8;
    Pow2Byte(8);
    BitAboveWidth(data[(numBits - 2) / 8], 8, 8);
  }

  /** Nine bits of [0x00, 0x01]: bit 8 is set, but the code drives it low. */
  lemma FinalTdiCounterexample()
    ensures !AsWrittenFinalTdi([0, 1], 9)
    ensures InBits([0, 1], 9)[8]
  {
    FinalTdiLost([0, 1], 9);
  }

  /** jShiftInOnly as written: the leading bits as in the corrected kernel, then its own last level. */
  function AsWrittenInOnlyEvents(data: seq<byte>, numBits: nat): seq<Event>
    requires numBits >= 1 && BitsToBytes(numBits) <= |data|
  {
    InOnlyBody(InBits(data, numBits)[..numBits - 1]) + [Tms(true)] + [Tdi(AsWrittenFinalTdi(data, numBits))] + PULSE
  }

  /** Outside numBits = 8m + 1 (m >= 1) the code as written emits exactly the corrected events. */
  lemma InOnlyAsIntended(data: seq<byte>, numBits: nat)
    requires numBits >= 1 && BitsToBytes(numBits) <= |data|
    requires numBits == 1 || numBits % 8 != 1
    ensures AsWrittenInOnlyEvents(data, numBits) == InOnlyEvents(InBits(data, numBits))
  {
    FinalTdiAsIntended(data, numBits);
    InOnlyEventsLast([], InBits(data, numBits));
    assert [] + InOnlyEvents(InBits(data, numBits)) == InOnlyEvents(InBits(data, numBits));
  }

  // ---------------------------------------------------------------------------
  // The bytes jShiftInOut stores

  /** One store through outData, at an index relative to the caller's buffer. */
  datatype Write = Write(index: int, value: byte)

  /** What the buffer holds after a run of stores: the last value stored at each index. */
  function Stored(ws: seq<Write>): map<int, byte>
  {
    if ws == [] then map[] else Stored(ws[..|ws| - 1])[ws[|ws| - 1].index := ws[|ws| - 1].value]
  }

  /** The stores of the chunk loop: byte i of the packed samples at index i. */
  function ChunkWrites(bytes: seq<byte>): (r: seq<Write>)
    ensures |r| == |bytes|
  {
    seq(|bytes|, i requires 0 <= i < |bytes| => Write(i, bytes[i]))
  }

  lemma {:induction false} StoredChunks(bytes: seq<byte>)
    ensures Stored(ChunkWrites(bytes)) == map i | 0 <= i < |bytes| :: bytes[i]
    decreases |bytes|
  {
    if bytes != [] {
      var init := bytes[..|bytes| - 1];
      assert ChunkWrites(bytes)[..|bytes| - 1] == ChunkWrites(init);
      StoredChunks(init);
    }
  }

  /**
   * The stores jShiftInOut makes, given the levels it reads (one per bit):
   * `*++outData = outByte` after each chunk, starting from outData - 1, then
   * FinalWrite.
   */
  function AsWrittenOutWrites(samples: seq<bool>): (r: seq<Write>)
    requires |samples| >= 1
  {
    ChunkWrites(PackBits(samples[..|samples| - 1])) + [FinalWrite(samples)]
  }

  /**
   * `*outData = outByte` after the last bit: outData still points at the
   * last chunk's byte (one before the buffer if there was none), and the
   * last sample was ORed into that byte at `mask`, 1 shifted once per bit of
   * the last chunk, then truncated to eight bits. The bit at mask is clear
   * before the OR, so the OR is an addition.
   */
  function FinalWrite(samples: seq<bool>): Write
    requires |samples| >= 1
  {
    var n := |samples|;
    var chunks := PackBits(samples[..n - 1]);
    var outByte := if chunks == [] then 0 else chunks[|chunks| - 1];
    var mask := if n == 1 then 1 else Pow2((n - 2) % 8 + 1);
    Write(|chunks| - 1, (outByte + (if samples[n - 1] then mask else 0)) % 256)
  }

  /** The last store updates the index it names; the others are the chunk stores. */
  lemma StoredAfterLast(chunks: seq<byte>, w: Write)
    ensures Stored(ChunkWrites(chunks) + [w]) == (map i | 0 <= i < |chunks| :: chunks[i])[w.index := w.value]
  {
    assert (ChunkWrites(chunks) + [w])[..|chunks|] == ChunkWrites(chunks);
    StoredChunks(chunks);
  }

  /** Replacing the last byte of a buffer, seen as a map from index to byte. */
  lemma MapOfSnoc(bytes: seq<byte>, q: nat, v: byte)
    requires |bytes| == q + 1
    ensures (map i | 0 <= i < q + 1 :: (bytes[..q] + [v])[i]) == (map i | 0 <= i < q + 1 :: bytes[i])[q := v]
  {
  }

  /** ORing a sample into the next free bit of a short chunk's byte packs one more sample. */
  lemma OrNextBit(c: seq<bool>, x: bool, outByte: nat, mask: nat)
    requires |c| < 8 && outByte == PackByte(c) && mask == Pow2(|c|)
    ensures (outByte + (if x then mask else 0)) % 256 == PackByte(c + [x]) < 256
  {
    PackByteSnoc(c, x);
    PackByteFits(c + [x]);
  }

  /** Where the last bit of a run of n bits falls, when the last chunk is short. */
  lemma ShortLastChunk(n: nat, q: nat)
    requires n >= 2 && n % 8 != 1 && q == (n - 1) / 8
    ensures 1 <= n - 1 - 8 * q < 8 && (n - 2) % 8 + 1 == n - 1 - 8 * q
  {
  }

  /** With a short last chunk the final store completes the last byte with the last sample. */
  lemma FinalWriteAsIntended(samples: seq<bool>, q: nat)
    requires |samples| >= 2 && |samples| % 8 != 1 && q == (|samples| - 1) / 8
    ensures FinalWrite(samples) == Write(q, PackBits(samples)[q])
    ensures BitsToBytes(|samples|) == q + 1 == |PackBits(samples[..|samples| - 1])|
    ensures PackBits(samples) == PackBits(samples[..|samples| - 1])[..q] + [PackBits(samples)[q]]
  {
    var n := |samples|;
    var s, x := samples[..n - 1], samples[n - 1];
    assert samples == s + [x];
    ShortLastChunk(n, q);
    var c := s[8 * q..];
    PackBitsAppendBit(s, x);
    var chunks := PackBits(s);
    OrNextBit(c, x, chunks[q], Pow2((n - 2) % 8 + 1));
  }

  /**
   * Outside numBits = 1 and numBits = 8m + 1, the code as written leaves in
   * outData exactly the bytes the corrected kernel stores: the samples
   * packed LSB first, ceil(numBits/8) bytes from index 0.
   */
  lemma OutWritesAsIntended(samples: seq<bool>)
    requires |samples| >= 2 && |samples| % 8 != 1
    ensures Stored(AsWrittenOutWrites(samples)) == map i | 0 <= i < BitsToBytes(|samples|) :: PackBits(samples)[i]
  {
    var q := (|samples| - 1) / 8;
    var chunks := PackBits(samples[..|samples| - 1]);
    FinalWriteAsIntended(samples, q);
    var v := PackBits(samples)[q];
    StoredAfterLast(chunks, Write(q, v));
    MapOfSnoc(chunks, q, v);
  }

  /** numBits == 1: the only store goes to index -1, before the buffer; byte 0 is never written. */
  lemma OutWritesBeforeBuffer(samples: seq<bool>)
    requires |samples| == 1
    ensures var level: byte := if samples[0] then 1 else 0;
            Stored(AsWrittenOutWrites(samples)) == map[-1 := level]
    ensures 0 !in Stored(AsWrittenOutWrites(samples))
  {
    assert samples[..0] == [];
    assert PackBits([]) == [];
    StoredAfterLast([], FinalWrite(samples));
  }

  /** After a whole last chunk the final store rewrites byte m - 1 unchanged: 0x100 is truncated away. */
  lemma FinalWriteDropsSample(samples: seq<bool>, m: nat)
    requires m >= 1 && |samples| == 8 * m + 1
    ensures |PackBits(samples[..8 * m])| == m
    ensures FinalWrite(samples) == Write(m - 1, PackBits(samples[..8 * m])[m - 1])
  {
    BitsToBytesChunk(m, 1);
    assert (|samples| - 2) % 8 + 1 == 8;
    Pow2Byte(8);
  }

  /**
   * numBits = 8m + 1: byte m, which should hold the last sample, is never
   * written, and bytes 0 .. m-1 hold the leading samples only.
   */
  lemma OutWritesDropLast(samples: seq<bool>, m: nat)
    requires m >= 1 && |samples| == 8 * m + 1
    ensures Stored(AsWrittenOutWrites(samples)) == map i | 0 <= i < m :: PackBits(samples[..8 * m])[i]
    ensures BitsToBytes(|samples|) == m + 1 && m !in Stored(AsWrittenOutWrites(samples))
  {
    var chunks := PackBits(samples[..8 * m]);
    FinalWriteDropsSample(samples, m);
    BitsToBytesChunk(m, 1);
    StoredAfterLast(chunks, Write(m - 1, chunks[m - 1]));
    var stored := map i | 0 <= i < m :: chunks[i];
    assert stored[m - 1 := chunks[m - 1]] == stored;
  }

  /** Nine samples: outData[1], which should hold the ninth, is never written. */
  lemma OutWritesCounterexample()
    ensures var samples := [true, true, true, true, true, true, true, true, true];
            BitsToBytes(9) == 2 && 1 !in Stored(AsWrittenOutWrites(samples))
  {
    OutWritesDropLast([true, true, true, true, true, true, true, true, true], 1);
  }
}
