/**
 * The two buffer helpers the XSDRTDO record relies on: tdoCompare, which
 * checks the TDO bytes read back against the expected bytes under a mask,
 * and dumpSimple, which renders a buffer as upper-case hex for the mismatch
 * message.
 */
module Compare {
  import opened Bytes

  /** The result of Unhex, which reads a dump back and fails on a character that is not a hex digit. */
  datatype Option<T> = None | Some(value: T)

  // ---------------------------------------------------------------------------
  // tdoCompare

  /** Byte i of the data differs from byte i of the expectation on some bit the mask selects. */
  predicate DiffersAt(data: seq<byte>, mask: seq<byte>, expected: seq<byte>, i: nat)
    requires i < |data| && i < |mask| && i < |expected|
  {
    And(data[i], mask[i]) != And(expected[i], mask[i])
  }

  /** Some byte among the first n differs under the mask. */
  predicate Mismatch(data: seq<byte>, mask: seq<byte>, expected: seq<byte>, n: nat)
    requires n <= |data| && n <= |mask| && n <= |expected|
  {
    exists i :: 0 <= i < n && DiffersAt(data, mask, expected, i)
  }

  /**
   * tdoCompare: true means mismatch. It scans the first numBytes bytes in
   * order and stops at the first one that differs under the mask; `scanned`
   * is the index it stopped at (numBytes when it found none). It only reads.
   */
  method TdoCompare(tdoData: array<byte>, tdoMask: array<byte>, tdoExpected: array<byte>, numBytes: nat)
    returns (mismatch: bool, ghost scanned: nat)
    requires numBytes <= tdoData.Length && numBytes <= tdoMask.Length && numBytes <= tdoExpected.Length
    ensures mismatch == Mismatch(tdoData[..], tdoMask[..], tdoExpected[..], numBytes)
    ensures mismatch ==> scanned < numBytes && DiffersAt(tdoData[..], tdoMask[..], tdoExpected[..], scanned)
    ensures !mismatch ==> scanned == numBytes
    ensures forall i :: 0 <= i < scanned ==> !DiffersAt(tdoData[..], tdoMask[..], tdoExpected[..], i)
  {
    var i := 0;
    while i < numBytes
      invariant i <= numBytes
      invariant forall k :: 0 <= k < i ==> !DiffersAt(tdoData[..], tdoMask[..], tdoExpected[..], k)
    {
      if And(tdoData[i], tdoMask[i]) != And(tdoExpected[i], tdoMask[i]) {
        assert DiffersAt(tdoData[..], tdoMask[..], tdoExpected[..], i);
        return true, i;
      }
      i := i + 1;
    }
    return false, i;
  }

  /** A mismatch is a bit the mask selects on which the data and the expectation disagree. */
  lemma MismatchIffBitDiffers(data: seq<byte>, mask: seq<byte>, expected: seq<byte>, n: nat)
    requires n <= |data| && n <= |mask| && n <= |expected|
    ensures Mismatch(data, mask, expected, n)
        <==> exists i, k :: 0 <= i < n && 0 <= k < 8 && Bit(mask[i], k) && Bit(data[i], k) != Bit(expected[i], k)
  {
    if Mismatch(data, mask, expected, n) {
      var i :| 0 <= i < n && DiffersAt(data, mask, expected, i);
      MaskedEqual(data[i], expected[i], mask[i]);
      var k :| 0 <= k < 8 && Bit(mask[i], k) && Bit(data[i], k) != Bit(expected[i], k);
    }
    if exists i, k :: 0 <= i < n && 0 <= k < 8 && Bit(mask[i], k) && Bit(data[i], k) != Bit(expected[i], k) {
      var i, k :| 0 <= i < n && 0 <= k < 8 && Bit(mask[i], k) && Bit(data[i], k) != Bit(expected[i], k);
      AndBit(data[i], mask[i], k);
      AndBit(expected[i], mask[i], k);
      assert DiffersAt(data, mask, expected, i);
    }
  }

  /** An all-zero mask selects nothing: whatever is read back, tdoCompare reports a match. */
  lemma ZeroMaskMatches(data: seq<byte>, mask: seq<byte>, expected: seq<byte>, n: nat)
    requires n <= |data| && n <= |mask| && n <= |expected|
    requires forall i :: 0 <= i < n ==> mask[i] == 0
    ensures !Mismatch(data, mask, expected, n)
  {
    forall i | 0 <= i < n
      ensures !DiffersAt(data, mask, expected, i)
    {
      assert And(data[i], 0) == 0 == And(expected[i], 0);
    }
  }

  /** Reading back exactly the expected bytes is a match under any mask. */
  lemma ExpectedMatches(expected: seq<byte>, mask: seq<byte>, n: nat)
    requires n <= |mask| && n <= |expected|
    ensures !Mismatch(expected, mask, expected, n)
  {
  }

  /** Only the first n bytes take part: what follows them never changes the verdict. */
  lemma MismatchPrefix(data: seq<byte>, mask: seq<byte>, expected: seq<byte>, n: nat,
                       data': seq<byte>, mask': seq<byte>, expected': seq<byte>)
    requires n <= |data| && n <= |mask| && n <= |expected|
    requires n <= |data'| && n <= |mask'| && n <= |expected'|
    requires data[..n] == data'[..n] && mask[..n] == mask'[..n] && expected[..n] == expected'[..n]
    ensures Mismatch(data, mask, expected, n) == Mismatch(data', mask', expected', n)
  {
    forall i | 0 <= i < n
      ensures DiffersAt(data, mask, expected, i) == DiffersAt(data', mask', expected', i)
    {
      assert data[i] == data[..n][i] && data'[i] == data'[..n][i];
      assert mask[i] == mask[..n][i] && mask'[i] == mask'[..n][i];
      assert expected[i] == expected[..n][i] && expected'[i] == expected'[..n][i];
    }
  }

  // ---------------------------------------------------------------------------
  // dumpSimple

  /** The `nibbles` table. */
  const NIBBLES: seq<char> := "0123456789ABCDEF"

  /** Two digits per byte, high nibble first. */
  function Hex(bs: seq<byte>): (r: seq<char>)
    ensures |r| == 2 * |bs|
  {
    if bs == [] then [] else Hex(bs[..|bs| - 1]) + [NIBBLES[bs[|bs| - 1] / 16], NIBBLES[bs[|bs| - 1] % 16]]
  }

  /** The value of a digit of NIBBLES, or none for any other character. */
  function DigitValue(c: char): (r: int)
    ensures -1 <= r < 16
    ensures r >= 0 ==> NIBBLES[r] == c
  {
    if '0' <= c <= '9' then c as int - '0' as int
    else if 'A' <= c <= 'F' then c as int - 'A' as int + 10
    else -1
  }

  /** Reading the digits back, two per byte; none if a character is not a digit or one is left over. */
  function Unhex(s: seq<char>): (r: Option<seq<byte>>)
    decreases |s|
  {
    if s == [] then Some([])
    else if |s| == 1 then None
    else
      var hi, lo := DigitValue(s[|s| - 2]), DigitValue(s[|s| - 1]);
      if hi < 0 || lo < 0 then None
      else match Unhex(s[..|s| - 2])
        case None => None
        case Some(bs) => Some(bs + [hi * 16 + lo])
  }

  /** Every character of the dump is one of the sixteen digits. */
  lemma {:induction false} HexDigits(bs: seq<byte>)
    ensures forall i :: 0 <= i < |Hex(bs)| ==> Hex(bs)[i] in NIBBLES
  {
    if bs != [] {
      HexDigits(bs[..|bs| - 1]);
    }
  }

  lemma DigitValueOfNibble(v: nat)
    requires v < 16
    ensures DigitValue(NIBBLES[v]) == v
  {
  }

  lemma HexSnoc(bs: seq<byte>, x: byte)
    ensures Hex(bs + [x]) == Hex(bs) + [NIBBLES[x / 16], NIBBLES[x % 16]]
  {
    assert (bs + [x])[..|bs|] == bs;
  }

  /** The digits of the two nibbles of x, read back. */
  lemma UnhexPair(s: seq<char>, bs: seq<byte>, x: byte)
    requires Unhex(s) == Some(bs)
    ensures Unhex(s + [NIBBLES[x / 16], NIBBLES[x % 16]]) == Some(bs + [x])
  {
    var t := s + [NIBBLES[x / 16], NIBBLES[x % 16]];
    assert t[..|t| - 2] == s;
    DigitValueOfNibble(x / 16);
    DigitValueOfNibble(x % 16);
    assert (x / 16) * 16 + x % 16 == x;
  }

  /** Reading a dump back yields the bytes that were dumped. */
  lemma {:induction false} UnhexHex(bs: seq<byte>)
    ensures Unhex(Hex(bs)) == Some(bs)
  {
    if bs != [] {
      var init, x := bs[..|bs| - 1], bs[|bs| - 1];
      assert init + [x] == bs;
      UnhexHex(init);
      UnhexPair(Hex(init), init, x);
    }
  }

  /** The two hex digits of one byte, high nibble first, written at p[at] and p[at + 1]. */
  method PutHex(p: array<char>, at: nat, x: byte)
    requires at + 2 <= p.Length
    modifies p
    ensures p[..at + 2] == old(p[..at]) + [NIBBLES[x / 16], NIBBLES[x % 16]]
    ensures p[at + 2..] == old(p[at + 2..])
  {
    p[at] := NIBBLES[x / 16];
    p[at + 1] := NIBBLES[x % 16];
  }

  /**
   * dumpSimple: writes the two digits of each of the first `length` bytes of
   * input, then a NUL, from the start of p, and leaves the rest of p alone.
   */
  method DumpSimple(input: array<byte>, length: nat, p: array<char>)
    requires length <= input.Length && 2 * length + 1 <= p.Length
    modifies p
    ensures p[..2 * length + 1] == Hex(input[..length]) + ['\0']
    ensures p[2 * length + 1..] == old(p[2 * length + 1..])
  {
    var i := 0;
    while i < length
      invariant i <= length
      invariant p[..2 * i] == Hex(input[..i])
      invariant p[2 * i..] == old(p[2 * i..])
    {
      var x := input[i];
      PutHex(p, 2 * i, x);
      assert input[..i + 1] == input[..i] + [x];
      HexSnoc(input[..i], x);
      i := i + 1;
    }
    p[2 * length] := '\0';
  }
}
