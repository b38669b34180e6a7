/**
  The 128-bit OT block of src/common/block.hpp: sixteen bytes in memory order,
  the two 64-bit lanes that `_mm_extract_epi64` reads from them, the lane XOR
  `blockToUint64Xor` and the fixed-width hex encoder `blockToHex`.
*/
module Block {
  import opened Wrappers

  newtype byte = x: int | 0 <= x < 256
  type u64 = bv64

  /** An osuCrypto::block as the 16 bytes it occupies in memory. */
  type Block = s: seq<byte> | |s| == 16 witness seq(16, _ => 0 as byte)

  /** Little-endian value of a byte string (x86 lane order). */
  function LittleEndian(s: seq<byte>): u64
    decreases |s|
  {
    if s == [] then 0 else (s[0] as u64) | (LittleEndian(s[1..]) << 8)
  }

  /** `_mm_extract_epi64(b, 0)`: the lane held in bytes 0..7. */
  function Low(b: Block): u64 {
    LittleEndian(b[..8])
  }

  /** `_mm_extract_epi64(b, 1)`: the lane held in bytes 8..15. */
  function High(b: Block): u64 {
    LittleEndian(b[8..])
  }

  /** The block whose lanes are those of `b`, exchanged. */
  function SwapLanes(b: Block): (r: Block)
    ensures Low(r) == High(b) && High(r) == Low(b)
  {
    var r := b[8..] + b[..8];
    assert r[..8] == b[8..] && r[8..] == b[..8];
    r
  }

  /** `blockToUint64Xor`: a one-element vector holding the lane XOR. */
  function BlockToUint64Xor(b: Block): (r: seq<u64>)
    ensures |r| == 1 && r[0] == High(b) ^ Low(b)
  {
    [High(b) ^ Low(b)]
  }

  /** Either lane is recovered from the lane XOR and the other lane. */
  lemma LaneXorRecovers(b: Block)
    ensures (High(b) ^ Low(b)) ^ Low(b) == High(b)
    ensures (High(b) ^ Low(b)) ^ High(b) == Low(b)
  {
    XorCancels(High(b), Low(b));
  }

  /** The lane XOR is zero exactly when the two lanes are equal. */
  lemma LaneXorZeroIff(b: Block)
    ensures High(b) ^ Low(b) == 0 <==> Low(b) == High(b)
  {
    XorCancels(High(b), Low(b));
  }

  lemma XorCancels(h: u64, l: u64)
    ensures (h ^ l) ^ l == h && (h ^ l) ^ h == l
    ensures h ^ l == 0 <==> l == h
  {
  }

  /** The lane XOR does not depend on which lane is which. */
  lemma LaneXorSymmetric(b: Block)
    ensures BlockToUint64Xor(SwapLanes(b)) == BlockToUint64Xor(b)
  {
    XorCommutes(Low(b), High(b));
  }

  lemma XorCommutes(x: u64, y: u64)
    ensures x ^ y == y ^ x
  {
  }

  /** The sixteen characters a `std::hex` stream uses, in digit order. */
  const HEX_DIGITS: string := "0123456789abcdef"

  predicate IsLowerHex(c: char) {
    '0' <= c <= '9' || 'a' <= c <= 'f'
  }

  function HighNibble(x: byte): (r: nat)
    ensures r < 16
  {
    x as int / 16
  }

  function LowNibble(x: byte): (r: nat)
    ensures r < 16
  {
    x as int % 16
  }

  lemma NibblesRecombine(x: byte)
    ensures HighNibble(x) * 16 + LowNibble(x) == x as int
  {
  }

  /** The two zero-padded digits `setw(2) << (x & 0xFF)` writes for one byte. */
  function HexPair(x: byte): (r: string)
    ensures |r| == 2 && IsLowerHex(r[0]) && IsLowerHex(r[1])
  {
    [HEX_DIGITS[HighNibble(x)], HEX_DIGITS[LowNibble(x)]]
  }

  /** The text a hex stream holds after the bytes of `s` were written to it, in order. */
  function HexEncode(s: seq<byte>): (r: string)
    ensures |r| == 2 * |s|
  {
    if s == [] then [] else HexEncode(s[..|s| - 1]) + HexPair(s[|s| - 1])
  }

  /** Characters 2i and 2i+1 of the encoding are the high and low nibble of byte i. */
  lemma {:induction false} HexEncodeAt(s: seq<byte>)
    ensures forall i :: 0 <= i < |s| ==>
      HexEncode(s)[2 * i] == HEX_DIGITS[HighNibble(s[i])] &&
      HexEncode(s)[2 * i + 1] == HEX_DIGITS[LowNibble(s[i])]
  {
    if s != [] {
      var p := s[..|s| - 1];
      HexEncodeAt(p);
      forall i | 0 <= i < |s|
        ensures HexEncode(s)[2 * i] == HEX_DIGITS[HighNibble(s[i])]
        ensures HexEncode(s)[2 * i + 1] == HEX_DIGITS[LowNibble(s[i])]
      {
        if i < |p| {
          assert s[i] == p[i];
        }
      }
    }
  }

  /** Every character of an encoding is a lowercase hex digit. */
  lemma HexEncodeAlphabet(s: seq<byte>)
    ensures forall k :: 0 <= k < |HexEncode(s)| ==> IsLowerHex(HexEncode(s)[k])
  {
    HexEncodeAt(s);
    forall k | 0 <= k < |HexEncode(s)|
      ensures IsLowerHex(HexEncode(s)[k])
    {
      var i := k / 2;
      assert k == 2 * i || k == 2 * i + 1;
      assert forall d :: 0 <= d < 16 ==> IsLowerHex(HEX_DIGITS[d]);
    }
  }

  /** The value of one hex digit, upper or lower case as a hex stream reads it back. */
  function HexValue(c: char): (r: Option<nat>)
    ensures r.Some? ==> r.value < 16
    ensures r.Some? <==> '0' <= c <= '9' || 'a' <= c <= 'f' || 'A' <= c <= 'F'
  {
    if '0' <= c <= '9' then Some(c as int - '0' as int)
    else if 'a' <= c <= 'f' then Some(c as int - 'a' as int + 10)
    else if 'A' <= c <= 'F' then Some(c as int - 'A' as int + 10)
    else None
  }

  lemma HexValueOfDigit(d: nat)
    requires d < 16
    ensures HexValue(HEX_DIGITS[d]) == Some(d)
  {
  }

  /** One byte from its two hex digits, high nibble first. */
  function DecodePair(hi: char, lo: char): Option<byte> {
    match (HexValue(hi), HexValue(lo))
    case (Some(h), Some(l)) => Some((h * 16 + l) as byte)
    case _ => None
  }

  lemma DecodePairOfHexPair(x: byte)
    ensures DecodePair(HexPair(x)[0], HexPair(x)[1]) == Some(x)
  {
    HexValueOfDigit(HighNibble(x));
    HexValueOfDigit(LowNibble(x));
    NibblesRecombine(x);
  }

  /** Reads a hex string back two characters per byte; None on odd length or a non-digit. */
  function HexDecode(s: string): Option<seq<byte>>
    decreases |s|
  {
    if s == [] then Some([])
    else if |s| < 2 then None
    else
      match (HexDecode(s[..|s| - 2]), DecodePair(s[|s| - 2], s[|s| - 1]))
      case (Some(front), Some(b)) => Some(front + [b])
      case _ => None
  }

  /** Decoding an encoding gives back the bytes that were encoded. */
  lemma {:induction false} HexRoundTrip(s: seq<byte>)
    ensures HexDecode(HexEncode(s)) == Some(s)
  {
    if s != [] {
      var p, x := s[..|s| - 1], s[|s| - 1];
      var e := HexEncode(s);
      assert e == HexEncode(p) + HexPair(x);
      assert e[..|e| - 2] == HexEncode(p);
      assert e[|e| - 2] == HexPair(x)[0] && e[|e| - 1] == HexPair(x)[1];
      HexRoundTrip(p);
      DecodePairOfHexPair(x);
      assert p + [x] == s;
    }
  }

  /**
    `blockToHex`: writes the sixteen bytes in memory order, two zero-padded
    lowercase hex digits each.
  */
  method BlockToHex(blk: Block) returns (hex: string)
    ensures hex == HexEncode(blk)
    ensures |hex| == 32
    ensures forall i :: 0 <= i < 16 ==>
      hex[2 * i] == HEX_DIGITS[HighNibble(blk[i])] && hex[2 * i + 1] == HEX_DIGITS[LowNibble(blk[i])]
    ensures forall k :: 0 <= k < 32 ==> IsLowerHex(hex[k])
    ensures HexDecode(hex) == Some(blk)
  {
    hex := [];
    for i := 0 to 16
      invariant hex == HexEncode(blk[..i])
    {
      assert blk[..i + 1][..i] == blk[..i];
      hex := hex + HexPair(blk[i]);
    }
    assert blk[..16] == blk;
    HexEncodeAt(blk);
    HexEncodeAlphabet(blk);
    HexRoundTrip(blk);
  }
}
