/**
 * Byte-order adapter of the emulator (Source/System/Endian.h).
 *
 * The emulated machine is big-endian.  The host's byte order is fixed at build
 * time (DAEDALUS_ENDIAN_MODE); here it is a parameter.  Words are kept in host
 * memory as native 32-bit values, so a whole-word access needs no swap, and a
 * narrow access reaches the right byte by XOR-ing its address with a per-width
 * "twiddle" constant.  BSWAP32/BSWAP16 reorder a value's bytes when a word must
 * be physically reordered; on a big-endian host they are the identity.
 */
module Endian {

  /** The two values DAEDALUS_ENDIAN_MODE may take. */
  datatype EndianMode = Little | Big

  // ---------------------------------------------------------------------------
  // Twiddle constants

  /** Address XOR for 8-bit accesses into a word-oriented buffer. */
  function U8Twiddle(m: EndianMode): bv32
  {
    if m == Big then 0x0 else 0x3
  }

  /** Address XOR for 16-bit accesses into a word-oriented buffer. */
  function U16Twiddle(m: EndianMode): bv32
  {
    if m == Big then 0x0 else 0x2
  }

  /** Address XOR that exchanges the two bytes of a halfword: on a little-endian host it flips address bit 0. */
  function U16HTwiddle(m: EndianMode): bv32
  {
    if m == Big then 0x0 else 0x1
  }

  /** Every twiddle is one of the constants the header defines for the mode, and touches only the two low address bits. */
  lemma TwiddleConstants(m: EndianMode)
    ensures m == Little ==> U8Twiddle(m) == 3 && U16Twiddle(m) == 2 && U16HTwiddle(m) == 1
    ensures m == Big ==> U8Twiddle(m) == 0 && U16Twiddle(m) == 0 && U16HTwiddle(m) == 0
    ensures U8Twiddle(m) < 4 && U16Twiddle(m) < 4 && U16HTwiddle(m) < 4
  {
  }

  /** A byte twiddle keeps an address inside its aligned word; a halfword twiddle keeps it inside its word and keeps halfword alignment. */
  lemma TwiddleStaysInWord(m: EndianMode, a: bv32)
    ensures (a ^ U8Twiddle(m)) / 4 == a / 4
    ensures (a ^ U16Twiddle(m)) / 4 == a / 4
    ensures (a ^ U16Twiddle(m)) % 2 == a % 2
    ensures (a ^ U16HTwiddle(m)) / 2 == a / 2
  {
    if m == Little {
      assert (a ^ 3) / 4 == a / 4;
      assert (a ^ 2) / 4 == a / 4 && (a ^ 2) % 2 == a % 2;
      assert (a ^ 1) / 2 == a / 2;
    }
  }

  /** Applying a twiddle twice gives back the address. */
  lemma TwiddleInvolution(m: EndianMode, a: bv32)
    ensures (a ^ U8Twiddle(m)) ^ U8Twiddle(m) == a
    ensures (a ^ U16Twiddle(m)) ^ U16Twiddle(m) == a
    ensures (a ^ U16HTwiddle(m)) ^ U16HTwiddle(m) == a
  {
  }

  /** `x ^ t` on two-bit values, written out case by case for each twiddle t < 4. */
  function Xor2(x: nat, t: bv32): (r: nat)
    requires x < 4 && t < 4
    ensures r < 4
  {
    if t == 0 then x
    else if t == 1 then (if x % 2 == 0 then x + 1 else x - 1)
    else if t == 2 then (x + 2) % 4
    else 3 - x
  }

  /**
   * `a ^ t` for an address held as a non-negative integer and a twiddle t < 4:
   * the word part a - a % 4 stays, the two low bits are XOR-ed with t.
   */
  function XorAddr(a: nat, t: bv32): (r: nat)
    requires t < 4
    ensures r / 4 == a / 4
    ensures r % 4 == Xor2(a % 4, t)
  {
    a - a % 4 + Xor2(a % 4, t)
  }

  /**
   * XorAddr computes the bitwise XOR: on a 32-bit address, XOR with t < 4
   * keeps the word part a - a % 4 (the address with its two low bits cleared)
   * and XORs the two low bits a % 4.
   */
  lemma XorAddrIsBitwiseXor(a: bv32, t: bv32)
    requires t < 4
    ensures a % 4 == a & 3
    ensures a - (a & 3) == a & 0xFFFF_FFFC
    ensures a ^ t == (a & 0xFFFF_FFFC) + ((a & 3) ^ t)
  {
  }

  /** Xor2's table is the bitwise XOR of two-bit values. */
  lemma Xor2IsBitwiseXor(x: bv32, t: bv32)
    requires x < 4 && t < 4
    ensures Xor2(x as int, t) == (x ^ t) as int
  {
    if t == 0 {
    } else if t == 1 {
    } else if t == 2 {
    } else {
    }
  }

  /** Inside the first word the twiddled address is the two-bit table itself. */
  lemma XorAddrInWord(x: nat, t: bv32)
    requires x < 4 && t < 4
    ensures XorAddr(x, t) == Xor2(x, t)
  {
    assert x % 4 == x;
  }

  /** One word further on, the twiddled address is one word further on. */
  lemma XorAddrNextWord(a: nat, t: bv32)
    requires a >= 4 && t < 4
    ensures XorAddr(a, t) == XorAddr(a - 4, t) + 4
  {
    assert (a - 4) % 4 == a % 4;
  }

  /** The twiddled integer address is an involution, and XOR by 3 mirrors the offset inside the word. */
  lemma XorAddrLaws(a: nat, t: bv32)
    requires t < 4
    ensures XorAddr(XorAddr(a, t), t) == a
    ensures t == 3 ==> XorAddr(a, t) % 4 == 3 - a % 4
    ensures t == 0 ==> XorAddr(a, t) == a
  {
  }

  // ---------------------------------------------------------------------------
  // Byte swaps

  /** The portable BSWAP32 formula, evaluated in u32 arithmetic (`x << 24` drops the bits above 31). */
  function Bswap32Portable(x: bv32): bv32
  {
    (x >> 24) | ((x >> 8) & 0xFF00) | ((x & 0xFF00) << 8) | (x << 24)
  }

  /** BSWAP32 for the build's endian mode: the identity on a big-endian host. */
  function Bswap32(m: EndianMode, x: bv32): bv32
  {
    if m == Big then x else Bswap32Portable(x)
  }

  /** The portable BSWAP16 expression `(x>>8)|(x<<8)` as C evaluates it: promoted to a 32-bit int, untruncated. */
  function Bswap16Wide(x: bv16): bv32
  {
    var w := x as bv32;
    (w >> 8) | (w << 8)
  }

  /** BSWAP16 for the build's endian mode, taken as a 16-bit result. */
  function Bswap16(m: EndianMode, x: bv16): bv16
  {
    if m == Big then x else (Bswap16Wide(x) & 0xFFFF) as bv16
  }

  /** SwapEndian(u32): the word through BSWAP32. */
  function SwapEndian(m: EndianMode, x: bv32): bv32
  {
    Bswap32(m, x)
  }

  /** Byte k of a word, counting from the least significant byte. */
  function ByteOf(x: bv32, k: nat): bv8
    requires k < 4
  {
    if k == 0 then (x & 0xFF) as bv8
    else if k == 1 then ((x >> 8) & 0xFF) as bv8
    else if k == 2 then ((x >> 16) & 0xFF) as bv8
    else (x >> 24) as bv8
  }

  /** On a little-endian host BSWAP32 reverses the byte order: byte k of the result is byte 3 - k of the input. */
  lemma Bswap32ReversesBytes(x: bv32, k: nat)
    requires k < 4
    ensures ByteOf(Bswap32(Little, x), k) == ByteOf(x, 3 - k)
  {
  }

  /** On a big-endian host both swaps are the identity, and so is SwapEndian. */
  lemma BigEndianSwapsAreIdentity(x: bv32, h: bv16)
    ensures Bswap32(Big, x) == x
    ensures Bswap16(Big, h) == h
    ensures SwapEndian(Big, x) == x
  {
  }

  /** SwapEndian undoes itself in both modes. */
  lemma SwapEndianInvolution(m: EndianMode, x: bv32)
    ensures SwapEndian(m, SwapEndian(m, x)) == x
  {
  }

  /** On a little-endian host BSWAP16 exchanges the two bytes, and it undoes itself in both modes. */
  lemma Bswap16Swaps(m: EndianMode, x: bv16)
    ensures m == Little ==> Bswap16(m, x) == (x >> 8) | (x << 8)
    ensures m == Little ==> Bswap16(m, x) & 0xFF == x >> 8 && Bswap16(m, x) >> 8 == x & 0xFF
    ensures Bswap16(m, Bswap16(m, x)) == x
  {
  }

  /** The low 16 bits of the wide BSWAP16 expression are the swap; the bits above them are not always zero. */
  lemma Bswap16NeedsTruncation(x: bv16)
    ensures Bswap16Wide(x) & 0xFFFF == Bswap16(Little, x) as bv32
    ensures Bswap16Wide(0x1234) == 0x12_3412
  {
  }

  // ---------------------------------------------------------------------------
  // How a host lays out a word in memory, and what the byte twiddle recovers

  /** The bytes of a word in the emulated machine's order: most significant first. */
  function BigEndianBytes(x: bv32): (r: seq<bv8>)
    ensures |r| == 4
  {
    [ByteOf(x, 3), ByteOf(x, 2), ByteOf(x, 1), ByteOf(x, 0)]
  }

  /** The bytes at increasing host addresses when the host stores the word natively. */
  function HostBytes(m: EndianMode, x: bv32): (r: seq<bv8>)
    ensures |r| == 4
  {
    if m == Little then [ByteOf(x, 0), ByteOf(x, 1), ByteOf(x, 2), ByteOf(x, 3)]
    else BigEndianBytes(x)
  }

  /**
   * The byte twiddle law: reading the natively stored word at byte offset
   * i ^ U8_TWIDDLE gives its i-th most significant byte, on either host.
   */
  lemma ByteTwiddleReadsBigEndian(m: EndianMode, x: bv32, i: nat)
    requires i < 4
    ensures XorAddr(i, U8Twiddle(m)) < 4
    ensures HostBytes(m, x)[XorAddr(i, U8Twiddle(m))] == BigEndianBytes(x)[i]
  {
    TwiddleConstants(m);
    XorAddrInWord(i, U8Twiddle(m));
  }

  /** SwapEndian turns a word into one whose native image is the big-endian byte order of the original. */
  lemma SwapEndianLaysOutBigEndian(m: EndianMode, x: bv32)
    ensures HostBytes(m, SwapEndian(m, x)) == BigEndianBytes(x)
  {
  }

  /** The halfword at even offset h of a word in the emulated machine's order. */
  function BigEndianHalf(x: bv32, h: nat): bv16
    requires h == 0 || h == 2
  {
    if h == 0 then (x >> 16) as bv16 else (x & 0xFFFF) as bv16
  }

  /** A native 16-bit load at even byte offset j of the natively stored word. */
  function HostHalf(m: EndianMode, x: bv32, j: nat): bv16
    requires j == 0 || j == 2
  {
    var b := HostBytes(m, x);
    if m == Little then (b[j + 1] as bv16 << 8) | b[j] as bv16
    else (b[j] as bv16 << 8) | b[j + 1] as bv16
  }

  /** The halfword twiddle law: a native load at h ^ U16_TWIDDLE gives the halfword at h, on either host. */
  lemma HalfTwiddleReadsBigEndian(m: EndianMode, x: bv32, h: nat)
    requires h == 0 || h == 2
    ensures XorAddr(h, U16Twiddle(m)) == 0 || XorAddr(h, U16Twiddle(m)) == 2
    ensures HostHalf(m, x, XorAddr(h, U16Twiddle(m))) == BigEndianHalf(x, h)
  {
    TwiddleConstants(m);
    XorAddrInWord(h, U16Twiddle(m));
  }

  /** The bytes of a halfword, most significant first, and as a host stores it natively. */
  function BigEndianBytes16(x: bv16): (r: seq<bv8>)
    ensures |r| == 2
  {
    [(x >> 8) as bv8, (x & 0xFF) as bv8]
  }

  function HostBytes16(m: EndianMode, x: bv16): (r: seq<bv8>)
    ensures |r| == 2
  {
    if m == Little then [(x & 0xFF) as bv8, (x >> 8) as bv8] else BigEndianBytes16(x)
  }

  /**
   * The byte-in-halfword twiddle law: byte offset i ^ U16H_TWIDDLE of a natively
   * stored halfword is its i-th most significant byte, and BSWAP16 turns a
   * halfword into one whose native image is big-endian.
   */
  lemma HalfByteTwiddleReadsBigEndian(m: EndianMode, x: bv16, i: nat)
    requires i < 2
    ensures XorAddr(i, U16HTwiddle(m)) < 2
    ensures HostBytes16(m, x)[XorAddr(i, U16HTwiddle(m))] == BigEndianBytes16(x)[i]
    ensures HostBytes16(m, Bswap16(m, x)) == BigEndianBytes16(x)
  {
    TwiddleConstants(m);
    XorAddrInWord(i, U16HTwiddle(m));
  }

  // ---------------------------------------------------------------------------
  // Word buffers

  /** A buffer of words as the emulated machine sees it: each word's bytes most significant first. */
  function BigEndianImage(words: seq<bv32>): (r: seq<bv8>)
    ensures |r| == 4 * |words|
  {
    seq(4 * |words|, j requires 0 <= j < 4 * |words| => BigEndianBytes(words[j / 4])[j % 4])
  }

  /** The same buffer as host memory: each word stored natively (what a `u8*` cast of a `u32*` sees). */
  function HostImage(m: EndianMode, words: seq<bv32>): (r: seq<bv8>)
    ensures |r| == 4 * |words|
  {
    seq(4 * |words|, j requires 0 <= j < 4 * |words| => HostBytes(m, words[j / 4])[j % 4])
  }

  /**
   * A byte buffer read byte by byte through the twiddle: within each word the
   * byte order is reversed on a little-endian host and kept on a big-endian one.
   */
  function TwiddledBytes(m: EndianMode, image: seq<bv8>): (r: seq<bv8>)
    requires |image| % 4 == 0
    ensures |r| == |image|
    decreases |image|
  {
    if image == [] then []
    else
      var w := image[..4];
      (if m == Little then [w[3], w[2], w[1], w[0]] else w) + TwiddledBytes(m, image[4..])
  }

  /** Byte i of TwiddledBytes is the byte at i ^ U8_TWIDDLE. */
  lemma {:induction false} TwiddledBytesAt(m: EndianMode, image: seq<bv8>, i: nat)
    requires |image| % 4 == 0 && i < |image|
    ensures XorAddr(i, U8Twiddle(m)) < |image|
    ensures TwiddledBytes(m, image)[i] == image[XorAddr(i, U8Twiddle(m))]
    decreases |image|
  {
    var t := U8Twiddle(m);
    TwiddleConstants(m);
    if i >= 4 {
      var rest := image[4..];
      TwiddledBytesAt(m, rest, i - 4);
      assert TwiddledBytes(m, image)[i] == TwiddledBytes(m, rest)[i - 4];
      XorAddrNextWord(i, t);
      assert rest[XorAddr(i - 4, t)] == image[XorAddr(i, t)];
    } else {
      XorAddrInWord(i, t);
    }
  }

  /** A narrow read `p8[i ^ U8_TWIDDLE]` from a byte buffer that holds whole words. */
  method ReadTwiddledByte(m: EndianMode, image: seq<bv8>, i: nat) returns (c: bv8)
    requires |image| % 4 == 0 && i < |image|
    ensures c == TwiddledBytes(m, image)[i]
  {
    TwiddledBytesAt(m, image, i);
    c := image[XorAddr(i, U8Twiddle(m))];
  }

  /** Byte i of a host word buffer read through the twiddle is byte i of the buffer in the emulated machine's byte order. */
  lemma TwiddledHostImageAt(m: EndianMode, words: seq<bv32>, i: nat)
    requires i < 4 * |words|
    ensures TwiddledBytes(m, HostImage(m, words))[i] == BigEndianImage(words)[i]
  {
    var t := U8Twiddle(m);
    TwiddleConstants(m);
    var j := XorAddr(i, t);
    TwiddledBytesAt(m, HostImage(m, words), i);
    var w, k := i / 4, i % 4;
    assert j / 4 == w && j % 4 == Xor2(k, t);
    XorAddrInWord(k, t);
    ByteTwiddleReadsBigEndian(m, words[w], k);
  }

  /** Reading a host word buffer byte by byte through the twiddle yields the emulated machine's byte order, on either host. */
  lemma TwiddledHostImageIsBigEndian(m: EndianMode, words: seq<bv32>)
    ensures TwiddledBytes(m, HostImage(m, words)) == BigEndianImage(words)
  {
    forall i | 0 <= i < 4 * |words|
      ensures TwiddledBytes(m, HostImage(m, words))[i] == BigEndianImage(words)[i]
    {
      TwiddledHostImageAt(m, words, i);
    }
  }
}
