/** The bit codec of the steganography library: a string becomes its UTF-8
    bytes and each byte eight bits, most significant first (stringToBits);
    bits are packed back eight at a time, a shorter last group becoming the
    value of the bits it has, and the bytes are decoded as UTF-8
    (bitsToString). */
module BitCodec {
  import opened Types
  import Utf8

  /** `x >> j` for a non-negative x: j halvings. */
  function Shr(x: nat, j: nat): nat
  {
    if j == 0 then x else Shr(x / 2, j - 1)
  }

  /** `(x >> j) & 1`: bit j of x, bit 0 being the least significant. */
  function BitOf(x: nat, j: nat): Bit
  {
    Shr(x, j) % 2
  }

  /** The eight bits of a byte in the order stringToBits pushes them (j = 7 down to 0). */
  function ByteBits(x: Byte): (r: seq<Bit>)
    ensures |r| == 8
  {
    seq(8, k requires 0 <= k < 8 => BitOf(x, 7 - k))
  }

  /** The bits of every byte, byte after byte. */
  function BytesToBits(bytes: seq<Byte>): seq<Bit>
  {
    if bytes == [] then [] else ByteBits(bytes[0]) + BytesToBits(bytes[1..])
  }

  /** The value bitsToString accumulates from one group, `byte = (byte << 1) | bit`
      for each bit in turn. */
  function PackGroup(g: seq<Bit>): nat
  {
    if g == [] then 0 else 2 * PackGroup(g[..|g| - 1]) + g[|g| - 1]
  }

  /** The bytes bitsToString builds: one per group of eight bits, the last group
      possibly shorter. */
  function BitsToBytes(bits: seq<Bit>): seq<Byte>
    decreases |bits|
  {
    if bits == [] then []
    else
      var n := if |bits| < 8 then |bits| else 8;
      PackGroupBound(bits[..n]);
      Pow2Small();
      [PackGroup(bits[..n])] + BitsToBytes(bits[n..])
  }

  // ---------------------------------------------------------------------------
  // The operations of the source

  /** stringToBits: the UTF-8 bytes of str (TextEncoder), eight bits each,
      most significant bit first. */
  method StringToBits(str: JsString) returns (bits: seq<Bit>)
    ensures bits == BytesToBits(Utf8.Encode(str))
  {
    var bytes := Utf8.Encode(str);
    bits := [];
    for i := 0 to |bytes|
      invariant bits == BytesToBits(bytes[..i])
    {
      ghost var before := bits;
      var j := 7;
      while j >= 0
        invariant -1 <= j <= 7
        invariant bits == before + ByteBits(bytes[i])[..7 - j]
      {
        ByteBitsPrefix(bytes[i], j);
        ConcatAssoc(before, ByteBits(bytes[i])[..7 - j], [BitOf(bytes[i], j)]);
        bits := bits + [BitOf(bytes[i], j)];
        j := j - 1;
      }
      ByteBitsPrefix(bytes[i], -1);
      BytesToBitsPrefix(bytes, i);
    }
    assert bytes[..|bytes|] == bytes;
  }

  /** The bits of a byte pushed so far, one bit further along. */
  lemma ByteBitsPrefix(x: Byte, j: int)
    requires -1 <= j <= 7
    ensures j >= 0 ==> ByteBits(x)[..7 - j] + [BitOf(x, j)] == ByteBits(x)[..8 - j]
    ensures j == -1 ==> ByteBits(x)[..8] == ByteBits(x)
  {
  }

  /** The bits of one more byte. */
  lemma BytesToBitsPrefix(bytes: seq<Byte>, i: nat)
    requires i < |bytes|
    ensures BytesToBits(bytes[..i + 1]) == BytesToBits(bytes[..i]) + ByteBits(bytes[i])
  {
    BytesToBitsAppend(bytes[..i], [bytes[i]]);
    assert bytes[..i] + [bytes[i]] == bytes[..i + 1];
    assert BytesToBits([bytes[i]]) == ByteBits(bytes[i]) + BytesToBits([]);
  }

  /** bitsToString: pack the bits into bytes and decode them (TextDecoder). */
  method BitsToString(bits: seq<Bit>) returns (s: JsString)
    ensures s == Utf8.Decode(BitsToBytes(bits))
  {
    var bytes: seq<Byte> := [];
    var i := 0;
    while i < |bits|
      invariant 0 <= i < |bits| + 8 && i % 8 == 0
      invariant bytes == BitsToBytes(bits[..Min(i, |bits|)])
    {
      var byte: nat := 0;
      var j := 0;
      while j < 8 && i + j < |bits|
        invariant 0 <= j <= 8 && i + j <= |bits|
        invariant byte == PackGroup(bits[i..i + j])
      {
        PackGroupSnoc(bits, i, j);
        byte := 2 * byte + bits[i + j];
        j := j + 1;
      }
      BitsToBytesSnoc(bits, i, j);
      bytes := bytes + [PackGroup(bits[i..i + j])];
      i := i + 8;
    }
    TakeAll(bits, Min(i, |bits|));
    s := Utf8.Decode(bytes);
  }

  /** One more bit of the group being packed. */
  lemma PackGroupSnoc(bits: seq<Bit>, i: nat, j: nat)
    requires i + j < |bits|
    ensures PackGroup(bits[i..i + j + 1]) == 2 * PackGroup(bits[i..i + j]) + bits[i + j]
  {
    assert bits[i..i + j + 1][..j] == bits[i..i + j];
  }


  function Min(a: int, b: int): int { if a < b then a else b }

  // ---------------------------------------------------------------------------
  // Properties

  lemma Pow2Small()
    ensures Pow2(1) == 2 && Pow2(2) == 4 && Pow2(3) == 8 && Pow2(4) == 16
    ensures Pow2(5) == 32 && Pow2(6) == 64 && Pow2(7) == 128 && Pow2(8) == 256
  {
  }

  /** A group of k bits packs to a k-bit value. */
  lemma {:induction false} PackGroupBound(g: seq<Bit>)
    ensures PackGroup(g) < Pow2(|g|)
  {
    if g != [] {
      PackGroupBound(g[..|g| - 1]);
    }
  }

  /** The k bits of x, most significant first, as a recursive reference. */
  function Bits(x: nat, k: nat): (r: seq<Bit>)
    ensures |r| == k
  {
    if k == 0 then [] else Bits(x / 2, k - 1) + [x % 2]
  }

  lemma {:induction false} BitsAt(x: nat, k: nat, i: nat)
    requires i < k
    ensures Bits(x, k)[i] == BitOf(x, k - 1 - i)
  {
    if i < k - 1 {
      BitsAt(x / 2, k - 1, i);
    }
  }

  /** Packing the k bits of a k-bit value gives the value. */
  lemma {:induction false} PackBits(x: nat, k: nat)
    requires x < Pow2(k)
    ensures PackGroup(Bits(x, k)) == x
  {
    if k > 0 {
      PackBits(x / 2, k - 1);
      assert Bits(x, k)[..k - 1] == Bits(x / 2, k - 1);
    }
  }

  /** Packing the bits stringToBits wrote for a byte gives the byte back. */
  lemma PackByteBits(x: Byte)
    ensures PackGroup(ByteBits(x)) == x
  {
    forall i | 0 <= i < 8
      ensures ByteBits(x)[i] == Bits(x, 8)[i]
    {
      BitsAt(x, 8, i);
    }
    assert ByteBits(x) == Bits(x, 8);
    Pow2Small();
    PackBits(x, 8);
  }

  lemma {:induction false} BytesToBitsAppend(a: seq<Byte>, b: seq<Byte>)
    ensures BytesToBits(a + b) == BytesToBits(a) + BytesToBits(b)
  {
    if a != [] {
      assert (a + b)[0] == a[0];
      assert (a + b)[1..] == a[1..] + b;
      BytesToBitsAppend(a[1..], b);
    } else {
      assert a + b == b;
    }
  }

  /** Exactly eight bits per byte, and bit k of byte i, most significant
      first, sits at position 8i + k. */
  lemma {:induction false} BytesToBitsAt(bytes: seq<Byte>, i: nat, k: nat)
    requires i < |bytes| && k < 8
    ensures |BytesToBits(bytes)| == 8 * |bytes|
    ensures BytesToBits(bytes)[8 * i + k] == BitOf(bytes[i], 7 - k)
  {
    BytesToBitsLength(bytes);
    if i > 0 {
      BytesToBitsAt(bytes[1..], i - 1, k);
    }
  }

  lemma {:induction false} BytesToBitsLength(bytes: seq<Byte>)
    ensures |BytesToBits(bytes)| == 8 * |bytes|
  {
    if bytes != [] {
      BytesToBitsLength(bytes[1..]);
    }
  }

  /** Bytes to bits and back is the identity. */
  lemma {:induction false} BitsToBytesOfBytesToBits(bytes: seq<Byte>)
    ensures BitsToBytes(BytesToBits(bytes)) == bytes
  {
    if bytes != [] {
      var bits := BytesToBits(bytes);
      BytesToBitsLength(bytes[1..]);
      assert bits[..8] == ByteBits(bytes[0]);
      assert bits[8..] == BytesToBits(bytes[1..]);
      PackByteBits(bytes[0]);
      BitsToBytesOfBytesToBits(bytes[1..]);
    }
  }

  /** Bits to bytes commutes with concatenation at a byte boundary. */
  lemma {:induction false} BitsToBytesAppend(a: seq<Bit>, b: seq<Bit>)
    requires |a| % 8 == 0
    ensures BitsToBytes(a + b) == BitsToBytes(a) + BitsToBytes(b)
    decreases |a|
  {
    if a == [] {
      assert a + b == b;
    } else {
      assert (a + b)[..8] == a[..8];
      assert (a + b)[8..] == a[8..] + b;
      BitsToBytesAppend(a[8..], b);
    }
  }

  /** One more group of j bits, 1 <= j <= 8, adds the one byte it packs to. */
  lemma BitsToBytesSnoc(bits: seq<Bit>, i: nat, j: nat)
    requires i % 8 == 0 && 1 <= j <= 8 && i + j <= |bits|
    requires j == 8 || i + j == |bits|
    ensures PackGroup(bits[i..i + j]) < 0x100
    ensures BitsToBytes(bits[..Min(i + 8, |bits|)])
         == BitsToBytes(bits[..i]) + [PackGroup(bits[i..i + j])]
  {
    var g := bits[i..i + j];
    PackGroupBound(g);
    Pow2Small();
    PrefixSplit(bits, i, i + j);
    BitsToBytesAppend(bits[..i], g);
    SingleGroup(g);
  }

  /** A prefix is the shorter prefix and the slice between them. */
  lemma PrefixSplit<T>(s: seq<T>, i: nat, k: nat)
    requires i <= k <= |s|
    ensures s[..k] == s[..i] + s[i..k]
  {
  }

  /** A group of at most eight bits packs to one byte. */
  lemma SingleGroup(g: seq<Bit>)
    requires 1 <= |g| <= 8
    ensures BitsToBytes(g) == [PackGroup(g)]
  {
    assert g[..|g|] == g;
    assert g[|g|..] == [];
  }

  /** bitsToString makes ceil(|bits| / 8) bytes. */
  lemma {:induction false} BitsToBytesLength(bits: seq<Bit>)
    ensures |BitsToBytes(bits)| == (|bits| + 7) / 8
    decreases |bits|
  {
    if bits != [] {
      var n := if |bits| < 8 then |bits| else 8;
      BitsToBytesLength(bits[n..]);
    }
  }

  /** Every full group of eight bits becomes one byte, and a trailing group
      of k < 8 bits becomes the k-bit value of those bits: it is neither
      dropped nor padded on the right with zeros. */
  lemma BitsToBytesGroups(bits: seq<Bit>, g: nat)
    requires 8 * g < |bits|
    ensures |BitsToBytes(bits)| == (|bits| + 7) / 8
    ensures var end := if 8 * g + 8 <= |bits| then 8 * g + 8 else |bits|;
            BitsToBytes(bits)[g] == PackGroup(bits[8 * g..end]) < Pow2(end - 8 * g)
  {
    BitsToBytesLength(bits);
    var end := if 8 * g + 8 <= |bits| then 8 * g + 8 else |bits|;
    GroupAt(bits, g, end);
    PackGroupBound(bits[8 * g..end]);
  }

  /** Byte g packs group g, the bits from 8 * g to end. */
  lemma {:induction false} GroupAt(bits: seq<Bit>, g: nat, end: nat)
    requires 8 * g < |bits| && end == if 8 * g + 8 <= |bits| then 8 * g + 8 else |bits|
    ensures g < |BitsToBytes(bits)|
    ensures BitsToBytes(bits)[g] == PackGroup(bits[8 * g..end])
    decreases g
  {
    if g == 0 {
      FirstGroup(bits, end);
    } else {
      var tail := bits[8..];
      assert |tail| == |bits| - 8;
      GroupAt(tail, g - 1, end - 8);
      TailGroup(bits, g);
      SliceOfTail(bits, 8 * g, end);
      assert tail[8 * (g - 1)..end - 8] == bits[8 * g..end];
    }
  }

  /** The first byte packs the first group. */
  lemma FirstGroup(bits: seq<Bit>, end: nat)
    requires bits != [] && end == if 8 <= |bits| then 8 else |bits|
    ensures BitsToBytes(bits)[0] == PackGroup(bits[0..end])
  {
    assert bits[0..end] == bits[..end];
  }

  /** Byte g of the bits is byte g - 1 of the bits after the first group. */
  lemma TailGroup(bits: seq<Bit>, g: nat)
    requires 1 <= g && 8 * g < |bits|
    ensures g < |BitsToBytes(bits)| && g - 1 < |BitsToBytes(bits[8..])|
    ensures BitsToBytes(bits)[g] == BitsToBytes(bits[8..])[g - 1]
  {
    BitsToBytesLength(bits[8..]);
  }

  /** A slice of the bits after the first group. */
  lemma SliceOfTail(bits: seq<Bit>, a: nat, b: nat)
    requires 8 <= a <= b <= |bits|
    ensures bits[8..][a - 8..b - 8] == bits[a..b]
  {
  }

  /** The seven bits left of "b" (0x62) once its trailing zero is lost pack
      to 0x31, the code of "1". */
  lemma SevenBitsOfB()
    ensures BytesToBits([0x62]) == [0, 1, 1, 0, 0, 0, 1, 0]
    ensures BitsToBytes([0, 1, 1, 0, 0, 0, 1]) == [0x31]
  {
    assert Shr(0x62, 1) == 49 && Shr(49, 1) == 24 && Shr(24, 1) == 12 && Shr(12, 1) == 6;
    assert Shr(6, 1) == 3 && Shr(3, 1) == 1 && Shr(1, 1) == 0;
    assert Shr(0x62, 7) == Shr(1, 1) && Shr(0x62, 6) == Shr(3, 1) && Shr(0x62, 5) == Shr(6, 1);
    assert Shr(0x62, 4) == Shr(12, 1) && Shr(0x62, 3) == Shr(24, 1) && Shr(0x62, 2) == Shr(49, 1);
    assert ByteBits(0x62) == [0, 1, 1, 0, 0, 0, 1, 0];
    assert BytesToBits([0x62]) == ByteBits(0x62) + BytesToBits([]);
    var bits: seq<Bit> := [0, 1, 1, 0, 0, 0, 1];
    assert bits[..7] == bits && bits[7..] == [];
    assert bits[..6] == [0, 1, 1, 0, 0, 0];
    assert [0, 1, 1, 0, 0, 0][..5] == [0, 1, 1, 0, 0];
    assert [0, 1, 1, 0, 0][..4] == [0, 1, 1, 0];
    assert [0, 1, 1, 0][..3] == [0, 1, 1];
    assert [0, 1, 1][..2] == [0, 1];
    assert [0, 1][..1] == [0];
    assert PackGroup([0]) == 0 && PackGroup([0, 1]) == 1 && PackGroup([0, 1, 1]) == 3;
    assert PackGroup([0, 1, 1, 0]) == 6 && PackGroup([0, 1, 1, 0, 0]) == 12;
    assert PackGroup([0, 1, 1, 0, 0, 0]) == 24 && PackGroup(bits) == 0x31;
    assert BitsToBytes(bits) == [PackGroup(bits)] + BitsToBytes([]);
  }
}
