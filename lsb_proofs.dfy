/** Properties of the LSB codec: what encodeMessage writes is what
    decodeMessage reads, where the end marker is found, when the message comes
    back exactly, and the bits that the as-written decoder loses. */
module LsbProofs {
  import opened Types
  import Utf8
  import BitCodec
  import Compression
  import XorCipher
  import Capacity
  import opened LsbSpec

  // ---------------------------------------------------------------------------
  // What embedding changes

  /** Embedding leaves every alpha byte and every byte past the last carrier
      as it was, and changes any other byte by at most 1: the colour byte of
      rank k keeps its upper seven bits and takes bit k in its lowest. */
  lemma EmbeddedInvariants(d: seq<Byte>, bits: seq<Bit>, i: nat)
    requires i < |d|
    ensures var r := Embedded(d, bits);
            (IsAlpha(i) ==> r[i] == d[i]) &&
            (Rank(i) >= |bits| ==> r[i] == d[i]) &&
            -1 <= r[i] as int - d[i] as int <= 1 &&
            (!IsAlpha(i) && Rank(i) < |bits| ==> r[i] % 2 == bits[Rank(i)] && r[i] / 2 == d[i] / 2)
  {
  }

  // ---------------------------------------------------------------------------
  // Reading back what was written

  /** Colour byte i supplies bit Rank(i) of the stream. */
  lemma {:induction false} LsbStreamAt(d: seq<Byte>, i: nat)
    requires i < |d| && !IsAlpha(i)
    ensures Rank(i) < |LsbStream(d)|
    ensures LsbStream(d)[Rank(i)] == d[i] % 2
    decreases |d|
  {
    var n := |d| - 1;
    var prefix := d[..n];
    if i < n {
      LsbStreamAt(prefix, i);
    }
  }

  /** The colour byte that supplies bit k is the one at index k + k / 3. */
  lemma CarrierOf(k: nat)
    ensures Rank(k + k / 3) == k && !IsAlpha(k + k / 3)
  {
    var a, b := k / 3, k % 3;
    assert k == 3 * a + b;
    var i := k + a;
    assert i == 4 * a + b;
    assert i / 4 == a;
    assert (i + 1) % 4 == b + 1;
  }

  lemma RankBelow(i: nat, n: nat)
    requires Rank(i) < Rank(n)
    ensures i < n
  {
  }

  /** Bit k read from an image encodeMessage wrote. */
  lemma EmbeddedBitAt(d: seq<Byte>, bits: seq<Bit>, k: nat)
    requires k < |LsbStream(d)|
    ensures k < |LsbStream(Embedded(d, bits))|
    ensures LsbStream(Embedded(d, bits))[k] == if k < |bits| then bits[k] else LsbStream(d)[k]
  {
    var i := k + k / 3;
    CarrierOf(k);
    RankBelow(i, |d|);
    LsbStreamAt(Embedded(d, bits), i);
    LsbStreamAt(d, i);
  }

  /** decodeMessage's extraction of an image encodeMessage wrote returns the
      embedded bits and then the image's own bits beyond them. */
  lemma LsbStreamOfEmbedded(d: seq<Byte>, bits: seq<Bit>)
    requires |bits| <= |LsbStream(d)|
    ensures LsbStream(Embedded(d, bits)) == bits + LsbStream(d)[|bits|..]
  {
    var s := LsbStream(d);
    var t := bits + s[|bits|..];
    forall k | 0 <= k < |s|
      ensures LsbStream(Embedded(d, bits))[k] == t[k]
    {
      EmbeddedBitAt(d, bits, k);
    }
  }

  /** An image of width x height pixels has 3 * width * height colour bytes,
      the totalBits of calculateCapacity. */
  lemma CarriersOfImage(n: nat, width: nat, height: nat)
    requires n == 4 * width * height
    ensures Rank(n) == Capacity.CalculateCapacity(width, height).totalBits
  {
    var p := width * height;
    assert n == 4 * p;
    assert n / 4 == p;
  }

  /** Where encodeMessage succeeds, the end-marked payload fits the image's
      colour bytes. */
  lemma FitsWhenAccepted(d: seq<Byte>, width: nat, height: nat, message: JsString, key: JsString)
    requires |d| == 4 * width * height
    ensures !TooLarge(message, key, width, height) <==> |AllBits(message, key)| <= |LsbStream(d)|
  {
    CarriersOfImage(|d|, width, height);
  }

  /** For a non-empty payload, encodeMessage's own test agrees with
      canFitMessage on the payload's UTF-8 length. */
  lemma TooLargeIffCannotFit(message: JsString, key: JsString, width: nat, height: nat)
    requires PayloadBytes(message, key) != []
    ensures TooLarge(message, key, width, height) <==>
            !Capacity.CanFitMessage(|PayloadBytes(message, key)|, width, height).canFit
  {
    BitCodec.BytesToBitsLength(PayloadBytes(message, key));
    Capacity.FitIffBitsFit(|PayloadBytes(message, key)|, width, height);
  }

  // ---------------------------------------------------------------------------
  // The end marker

  /** The number of zero bits at the end of b. */
  function TrailingZeros(b: seq<Bit>): (n: nat)
    ensures n <= |b|
    ensures forall k :: |b| - n <= k < |b| ==> b[k] == 0
    ensures n < |b| ==> b[|b| - n - 1] == 1
  {
    if b == [] || b[|b| - 1] != 0 then 0 else 1 + TrailingZeros(b[..|b| - 1])
  }

  /** A zero window followed by no earlier one is the first marker. */
  lemma FirstMarkerIs(s: seq<Bit>, q: nat)
    requires ZeroWindow(s, q)
    requires forall p: nat :: p < q ==> !ZeroWindow(s, p)
    ensures FirstMarker(s) == Some(q)
  {
  }

  /** When the payload bits hold no 64 zero bits, the first marker after
      embedding starts where the payload's trailing zero bits start. */
  lemma MarkerAfterPayload(b: seq<Bit>, rest: seq<Bit>)
    requires NoMarker(b)
    ensures FirstMarker(b + END_MARKER + rest) == Some(|b| - TrailingZeros(b))
  {
    var s := b + END_MARKER + rest;
    var q := |b| - TrailingZeros(b);
    WindowAtTrailingZeros(b, rest);
    forall p: nat | p < q
      ensures !ZeroWindow(s, p)
    {
      NoWindowBeforeTrailingZeros(b, rest, p);
    }
    FirstMarkerIs(s, q);
  }

  /** The bits of the marked stream: the payload, 64 zeros, the rest. */
  lemma MarkedStreamAt(b: seq<Bit>, rest: seq<Bit>, k: nat)
    requires k < |b| + Capacity.END_MARKER_BITS + |rest|
    ensures var s := b + END_MARKER + rest;
            s[k] == if k < |b| then b[k] else if k < |b| + Capacity.END_MARKER_BITS then 0
                    else rest[k - |b| - Capacity.END_MARKER_BITS]
  {
  }

  /** The payload's trailing zeros and the marker make a zero window. */
  lemma WindowAtTrailingZeros(b: seq<Bit>, rest: seq<Bit>)
    ensures ZeroWindow(b + END_MARKER + rest, |b| - TrailingZeros(b))
  {
    var s := b + END_MARKER + rest;
    var q := |b| - TrailingZeros(b);
    forall k | q <= k < q + Capacity.END_MARKER_BITS
      ensures s[k] == 0
    {
      MarkedStreamAt(b, rest, k);
    }
  }

  /** No zero window starts before the payload's trailing zeros: one within
      the payload contradicts NoMarker, and one reaching past it covers the
      1 before the trailing zeros. */
  lemma NoWindowBeforeTrailingZeros(b: seq<Bit>, rest: seq<Bit>, p: nat)
    requires NoMarker(b)
    requires p < |b| - TrailingZeros(b)
    ensures !ZeroWindow(b + END_MARKER + rest, p)
  {
    var q := |b| - TrailingZeros(b);
    if p + Capacity.END_MARKER_BITS <= |b| {
      NoMarkerAt(b, p);
      WindowWithinPayload(b, rest, p);
    } else {
      OneBeforeTrailingZeros(b, rest, q);
      NoWindowOverOne(b + END_MARKER + rest, p, q - 1);
    }
  }

  lemma NoMarkerAt(b: seq<Bit>, p: nat)
    requires NoMarker(b)
    ensures !ZeroWindow(b, p)
  {
  }

  /** A zero window of the marked stream that lies within the payload is a
      zero window of the payload. */
  lemma WindowWithinPayload(b: seq<Bit>, rest: seq<Bit>, p: nat)
    requires p + Capacity.END_MARKER_BITS <= |b|
    ensures ZeroWindow(b + END_MARKER + rest, p) ==> ZeroWindow(b, p)
  {
    var s := b + END_MARKER + rest;
    if ZeroWindow(s, p) {
      forall k | p <= k < p + Capacity.END_MARKER_BITS
        ensures b[k] == 0
      {
        assert s[k] == 0;
        MarkedStreamAt(b, rest, k);
      }
    }
  }

  /** The bit before the payload's trailing zeros is a 1. */
  lemma OneBeforeTrailingZeros(b: seq<Bit>, rest: seq<Bit>, q: nat)
    requires q == |b| - TrailingZeros(b) && q > 0
    ensures (b + END_MARKER + rest)[q - 1] == 1
  {
    MarkedStreamAt(b, rest, q - 1);
  }

  /** No zero window covers a 1. */
  lemma NoWindowOverOne(s: seq<Bit>, p: nat, k: nat)
    requires p <= k < p + Capacity.END_MARKER_BITS && k < |s| && s[k] == 1
    ensures !ZeroWindow(s, p)
  {
  }

  /** A byte that is not zero has a bit set. */
  function LowestSetBit(x: nat): (j: nat)
    requires x > 0
    ensures BitCodec.BitOf(x, j) == 1
    ensures x < 0x100 ==> j < 8
  {
    if x % 2 == 1 then 0 else 1 + LowestSetBit(x / 2)
  }

  /** Bytes none of which is zero give bits with no 64 consecutive zeros:
      every 64-bit window covers a whole byte. */
  lemma NoZeroByteNoMarker(bytes: seq<Byte>)
    requires 0 !in bytes
    ensures NoMarker(BitCodec.BytesToBits(bytes))
  {
    var b := BitCodec.BytesToBits(bytes);
    BitCodec.BytesToBitsLength(bytes);
    forall q: nat
      ensures !ZeroWindow(b, q)
    {
      if q + Capacity.END_MARKER_BITS <= |b| {
        var i := (q + 7) / 8;
        assert i < |bytes|;
        var j := LowestSetBit(bytes[i]);
        BitCodec.BytesToBitsAt(bytes, i, 7 - j);
        assert q <= 8 * i + (7 - j) < q + Capacity.END_MARKER_BITS;
        assert b[8 * i + (7 - j)] == 1;
      }
    }
  }

  /** When the last payload byte is not zero, fewer than 8 bits trail as zeros. */
  lemma TrailingZerosOfLastByte(bytes: seq<Byte>)
    requires bytes != [] && bytes[|bytes| - 1] != 0
    ensures TrailingZeros(BitCodec.BytesToBits(bytes)) < 8
  {
    var b := BitCodec.BytesToBits(bytes);
    var m := |bytes| - 1;
    var j := LowestSetBit(bytes[m]);
    BitCodec.BytesToBitsAt(bytes, m, 7 - j);
    assert b[8 * m + (7 - j)] == 1;
  }

  // ---------------------------------------------------------------------------
  // Decoding an encoded image

  /** The stream read from an image into which b and the marker were
      embedded: b, the 64 zeros, then the image's own bits beyond them. */
  lemma MarkedStream(d: seq<Byte>, b: seq<Bit>)
    requires |b| + Capacity.END_MARKER_BITS <= |LsbStream(d)|
    ensures LsbStream(Embedded(d, b + END_MARKER)) ==
            b + END_MARKER + LsbStream(d)[|b| + Capacity.END_MARKER_BITS..]
  {
    LsbStreamOfEmbedded(d, b + END_MARKER);
  }

  /** decodeMessage's reading of payload bits b, the marker and further bits:
      the message bits are b without its trailing zero bits. */
  lemma DecodeOfMarked(b: seq<Bit>, rest: seq<Bit>, key: JsString)
    requires NoMarker(b)
    ensures var q := |b| - TrailingZeros(b);
            DecodeBits(b + END_MARKER + rest, key) ==
              MessageBefore(b[..q], key)
  {
    var s := b + END_MARKER + rest;
    var q := |b| - TrailingZeros(b);
    MarkerAfterPayload(b, rest);
    PrefixOfMarked(b, rest, q);
    DecodeBitsAt(s, key, q, b[..q]);
  }

  /** The marked stream starts with the payload bits. */
  lemma PrefixOfMarked(b: seq<Bit>, rest: seq<Bit>, n: nat)
    requires n <= |b|
    ensures (b + END_MARKER + rest)[..n] == b[..n]
  {
  }

  /** decodeMessage on bits whose first marker starts at q, before which they hold m. */
  lemma DecodeBitsAt(s: seq<Bit>, key: JsString, q: nat, m: seq<Bit>)
    requires FirstMarker(s) == Some(q)
    requires q <= |s| && s[..q] == m
    ensures DecodeBits(s, key) == MessageBefore(m, key)
  {
  }

  /** The corrected decoder on bits whose first marker starts at q and which
      hold m up to the byte boundary after q. */
  lemma CorrectedBitsAt(s: seq<Bit>, key: JsString, q: nat, end: nat, m: seq<Bit>)
    requires FirstMarker(s) == Some(q)
    requires end == (q + 7) / 8 * 8 && end <= |s| && s[..end] == m
    ensures CorrectedBits(s, key) == MessageBefore(m, key)
  {
    match FirstMarker(s)
    case Some(p) =>
      assert p == q;
  }

  /** decodeMessage on an image into which bits b and the end marker were
      embedded: the message bits are b without its trailing zero bits. */
  lemma DecodeOfEmbedded(d: seq<Byte>, b: seq<Bit>, key: JsString)
    requires |b| + Capacity.END_MARKER_BITS <= |LsbStream(d)|
    requires NoMarker(b)
    ensures var q := |b| - TrailingZeros(b);
            DecodeSpec(Embedded(d, b + END_MARKER), key) ==
              MessageBefore(b[..q], key)
  {
    MarkedStream(d, b);
    DecodeOfMarked(b, LsbStream(d)[|b| + Capacity.END_MARKER_BITS..], key);
  }

  /** decodeMessage on an image encodeMessage wrote: the message bits are the
      payload bits without their trailing zero bits. */
  lemma DecodeOfEncoded(d: seq<Byte>, message: JsString, key: JsString)
    requires |AllBits(message, key)| <= |LsbStream(d)|
    requires NoMarker(PayloadBits(message, key))
    ensures var b := PayloadBits(message, key);
            var q := |b| - TrailingZeros(b);
            DecodeSpec(Embedded(d, AllBits(message, key)), key) ==
              MessageBefore(b[..q], key)
  {
    DecodeOfEmbedded(d, PayloadBits(message, key), key);
  }

  /** The message bits are the whole payload exactly when the payload is
      empty or its last bit is 1. */
  lemma ExactIffLastBitIsOne(b: seq<Bit>)
    ensures (b[..|b| - TrailingZeros(b)] == b) <==> (b == [] || b[|b| - 1] == 1)
  {
    if b != [] && b[|b| - 1] == 0 {
      assert |b[..|b| - TrailingZeros(b)]| < |b|;
    }
  }

  /** Encoding the empty message and decoding it reports an empty message. */
  lemma EmptyMessageDecodesAsEmpty(d: seq<Byte>, key: JsString)
    requires Capacity.END_MARKER_BITS <= |LsbStream(d)|
    ensures DecodeSpec(Embedded(d, AllBits([], key)), key) == EmptyMessage
  {
    assert Compression.Compress([]) == [];
    assert PayloadText([], key) == [];
    assert Utf8.Encode([]) == [];
    assert PayloadBits([], key) == [];
    assert AllBits([], key) == END_MARKER;
    DecodeOfEncoded(d, [], key);
  }

  /** The conditions under which the payload decodes back to the message:
      the compressor's round trip holds and the UTF-8 round trip holds. */
  ghost predicate Recoverable(message: JsString, key: JsString)
  {
    var text := PayloadText(message, key);
    Compression.SECTION !in message && Compression.NoTerminatorRun(message) &&
    Utf8.WellFormed(text) && (text == [] || text[0] != Utf8.BYTE_ORDER_MARK)
  }

  /** Under those conditions the payload bytes, complete, give back the message. */
  lemma MessageOfPayload(message: JsString, key: JsString)
    requires Recoverable(message, key)
    ensures MessageOf(PayloadBits(message, key), key) == message
  {
    var c := Compression.Compress(message);
    var text := PayloadText(message, key);
    BitCodec.BitsToBytesOfBytesToBits(PayloadBytes(message, key));
    Utf8.DecodeEncode(text);
    XorCipher.XorInvolution(c, key);
    Compression.DecompressCompress(message);
  }

  /** The round trip of the source as written: when the payload bits end in a
      1, decodeMessage returns the message that was encoded. */
  lemma RoundTripWhenLastBitIsOne(d: seq<Byte>, message: JsString, key: JsString)
    requires |AllBits(message, key)| <= |LsbStream(d)|
    requires Recoverable(message, key)
    requires NoMarker(PayloadBits(message, key))
    requires var b := PayloadBits(message, key); b != [] && b[|b| - 1] == 1
    ensures DecodeSpec(Embedded(d, AllBits(message, key)), key) ==
            Message(message, |PayloadBits(message, key)|, |message|)
  {
    var b := PayloadBits(message, key);
    DecodeOfEncoded(d, message, key);
    assert b[..|b|] == b;
    MessageOfPayload(message, key);
  }

  /** "b" is the byte 0x62, whose last bit is 0: decodeMessage takes that bit
      for the marker and reads the seven bits before it as "1" (0x31). */
  lemma LetterBDecodesAsOne(d: seq<Byte>)
    requires 72 <= |LsbStream(d)|
    ensures DecodeSpec(Embedded(d, AllBits([0x62], [])), []) == Message([0x31], 7, 1)
  {
    var b: seq<Bit> := [0, 1, 1, 0, 0, 0, 1, 0];
    var m: seq<Bit> := [0, 1, 1, 0, 0, 0, 1];
    PayloadOfB();
    BitsOfB(b);
    SevenBitsDecode(m);
    DecodeOfPayload(d, [0x62], [], b, 7, m);
  }

  /** DecodeOfEncoded with the payload, its message length and its message
      bits named. */
  lemma DecodeOfPayload(d: seq<Byte>, message: JsString, key: JsString, b: seq<Bit>, q: nat, m: seq<Bit>)
    requires b == PayloadBits(message, key) && NoMarker(b)
    requires |b| + Capacity.END_MARKER_BITS <= |LsbStream(d)|
    requires q == |b| - TrailingZeros(b) && m == b[..q]
    ensures DecodeSpec(Embedded(d, AllBits(message, key)), key) == MessageBefore(m, key)
  {
    DecodeOfEncoded(d, message, key);
  }

  /** The payload of "b" without a key: the eight bits of 0x62. */
  lemma PayloadOfB()
    ensures PayloadBits([0x62], []) == [0, 1, 1, 0, 0, 0, 1, 0]
  {
    var t: JsString := [0x62];
    assert Compression.RunFrom(t, 1) == 1;
    assert t[1..] == [];
    assert Compression.Compress(t) == t;
    assert PayloadText(t, []) == t;
    assert Utf8.ScalarValues(t) == [0x62];
    assert Utf8.EncodeScalars([0x62]) == Utf8.EncodeScalar(0x62) + Utf8.EncodeScalars([]);
    assert PayloadBytes(t, []) == [0x62];
    BitCodec.SevenBitsOfB();
  }

  /** The bits of 0x62 end in one zero and hold no marker. */
  lemma BitsOfB(b: seq<Bit>)
    requires b == [0, 1, 1, 0, 0, 0, 1, 0]
    ensures TrailingZeros(b) == 1 && NoMarker(b)
    ensures b[..7] == [0, 1, 1, 0, 0, 0, 1]
  {
    assert b[..7] == [0, 1, 1, 0, 0, 0, 1];
    assert TrailingZeros(b[..7]) == 0;
  }

  /** The seven bits left of 0x62 decode as "1". */
  lemma SevenBitsDecode(m: seq<Bit>)
    requires m == [0, 1, 1, 0, 0, 0, 1]
    ensures MessageBefore(m, []) == Message([0x31], 7, 1)
  {
    BitCodec.SevenBitsOfB();
    var one: JsString := [0x31];
    assert Utf8.ScalarValues(one) == [0x31];
    assert Utf8.EncodeScalars([0x31]) == Utf8.EncodeScalar(0x31) + Utf8.EncodeScalars([]);
    assert Utf8.Encode(one) == [0x31];
    assert Utf8.WellFormed(one) by {
      assert one[1..] == [];
    }
    Utf8.DecodeEncode(one);
    Compression.DecompressWithoutSection(one);
    assert MessageOf(m, []) == one;
  }

  // ---------------------------------------------------------------------------
  // The corrected decoder

  /** Rounding len - t up to a multiple of 8 gives len back when len is a
      positive multiple of 8 and t < 8. */
  lemma RoundUpToByte(len: nat, t: nat)
    requires len > 0 && len % 8 == 0 && t < 8
    ensures len - t > 0
    ensures (len - t + 7) / 8 * 8 == len
  {
    var m := len / 8;
    assert len == 8 * m;
    assert len - t + 7 == 8 * m + (7 - t);
    assert (8 * m + (7 - t)) / 8 == m;
  }

  /** Rounding up to a multiple of 8 stays within a length that is one. */
  lemma RoundUpWithin(q: nat, n: nat)
    requires q <= n && n % 8 == 0
    ensures q <= (q + 7) / 8 * 8 <= n
  {
  }

  /** The corrected decoder's reading of payload bits b, a whole number of
      bytes, the marker and further bits: the message bits are b up to the
      byte boundary at or after the start of its trailing zeros. */
  lemma CorrectedOfMarked(b: seq<Bit>, rest: seq<Bit>, key: JsString, q: nat, end: nat)
    requires NoMarker(b)
    requires |b| % 8 == 0
    requires q == |b| - TrailingZeros(b) && end == (q + 7) / 8 * 8
    ensures end <= |b|
    ensures CorrectedBits(b + END_MARKER + rest, key) ==
            MessageBefore(b[..end], key)
  {
    MarkerAfterPayload(b, rest);
    CorrectedAfterMarker(b, rest, key, q, end);
  }

  /** The same, once the first marker is known to start at q. */
  lemma CorrectedAfterMarker(b: seq<Bit>, rest: seq<Bit>, key: JsString, q: nat, end: nat)
    requires |b| % 8 == 0 && q <= |b| && end == (q + 7) / 8 * 8
    requires FirstMarker(b + END_MARKER + rest) == Some(q)
    ensures end <= |b|
    ensures CorrectedBits(b + END_MARKER + rest, key) ==
            MessageBefore(b[..end], key)
  {
    RoundUpWithin(q, |b|);
    PrefixOfMarked(b, rest, end);
    CorrectedBitsAt(b + END_MARKER + rest, key, q, end, b[..end]);
  }

  /** With the message bits rounded up to a whole byte, decodeMessage returns
      the encoded message whenever the last payload byte is not zero. */
  lemma RoundTripCorrected(d: seq<Byte>, message: JsString, key: JsString)
    requires |AllBits(message, key)| <= |LsbStream(d)|
    requires Recoverable(message, key)
    requires NoMarker(PayloadBits(message, key))
    requires var p := PayloadBytes(message, key); p != [] && p[|p| - 1] != 0
    ensures DecodeCorrected(Embedded(d, AllBits(message, key)), key) ==
            Message(message, |PayloadBits(message, key)|, |message|)
  {
    var p := PayloadBytes(message, key);
    var b := PayloadBits(message, key);
    MessageOfPayload(message, key);
    CorrectedOfEmbeddedBytes(d, p, b, key, message);
  }

  /** The corrected decoder on an image into which the bits of bytes p, the
      last of which is not zero, and the end marker were embedded. */
  lemma CorrectedOfEmbeddedBytes(d: seq<Byte>, p: seq<Byte>, b: seq<Bit>, key: JsString, message: JsString)
    requires p != [] && p[|p| - 1] != 0
    requires b == BitCodec.BytesToBits(p) && NoMarker(b)
    requires |b| + Capacity.END_MARKER_BITS <= |LsbStream(d)|
    requires MessageOf(b, key) == message
    ensures DecodeCorrected(Embedded(d, b + END_MARKER), key) == Message(message, |b|, |message|)
  {
    var rest := LsbStream(d)[|b| + Capacity.END_MARKER_BITS..];
    MarkedStream(d, b);
    CorrectedOfBytes(p, b, rest, key);
    CorrectedOfStream(Embedded(d, b + END_MARKER), b + END_MARKER + rest, key, b, message);
  }

  lemma CorrectedOfStream(d: seq<Byte>, s: seq<Bit>, key: JsString, b: seq<Bit>, message: JsString)
    requires LsbStream(d) == s
    requires CorrectedBits(s, key) == Message(MessageOf(b, key), |b|, |MessageOf(b, key)|)
    requires MessageOf(b, key) == message
    ensures DecodeCorrected(d, key) == Message(message, |b|, |message|)
  {
  }

  /** The corrected decoder reads all the bits of bytes p, the last of which
      is not zero, when they are followed by the marker. */
  lemma CorrectedOfBytes(p: seq<Byte>, b: seq<Bit>, rest: seq<Bit>, key: JsString)
    requires p != [] && p[|p| - 1] != 0
    requires b == BitCodec.BytesToBits(p) && NoMarker(b)
    ensures CorrectedBits(b + END_MARKER + rest, key) ==
            Message(MessageOf(b, key), |b|, |MessageOf(b, key)|)
  {
    BitCodec.BytesToBitsLength(p);
    TrailingZerosOfLastByte(p);
    CorrectedOfWholeBytes(b, rest, key);
  }

  /** The same for payload bits that are a whole number of bytes and end in
      fewer than eight zeros. */
  lemma CorrectedOfWholeBytes(b: seq<Bit>, rest: seq<Bit>, key: JsString)
    requires b != [] && |b| % 8 == 0 && TrailingZeros(b) < 8
    requires NoMarker(b)
    ensures CorrectedBits(b + END_MARKER + rest, key) ==
            Message(MessageOf(b, key), |b|, |MessageOf(b, key)|)
  {
    RoundUpToByte(|b|, TrailingZeros(b));
    TakeAll(b, |b|);
    CorrectedOfMarked(b, rest, key, |b| - TrailingZeros(b), |b|);
  }

  /** The corrected decoder reads "b" back. */
  lemma LetterBCorrected(d: seq<Byte>)
    requires 72 <= |LsbStream(d)|
    ensures DecodeCorrected(Embedded(d, AllBits([0x62], [])), []) == Message([0x62], 8, 1)
  {
    var t: JsString := [0x62];
    PayloadOfB();
    BitsOfB(PayloadBits(t, []));
    assert Compression.RunFrom(t, 1) == 1;
    assert t[1..] == [];
    assert Compression.Compress(t) == t;
    assert Utf8.WellFormed(t) by {
      assert t[1..] == [];
    }
    assert Compression.NoTerminatorRun(t);
    RoundTripCorrected(d, t, []);
  }

  // ---------------------------------------------------------------------------
  // Messages without a key

  /** The compressed text's code units are the message's, §, and decimal digits. */
  lemma {:induction false} CompressNoZero(t: JsString)
    requires 0 !in t
    ensures 0 !in Compression.Compress(t)
    decreases |t|
  {
    if t != [] {
      var n := Compression.Run(t);
      CompressNoZero(t[n..]);
      assert 0 !in Compression.Block(t) by {
        if n >= Compression.MIN_RUN {
          var digits := Compression.Decimal(n);
          assert 0 !in digits;
        } else {
          assert forall x :: x in t[..n] ==> x in t;
        }
      }
    }
  }

  /** The compressed text starts with the message's first code unit or with §. */
  lemma CompressStart(t: JsString)
    requires t != []
    ensures Compression.Compress(t) != []
    ensures Compression.Compress(t)[0] == t[0] || Compression.Compress(t)[0] == Compression.SECTION
  {
    var n := Compression.Run(t);
    assert Compression.Block(t)[0] == t[0] || Compression.Block(t)[0] == Compression.SECTION;
  }

  /** Code units that are not surrogates neither make nor break well-formedness. */
  lemma {:induction false} WellFormedAfterPlain(u: JsString, v: JsString)
    requires forall k :: 0 <= k < |u| ==> !Utf8.IsSurrogate(u[k])
    ensures Utf8.WellFormed(u + v) <==> Utf8.WellFormed(v)
    decreases |u|
  {
    if u == [] {
      assert u + v == v;
    } else {
      assert (u + v)[0] == u[0];
      assert (u + v)[1..] == u[1..] + v;
      WellFormedAfterPlain(u[1..], v);
    }
  }

  /** Compression keeps a string well formed: in a well-formed string no
      surrogate repeats, so surrogates are always copied singly. */
  lemma {:induction false} CompressWellFormed(t: JsString)
    requires Utf8.WellFormed(t)
    ensures Utf8.WellFormed(Compression.Compress(t))
    decreases |t|
  {
    if t != [] {
      if Utf8.IsHighSurrogate(t[0]) {
        var tail := t[2..];
        assert Compression.Compress(t) == [t[0]] + Compression.Compress(t[1..]) by {
          assert Compression.RunFrom(t, 1) == 1;
          assert t[..1] == [t[0]];
        }
        assert Compression.Compress(t[1..]) == [t[1]] + Compression.Compress(tail) by {
          var u := t[1..];
          assert tail != [] ==> !Utf8.IsLowSurrogate(tail[0]);
          assert Compression.RunFrom(u, 1) == 1;
          assert u[..1] == [t[1]];
          assert u[1..] == tail;
        }
        CompressWellFormed(tail);
        var c := [t[0]] + ([t[1]] + Compression.Compress(tail));
        assert c[2..] == Compression.Compress(tail);
      } else {
        var n := Compression.Run(t);
        Compression.RunIsMaximal(t);
        var block := Compression.Block(t);
        assert forall k :: 0 <= k < |block| ==> !Utf8.IsSurrogate(block[k]) by {
          if n >= Compression.MIN_RUN {
            var digits := Compression.Decimal(n);
            assert forall k :: 0 <= k < |digits| ==> !Utf8.IsSurrogate(digits[k]);
          }
        }
        assert t == t[..n] + t[n..];
        WellFormedAfterPlain(t[..n], t[n..]);
        CompressWellFormed(t[n..]);
        WellFormedAfterPlain(block, Compression.Compress(t[n..]));
      }
    }
  }

  /** Without a key, a non-empty well-formed message with no NUL, no §, no
      leading U+FEFF and no run of four line terminators comes back exactly
      from the corrected decoder, whenever encodeMessage accepts it. */
  lemma PlainRoundTripCorrected(d: seq<Byte>, width: nat, height: nat, message: JsString)
    requires |d| == 4 * width * height
    requires !TooLarge(message, [], width, height)
    requires message != [] && message[0] != Utf8.BYTE_ORDER_MARK
    requires 0 !in message && Compression.SECTION !in message
    requires Utf8.WellFormed(message) && Compression.NoTerminatorRun(message)
    ensures DecodeCorrected(Embedded(d, AllBits(message, [])), []) ==
            Message(message, |PayloadBits(message, [])|, |message|)
  {
    FitsWhenAccepted(d, width, height, message, []);
    var c := Compression.Compress(message);
    assert PayloadText(message, []) == c;
    CompressWellFormed(message);
    CompressStart(message);
    CompressNoZero(message);
    Utf8.EncodeHasNoZeroByte(c);
    Utf8.EncodeNonEmpty(c);
    NoZeroByteNoMarker(PayloadBytes(message, []));
    var p := PayloadBytes(message, []);
    assert p[|p| - 1] in p;
    RoundTripCorrected(d, message, []);
  }
}
