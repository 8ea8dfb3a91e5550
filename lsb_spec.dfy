/** What encodeMessage writes and what decodeMessage reads, as functions of
    the RGBA bytes of an image (R, G, B, A for each pixel in turn). The
    payload is the compressed, optionally XOR-ed message as UTF-8 bits,
    followed by 64 zero bits; bit k goes into the least significant bit of
    the k-th colour byte, alpha bytes being skipped. */
module LsbSpec {
  import opened Types
  import Utf8
  import BitCodec
  import Compression
  import XorCipher
  import Capacity

  /** Byte i of the buffer is an alpha byte: indices 3, 7, 11, ... */
  predicate IsAlpha(i: nat)
  {
    (i + 1) % 4 == 0
  }

  /** The number of colour (non-alpha) bytes before index i: the position of
      byte i's bit in the bit stream when byte i is a colour byte. */
  function Rank(i: nat): (r: nat)
    ensures r <= i
  {
    i - i / 4
  }

  /** `x | 1` for bit 1 and `x & 0xFE` for bit 0: the byte with its least
      significant bit replaced. */
  function SetLsb(x: Byte, b: Bit): (r: Byte)
    ensures r % 2 == b && r / 2 == x / 2
    ensures -1 <= r - x <= 1
  {
    x - x % 2 + b
  }

  /** The buffer encodeMessage produces from d: the colour byte of rank k
      takes bit k of bits in its least significant bit, for k < |bits|;
      every other byte is copied. */
  function Embedded(d: seq<Byte>, bits: seq<Bit>): (r: seq<Byte>)
    ensures |r| == |d|
  {
    seq(|d|, i requires 0 <= i < |d| =>
      if !IsAlpha(i) && Rank(i) < |bits| then SetLsb(d[i], bits[Rank(i)]) else d[i])
  }

  /** Once the rank reaches the number of bits, every later byte is left as
      it was: ranks follow buffer order. */
  lemma EmbeddedPastBits(d: seq<Byte>, bits: seq<Bit>, i: nat, j: nat)
    requires i <= j < |d| && Rank(i) >= |bits|
    ensures Embedded(d, bits)[j] == d[j]
  {
    assert Rank(i) <= Rank(j);
  }

  /** The bits decodeMessage extracts: `data[i] & 1` for every colour byte,
      in index order. */
  function LsbStream(d: seq<Byte>): (r: seq<Bit>)
    ensures |r| == Rank(|d|)
  {
    if d == [] then []
    else LsbStream(d[..|d| - 1]) + (if IsAlpha(|d| - 1) then [] else [d[|d| - 1] % 2])
  }

  // ---------------------------------------------------------------------------
  // The end marker

  /** 64 consecutive zero bits start at position q. */
  predicate ZeroWindow(bits: seq<Bit>, q: nat)
  {
    q + Capacity.END_MARKER_BITS <= |bits| &&
    forall k :: q <= k < q + Capacity.END_MARKER_BITS ==> bits[k] == 0
  }

  /** No 64 consecutive zero bits anywhere. */
  ghost predicate NoMarker(bits: seq<Bit>)
  {
    forall q: nat :: !ZeroWindow(bits, q)
  }

  /** The first start, at q or later, of 64 consecutive zero bits. */
  function FirstMarkerFrom(bits: seq<Bit>, q: nat): (r: Option<nat>)
    ensures r.Some? ==> q <= r.value && ZeroWindow(bits, r.value)
    ensures r.Some? ==> forall p: nat :: q <= p < r.value ==> !ZeroWindow(bits, p)
    ensures r.None? ==> forall p: nat :: q <= p ==> !ZeroWindow(bits, p)
    decreases |bits| - q
  {
    if q + Capacity.END_MARKER_BITS > |bits| then None
    else if ZeroWindow(bits, q) then Some(q)
    else FirstMarkerFrom(bits, q + 1)
  }

  /** The start of the first run of 64 zero bits, if there is one. */
  function FirstMarker(bits: seq<Bit>): Option<nat>
  {
    FirstMarkerFrom(bits, 0)
  }

  /** The index decodeMessage's marker loop reports: the first marker's start, or -1. */
  function MarkerIndex(bits: seq<Bit>): int
  {
    match FirstMarker(bits)
    case None => -1
    case Some(q) => q
  }

  // ---------------------------------------------------------------------------
  // Encoding

  /** The text encodeMessage turns into bits: compressed, then XOR-ed when a
      key is given (an empty key means no key). */
  function PayloadText(message: JsString, key: JsString): JsString
  {
    XorCipher.Xored(Compression.Compress(message), key)
  }

  /** The UTF-8 bytes of the payload text. */
  function PayloadBytes(message: JsString, key: JsString): seq<Byte>
  {
    Utf8.Encode(PayloadText(message, key))
  }

  /** messageBits: eight bits per payload byte. */
  function PayloadBits(message: JsString, key: JsString): seq<Bit>
  {
    BitCodec.BytesToBits(PayloadBytes(message, key))
  }

  /** The end marker, `new Array(END_MARKER_BITS).fill(0)`: 64 zero bits. */
  const END_MARKER: seq<Bit> := Repeat(0, Capacity.END_MARKER_BITS)

  /** allBits: the payload bits followed by the 64-bit end marker. */
  function AllBits(message: JsString, key: JsString): seq<Bit>
  {
    PayloadBits(message, key) + END_MARKER
  }

  /** The integer part of encodeMessage's statistics (capacityUsed and
      compressionRatio are floating point). */
  datatype EncodeStats = EncodeStats(
    originalSize: nat, compressedSize: nat, encodedBits: nat, pixelsModified: nat, totalPixels: nat)

  /** The statistics encodeMessage reports on success. */
  function Stats(message: JsString, key: JsString, width: nat, height: nat): EncodeStats
  {
    var allBits := AllBits(message, key);
    EncodeStats(|message|, |Compression.Compress(message)|, |allBits|,
      (|allBits| + Capacity.CHANNELS_PER_PIXEL - 1) / Capacity.CHANNELS_PER_PIXEL,
      Capacity.CalculateCapacity(width, height).totalPixels)
  }

  /** encodeMessage refuses the message when its bits do not fit the image. */
  predicate TooLarge(message: JsString, key: JsString, width: nat, height: nat)
  {
    |AllBits(message, key)| > Capacity.CalculateCapacity(width, height).totalBits
  }

  /** The byte count the "too large" error reports, `Math.ceil(allBits.length / 8)`. */
  function RequiredBytes(message: JsString, key: JsString): nat
  {
    (|AllBits(message, key)| + 7) / 8
  }

  // ---------------------------------------------------------------------------
  // Decoding

  /** decodeMessage's outcome with its statistics (headerValid is always true). */
  datatype Decoded =
    | Message(message: JsString, extractedBits: nat, messageSize: nat)
    | NoMessage
    | EmptyMessage

  const NO_MESSAGE_ERROR: string := "Nenhuma mensagem oculta encontrada nesta imagem"
  const EMPTY_MESSAGE_ERROR: string := "Mensagem vazia encontrada"

  /** The error text of a failed decode. */
  function ErrorText(r: Decoded): string
    requires !r.Message?
  {
    if r.NoMessage? then NO_MESSAGE_ERROR else EMPTY_MESSAGE_ERROR
  }

  /** The message recovered from message bits: bytes, UTF-8 decoding, XOR with
      the key when there is one, decompression. */
  function MessageOf(messageBits: seq<Bit>, key: JsString): JsString
  {
    Compression.Decompress(XorCipher.Xored(Utf8.Decode(BitCodec.BitsToBytes(messageBits)), key))
  }

  /** decodeMessage's outcome once the message bits are known: the empty
      message error when there are none, else the message with its statistics. */
  function MessageBefore(messageBits: seq<Bit>, key: JsString): Decoded
  {
    if messageBits == [] then EmptyMessage
    else
      var message := MessageOf(messageBits, key);
      Message(message, |messageBits|, |message|)
  }

  /** decodeMessage on the extracted bits: the message bits are the bits
      before the first 64 zero bits. */
  function DecodeBits(bits: seq<Bit>, key: JsString): Decoded
  {
    match FirstMarker(bits)
    case None => NoMessage
    case Some(q) => MessageBefore(bits[..q], key)
  }

  /** decodeMessage on the bytes d of an image. */
  function DecodeSpec(d: seq<Byte>, key: JsString): Decoded
  {
    DecodeBits(LsbStream(d), key)
  }

  /** The corrected decoder on the extracted bits: the message bits end at
      the first byte boundary at or after the marker's start, so that zero
      bits at the end of the last payload byte are kept rather than taken for
      the marker. */
  function CorrectedBits(bits: seq<Bit>, key: JsString): Decoded
  {
    match FirstMarker(bits)
    case None => NoMessage
    case Some(q) => MessageBefore(bits[..(q + 7) / 8 * 8], key)
  }

  /** The corrected decoder on the bytes d of an image. */
  function DecodeCorrected(d: seq<Byte>, key: JsString): Decoded
  {
    CorrectedBits(LsbStream(d), key)
  }
}
