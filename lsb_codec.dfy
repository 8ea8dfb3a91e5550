/** The image-side operations of the steganography library: encodeMessage,
    decodeMessage and the LSB count of analyzeImage, over a browser ImageData
    (width, height and a byte buffer of 4 * width * height RGBA bytes). */
module LsbCodec {
  import opened Types
  import BitCodec
  import Compression
  import XorCipher
  import Capacity
  import opened LsbSpec

  /** A canvas ImageData: its buffer holds R, G, B, A for each pixel. */
  class ImageData {
    const width: nat
    const height: nat
    const data: array<Byte>

    /** The invariant the browser keeps for every ImageData. */
    predicate Valid()
    {
      data.Length == 4 * width * height
    }

    /** `new ImageData(data, width, height)`, which requires the buffer length
        to match the dimensions. */
    constructor (data: array<Byte>, width: nat, height: nat)
      requires data.Length == 4 * width * height
      ensures this.data == data && this.width == width && this.height == height
      ensures Valid()
    {
      this.data := data;
      this.width := width;
      this.height := height;
    }
  }

  /** The result of encodeMessage: a failure returns the caller's own image
      with the numbers of the "too large" error; a success returns a new image. */
  datatype EncodeResult =
    | EncodeFailure(imageData: ImageData, required: nat, available: nat)
    | EncodeSuccess(imageData: ImageData, stats: EncodeStats)

  /** Byte i of the embedded buffer. */
  lemma EmbeddedAt(d: seq<Byte>, bits: seq<Bit>, i: nat)
    requires i < |d|
    ensures Embedded(d, bits)[i] ==
            if !IsAlpha(i) && Rank(i) < |bits| then SetLsb(d[i], bits[Rank(i)]) else d[i]
  {
  }

  /** The clone and the embedding loop of encodeMessage: a copy of the
      buffer whose colour byte of rank k carries bit k of allBits. */
  method EmbedBits(data: array<Byte>, allBits: seq<Bit>) returns (newData: array<Byte>)
    ensures fresh(newData)
    ensures newData[..] == Embedded(data[..], allBits)
  {
    newData := new Byte[data.Length];
    forall i | 0 <= i < newData.Length {
      newData[i] := data[i];
    }
    ghost var target := Embedded(data[..], allBits);
    var bitIndex := 0;
    var i := 0;
    while i < newData.Length && bitIndex < |allBits|
      invariant 0 <= i <= newData.Length
      invariant bitIndex == Rank(i)
      invariant forall j :: 0 <= j < i ==> newData[j] == target[j]
      invariant forall j :: i <= j < newData.Length ==> newData[j] == data[j]
    {
      EmbeddedAt(data[..], allBits, i);
      if !IsAlpha(i) {
        if allBits[bitIndex] == 1 {
          newData[i] := SetLsb(newData[i], 1);
        } else {
          newData[i] := SetLsb(newData[i], 0);
        }
        bitIndex := bitIndex + 1;
      }
      i := i + 1;
    }
    forall j | i <= j < newData.Length
      ensures newData[j] == target[j]
    {
      EmbeddedPastBits(data[..], allBits, i, j);
    }
    assert newData[..] == target;
  }

  /** encodeMessage(imageData, message, xorKey); an empty key stands for a
      missing one, which the source treats the same way. */
  method EncodeMessage(img: ImageData, message: JsString, key: JsString) returns (r: EncodeResult)
    requires img.Valid()
    ensures r.EncodeFailure? <==> TooLarge(message, key, img.width, img.height)
    ensures r.EncodeFailure? ==>
      r.imageData == img &&
      r.required == RequiredBytes(message, key) &&
      r.available == Capacity.CalculateCapacity(img.width, img.height).usableBytes
    ensures r.EncodeSuccess? ==>
      fresh(r.imageData) && fresh(r.imageData.data) &&
      r.imageData.width == img.width && r.imageData.height == img.height &&
      r.imageData.data[..] == Embedded(img.data[..], AllBits(message, key)) &&
      r.stats == Stats(message, key, img.width, img.height)
    ensures img.data[..] == old(img.data[..])
  {
    var capacity := Capacity.CalculateCapacity(img.width, img.height);
    var compressedMessage := Compression.CompressText(message);
    var processedMessage := compressedMessage;
    if key != [] {
      processedMessage := XorCipher.XorEncrypt(compressedMessage, key);
    }
    var messageBits := BitCodec.StringToBits(processedMessage);
    var endMarker: seq<Bit> := Repeat(0, Capacity.END_MARKER_BITS);
    var allBits := messageBits + endMarker;
    assert allBits == AllBits(message, key);

    if |allBits| > capacity.totalBits {
      return EncodeFailure(img, (|allBits| + 7) / 8, capacity.usableBytes);
    }

    var newData := EmbedBits(img.data, allBits);

    var stats := EncodeStats(|message|, |compressedMessage|, |allBits|,
      (|allBits| + Capacity.CHANNELS_PER_PIXEL - 1) / Capacity.CHANNELS_PER_PIXEL,
      capacity.totalPixels);
    var out := new ImageData(newData, img.width, img.height);
    return EncodeSuccess(out, stats);
  }

  /** The first loop of decodeMessage: `data[i] & 1` for each colour byte. */
  method ExtractLsbs(data: array<Byte>) returns (bits: seq<Bit>)
    ensures bits == LsbStream(data[..])
  {
    bits := [];
    for i := 0 to data.Length
      invariant bits == LsbStream(data[..i])
    {
      LsbStreamSnoc(data[..], i);
      if !IsAlpha(i) {
        bits := bits + [data[i] % 2];
      }
    }
    assert data[..data.Length] == data[..];
  }

  /** The stream of one more byte of the buffer. */
  lemma LsbStreamSnoc(d: seq<Byte>, i: nat)
    requires i < |d|
    ensures LsbStream(d[..i + 1]) == LsbStream(d[..i]) + (if IsAlpha(i) then [] else [d[i] % 2])
  {
    assert d[..i + 1][..i] == d[..i];
  }

  /** The second loop of decodeMessage: counts consecutive zeros and stops at
      the 64th, reporting where the run started, or -1 when no run is found. */
  method FindEndMarker(bits: seq<Bit>) returns (endMarkerIndex: int)
    ensures endMarkerIndex == MarkerIndex(bits)
  {
    endMarkerIndex := -1;
    var consecutiveZeros := 0;
    var i := 0;
    while i < |bits|
      invariant 0 <= i <= |bits|
      invariant 0 <= consecutiveZeros < Capacity.END_MARKER_BITS && consecutiveZeros <= i
      invariant forall k :: i - consecutiveZeros <= k < i ==> bits[k] == 0
      invariant consecutiveZeros < i ==> bits[i - consecutiveZeros - 1] != 0
      invariant forall q: nat :: q + Capacity.END_MARKER_BITS <= i ==> !ZeroWindow(bits, q)
      invariant endMarkerIndex == -1
    {
      if bits[i] == 0 {
        consecutiveZeros := consecutiveZeros + 1;
        if consecutiveZeros == Capacity.END_MARKER_BITS {
          endMarkerIndex := i - Capacity.END_MARKER_BITS + 1;
          assert ZeroWindow(bits, endMarkerIndex);
          break;
        }
      } else {
        consecutiveZeros := 0;
      }
      NoWindowEndingAt(bits, i, consecutiveZeros);
      i := i + 1;
    }
  }

  /** The window of 64 bits ending at i is not all zeros when the zero run
      ending at i is shorter than 64. */
  lemma NoWindowEndingAt(bits: seq<Bit>, i: nat, zeros: nat)
    requires i < |bits| && zeros <= i + 1 && zeros < Capacity.END_MARKER_BITS
    requires zeros < i + 1 ==> bits[i - zeros] != 0
    ensures forall q: nat :: q + Capacity.END_MARKER_BITS == i + 1 ==> !ZeroWindow(bits, q)
  {
    forall q: nat | q + Capacity.END_MARKER_BITS == i + 1
      ensures !ZeroWindow(bits, q)
    {
      assert bits[i - zeros] != 0;
    }
  }

  /** decodeMessage(imageData, xorKey); an empty key stands for a missing one. */
  method DecodeMessage(img: ImageData, key: JsString) returns (r: Decoded)
    ensures r == DecodeSpec(img.data[..], key)
  {
    var extractedBits := ExtractLsbs(img.data);
    var endMarkerIndex := FindEndMarker(extractedBits);
    if endMarkerIndex == -1 {
      return NoMessage;
    }
    var messageBits := extractedBits[..endMarkerIndex];
    if |messageBits| == 0 {
      return EmptyMessage;
    }
    var message := BitCodec.BitsToString(messageBits);
    if key != [] {
      message := XorCipher.XorDecrypt(message, key);
    }
    message := Compression.Decompress(message);
    return Message(message, |messageBits|, |message|);
  }

  /** The number of colour bytes whose least significant bit is b. */
  function CountOf(bits: seq<Bit>, b: Bit): (n: nat)
    ensures n <= |bits|
  {
    if bits == [] then 0
    else CountOf(bits[..|bits| - 1], b) + (if bits[|bits| - 1] == b then 1 else 0)
  }

  /** Counting over one more bit. */
  lemma CountOfSnoc(bits: seq<Bit>, x: Bit)
    ensures CountOf(bits + [x], 0) == CountOf(bits, 0) + (if x == 0 then 1 else 0)
    ensures CountOf(bits + [x], 1) == CountOf(bits, 1) + (if x == 1 then 1 else 0)
  {
    assert (bits + [x])[..|bits|] == bits;
  }

  /** The LSB-count loop of analyzeImage. */
  method CountLsbs(data: array<Byte>) returns (zeroBits: nat, oneBits: nat)
    ensures zeroBits == CountOf(LsbStream(data[..]), 0)
    ensures oneBits == CountOf(LsbStream(data[..]), 1)
    ensures zeroBits + oneBits == data.Length - data.Length / 4
  {
    zeroBits, oneBits := 0, 0;
    ghost var bits: seq<Bit> := [];
    for i := 0 to data.Length
      invariant bits == LsbStream(data[..i])
      invariant zeroBits == CountOf(bits, 0) && oneBits == CountOf(bits, 1)
      invariant zeroBits + oneBits == |bits|
    {
      LsbStreamSnoc(data[..], i);
      if !IsAlpha(i) {
        CountOfSnoc(bits, data[i] % 2);
        if data[i] % 2 == 0 {
          zeroBits := zeroBits + 1;
        } else {
          oneBits := oneBits + 1;
        }
        bits := bits + [data[i] % 2];
      }
    }
    assert data[..data.Length] == data[..];
  }

  /** The integer part of analyzeImage's result (the LSB ratio and the
      average colour are floating point). */
  datatype ImageAnalysis = ImageAnalysis(
    width: nat, height: nat, totalPixels: nat, capacity: Capacity.Capacity,
    zeros: nat, ones: nat, format: string, bitsPerPixel: nat)

  /** A buffer of w·h RGBA pixels has exactly calculateCapacity's totalBits
      colour bytes, one carrier bit each. */
  lemma CarriersOfImage(length: nat, width: nat, height: nat)
    requires length == 4 * width * height
    ensures length - length / 4 == Capacity.CalculateCapacity(width, height).totalBits
  {
    var pixels := width * height;
    assert length == 4 * pixels;
    assert length / 4 == pixels;
  }

  /** analyzeImage(imageData), without its floating-point statistics. */
  method AnalyzeImage(img: ImageData) returns (a: ImageAnalysis)
    requires img.Valid()
    ensures a.capacity == Capacity.CalculateCapacity(img.width, img.height)
    ensures a.totalPixels == img.width * img.height
    ensures a.zeros == CountOf(LsbStream(img.data[..]), 0)
    ensures a.ones == CountOf(LsbStream(img.data[..]), 1)
    ensures a.zeros + a.ones == a.capacity.totalBits
    ensures a.width == img.width && a.height == img.height
    ensures a.format == "RGBA" && a.bitsPerPixel == 32
  {
    var capacity := Capacity.CalculateCapacity(img.width, img.height);
    var zeroBits, oneBits := CountLsbs(img.data);
    CarriersOfImage(img.data.Length, img.width, img.height);
    return ImageAnalysis(img.width, img.height, img.width * img.height, capacity,
      zeroBits, oneBits, "RGBA", 32);
  }
}
