/** calculateCapacity and canFitMessage: how many message bytes an image of
    width x height RGBA pixels can hold, three bits per pixel (one in each of
    R, G and B), less 8 bytes for the all-zero end marker. */
module Capacity {

  /** Colour channels per pixel that carry a bit (alpha is never used). */
  const CHANNELS_PER_PIXEL: nat := 3
  /** Length of the end marker in bytes and in bits. */
  const END_MARKER_BYTES: nat := 8
  const END_MARKER_BITS: nat := END_MARKER_BYTES * 8

  datatype Capacity = Capacity(totalPixels: nat, totalBits: nat, totalBytes: nat, usableBytes: nat)

  /** calculateCapacity(width, height). */
  function CalculateCapacity(width: nat, height: nat): (c: Capacity)
    ensures c.totalPixels == width * height
    ensures c.totalBits == CHANNELS_PER_PIXEL * c.totalPixels
    ensures 8 * c.totalBytes <= c.totalBits < 8 * c.totalBytes + 8
    ensures c.usableBytes + END_MARKER_BYTES >= c.totalBytes
    ensures c.usableBytes > 0 ==> c.usableBytes + END_MARKER_BYTES == c.totalBytes
  {
    var totalPixels := width * height;
    var totalBits := totalPixels * CHANNELS_PER_PIXEL;
    var totalBytes := totalBits / 8;
    var usableBytes := totalBytes - END_MARKER_BYTES;
    Capacity(totalPixels, totalBits, totalBytes, if usableBytes < 0 then 0 else usableBytes)
  }

  /** The integer part of canFitMessage's result (percentage is a float). */
  datatype Fit = Fit(canFit: bool, required: nat, available: nat)

  /** canFitMessage(messageLength, imageWidth, imageHeight). */
  function CanFitMessage(messageLength: nat, imageWidth: nat, imageHeight: nat): (f: Fit)
    ensures f.required == messageLength
    ensures f.available == CalculateCapacity(imageWidth, imageHeight).usableBytes
    ensures f.canFit <==> messageLength <= f.available
  {
    var capacity := CalculateCapacity(imageWidth, imageHeight);
    Fit(messageLength <= capacity.usableBytes, messageLength, capacity.usableBytes)
  }

  /** A Full HD image holds 777592 usable bytes. */
  lemma FullHd()
    ensures CalculateCapacity(1920, 1080) == Capacity(2073600, 6220800, 777600, 777592)
  {
  }

  /** For a non-empty message of n bytes, canFitMessage agrees with
      encodeMessage's own test that the 8n message bits and the 64 marker
      bits fit into the image's bits. */
  lemma FitIffBitsFit(n: nat, width: nat, height: nat)
    requires n >= 1
    ensures CanFitMessage(n, width, height).canFit <==>
            8 * n + END_MARKER_BITS <= CalculateCapacity(width, height).totalBits
  {
  }

  /** An empty message "fits" by canFitMessage even when the 64 marker bits
      alone do not fit, which encodeMessage rejects. */
  lemma EmptyMessageOnTinyImage()
    ensures CanFitMessage(0, 1, 1).canFit
    ensures END_MARKER_BITS > CalculateCapacity(1, 1).totalBits
  {
  }
}
