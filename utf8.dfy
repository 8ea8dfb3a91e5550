/** UTF-8 as the browser's TextEncoder and TextDecoder apply it to JavaScript
    strings: encoding first turns the UTF-16 code units into Unicode scalar
    values (a lone surrogate becomes U+FFFD) and writes each as one to four
    bytes per section 3 of RFC 3629; decoding is the WHATWG utf-8 decoder in
    replacement mode (a malformed sequence becomes one U+FFFD per maximal
    subpart, never an error) and by default drops a leading byte order mark. */
module Utf8 {
  import opened Types

  /** A Unicode code point, U+0000 to U+10FFFF. */
  type CodePoint = c: int | 0 <= c <= 0x10FFFF

  const REPLACEMENT: CodePoint := 0xFFFD
  const BYTE_ORDER_MARK: CodePoint := 0xFEFF

  predicate IsHighSurrogate(c: int) { 0xD800 <= c <= 0xDBFF }
  predicate IsLowSurrogate(c: int) { 0xDC00 <= c <= 0xDFFF }
  predicate IsSurrogate(c: int) { 0xD800 <= c <= 0xDFFF }

  /** Code points that UTF-8 can carry: everything but the surrogates. */
  predicate AllScalar(cs: seq<CodePoint>)
  {
    forall i :: 0 <= i < |cs| ==> !IsSurrogate(cs[i])
  }

  /** A string without lone surrogates: every high surrogate is followed by a
      low one and every low surrogate follows a high one. */
  predicate WellFormed(s: JsString)
    decreases |s|
  {
    if s == [] then true
    else if IsHighSurrogate(s[0]) then |s| >= 2 && IsLowSurrogate(s[1]) && WellFormed(s[2..])
    else !IsLowSurrogate(s[0]) && WellFormed(s[1..])
  }

  // ---------------------------------------------------------------------------
  // Code units and code points

  /** The scalar values a string stands for: a surrogate pair combines into one
      supplementary code point and a lone surrogate becomes U+FFFD. */
  function ScalarValues(s: JsString): (r: seq<CodePoint>)
    ensures AllScalar(r)
    ensures |r| <= |s|
    decreases |s|
  {
    if s == [] then []
    else if IsHighSurrogate(s[0]) && |s| >= 2 && IsLowSurrogate(s[1]) then
      var hi: int, lo: int := s[0], s[1];
      [0x1_0000 + (hi - 0xD800) * 0x400 + (lo - 0xDC00)] + ScalarValues(s[2..])
    else if IsSurrogate(s[0]) then [REPLACEMENT] + ScalarValues(s[1..])
    else [s[0]] + ScalarValues(s[1..])
  }

  /** The UTF-16 code units of one code point. */
  function UnitsOf(c: CodePoint): (r: JsString)
    ensures c < 0x1_0000 ==> r == [c]
    ensures c >= 0x1_0000 ==> |r| == 2 && IsHighSurrogate(r[0]) && IsLowSurrogate(r[1])
  {
    if c < 0x1_0000 then [c]
    else [0xD800 + (c - 0x1_0000) / 0x400, 0xDC00 + (c - 0x1_0000) % 0x400]
  }

  /** The JavaScript string holding a sequence of code points. */
  function ToUtf16(cs: seq<CodePoint>): JsString
  {
    if cs == [] then [] else UnitsOf(cs[0]) + ToUtf16(cs[1..])
  }

  // ---------------------------------------------------------------------------
  // Encoding (TextEncoder.encode)

  /** The bytes of one code point, per the table in section 3 of RFC 3629. */
  function EncodeScalar(c: CodePoint): (r: seq<Byte>)
    ensures 1 <= |r| <= 4
    ensures c != 0 ==> 0 !in r
  {
    if c < 0x80 then [c]
    else if c < 0x800 then [0xC0 + c / 0x40, 0x80 + c % 0x40]
    else if c < 0x1_0000 then [0xE0 + c / 0x1000, 0x80 + (c / 0x40) % 0x40, 0x80 + c % 0x40]
    else [0xF0 + c / 0x4_0000, 0x80 + (c / 0x1000) % 0x40, 0x80 + (c / 0x40) % 0x40, 0x80 + c % 0x40]
  }

  function EncodeScalars(cs: seq<CodePoint>): seq<Byte>
  {
    if cs == [] then [] else EncodeScalar(cs[0]) + EncodeScalars(cs[1..])
  }

  /** `new TextEncoder().encode(s)`. */
  function Encode(s: JsString): seq<Byte>
  {
    EncodeScalars(ScalarValues(s))
  }

  // ---------------------------------------------------------------------------
  // Decoding (TextDecoder.decode, replacement mode, BOM removed)

  /** How many continuation bytes a lead byte announces; 0 for ASCII and for
      bytes that cannot start a sequence (0x80-0xC1, 0xF5-0xFF). */
  function Needed(lead: Byte): nat
  {
    if 0xC2 <= lead <= 0xDF then 1
    else if 0xE0 <= lead <= 0xEF then 2
    else if 0xF0 <= lead <= 0xF4 then 3
    else 0
  }

  /** The range the j-th byte after the lead b[0] must fall in. The first
      continuation byte is narrowed after E0, ED, F0 and F4, which rules out
      overlong forms, surrogates and values above U+10FFFF. */
  predicate InBounds(b: seq<Byte>, j: nat)
    requires 1 <= j < |b|
  {
    var lower := if j == 1 && b[0] == 0xE0 then 0xA0 else if j == 1 && b[0] == 0xF0 then 0x90 else 0x80;
    var upper := if j == 1 && b[0] == 0xED then 0x9F else if j == 1 && b[0] == 0xF4 then 0x8F else 0xBF;
    lower <= b[j] <= upper
  }

  /** How many of the bytes after the lead, from the j-th on and at most up to
      the needed-th, the decoder accepts before one is out of range or the
      input ends. */
  function Accepted(b: seq<Byte>, needed: nat, j: nat): (r: nat)
    requires 1 <= j <= |b|
    requires j <= needed + 1
    ensures j - 1 <= r <= needed && r < |b|
    ensures forall i :: j <= i <= r ==> InBounds(b, i)
    ensures r < needed ==> r + 1 == |b| || !InBounds(b, r + 1)
    decreases needed + 1 - j
  {
    if j > needed || j == |b| then j - 1
    else if InBounds(b, j) then Accepted(b, needed, j + 1)
    else j - 1
  }

  /** The code point of a complete sequence: the lead byte's payload bits,
      then six bits from each continuation byte. */
  function Assembled(b: seq<Byte>, n: nat): CodePoint
    requires 1 <= n <= 3 && n < |b| && Needed(b[0]) == n
    requires forall i :: 1 <= i <= n ==> InBounds(b, i)
  {
    assert InBounds(b, 1);
    var b0: int, b1: int := b[0], b[1];
    if n == 1 then (b0 - 0xC0) * 0x40 + (b1 - 0x80)
    else
      assert InBounds(b, 2);
      var b2: int := b[2];
      if n == 2 then (b0 - 0xE0) * 0x1000 + (b1 - 0x80) * 0x40 + (b2 - 0x80)
      else
        assert InBounds(b, 3);
        var b3: int := b[3];
        (b0 - 0xF0) * 0x4_0000 + (b1 - 0x80) * 0x1000 + (b2 - 0x80) * 0x40 + (b3 - 0x80)
  }

  /** One step of the decoder at the front of b: the code point it emits and
      how many bytes it consumes. A byte that ends an incomplete sequence is
      not consumed; it starts the next step. */
  function DecodeStep(b: seq<Byte>): (r: (CodePoint, nat))
    requires |b| >= 1
    ensures 1 <= r.1 <= |b|
  {
    var lead := b[0];
    var n := Needed(lead);
    if lead < 0x80 then (lead, 1)
    else if n == 0 then (REPLACEMENT, 1)
    else
      var k := Accepted(b, n, 1);
      if k < n then (REPLACEMENT, 1 + k)
      else (Assembled(b, n), n + 1)
  }

  function DecodeScalars(b: seq<Byte>): seq<CodePoint>
    decreases |b|
  {
    if b == [] then []
    else
      var step := DecodeStep(b);
      [step.0] + DecodeScalars(b[step.1..])
  }

  function DropBom(cs: seq<CodePoint>): seq<CodePoint>
  {
    if cs != [] && cs[0] == BYTE_ORDER_MARK then cs[1..] else cs
  }

  /** `new TextDecoder().decode(bytes)`. */
  function Decode(b: seq<Byte>): JsString
  {
    ToUtf16(DropBom(DecodeScalars(b)))
  }

  // ---------------------------------------------------------------------------
  // Round trips

  /** Decoding the encoding of one scalar value gives it back and consumes
      exactly its bytes, whatever follows. */
  lemma DecodeStepOfEncoded(c: CodePoint, rest: seq<Byte>)
    requires !IsSurrogate(c)
    ensures DecodeStep(EncodeScalar(c) + rest) == (c, |EncodeScalar(c)|)
  {
    if c < 0x80 {
    } else if c < 0x800 {
      DecodeStepOfTwo(c, rest);
    } else if c < 0x1_0000 {
      DecodeStepOfThree(c, rest);
    } else {
      DecodeStepOfFour(c, rest);
    }
  }

  lemma DecodeStepOfTwo(c: CodePoint, rest: seq<Byte>)
    requires 0x80 <= c < 0x800
    ensures DecodeStep(EncodeScalar(c) + rest) == (c, 2)
  {
    var b := EncodeScalar(c) + rest;
    assert b[0] == 0xC0 + c / 0x40 && b[1] == 0x80 + c % 0x40;
    assert Needed(b[0]) == 1;
    assert InBounds(b, 1);
    assert Accepted(b, 1, 2) == 1;
    assert Assembled(b, 1) == c;
  }

  lemma DecodeStepOfThree(c: CodePoint, rest: seq<Byte>)
    requires 0x800 <= c < 0x1_0000 && !IsSurrogate(c)
    ensures DecodeStep(EncodeScalar(c) + rest) == (c, 3)
  {
    var b := EncodeScalar(c) + rest;
    var q, m, l := c / 0x1000, (c % 0x1000) / 0x40, c % 0x40;
    assert c == q * 0x1000 + m * 0x40 + l;
    assert (c / 0x40) % 0x40 == m;
    assert b[0] == 0xE0 + q && b[1] == 0x80 + m && b[2] == 0x80 + l;
    assert Needed(b[0]) == 2;
    assert InBounds(b, 1);
    assert InBounds(b, 2);
    assert Accepted(b, 2, 3) == 2;
    assert Accepted(b, 2, 1) == 2;
    assert Assembled(b, 2) == c;
  }

  lemma DecodeStepOfFour(c: CodePoint, rest: seq<Byte>)
    requires 0x1_0000 <= c
    ensures DecodeStep(EncodeScalar(c) + rest) == (c, 4)
  {
    var b := EncodeScalar(c) + rest;
    SplitFour(c);
    var p, q, m, l := c / 0x4_0000, (c / 0x1000) % 0x40, (c / 0x40) % 0x40, c % 0x40;
    assert b[0] == 0xF0 + p && b[1] == 0x80 + q && b[2] == 0x80 + m && b[3] == 0x80 + l;
    assert Needed(b[0]) == 3;
    assert InBounds(b, 1);
    assert InBounds(b, 2);
    assert InBounds(b, 3);
    assert Accepted(b, 3, 4) == 3;
    assert Accepted(b, 3, 1) == 3;
    assert Assembled(b, 3) == c;
  }

  /** The four six-bit (or three-bit) groups of a supplementary code point. */
  lemma SplitFour(c: int)
    requires 0x1_0000 <= c <= 0x10FFFF
    ensures c == (c / 0x4_0000) * 0x4_0000 + ((c / 0x1000) % 0x40) * 0x1000
                 + ((c / 0x40) % 0x40) * 0x40 + c % 0x40
    ensures 0 <= c / 0x4_0000 <= 4
    ensures c / 0x4_0000 == 0 ==> (c / 0x1000) % 0x40 >= 0x10
    ensures c / 0x4_0000 == 4 ==> (c / 0x1000) % 0x40 <= 0xF
  {
    var t := c / 0x40;
    var u := t / 0x40;
    var p := u / 0x40;
    assert c == t * 0x40 + c % 0x40;
    assert t == u * 0x40 + t % 0x40;
    assert u == p * 0x40 + u % 0x40;
    assert u == c / 0x1000;
    assert p == c / 0x4_0000;
  }

  lemma {:induction false} DecodeEncodeScalars(cs: seq<CodePoint>)
    requires AllScalar(cs)
    ensures DecodeScalars(EncodeScalars(cs)) == cs
  {
    if cs != [] {
      var e := EncodeScalar(cs[0]);
      var tail := EncodeScalars(cs[1..]);
      DecodeStepOfEncoded(cs[0], tail);
      assert (e + tail)[|e|..] == tail;
      DecodeEncodeScalars(cs[1..]);
    }
  }

  /** Re-assembling the scalar values of a well-formed string gives the string. */
  lemma {:induction false} ToUtf16OfScalarValues(s: JsString)
    requires WellFormed(s)
    ensures ToUtf16(ScalarValues(s)) == s
    decreases |s|
  {
    if s != [] {
      if IsHighSurrogate(s[0]) {
        var hi: int, lo: int := s[0], s[1];
        var c := 0x1_0000 + (hi - 0xD800) * 0x400 + (lo - 0xDC00);
        assert (c - 0x1_0000) / 0x400 == s[0] - 0xD800;
        assert (c - 0x1_0000) % 0x400 == s[1] - 0xDC00;
        assert ScalarValues(s) == [c] + ScalarValues(s[2..]);
        ToUtf16OfScalarValues(s[2..]);
        assert s == [s[0], s[1]] + s[2..];
      } else {
        assert ScalarValues(s) == [s[0]] + ScalarValues(s[1..]);
        ToUtf16OfScalarValues(s[1..]);
        assert s == [s[0]] + s[1..];
      }
    }
  }

  /** What TextDecoder gives back for the bytes TextEncoder wrote: the string
      with each lone surrogate replaced by U+FFFD and a leading U+FEFF dropped. */
  lemma DecodeOfEncode(s: JsString)
    ensures Decode(Encode(s)) == ToUtf16(DropBom(ScalarValues(s)))
  {
    DecodeEncodeScalars(ScalarValues(s));
  }

  /** The exact round trip: for a well-formed string that does not start with
      U+FEFF, decoding its UTF-8 encoding gives the string back. */
  lemma DecodeEncode(s: JsString)
    requires WellFormed(s)
    requires s == [] || s[0] != BYTE_ORDER_MARK
    ensures Decode(Encode(s)) == s
  {
    DecodeEncodeScalars(ScalarValues(s));
    ToUtf16OfScalarValues(s);
    if s != [] {
      assert ScalarValues(s)[0] != BYTE_ORDER_MARK;
    }
  }

  /** A non-empty text encodes to at least one byte. */
  lemma EncodeNonEmpty(s: JsString)
    requires s != []
    ensures Encode(s) != []
  {
    assert ScalarValues(s) != [];
  }

  /** A text with no U+0000 code unit encodes to bytes none of which is zero. */
  lemma {:induction false} EncodeHasNoZeroByte(s: JsString)
    requires 0 !in s
    ensures 0 !in Encode(s)
  {
    ScalarValuesNonZero(s);
    EncodeScalarsNonZero(ScalarValues(s));
  }

  lemma {:induction false} ScalarValuesNonZero(s: JsString)
    requires 0 !in s
    ensures 0 !in ScalarValues(s)
    decreases |s|
  {
    if s != [] {
      if IsHighSurrogate(s[0]) && |s| >= 2 && IsLowSurrogate(s[1]) {
        assert 0 !in s[2..];
        ScalarValuesNonZero(s[2..]);
      } else {
        assert 0 !in s[1..];
        ScalarValuesNonZero(s[1..]);
      }
    }
  }

  lemma {:induction false} EncodeScalarsNonZero(cs: seq<CodePoint>)
    requires 0 !in cs
    ensures 0 !in EncodeScalars(cs)
  {
    if cs != [] {
      assert 0 !in cs[1..];
      EncodeScalarsNonZero(cs[1..]);
    }
  }

  /** The byte order mark is dropped: the string U+FEFF encodes to EF BB BF, which
      decodes to the empty string. */
  lemma LeadingBomIsDropped()
    ensures Encode([0xFEFF]) == [0xEF, 0xBB, 0xBF]
    ensures Decode(Encode([0xFEFF])) == []
  {
    DecodeOfEncode([0xFEFF]);
  }
}
