/** arrayBufferToBase64 and base64ToArrayBuffer: the bytes of a buffer as a
    binary string (one code unit per byte) passed to the browser's `btoa`, and
    the reverse after `atob`. `btoa` is base64 with `=` padding over the
    alphabet of section 4 of RFC 4648; `atob` is the forgiving-base64 decode
    of the WHATWG Infra standard. */
module Base64 {
  import opened Types

  /** A base64 digit value. */
  type Sextet = x: int | 0 <= x < 64

  /** The padding character `=`. */
  const PAD: CodeUnit := 0x3D

  /** The digit of value v: `A`-`Z`, `a`-`z`, `0`-`9`, `+`, `/`. */
  function Letter(v: Sextet): (c: CodeUnit)
    ensures ValueOf(c) == Some(v)
  {
    if v < 26 then 0x41 + v
    else if v < 52 then 0x61 + (v - 26)
    else if v < 62 then 0x30 + (v - 52)
    else if v == 62 then 0x2B
    else 0x2F
  }

  /** The value of a base64 digit, or None for any other code unit. */
  function ValueOf(c: CodeUnit): Option<Sextet>
  {
    if 0x41 <= c <= 0x5A then Some(c - 0x41)
    else if 0x61 <= c <= 0x7A then Some(c - 0x61 + 26)
    else if 0x30 <= c <= 0x39 then Some(c - 0x30 + 52)
    else if c == 0x2B then Some(62)
    else if c == 0x2F then Some(63)
    else None
  }

  /** A code unit with a value is the digit of that value. */
  lemma LetterOfValue(c: CodeUnit)
    requires ValueOf(c).Some?
    ensures Letter(ValueOf(c).value) == c
  {
  }

  // ---------------------------------------------------------------------------
  // Encoding

  /** The digit values of the bytes: 4 per group of 3, then 2 for a last single
      byte and 3 for a last pair, the unused low bits being zero. */
  function Sextets(b: seq<Byte>): (r: seq<Sextet>)
    ensures |r| == (4 * |b| + 2) / 3
    ensures |r| % 4 != 1
  {
    if |b| == 0 then []
    else if |b| == 1 then [b[0] / 4, b[0] % 4 * 16]
    else if |b| == 2 then [b[0] / 4, b[0] % 4 * 16 + b[1] / 16, b[1] % 16 * 4]
    else [b[0] / 4, b[0] % 4 * 16 + b[1] / 16, b[1] % 16 * 4 + b[2] / 64, b[2] % 64] + Sextets(b[3..])
  }

  /** The digits of a sequence of values. */
  function Letters(v: seq<Sextet>): (r: seq<CodeUnit>)
    ensures |r| == |v|
  {
    seq(|v|, i requires 0 <= i < |v| => Letter(v[i]))
  }

  /** The padded base64 text of b. */
  function Encode(b: seq<Byte>): seq<CodeUnit>
  {
    Letters(Sextets(b)) + Repeat(PAD, (3 - |b| % 3) % 3)
  }

  /** btoa: every code unit above 0xFF throws InvalidCharacterError, which the
      model reports as None; otherwise the code units are the bytes encoded. */
  function Btoa(s: JsString): Option<JsString>
  {
    if forall i :: 0 <= i < |s| ==> s[i] < 0x100 then
      var bytes: seq<Byte> := seq(|s|, i requires 0 <= i < |s| => s[i]);
      Some(Encode(bytes))
    else None
  }

  /** Four digits for every three bytes, rounded up. */
  lemma EncodeLength(b: seq<Byte>)
    ensures |Encode(b)| == 4 * ((|b| + 2) / 3)
  {
    var n := |b| / 3;
    assert |b| == 3 * n + |b| % 3;
  }

  /** btoa fails exactly on a string with a code unit above 0xFF, and a binary
      string whose code units are bytes is encoded as those bytes. */
  lemma BtoaOfBinary(s: JsString)
    ensures Btoa(s).None? <==> exists i :: 0 <= i < |s| && s[i] >= 0x100
    ensures (forall i :: 0 <= i < |s| ==> s[i] < 0x100) ==>
              exists bytes: seq<Byte> :: bytes == s && Btoa(s) == Some(Encode(bytes))
  {
    if forall i :: 0 <= i < |s| ==> s[i] < 0x100 {
      var bytes: seq<Byte> := seq(|s|, i requires 0 <= i < |s| => s[i]);
      assert bytes == s;
    }
  }

  // ---------------------------------------------------------------------------
  // Decoding

  /** ASCII whitespace: tab, line feed, form feed, carriage return, space. */
  predicate IsAsciiWhitespace(c: CodeUnit)
  {
    c == 0x09 || c == 0x0A || c == 0x0C || c == 0x0D || c == 0x20
  }

  /** The string without its ASCII whitespace. */
  function StripWhitespace(s: seq<CodeUnit>): (r: seq<CodeUnit>)
    ensures |r| <= |s|
  {
    if s == [] then []
    else (if IsAsciiWhitespace(s[0]) then [] else [s[0]]) + StripWhitespace(s[1..])
  }

  /** A length that is a multiple of 4 loses one or two final `=`. */
  function StripPadding(s: seq<CodeUnit>): seq<CodeUnit>
  {
    if |s| % 4 != 0 then s
    else if 2 <= |s| && s[|s| - 1] == PAD && s[|s| - 2] == PAD then s[..|s| - 2]
    else if 1 <= |s| && s[|s| - 1] == PAD then s[..|s| - 1]
    else s
  }

  /** The values of the digits, or None when a code unit is not a digit. */
  function Values(s: seq<CodeUnit>): Option<seq<Sextet>>
  {
    if forall i :: 0 <= i < |s| ==> ValueOf(s[i]).Some? then
      Some(seq(|s|, i requires 0 <= i < |s| => ValueOf(s[i]).value))
    else None
  }

  /** The bytes of the digit values: three per group of four; a final group of
      two or three values gives one or two bytes, its leftover bits dropped. */
  function Bytes(v: seq<Sextet>): seq<Byte>
    requires |v| % 4 != 1
  {
    if |v| == 0 then []
    else
      var a: int := v[0];
      var b: int := v[1];
      var x: Byte := a * 4 + b / 16;
      if |v| == 2 then [x]
      else
        var c: int := v[2];
        var y: Byte := b % 16 * 16 + c / 4;
        if |v| == 3 then [x, y]
        else
          var z: Byte := c % 4 * 64 + v[3];
          [x, y, z] + Bytes(v[4..])
  }

  /** atob, as bytes (the code units of the binary string it returns): None
      stands for the InvalidCharacterError it throws. */
  function Atob(s: JsString): Option<seq<Byte>>
  {
    var data := StripPadding(StripWhitespace(s));
    if |data| % 4 == 1 then None
    else match Values(data)
      case None => None
      case Some(v) => Some(Bytes(v))
  }

  // ---------------------------------------------------------------------------
  // Properties

  /** The digit values of an encoding decode to the bytes encoded. */
  lemma {:induction false} BytesOfSextets(b: seq<Byte>)
    ensures Bytes(Sextets(b)) == b
    decreases |b|
  {
    if |b| >= 3 {
      BytesOfSextets(b[3..]);
      var s := Sextets(b);
      assert s[4..] == Sextets(b[3..]);
      DigitsOfByte(b[0], b[1]);
      DigitsOfPair(b[1], b[2]);
      assert b == [b[0], b[1], b[2]] + b[3..];
    } else if |b| == 2 {
      DigitsOfByte(b[0], b[1]);
      assert b[1] % 16 * 4 / 4 == b[1] % 16;
      assert b[1] / 16 * 16 + b[1] % 16 == b[1];
    } else if |b| == 1 {
      assert b[0] / 4 * 4 + b[0] % 4 == b[0];
    }
  }

  /** The first byte of a group comes back from the first two digits. */
  lemma DigitsOfByte(x: Byte, y: Byte)
    ensures x / 4 * 4 + (x % 4 * 16 + y / 16) / 16 == x
    ensures (x % 4 * 16 + y / 16) % 16 == y / 16
  {
  }

  /** The second and third bytes of a group come back from the last three digits. */
  lemma DigitsOfPair(y: Byte, z: Byte)
    ensures y / 16 * 16 + (y % 16 * 4 + z / 64) / 4 == y
    ensures (y % 16 * 4 + z / 64) % 4 * 64 + z % 64 == z
  {
    assert (y % 16 * 4 + z / 64) / 4 == y % 16;
    assert (y % 16 * 4 + z / 64) % 4 == z / 64;
  }

  /** Digits keep their values. */
  lemma ValuesOfLetters(v: seq<Sextet>)
    ensures Values(Letters(v)) == Some(v)
  {
    var s := Letters(v);
    forall i | 0 <= i < |s|
      ensures ValueOf(s[i]) == Some(v[i])
    {
    }
    var r: seq<Sextet> := seq(|s|, i requires 0 <= i < |s| => ValueOf(s[i]).value);
    assert r == v;
  }

  /** No digit and no `=` is whitespace. */
  lemma StripWhitespaceOfEncoding(b: seq<Byte>)
    ensures StripWhitespace(Encode(b)) == Encode(b)
  {
    var s := Encode(b);
    NoWhitespaceUnchanged(s);
  }

  lemma {:induction false} NoWhitespaceUnchanged(s: seq<CodeUnit>)
    requires forall i :: 0 <= i < |s| ==> !IsAsciiWhitespace(s[i])
    ensures StripWhitespace(s) == s
    decreases |s|
  {
    if s != [] {
      NoWhitespaceUnchanged(s[1..]);
      assert s == [s[0]] + s[1..];
    }
  }

  /** Removing the padding of an encoding leaves its digits. */
  lemma StripPaddingOfEncoding(b: seq<Byte>)
    ensures StripPadding(Encode(b)) == Letters(Sextets(b))
  {
    var v := Sextets(b);
    var letters := Letters(v);
    var p := (3 - |b| % 3) % 3;
    EncodeLength(b);
    if letters != [] {
      LetterIsNotPad(v[|v| - 1]);
    }
    PaddedDigits(letters, p);
  }

  lemma LetterIsNotPad(v: Sextet)
    ensures Letter(v) != PAD
  {
  }

  /** Digits followed by p signs `=`, p at most 2, a multiple of 4 in all. */
  lemma PaddedDigits(letters: seq<CodeUnit>, p: nat)
    requires p <= 2 && (|letters| + p) % 4 == 0
    requires letters != [] ==> letters[|letters| - 1] != PAD
    ensures StripPadding(letters + Repeat(PAD, p)) == letters
  {
    var s := letters + Repeat(PAD, p);
    if p == 0 {
      assert s == letters;
    } else if p == 1 {
      assert s[..|s| - 1] == letters;
    } else {
      assert s[..|s| - 2] == letters;
    }
  }

  /** atob decodes what btoa encodes: decoding the encoding of b gives b. */
  lemma AtobEncode(b: seq<Byte>)
    ensures Atob(Encode(b)) == Some(b)
  {
    StripWhitespaceOfEncoding(b);
    StripPaddingOfEncoding(b);
    ValuesOfLetters(Sextets(b));
    BytesOfSextets(b);
  }

  /** Whitespace anywhere in the input is ignored. */
  lemma AtobIgnoresWhitespace(u: JsString, c: CodeUnit, v: JsString)
    requires IsAsciiWhitespace(c)
    ensures Atob(u + [c] + v) == Atob(u + v)
  {
    assert StripWhitespace(u + [c] + v) == StripWhitespace(u + v) by {
      StripWhitespaceAppend(u, [c] + v);
      StripWhitespaceAppend(u, v);
      assert ([c] + v)[1..] == v;
      assert u + [c] + v == u + ([c] + v);
    }
  }

  lemma {:induction false} StripWhitespaceAppend(u: seq<CodeUnit>, v: seq<CodeUnit>)
    ensures StripWhitespace(u + v) == StripWhitespace(u) + StripWhitespace(v)
    decreases |u|
  {
    if u == [] {
      assert u + v == v;
    } else {
      assert (u + v)[0] == u[0];
      assert (u + v)[1..] == u[1..] + v;
      StripWhitespaceAppend(u[1..], v);
    }
  }

  /** A code unit that is neither a digit, `=` nor whitespace makes atob throw. */
  lemma AtobRejectsForeign(s: JsString, i: nat)
    requires i < |s| && ValueOf(s[i]).None? && s[i] != PAD && !IsAsciiWhitespace(s[i])
    ensures Atob(s) == None
  {
    var c := s[i];
    var w := StripWhitespace(s);
    KeptByStripWhitespace(s, i);
    var data := StripPadding(w);
    var k :| 0 <= k < |w| && w[k] == c;
    assert k < |data| && data[k] == c;
  }

  lemma {:induction false} KeptByStripWhitespace(s: seq<CodeUnit>, i: nat)
    requires i < |s| && !IsAsciiWhitespace(s[i])
    ensures s[i] in StripWhitespace(s)
    decreases |s|
  {
    if i > 0 {
      KeptByStripWhitespace(s[1..], i - 1);
    }
  }

  /** A digit count of the form 4n + 1 makes atob throw. */
  lemma AtobRejectsSingleDigit()
    ensures Atob([0x41]) == None
    ensures Atob([0x41, 0x41, 0x41, 0x41, 0x41]) == None
  {
    assert StripWhitespace([0x41]) == [0x41];
    var five: seq<CodeUnit> := [0x41, 0x41, 0x41, 0x41, 0x41];
    NoWhitespaceUnchanged(five);
  }

  /** The leftover bits of a final group are dropped, not checked: "QR==" and
      "QQ==" both decode to "A", so atob accepts more than btoa produces. */
  lemma AtobDropsLeftoverBits()
    ensures Atob([0x51, 0x52, PAD, PAD]) == Some([0x41])
    ensures Atob([0x51, 0x51, PAD, PAD]) == Some([0x41])
    ensures Encode([0x41]) == [0x51, 0x51, PAD, PAD]
  {
    AtobOfPaddedPair(0x51, 0x52);
    AtobOfPaddedPair(0x51, 0x51);
    assert Bytes([16, 17]) == [0x41];
    assert Bytes([16, 16]) == [0x41];
    assert Sextets([0x41]) == [16, 16];
    assert Letters([16, 16]) == [0x51, 0x51];
  }

  /** Two digits and two signs `=` decode as the two digits' values. */
  lemma AtobOfPaddedPair(c0: CodeUnit, c1: CodeUnit)
    requires ValueOf(c0).Some? && ValueOf(c1).Some?
    ensures Atob([c0, c1, PAD, PAD]) == Some(Bytes([ValueOf(c0).value, ValueOf(c1).value]))
  {
    var s: seq<CodeUnit> := [c0, c1, PAD, PAD];
    NoWhitespaceUnchanged(s);
    assert StripPadding(s) == [c0, c1];
    var v: seq<Sextet> := [ValueOf(c0).value, ValueOf(c1).value];
    var d: seq<CodeUnit> := [c0, c1];
    var r: seq<Sextet> := seq(|d|, i requires 0 <= i < |d| => ValueOf(d[i]).value);
    assert r == v;
  }

  // ---------------------------------------------------------------------------
  // The two helpers

  /** arrayBufferToBase64: builds the binary string one code unit per byte,
      then calls btoa, which never throws on it. */
  method ArrayBufferToBase64(bytes: array<Byte>) returns (r: JsString)
    ensures r == Encode(bytes[..])
    ensures |r| == 4 * ((bytes.Length + 2) / 3)
    ensures Atob(r) == Some(bytes[..])
  {
    var binary: JsString := [];
    for i := 0 to bytes.Length
      invariant binary == bytes[..i]
    {
      binary := binary + [bytes[i]];
    }
    assert binary == bytes[..];
    BtoaOfBinary(binary);
    var encoded := Btoa(binary);
    r := encoded.value;
    EncodeLength(bytes[..]);
    AtobEncode(bytes[..]);
  }

  /** base64ToArrayBuffer: calls atob (None where it throws), then copies the
      code units of the binary string into a new byte array by index. */
  method Base64ToArrayBuffer(base64: JsString) returns (r: Option<array<Byte>>)
    ensures r.None? <==> Atob(base64).None?
    ensures r.Some? ==> fresh(r.value) && r.value[..] == Atob(base64).value
  {
    var binary := Atob(base64);
    if binary.None? {
      return None;
    }
    var units := binary.value;
    var bytes := new Byte[|units|];
    for i := 0 to |units|
      invariant bytes[..i] == units[..i]
    {
      bytes[i] := units[i];
    }
    assert bytes[..] == units;
    return Some(bytes);
  }
}
