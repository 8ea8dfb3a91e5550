/** Value types shared by the steganography codec and the envelope helpers:
    unsigned bytes, single bits, JavaScript strings as sequences of UTF-16 code
    units, and an Option for "not found" results. */
module Types {

  /** An unsigned 8-bit sample, as held in a Uint8Array or Uint8ClampedArray. */
  type Byte = b: int | 0 <= b < 0x100

  /** One element of the bit arrays the codec builds (`number[]` holding 0 or 1). */
  type Bit = b: int | 0 <= b <= 1

  /** A UTF-16 code unit: what `charCodeAt` returns. Lone surrogates are allowed. */
  type CodeUnit = c: int | 0 <= c < 0x1_0000

  /** A JavaScript string: a sequence of UTF-16 code units. */
  type JsString = seq<CodeUnit>

  datatype Option<T> = None | Some(value: T)

  /** 2 to the power k. */
  function Pow2(k: nat): (r: nat)
    ensures r >= 1
  {
    if k == 0 then 1 else 2 * Pow2(k - 1)
  }

  /** The sequence of n copies of x (`String.prototype.repeat`, `Array(n).fill`). */
  function Repeat<T>(x: T, n: nat): (r: seq<T>)
    ensures |r| == n
    ensures forall i :: 0 <= i < n ==> r[i] == x
  {
    if n == 0 then [] else [x] + Repeat(x, n - 1)
  }

  /** Concatenation is associative. */
  lemma ConcatAssoc<T>(a: seq<T>, b: seq<T>, c: seq<T>)
    ensures (a + b) + c == a + (b + c)
  {
  }

  /** Taking the whole length of a sequence gives the sequence. */
  lemma TakeAll<T>(s: seq<T>, n: nat)
    requires n == |s|
    ensures s[..n] == s
  {
  }

  /** JavaScript's `^` on two non-negative integers, written bit by bit. */
  function BitXor(a: nat, b: nat): nat
    decreases a + b
  {
    if a == 0 then b
    else if b == 0 then a
    else 2 * BitXor(a / 2, b / 2) + (if a % 2 == b % 2 then 0 else 1)
  }

  lemma {:induction false} BitXorBound(a: nat, b: nat, k: nat)
    requires a < Pow2(k) && b < Pow2(k)
    ensures BitXor(a, b) < Pow2(k)
    decreases k
  {
    if a != 0 && b != 0 {
      BitXorBound(a / 2, b / 2, k - 1);
    }
  }

  lemma {:induction false} BitXorSelf(a: nat)
    ensures BitXor(a, a) == 0
    decreases a
  {
    if a != 0 {
      BitXorSelf(a / 2);
    }
  }

  /** XOR with the same value twice gives back the first operand. */
  lemma {:induction false} BitXorCancel(a: nat, b: nat)
    ensures BitXor(BitXor(a, b), b) == a
    decreases a + b
  {
    if a != 0 && b != 0 {
      BitXorCancel(a / 2, b / 2);
      var x := BitXor(a, b);
      assert x / 2 == BitXor(a / 2, b / 2);
      assert x % 2 == (if a % 2 == b % 2 then 0 else 1);
    } else if a == 0 && b != 0 {
      BitXorSelf(b);
    }
  }

  /** The XOR of two code units, `String.fromCharCode(a ^ b)`. */
  function XorUnits(a: CodeUnit, b: CodeUnit): (r: CodeUnit)
    ensures BitXor(r, b) == a
  {
    assert Pow2(16) == 0x1_0000 by { Pow2Of16(); }
    BitXorBound(a, b, 16);
    BitXorCancel(a, b);
    BitXor(a, b)
  }

  lemma Pow2Of16()
    ensures Pow2(16) == 0x1_0000
  {
    assert Pow2(2) == 4;
    assert Pow2(4) == 16;
    assert Pow2(6) == 64;
    assert Pow2(8) == 256;
    assert Pow2(10) == 1024;
    assert Pow2(12) == 4096;
    assert Pow2(14) == 16384;
  }
}
