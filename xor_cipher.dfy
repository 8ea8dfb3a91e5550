/** xorEncrypt / xorDecrypt: a repeating-key XOR over UTF-16 code units.
    An empty key leaves the text as it is. */
module XorCipher {
  import opened Types

  /** The text xorEncrypt produces: code unit i is t[i] XOR k[i mod |k|]. */
  function Xored(t: JsString, k: JsString): (r: JsString)
    ensures |r| == |t|
    ensures k == [] ==> r == t
    ensures k != [] ==> forall i :: 0 <= i < |t| ==> BitXor(r[i], k[i % |k|]) == t[i]
  {
    if k == [] then t else seq(|t|, i requires 0 <= i < |t| => XorUnits(t[i], k[i % |k|]))
  }

  /** xorEncrypt: pushes one output code unit per input code unit. */
  method XorEncrypt(text: JsString, key: JsString) returns (r: JsString)
    ensures r == Xored(text, key)
  {
    if key == [] {
      return text;
    }
    r := [];
    for i := 0 to |text|
      invariant r == Xored(text, key)[..i]
    {
      r := r + [XorUnits(text[i], key[i % |key|])];
    }
  }

  /** xorDecrypt is xorEncrypt with the same key. */
  method XorDecrypt(text: JsString, key: JsString) returns (r: JsString)
    ensures r == Xored(text, key)
  {
    r := XorEncrypt(text, key);
  }

  /** Decrypting with the key used for encrypting gives the text back. */
  lemma XorInvolution(t: JsString, k: JsString)
    ensures Xored(Xored(t, k), k) == t
  {
    if k != [] {
      var x := Xored(t, k);
      forall i | 0 <= i < |t|
        ensures Xored(x, k)[i] == t[i]
      {
        BitXorCancel(t[i], k[i % |k|]);
      }
    }
  }

  /** With a key, an output code unit is 0 exactly where the text's code unit
      equals the key's code unit at that position. */
  lemma XoredZero(t: JsString, k: JsString, i: nat)
    requires k != [] && i < |t|
    ensures Xored(t, k)[i] == 0 <==> t[i] == k[i % |k|]
  {
    var a := t[i];
    var b := k[i % |k|];
    BitXorCancel(a, b);
    if a == b {
      BitXorSelf(a);
    }
    if Xored(t, k)[i] == 0 {
      assert BitXor(0, b) == b;
    }
  }
}
