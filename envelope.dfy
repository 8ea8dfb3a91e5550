/** packEncryptedData / unpackEncryptedData: the record encryptMessage returns,
    carried as a JSON object `{v, alg, kdf, iter, salt, iv, ct}` in that
    member order. The JSON text itself is not modelled: the packed form is the
    object value that JSON.stringify writes and JSON.parse reads back. */
module Envelope {
  import opened Types

  /** The record encryptMessage returns (iterations is a JavaScript number;
      the model keeps integers only). */
  datatype EncryptedData = EncryptedData(
    ciphertext: JsString, salt: JsString, iv: JsString,
    algorithm: JsString, keyDerivation: JsString, iterations: int)

  /** A JSON value as JavaScript sees it after JSON.parse; Undefined is what
      reading a missing property gives. */
  datatype JsValue =
    | Undefined
    | Null
    | Bool(b: bool)
    | Num(n: int)
    | Str(s: JsString)
    | Array(items: seq<JsValue>)
    | Object(members: seq<(string, JsValue)>)

  /** The outcome of JSON.parse: a SyntaxError or a value. */
  datatype Parsed = SyntaxError | Value(value: JsValue)

  /** What unpackEncryptedData returns: each field is whatever the object held
      under its key, since none is checked. */
  datatype Unpacked = Unpacked(
    ciphertext: JsValue, salt: JsValue, iv: JsValue,
    algorithm: JsValue, keyDerivation: JsValue, iterations: JsValue)

  datatype Result<T> = Ok(value: T) | Err(error: string)

  /** The only error unpackEncryptedData lets out. */
  const INVALID_FORMAT: string := "Formato de dados inválido"

  /** The version the format carries. */
  const FORMAT_VERSION: int := 1

  /** Property access `o.k` on an object's members: the last member with that
      key (JSON.parse keeps the last of duplicate keys), else undefined. */
  function Member(members: seq<(string, JsValue)>, k: string): JsValue
  {
    if members == [] then Undefined
    else if members[|members| - 1].0 == k then members[|members| - 1].1
    else Member(members[..|members| - 1], k)
  }

  /** `value.k` for a parsed value: undefined on anything but an object (the
      model has no property of arrays, strings or numbers named by a key the
      envelope uses), and a TypeError, None here, on null or undefined. */
  function Property(value: JsValue, k: string): Option<JsValue>
  {
    match value
    case Undefined => None
    case Null => None
    case Object(members) => Some(Member(members, k))
    case _ => Some(Undefined)
  }

  /** packEncryptedData: the object JSON.stringify writes, version first. */
  function Pack(d: EncryptedData): JsValue
  {
    Object([
      ("v", Num(FORMAT_VERSION)),
      ("alg", Str(d.algorithm)),
      ("kdf", Str(d.keyDerivation)),
      ("iter", Num(d.iterations)),
      ("salt", Str(d.salt)),
      ("iv", Str(d.iv)),
      ("ct", Str(d.ciphertext))])
  }

  /** unpackEncryptedData: a parse error, a ToObject failure and a version
      other than 1 are all caught and reported as the same error; otherwise
      the fields are read without any check. */
  function Unpack(p: Parsed): (r: Result<Unpacked>)
    ensures r.Err? ==> r.error == INVALID_FORMAT
  {
    match p
    case SyntaxError => Err(INVALID_FORMAT)
    case Value(data) =>
      match Property(data, "v")
      case None => Err(INVALID_FORMAT)
      case Some(v) =>
        if v != Num(FORMAT_VERSION) then Err(INVALID_FORMAT)
        else
          var m := data.members;
          Ok(Unpacked(Member(m, "ct"), Member(m, "salt"), Member(m, "iv"),
            Member(m, "alg"), Member(m, "kdf"), Member(m, "iter")))
  }

  /** The record as the fields of an unpacked envelope. */
  function AsUnpacked(d: EncryptedData): Unpacked
  {
    Unpacked(Str(d.ciphertext), Str(d.salt), Str(d.iv),
      Str(d.algorithm), Str(d.keyDerivation), Num(d.iterations))
  }

  /** Unpacking a packed record gives it back field for field. */
  lemma UnpackPack(d: EncryptedData)
    ensures Unpack(Value(Pack(d))) == Ok(AsUnpacked(d))
  {
    PackPrefixes(d);
  }

  /** Each key of a packed record reads back the value written under it. */
  lemma PackPrefixes(d: EncryptedData)
    ensures var m := Pack(d).members;
            Member(m, "v") == Num(FORMAT_VERSION) && Member(m, "alg") == Str(d.algorithm) &&
            Member(m, "kdf") == Str(d.keyDerivation) && Member(m, "iter") == Num(d.iterations) &&
            Member(m, "salt") == Str(d.salt) && Member(m, "iv") == Str(d.iv) &&
            Member(m, "ct") == Str(d.ciphertext)
  {
    var m := Pack(d).members;
    MemberOfDistinct(m, 0);
    MemberOfDistinct(m, 1);
    MemberOfDistinct(m, 2);
    MemberOfDistinct(m, 3);
    MemberOfDistinct(m, 4);
    MemberOfDistinct(m, 5);
    MemberOfDistinct(m, 6);
  }

  /** In members whose keys are all different, key j reads back value j. */
  lemma {:induction false} MemberOfDistinct(m: seq<(string, JsValue)>, j: nat)
    requires j < |m|
    requires forall i :: j < i < |m| ==> m[i].0 != m[j].0
    ensures Member(m, m[j].0) == m[j].1
    decreases |m|
  {
    if j < |m| - 1 {
      var p := m[..|m| - 1];
      assert p[j] == m[j];
      MemberOfDistinct(p, j);
    }
  }

  /** Packing always writes version 1 and exactly the seven keys, each once. */
  lemma PackMembers(d: EncryptedData)
    ensures Pack(d).Object?
    ensures Member(Pack(d).members, "v") == Num(1)
    ensures forall i, j :: 0 <= i < j < |Pack(d).members| ==> Pack(d).members[i].0 != Pack(d).members[j].0
    ensures forall i :: 0 <= i < |Pack(d).members| ==>
              Pack(d).members[i].0 in {"v", "alg", "kdf", "iter", "salt", "iv", "ct"}
  {
    PackPrefixes(d);
  }

  /** unpackEncryptedData succeeds exactly on an object whose `v` is 1. */
  lemma UnpackAcceptsVersionOne(p: Parsed)
    ensures Unpack(p).Ok? <==>
            p.Value? && p.value.Object? && Member(p.value.members, "v") == Num(FORMAT_VERSION)
  {
  }

  /** No field other than `v` is checked: any object with version 1 is
      accepted, and each field is whatever the object has under its key,
      undefined when the key is missing. */
  lemma UnpackChecksNothingElse(members: seq<(string, JsValue)>)
    requires Member(members, "v") == Num(FORMAT_VERSION)
    ensures Unpack(Value(Object(members))).Ok?
    ensures var u := Unpack(Value(Object(members))).value;
            u.ciphertext == Member(members, "ct") && u.salt == Member(members, "salt") &&
            u.iv == Member(members, "iv") && u.algorithm == Member(members, "alg") &&
            u.keyDerivation == Member(members, "kdf") && u.iterations == Member(members, "iter")
  {
  }

  /** The envelope `{"v":1}` is accepted with every field undefined. */
  lemma VersionAloneIsAccepted()
    ensures Unpack(Value(Object([("v", Num(1))]))) ==
            Ok(Unpacked(Undefined, Undefined, Undefined, Undefined, Undefined, Undefined))
  {
    var m := [("v", Num(1))];
    assert m[..0] == [];
  }

  /** Version 2, a version given as the string "1", null and text that is
      not JSON all give the one error. */
  lemma OtherInputsAreRejected()
    ensures Unpack(Value(Object([("v", Num(2))]))) == Err(INVALID_FORMAT)
    ensures Unpack(Value(Object([("v", Str([0x31]))]))) == Err(INVALID_FORMAT)
    ensures Unpack(Value(Null)) == Err(INVALID_FORMAT)
    ensures Unpack(Value(Num(1))) == Err(INVALID_FORMAT)
    ensures Unpack(SyntaxError) == Err(INVALID_FORMAT)
  {
  }
}
