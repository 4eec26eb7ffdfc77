/**
 Envelope encryption: a fresh data key encrypts the field, the key-encryption key encrypts the
 data key, and both travel in one base64 envelope that also names the cipher.
 */
module Envelope {
  import opened Prelude
  import opened Base64
  import I = Int64

  const NONCE_SIZE: nat := 12
  const TAG_SIZE: nat := 16
  const DEK_SIZE: nat := 32
  const SM4_BLOCK_SIZE: nat := 16

  const CIPHER_AES := "aes-256-gcm"
  const CIPHER_SM4 := "sm4-gcm"

  /** A block cipher in Galois/Counter Mode: key, nonce and text. */
  datatype Gcm = Gcm(
    seal: (Bytes, Bytes, Bytes) -> Bytes,
    open: (Bytes, Bytes, Bytes) -> Option<Bytes>)
  {
    ghost predicate Sound() {
      forall k, n, p :: open(k, n, seal(k, n, p)) == Some(p) && |seal(k, n, p)| == |p| + TAG_SIZE
    }
  }

  datatype EncryptedEnvelope = EncryptedEnvelope(edek: string, ct: string, cipher: string, ts: int)

  /** Ciphers, SHA-256 and the JSON codec, uninterpreted. */
  datatype Primitives = Primitives(
    aes: Gcm,
    sm4: Gcm,
    sha256: Bytes -> Bytes,
    marshal: EncryptedEnvelope -> Bytes,
    unmarshal: Bytes -> Option<EncryptedEnvelope>)
  {
    ghost predicate Sound() {
      && aes.Sound()
      && sm4.Sound()
      && (forall b :: |sha256(b)| == 32)
      && (forall e: EncryptedEnvelope | I.Fits(e.ts) :: unmarshal(marshal(e)) == Some(e) && |marshal(e)| >= |e.ct|)
    }
  }

  // ----- Authenticated encryption with the nonce in front

  function SealWithNonce(g: Gcm, key: Bytes, nonce: Bytes, plaintext: Bytes): Bytes {
    nonce + g.seal(key, nonce, plaintext)
  }

  function OpenWithNonce(g: Gcm, key: Bytes, box: Bytes): Result<Bytes> {
    if |box| < NONCE_SIZE then Err("ciphertext too short")
    else
      match g.open(key, box[..NONCE_SIZE], box[NONCE_SIZE..])
      case None => Err("cipher: message authentication failed")
      case Some(p) => Ok(p)
  }

  /** The key length SM4 wants: as given when it fits, else the front of the hash. */
  function Sm4Key(m: Primitives, key: Bytes): Bytes
    requires m.Sound()
  {
    if |key| == SM4_BLOCK_SIZE then key else m.sha256(key)[..SM4_BLOCK_SIZE]
  }

  function AESEncrypt(m: Primitives, nonce: Option<Bytes>, plaintext: Bytes, key: Bytes): Result<Bytes> {
    if nonce.None? then Err("random source") else Ok(SealWithNonce(m.aes, m.sha256(key), nonce.value, plaintext))
  }

  function AESDecrypt(m: Primitives, box: Bytes, key: Bytes): Result<Bytes> {
    OpenWithNonce(m.aes, m.sha256(key), box)
  }

  function SM4Encrypt(m: Primitives, nonce: Option<Bytes>, plaintext: Bytes, key: Bytes): Result<Bytes>
    requires m.Sound()
  {
    if nonce.None? then Err("random source") else Ok(SealWithNonce(m.sm4, Sm4Key(m, key), nonce.value, plaintext))
  }

  function SM4Decrypt(m: Primitives, box: Bytes, key: Bytes): Result<Bytes>
    requires m.Sound()
  {
    OpenWithNonce(m.sm4, Sm4Key(m, key), box)
  }

  /** What a field is encrypted with, chosen by the cipher's name; anything unknown means AES. */
  function EncryptData(m: Primitives, cipher: string, nonce: Option<Bytes>, plaintext: Bytes, key: Bytes): Result<Bytes>
    requires m.Sound()
  {
    if cipher == CIPHER_SM4 then SM4Encrypt(m, nonce, plaintext, key) else AESEncrypt(m, nonce, plaintext, key)
  }

  function DecryptData(m: Primitives, cipher: string, box: Bytes, key: Bytes): Result<Bytes>
    requires m.Sound()
  {
    if cipher == CIPHER_SM4 then SM4Decrypt(m, box, key) else AESDecrypt(m, box, key)
  }

  // ----- Fields

  /** What one EncryptField call reads from outside: three random reads, each of which may fail, and the clock. */
  datatype Draw = Draw(dek: Option<Bytes>, kekNonce: Option<Bytes>, nonce: Option<Bytes>, now: int)
  {
    /** The random reads fill buffers of fixed sizes; the clock yields an int64. */
    predicate Sized() {
      && I.Fits(now)
      && (dek.Some? ==> |dek.value| == DEK_SIZE)
      && (kekNonce.Some? ==> |kekNonce.value| == NONCE_SIZE)
      && (nonce.Some? ==> |nonce.value| == NONCE_SIZE)
    }
  }

  /** The bytes of a string of one-byte characters. */
  function Ascii(s: string): (b: Bytes)
    ensures |b| == |s|
  {
    if s == "" then [] else [(s[0] as int % 256) as bv8] + Ascii(s[1..])
  }

  function FromAscii(b: Bytes): (s: string)
    ensures |s| == |b|
  {
    if b == [] then "" else [(b[0] as int) as char] + FromAscii(b[1..])
  }

  function Wrap(m: Primitives, env: EncryptedEnvelope): Bytes {
    Ascii(EncodePadded(Std, m.marshal(env)))
  }

  function EncryptedField(m: Primitives, kek: Bytes, cipher: string, d: Draw, plaintext: Bytes): Result<Bytes>
    requires m.Sound()
  {
    if d.dek.None? then Err("generate DEK")
    else
      match AESEncrypt(m, d.kekNonce, d.dek.value, kek)
      case Err(e) => Err(e)
      case Ok(edek) =>
        match EncryptData(m, cipher, d.nonce, plaintext, d.dek.value)
        case Err(e) => Err(e)
        case Ok(ct) => Ok(Wrap(m, EncryptedEnvelope(EncodePadded(Std, edek), EncodePadded(Std, ct), cipher, d.now)))
  }

  function Unwrap(m: Primitives, encoded: Bytes): Result<EncryptedEnvelope> {
    match GoDecodePadded(FromAscii(encoded))
    case None => Err("decode envelope base64")
    case Some(data) =>
      match m.unmarshal(data)
      case None => Err("unmarshal envelope")
      case Some(env) => Ok(env)
  }

  function UnwrapKey(m: Primitives, kek: Bytes, env: EncryptedEnvelope): Result<Bytes> {
    match GoDecodePadded(env.edek)
    case None => Err("decode encrypted DEK")
    case Some(edek) => AESDecrypt(m, edek, kek)
  }

  function UnwrapData(m: Primitives, env: EncryptedEnvelope, dek: Bytes): Result<Bytes>
    requires m.Sound()
  {
    match GoDecodePadded(env.ct)
    case None => Err("decode ciphertext")
    case Some(ct) => DecryptData(m, env.cipher, ct, dek)
  }

  function DecryptedField(m: Primitives, kek: Bytes, encoded: Bytes): Result<Bytes>
    requires m.Sound()
  {
    match Unwrap(m, encoded)
    case Err(e) => Err(e)
    case Ok(env) =>
      match UnwrapKey(m, kek, env)
      case Err(e) => Err(e)
      case Ok(dek) => UnwrapData(m, env, dek)
  }

  // ----- Round trips

  lemma OpenSeal(g: Gcm, key: Bytes, nonce: Bytes, plaintext: Bytes)
    requires g.Sound() && |nonce| == NONCE_SIZE
    ensures OpenWithNonce(g, key, SealWithNonce(g, key, nonce, plaintext)) == Ok(plaintext)
    ensures |SealWithNonce(g, key, nonce, plaintext)| > |plaintext|
  {
    var sealed := g.seal(key, nonce, plaintext);
    assert (nonce + sealed)[..NONCE_SIZE] == nonce;
    assert (nonce + sealed)[NONCE_SIZE..] == sealed;
  }

  lemma DataRoundTrip(m: Primitives, cipher: string, nonce: Option<Bytes>, plaintext: Bytes, key: Bytes)
    requires m.Sound() && nonce.Some? && |nonce.value| == NONCE_SIZE
    ensures var r := EncryptData(m, cipher, nonce, plaintext, key);
            r.Ok? && DecryptData(m, cipher, r.value, key) == Ok(plaintext) && |r.value| > |plaintext|
  {
    if cipher == CIPHER_SM4 {
      OpenSeal(m.sm4, Sm4Key(m, key), nonce.value, plaintext);
    } else {
      OpenSeal(m.aes, m.sha256(key), nonce.value, plaintext);
    }
  }

  lemma NextByte(b: bv8)
    requires b as int < 255
    ensures (b + 1) as int == b as int + 1
  {
    assert b < 255;
  }

  lemma {:induction false} ByteExists(n: nat) returns (b: bv8)
    requires n < 256
    ensures b as int == n
  {
    b := 0;
    if n > 0 {
      b := ByteExists(n - 1);
      NextByte(b);
      b := b + 1;
    }
  }

  lemma SameByte(b: bv8)
    ensures (b as int) as bv8 == b
  {
  }

  lemma ByteOfInt(n: int)
    requires 0 <= n < 256
    ensures (n as bv8) as int == n
  {
    var b := ByteExists(n);
    SameByte(b);
  }

  lemma ByteOfChar(c: char)
    requires c as int < 256
    ensures (((c as int % 256) as bv8) as int) as char == c
  {
    ByteOfInt(c as int);
    assert c as int % 256 == c as int;
  }

  lemma {:induction false} AsciiRoundTrip(s: string)
    requires forall i | 0 <= i < |s| :: s[i] as int < 256
    ensures FromAscii(Ascii(s)) == s
  {
    if s != "" {
      ByteOfChar(s[0]);
      AsciiRoundTrip(s[1..]);
      assert Ascii(s)[1..] == Ascii(s[1..]);
    }
  }

  lemma Base64IsAscii(bs: Bytes)
    ensures var s := EncodePadded(Std, bs); |s| >= |bs| && forall i | 0 <= i < |s| :: s[i] as int < 256
  {
    Shape(Std, bs);
    var e := Encode(Std, bs);
    forall i | 0 <= i < |EncodePadded(Std, bs)|
      ensures EncodePadded(Std, bs)[i] as int < 256
    {
      if i < |e| {
        assert e[i] in e;
      }
    }
  }

  lemma WrapRoundTrip(m: Primitives, env: EncryptedEnvelope)
    requires m.Sound() && I.Fits(env.ts)
    ensures Unwrap(m, Wrap(m, env)) == Ok(env)
    ensures |Wrap(m, env)| >= |env.ct|
  {
    var data := m.marshal(env);
    Base64IsAscii(data);
    AsciiRoundTrip(EncodePadded(Std, data));
    GoRoundTrip(data);
  }

  /**
   DecryptField inverts EncryptField for every plaintext and every cipher setting. DecryptField takes
   no cipher: the choice is read from the envelope, so a setting changed in between does not matter.
   */
  lemma FieldRoundTrip(m: Primitives, kek: Bytes, cipher: string, d: Draw, plaintext: Bytes)
    requires m.Sound() && d.Sized()
    ensures var r := EncryptedField(m, kek, cipher, d, plaintext);
            && (r.Ok? <==> d.dek.Some? && d.kekNonce.Some? && d.nonce.Some?)
            && (r.Ok? ==> DecryptedField(m, kek, r.value) == Ok(plaintext) && |r.value| > |plaintext|)
  {
    if d.dek.Some? && d.kekNonce.Some? && d.nonce.Some? {
      OpenSeal(m.aes, m.sha256(kek), d.kekNonce.value, d.dek.value);
      DataRoundTrip(m, cipher, d.nonce, plaintext, d.dek.value);
      var edek := AESEncrypt(m, d.kekNonce, d.dek.value, kek).value;
      var ct := EncryptData(m, cipher, d.nonce, plaintext, d.dek.value).value;
      GoRoundTrip(edek);
      GoRoundTrip(ct);
      Base64IsAscii(ct);
      WrapRoundTrip(m, EncryptedEnvelope(EncodePadded(Std, edek), EncodePadded(Std, ct), cipher, d.now));
    }
  }

  // ----- The provider

  predicate AllZero(a: seq<bv8>) {
    forall i | 0 <= i < |a| :: a[i] == 0
  }

  method Wipe(key: array<bv8>)
    modifies key
    ensures AllZero(key[..])
  {
    for i := 0 to key.Length
      invariant AllZero(key[..i])
    {
      key[i] := 0;
    }
    assert key[..] == key[..key.Length];
  }

  method ToArray(b: Bytes) returns (a: array<bv8>)
    ensures fresh(a) && a[..] == b
  {
    a := new bv8[|b|](i requires 0 <= i < |b| => b[i]);
  }

  class EnvelopeEncryptionProvider {
    const primitives: Primitives
    var kekKey: Bytes
    var cipher: string

    constructor (m: Primitives, kekMaterial: Bytes)
      ensures primitives == m && kekKey == m.sha256(kekMaterial) && cipher == CIPHER_AES
    {
      primitives := m;
      kekKey := m.sha256(kekMaterial);
      cipher := CIPHER_AES;
    }

    method WithSM4() returns (p: EnvelopeEncryptionProvider)
      modifies this`cipher
      ensures p == this && cipher == CIPHER_SM4
    {
      cipher := CIPHER_SM4;
      p := this;
    }

    /** On success the data key stands in a new array, and DecryptDataKey would give it back. */
    method GenerateDataKey(d: Draw) returns (dek: array?<bv8>, edek: Result<Bytes>)
      requires primitives.Sound() && d.Sized()
      ensures dek != null <==> d.dek.Some?
      ensures dek != null ==> fresh(dek) && dek[..] == d.dek.value
      ensures edek == if d.dek.None? then Err("generate DEK") else AESEncrypt(primitives, d.kekNonce, d.dek.value, kekKey)
      ensures edek.Ok? ==> AESDecrypt(primitives, edek.value, kekKey) == Ok(dek[..])
    {
      if d.dek.None? {
        return null, Err("generate DEK");
      }
      dek := ToArray(d.dek.value);
      edek := AESEncrypt(primitives, d.kekNonce, dek[..], kekKey);
      if d.kekNonce.Some? {
        OpenSeal(primitives.aes, primitives.sha256(kekKey), d.kekNonce.value, d.dek.value);
      }
    }

    /** `key` is the working copy of the data key: wiped on success, left as drawn on an error after that. */
    method EncryptField(d: Draw, plaintext: Bytes) returns (r: Result<Bytes>, key: array?<bv8>)
      requires primitives.Sound() && d.Sized()
      ensures r == EncryptedField(primitives, kekKey, cipher, d, plaintext)
      ensures r.Ok? ==> key != null && AllZero(key[..])
      ensures r.Err? && key != null ==> Some(key[..]) == d.dek
    {
      var edek;
      key, edek := GenerateDataKey(d);
      if edek.Err? {
        return Err(edek.error), key;
      }
      var ct := EncryptData(primitives, cipher, d.nonce, plaintext, key[..]);
      if ct.Err? {
        return Err(ct.error), key;
      }
      Wipe(key);
      var env := EncryptedEnvelope(EncodePadded(Std, edek.value), EncodePadded(Std, ct.value), cipher, d.now);
      r := Ok(Wrap(primitives, env));
    }

    /** `key` is the working copy of the data key: once it exists it is wiped, whatever happens next. */
    method DecryptField(encoded: Bytes) returns (r: Result<Bytes>, key: array?<bv8>)
      requires primitives.Sound()
      ensures r == DecryptedField(primitives, kekKey, encoded)
      ensures r.Ok? ==> key != null
      ensures key != null ==> AllZero(key[..])
    {
      var env := Unwrap(primitives, encoded);
      if env.Err? {
        return Err(env.error), null;
      }
      var dek := UnwrapKey(primitives, kekKey, env.value);
      if dek.Err? {
        return Err(dek.error), null;
      }
      key := ToArray(dek.value);
      r := UnwrapData(primitives, env.value, key[..]);
      Wipe(key);
    }
  }
}
