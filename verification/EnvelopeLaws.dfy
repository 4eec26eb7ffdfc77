/** The layout of an encrypted field in terms of the ciphers and the hash, and what decryption refuses. */
module EnvelopeLaws {
  import opened Prelude
  import opened Base64
  import opened Envelope

  /** All random reads succeeded and the clock was read. */
  predicate Drawn(d: Draw, dek: Bytes, kekNonce: Bytes, nonce: Bytes, now: int) {
    d == Draw(Some(dek), Some(kekNonce), Some(nonce), now)
  }

  /** The data key behind its nonce, sealed with AES under the hash of the key-encryption key. */
  function SealedKey(m: Primitives, kek: Bytes, kekNonce: Bytes, dek: Bytes): string {
    EncodePadded(Std, kekNonce + m.aes.seal(m.sha256(kek), kekNonce, dek))
  }

  /** With AES, and with any name that is not SM4's, the field is sealed under the hash of the data key. */
  lemma AesFieldLayout(m: Primitives, kek: Bytes, cipher: string, d: Draw, plaintext: Bytes,
                       dek: Bytes, kekNonce: Bytes, nonce: Bytes, now: int)
    requires m.Sound() && Drawn(d, dek, kekNonce, nonce, now) && cipher != "sm4-gcm"
    ensures EncryptedField(m, kek, cipher, d, plaintext) == Ok(Ascii(EncodePadded(Std, m.marshal(EncryptedEnvelope(
              SealedKey(m, kek, kekNonce, dek),
              EncodePadded(Std, nonce + m.aes.seal(m.sha256(dek), nonce, plaintext)),
              cipher, now)))))
  {
  }

  /** With SM4 the key is the data key itself if it has sixteen bytes, else the first sixteen of its hash. */
  lemma Sm4FieldLayout(m: Primitives, kek: Bytes, d: Draw, plaintext: Bytes,
                       dek: Bytes, kekNonce: Bytes, nonce: Bytes, now: int, key: Bytes)
    requires m.Sound() && Drawn(d, dek, kekNonce, nonce, now)
    requires key == if |dek| == 16 then dek else m.sha256(dek)[..16]
    ensures EncryptedField(m, kek, "sm4-gcm", d, plaintext) == Ok(Ascii(EncodePadded(Std, m.marshal(EncryptedEnvelope(
              SealedKey(m, kek, kekNonce, dek),
              EncodePadded(Std, nonce + m.sm4.seal(key, nonce, plaintext)),
              "sm4-gcm", now)))))
  {
  }

  lemma WrongKeyIsRefused(m: Primitives, box: Bytes, key: Bytes, nonce: Bytes, sealed: Bytes)
    requires box == nonce + sealed && |nonce| == 12 && m.aes.open(m.sha256(key), nonce, sealed) == None
    ensures AESDecrypt(m, box, key).Err?
  {
    assert box[..12] == nonce && box[12..] == sealed;
  }

  /** Another key-encryption key, under which AES does not open the data key, does not decrypt the field. */
  lemma WrongKekIsRefused(m: Primitives, kek: Bytes, other: Bytes, cipher: string, d: Draw, plaintext: Bytes,
                          dek: Bytes, kekNonce: Bytes, nonce: Bytes, now: int)
    requires m.Sound() && d.Sized() && Drawn(d, dek, kekNonce, nonce, now)
    requires m.aes.open(m.sha256(other), kekNonce, m.aes.seal(m.sha256(kek), kekNonce, dek)) == None
    ensures var r := EncryptedField(m, kek, cipher, d, plaintext); r.Ok? && DecryptedField(m, other, r.value).Err?
  {
    var edek := kekNonce + m.aes.seal(m.sha256(kek), kekNonce, dek);
    var ct := EncryptData(m, cipher, d.nonce, plaintext, dek).value;
    var env := EncryptedEnvelope(EncodePadded(Std, edek), EncodePadded(Std, ct), cipher, now);
    WrongKeyIsRefused(m, edek, other, kekNonce, m.aes.seal(m.sha256(kek), kekNonce, dek));
    GoRoundTrip(edek);
    WrapRoundTrip(m, env);
    assert EncryptedField(m, kek, cipher, d, plaintext) == Ok(Wrap(m, env));
    assert UnwrapKey(m, other, env).Err?;
  }

  /** The cipher that opens a field is the one its envelope names, whatever the provider is set to. */
  lemma OpensByName(m: Primitives, env: EncryptedEnvelope, dek: Bytes, nonce: Bytes, sealed: Bytes, key: Bytes)
    requires m.Sound() && |nonce| == 12 && env.ct == EncodePadded(Std, nonce + sealed)
    requires key == if |dek| == 16 then dek else m.sha256(dek)[..16]
    ensures var content := if env.cipher == "sm4-gcm" then m.sm4.open(key, nonce, sealed)
                           else m.aes.open(m.sha256(dek), nonce, sealed);
            match content
            case Some(p) => UnwrapData(m, env, dek) == Ok(p)
            case None => UnwrapData(m, env, dek).Err?
  {
    GoRoundTrip(nonce + sealed);
    assert (nonce + sealed)[..12] == nonce && (nonce + sealed)[12..] == sealed;
  }

  /** What is no base64, no envelope, or too short to hold a nonce is refused. */
  lemma MalformedIsRefused(m: Primitives, kek: Bytes, encoded: Bytes)
    requires m.Sound()
    requires match GoDecodePadded(FromAscii(encoded))
             case None => true
             case Some(data) =>
               match m.unmarshal(data)
               case None => true
               case Some(env) =>
                 match GoDecodePadded(env.edek)
                 case None => true
                 case Some(edek) => |edek| < 12 || GoDecodePadded(env.ct).None? || |GoDecodePadded(env.ct).value| < 12
    ensures DecryptedField(m, kek, encoded).Err?
  {
  }
}
