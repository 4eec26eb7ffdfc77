/** What hashing and verification compute, in terms of Argon2id, HMAC and bcrypt themselves. */
module PasswordLaws {
  import opened Prelude
  import opened Base64
  import opened Decimal
  import opened Password

  /** What is hashed in place of the password: its HMAC under the pepper, or with an empty pepper the password. */
  predicate Keyed(c: Crypto, pepper: Bytes, password: Bytes, pw: Bytes) {
    (pepper == [] ==> pw == password) && (pepper != [] ==> pw == c.hmac(pepper, password))
  }

  /** Parameters that Argon2id takes and the format holds. */
  predicate Usable(p: Params) {
    1 <= p.iterations < TWO_32 && p.memory < TWO_32 && 1 <= p.parallelism <= 255
  }

  lemma PrintedText(p: Params, salt: Bytes, hash: Bytes)
    ensures Printed(p, SaltAndHash(salt, hash)) ==
            "argon2id$" + Print(p.iterations) + "$" + Print(p.memory) + "$" + Print(p.parallelism) + "$"
            + Encode(Std, salt) + "." + Encode(Std, hash)
  {
    Flatten("argon2id$", Print(p.iterations), Print(p.memory), Print(p.parallelism), "$", Encode(Std, salt), ".", Encode(Std, hash));
  }

  lemma Flatten(a: string, i: string, m: string, p: string, d: string, s: string, dot: string, h: string)
    ensures a + (i + (d + (m + (d + (p + (d + (s + dot + h))))))) == a + i + d + m + d + p + d + s + dot + h
  {
  }

  /** The stored text: the parameters, the salt, and 32 bytes of Argon2id over the keyed password. */
  lemma HashText(c: Crypto, pepper: Bytes, p: Params, salt: Bytes, password: Bytes, pw: Bytes)
    requires Keyed(c, pepper, password, pw) && p.iterations >= 1 && p.parallelism % 256 >= 1
    ensures HashPassword(c, pepper, p, Some(salt), password) == Returns(
              "argon2id$" + Print(p.iterations) + "$" + Print(p.memory) + "$" + Print(p.parallelism) + "$"
              + Encode(Std, salt) + "." + Encode(Std, c.idKey(pw, salt, p.iterations, p.memory, p.parallelism % 256, 32)))
  {
    PrintedText(p, salt, c.idKey(pw, salt, p.iterations, p.memory, p.parallelism % 256, 32));
  }

  /** Hashing succeeds iff there is a salt and Argon2id has an iteration and a lane to run; else it fails or panics. */
  lemma HashSucceedsIff(c: Crypto, pepper: Bytes, p: Params, salt: Option<Bytes>, password: Bytes)
    ensures var h := HashPassword(c, pepper, p, salt, password);
            && (h.Returns? <==> salt.Some? && p.iterations >= 1 && p.parallelism % 256 != 0)
            && (h.Fails? <==> salt.None?)
  {
  }

  lemma VerifiesPrinted(c: Crypto, pepper: Bytes, p: Params, salt: Bytes, key: Bytes, tried: Bytes, t: Bytes)
    requires Usable(p) && Keyed(c, pepper, tried, t)
    ensures VerifyPassword(c, pepper, tried, Printed(p, SaltAndHash(salt, key))) ==
            Returns(c.idKey(t, salt, p.iterations, p.memory, p.parallelism, |key|) == key)
  {
    VerifyOfPrinted(c, p, salt, key, pepper, tried);
  }

  /** Verification compares the Argon2id keys of the two keyed passwords, made with the salt and parameters stored. */
  lemma ComparesKeys(c: Crypto, pepper: Bytes, p: Params, salt: Bytes, right: Bytes, tried: Bytes, r: Bytes, t: Bytes)
    requires Sound(c) && Usable(p) && Keyed(c, pepper, right, r) && Keyed(c, pepper, tried, t)
    ensures HashPassword(c, pepper, p, Some(salt), right).Returns?
    ensures VerifyPassword(c, pepper, tried, HashPassword(c, pepper, p, Some(salt), right).value) ==
            Returns(c.idKey(t, salt, p.iterations, p.memory, p.parallelism, 32)
                    == c.idKey(r, salt, p.iterations, p.memory, p.parallelism, 32))
  {
    var key := c.idKey(r, salt, p.iterations, p.memory, p.parallelism, 32);
    assert p.parallelism % 256 == p.parallelism && |key| == 32;
    assert HashPassword(c, pepper, p, Some(salt), right) == Returns(Printed(p, SaltAndHash(salt, key)));
    VerifiesPrinted(c, pepper, p, salt, key, tried, t);
  }

  /** Neither HMAC nor Argon2id, as called here, maps the two to the same bytes unless they are the same. */
  predicate NoCollision(c: Crypto, pepper: Bytes, p: Params, salt: Bytes, a: Bytes, b: Bytes) {
    && (c.hmac(pepper, a) == c.hmac(pepper, b) ==> a == b)
    && var (x, y) := if pepper == [] then (a, b) else (c.hmac(pepper, a), c.hmac(pepper, b));
       var k, l := c.idKey(x, salt, p.iterations, p.memory, p.parallelism, 32), c.idKey(y, salt, p.iterations, p.memory, p.parallelism, 32);
       k == l ==> x == y
  }

  lemma KeyedExists(c: Crypto, pepper: Bytes, password: Bytes) returns (pw: Bytes)
    ensures Keyed(c, pepper, password, pw)
  {
    pw := if pepper == [] then password else c.hmac(pepper, password);
  }

  /** Then a password is accepted iff it is the one that was hashed, with a pepper or without. */
  lemma AcceptedIffSame(c: Crypto, pepper: Bytes, p: Params, salt: Bytes, right: Bytes, tried: Bytes)
    requires Sound(c) && Usable(p) && NoCollision(c, pepper, p, salt, right, tried)
    ensures HashPassword(c, pepper, p, Some(salt), right).Returns?
    ensures VerifyPassword(c, pepper, tried, HashPassword(c, pepper, p, Some(salt), right).value) == Returns(tried == right)
  {
    var r := KeyedExists(c, pepper, right);
    var t := KeyedExists(c, pepper, tried);
    ComparesKeys(c, pepper, p, salt, right, tried, r, t);
  }

  // ----- The older hashes

  predicate BcryptText(encoded: string) {
    |encoded| >= 4 && encoded[0] == '$' && encoded[1] == '2' && encoded[2] in {'a', 'b', 'y'} && encoded[3] == '$'
  }

  lemma BcryptPrefix(encoded: string)
    ensures BcryptText(encoded) <==> "$2a$" <= encoded || "$2b$" <= encoded || "$2y$" <= encoded
  {
    if |encoded| >= 4 {
      var t := encoded[..4];
      assert t == [encoded[0], encoded[1], encoded[2], encoded[3]];
      assert "$2a$" <= encoded <==> t == "$2a$";
      assert "$2b$" <= encoded <==> t == "$2b$";
      assert "$2y$" <= encoded <==> t == "$2y$";
    }
  }

  /** A text marked as bcrypt is compared by bcrypt with the keyed password, and never fails. */
  lemma BcryptCompares(c: Crypto, pepper: Bytes, tried: Bytes, t: Bytes, encoded: string)
    requires BcryptText(encoded) && Keyed(c, pepper, tried, t)
    ensures VerifyPassword(c, pepper, tried, encoded) == Returns(c.bcrypt(encoded, t))
  {
    BcryptPrefix(encoded);
  }

  /** No other text is: what bcrypt would say does not matter there. */
  lemma BcryptOnlyThere(c: Crypto, bcrypt: (string, Bytes) -> bool, pepper: Bytes, tried: Bytes, encoded: string)
    requires !BcryptText(encoded)
    ensures VerifyPassword(c, pepper, tried, encoded) == VerifyPassword(c.(bcrypt := bcrypt), pepper, tried, encoded)
  {
    BcryptPrefix(encoded);
  }

  // ----- Texts that are no hash

  lemma ForeignIsRefused(c: Crypto, pepper: Bytes, tried: Bytes, encoded: string)
    requires !BcryptText(encoded) && !("argon2id$" <= encoded)
    ensures VerifyPassword(c, pepper, tried, encoded) == Fails("invalid hash format")
  {
    BcryptPrefix(encoded);
  }

  lemma WordMeets(c: Crypto, p: Params, word: string, pepper: Bytes, tried: Bytes)
    requires Usable(p) && ScanWord(word) == Some(word)
    ensures VerifyPassword(c, pepper, tried, Printed(p, word))
            == VerifyFields(c, pepper, tried, Fields([p.iterations, p.memory, p.parallelism], word))
  {
    PrintedWithWord(c, p, word, pepper, tried);
  }

  lemma NoDotIsRefused(c: Crypto, pepper: Bytes, tried: Bytes, f: Fields)
    requires '.' !in f.word
    ensures VerifyFields(c, pepper, tried, f) == Fails("invalid hash encoding")
  {
    SplitLastMeaning(f.word, '.');
  }

  lemma BadPartIsRefused(c: Crypto, pepper: Bytes, tried: Bytes, f: Fields, a: string, b: string)
    requires f.word == a + "." + b && '.' !in b && (GoDecodeRaw(a).None? || GoDecodeRaw(b).None?)
    ensures VerifyFields(c, pepper, tried, f).Fails?
  {
    SplitAtOnlyDot(a, b, |f.word|);
  }

  /** A last field without a dot is refused, and so is one with a part that is no base64 on either side of the last dot. */
  lemma BadWordIsRefused(c: Crypto, p: Params, word: string, pepper: Bytes, tried: Bytes, a: string, b: string)
    requires Usable(p) && ScanWord(word) == Some(word)
    ensures '.' !in word ==> VerifyPassword(c, pepper, tried, Printed(p, word)) == Fails("invalid hash encoding")
    ensures word == a + "." + b && '.' !in b && (GoDecodeRaw(a).None? || GoDecodeRaw(b).None?) ==>
              VerifyPassword(c, pepper, tried, Printed(p, word)).Fails?
  {
    WordMeets(c, p, word, pepper, tried);
    var f := Fields([p.iterations, p.memory, p.parallelism], word);
    if '.' !in word {
      NoDotIsRefused(c, pepper, tried, f);
    }
    if word == a + "." + b && '.' !in b && (GoDecodeRaw(a).None? || GoDecodeRaw(b).None?) {
      BadPartIsRefused(c, pepper, tried, f, a, b);
    }
  }

  // ----- The parameters

  /** A value of at least the minimum is taken, below 2^32 as it is; any other leaves the default. */
  lemma ConfiguredParams(iter: Option<int>, mem: Option<int>, par: Option<int>)
    ensures var p := ArgonParams(iter, mem, par);
            && (iter.Some? && 1 <= iter.value < 4294967296 ==> p.iterations == iter.value)
            && (iter.None? || iter.value < 1 ==> p.iterations == 2)
            && (mem.Some? && 1024 <= mem.value < 4294967296 ==> p.memory == mem.value)
            && (mem.None? || mem.value < 1024 ==> p.memory == 19456)
            && (par.Some? && 1 <= par.value < 4294967296 ==> p.parallelism == par.value)
            && (par.None? || par.value < 1 ==> p.parallelism == 1)
  {
  }
}
