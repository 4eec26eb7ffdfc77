/**
 Password hashes: the string HashPassword prints, `argon2id$iter$mem$par$salt.hash`, and the
 scanner and splitter VerifyPassword takes it apart with.
 */
module Password {
  import opened Prelude
  import opened Base64
  import opened Decimal

  /** A Go call that may return an error or panic. */
  datatype Outcome<+T> = Returns(value: T) | Fails(error: string) | Panics

  /** The primitives, uninterpreted: Argon2id, HMAC-SHA256 and bcrypt's comparison. */
  datatype Crypto = Crypto(
    idKey: (Bytes, Bytes, nat, nat, nat, nat) -> Bytes,
    hmac: (Bytes, Bytes) -> Bytes,
    bcrypt: (string, Bytes) -> bool)

  const TWO_32: nat := 0x1_0000_0000
  const KEY_LENGTH: nat := 32

  datatype Params = Params(iterations: nat, memory: nat, parallelism: nat)

  /** The defaults, overridden by environment values; `uint32(n)` keeps the low 32 bits. */
  function ArgonParams(iter: Option<int>, mem: Option<int>, par: Option<int>): Params {
    Params(
      if iter.Some? && iter.value >= 1 then iter.value % TWO_32 else 2,
      if mem.Some? && mem.value >= 1024 then mem.value % TWO_32 else 19 * 1024,
      if par.Some? && par.value >= 1 then par.value % TWO_32 else 1)
  }

  function ApplyPepper(c: Crypto, pepper: Bytes, password: Bytes): Bytes {
    if |pepper| > 0 then c.hmac(pepper, password) else password
  }

  /** `argon2.IDKey` panics on zero iterations or zero lanes. */
  function IDKey(c: Crypto, pw: Bytes, salt: Bytes, iter: nat, mem: nat, par: nat, keyLen: nat): Outcome<Bytes> {
    if iter < 1 || par < 1 then Panics else Returns(c.idKey(pw, salt, iter, mem, par, keyLen))
  }

  /** The `%s.%s` part: salt and hash in raw base64. */
  function SaltAndHash(salt: Bytes, hash: Bytes): string {
    Encode(Std, salt) + "." + Encode(Std, hash)
  }

  function Printed(p: Params, word: string): string {
    "argon2id$" + (Print(p.iterations) + ("$" + (Print(p.memory) + ("$" + (Print(p.parallelism) + ("$" + word))))))
  }

  /** `salt` is what the random source yielded, or nothing when it failed. */
  function HashPassword(c: Crypto, pepper: Bytes, p: Params, salt: Option<Bytes>, password: Bytes): Outcome<string> {
    if salt.None? then Fails("failed to generate salt")
    else
      match IDKey(c, ApplyPepper(c, pepper, password), salt.value, p.iterations, p.memory, p.parallelism % 256, KEY_LENGTH)
      case Returns(hash) => Returns(Printed(p, SaltAndHash(salt.value, hash)))
      case Fails(e) => Fails(e)
      case Panics => Panics
  }

  // ----- Scanning, as `fmt.Sscanf` does for the format "argon2id$%d$%d$%d$%s"

  function ScanLiteral(s: string, literal: string): Option<string> {
    if literal <= s then Some(s[|literal|..]) else None
  }

  /** `%d` into an unsigned integer below `limit`. */
  function ScanUint(s: string, limit: nat): Option<(nat, string)> {
    match SkipSpace(s)
    case None => None
    case Some(t) =>
      var n := Span(t);
      if n == 0 || Value(t[..n]) >= limit then None else Some((Value(t[..n]), t[n..]))
  }

  function Word(s: string): string {
    if s == "" || Space(s[0]) || s[0] == '\n' then "" else [s[0]] + Word(s[1..])
  }

  /** `%s`: the characters up to the next space. */
  function ScanWord(s: string): Option<string> {
    match SkipSpace(s)
    case None => None
    case Some(t) => if Word(t) == "" then None else Some(Word(t))
  }

  /** A scan format: literal text, unsigned integers below a limit, and a final word. */
  datatype Format = Done | Lit(text: string, next: Format) | Uint(limit: nat, next: Format) | Str

  datatype Fields = Fields(numbers: seq<nat>, word: string)

  /** `fmt.Sscanf`: the numbers and the word that the format picks out of `s`. */
  function Sscanf(format: Format, s: string): Option<Fields> {
    match format
    case Done => Some(Fields([], ""))
    case Lit(text, next) => (match ScanLiteral(s, text)
                             case None => None
                             case Some(rest) => Sscanf(next, rest))
    case Uint(limit, next) => (match ScanUint(s, limit)
                               case None => None
                               case Some((n, rest)) => Cons(n, Sscanf(next, rest)))
    case Str => (match ScanWord(s)
                 case None => None
                 case Some(word) => Some(Fields([], word)))
  }

  function Cons(n: nat, f: Option<Fields>): Option<Fields> {
    if f.Some? then Some(Fields([n] + f.value.numbers, f.value.word)) else None
  }

  /** "argon2id$%d$%d$%d$%s", read into two uint32, a uint8 and a string. */
  function HashFormat(): Format {
    Lit("argon2id$", Uint(TWO_32, Lit("$", Uint(TWO_32, Lit("$", Uint(256, Lit("$", Str)))))))
  }

  /** The two sides of the last separator, or the whole string when there is none. */
  function SplitLast(s: string, sep: char): seq<string> {
    SplitFrom(s, sep, |s|)
  }

  function SplitFrom(s: string, sep: char, n: nat): seq<string>
    requires n <= |s|
  {
    if n == 0 then [s]
    else if s[n - 1] == sep then [s[..n - 1], s[n..]]
    else SplitFrom(s, sep, n - 1)
  }

  /** Two parts around the last separator, or one part when there is none. */
  lemma {:induction false} SplitFromMeaning(s: string, sep: char, n: nat)
    requires n <= |s| && sep !in s[n..]
    ensures var parts := SplitFrom(s, sep, n);
            if sep in s then |parts| == 2 && s == parts[0] + [sep] + parts[1] && sep !in parts[1] else parts == [s]
  {
    if n > 0 {
      if s[n - 1] == sep {
        assert s == s[..n - 1] + [sep] + s[n..];
      } else {
        assert s[n - 1..] == [s[n - 1]] + s[n..];
        SplitFromMeaning(s, sep, n - 1);
      }
    } else {
      assert s[0..] == s;
    }
  }

  lemma SplitLastMeaning(s: string, sep: char)
    ensures var parts := SplitLast(s, sep);
            if sep in s then |parts| == 2 && s == parts[0] + [sep] + parts[1] && sep !in parts[1] else parts == [s]
  {
    SplitFromMeaning(s, sep, |s|);
  }

  method SplitLastLoop(s: string, sep: char) returns (parts: seq<string>)
    ensures parts == SplitLast(s, sep)
  {
    var i := |s| - 1;
    while i >= 0
      invariant -1 <= i < |s|
      invariant SplitFrom(s, sep, i + 1) == SplitLast(s, sep)
    {
      if s[i] == sep {
        return [s[..i], s[i + 1..]];
      }
      i := i - 1;
    }
    return [s];
  }

  function VerifyPassword(c: Crypto, pepper: Bytes, password: Bytes, encoded: string): Outcome<bool> {
    if "$2a$" <= encoded || "$2b$" <= encoded || "$2y$" <= encoded then
      Returns(c.bcrypt(encoded, ApplyPepper(c, pepper, password)))
    else
      match Sscanf(HashFormat(), encoded)
      case None => Fails("invalid hash format")
      case Some(f) => VerifyFields(c, pepper, password, f)
  }

  function VerifyFields(c: Crypto, pepper: Bytes, password: Bytes, f: Fields): Outcome<bool> {
    var parts := SplitLast(f.word, '.');
    if |parts| != 2 || |f.numbers| != 3 then Fails("invalid hash encoding")
    else
      match GoDecodeRaw(parts[0])
      case None => Fails("failed to decode salt")
      case Some(salt) =>
        match GoDecodeRaw(parts[1])
        case None => Fails("failed to decode hash")
        case Some(expected) =>
          match IDKey(c, ApplyPepper(c, pepper, password), salt, f.numbers[0], f.numbers[1], f.numbers[2], |expected|)
          case Returns(computed) => Returns(computed == expected)
          case Fails(e) => Fails(e)
          case Panics => Panics
  }

  // ----- The round trip

  lemma ScanPrinted(n: nat, limit: nat, rest: string)
    requires rest != "" && !IsDigit(rest[0])
    ensures ScanUint(Print(n) + rest, limit) == if n < limit then Some((n, rest)) else None
  {
    var s := Print(n) + rest;
    assert s[0] == Print(n)[0];
    SpanOfDigits(Print(n), rest);
    assert s[..|Print(n)|] == Print(n) && s[|Print(n)|..] == rest;
    ValueOfPrint(n);
  }

  lemma ScanExact(literal: string, rest: string)
    ensures ScanLiteral(literal + rest, literal) == Some(rest)
  {
  }

  lemma {:induction false} WordIsAll(s: string)
    requires forall i | 0 <= i < |s| :: !Space(s[i]) && s[i] != '\n'
    ensures Word(s) == s
  {
    if s != "" {
      WordIsAll(s[1..]);
    }
  }

  /** One literal and one number of the format, followed by more. */
  lemma ScanStep(text: string, n: nat, limit: nat, rest: string, next: Format)
    requires rest != "" && !IsDigit(rest[0])
    ensures Sscanf(Lit(text, Uint(limit, next)), text + (Print(n) + rest)) ==
            if n < limit then Cons(n, Sscanf(next, rest)) else None
  {
    ScanExact(text, Print(n) + rest);
    ScanPrinted(n, limit, rest);
  }

  /** Three numbers between separators: the limits decide whether all of them are read. */
  lemma ScanThree(head: string, sep: string, a: nat, b: nat, c: nat, limit: nat, small: nat, rest: string, next: Format)
    requires sep != "" && !IsDigit(sep[0]) && rest != "" && !IsDigit(rest[0])
    requires a < limit && b < limit
    ensures Sscanf(Lit(head, Uint(limit, Lit(sep, Uint(limit, Lit(sep, Uint(small, next)))))),
                   head + (Print(a) + (sep + (Print(b) + (sep + (Print(c) + rest))))))
            == if c < small then Cons(a, Cons(b, Cons(c, Sscanf(next, rest)))) else None
  {
    var f := Lit(sep, Uint(small, next));
    var s := sep + (Print(c) + rest);
    ScanStep(sep, c, small, rest, next);
    ScanStep(sep, b, limit, s, f);
    ScanStep(head, a, limit, sep + (Print(b) + s), Lit(sep, Uint(limit, f)));
  }

  lemma ConsThree(a: nat, b: nat, c: nat, word: string)
    ensures Cons(a, Cons(b, Cons(c, Some(Fields([], word))))) == Some(Fields([a, b, c], word))
  {
    assert [c] + [] == [c] && [b] + [c] == [b, c] && [a] + [b, c] == [a, b, c];
  }

  lemma ScanLast(word: string)
    requires ScanWord(word) == Some(word)
    ensures Sscanf(Lit("$", Str), "$" + word) == Some(Fields([], word))
  {
    ScanExact("$", word);
  }

  /** The scanner recovers the printed fields, and fails exactly when the parallelism overflows a byte. */
  lemma ScanOfPrinted(p: Params, word: string)
    requires p.iterations < TWO_32 && p.memory < TWO_32 && ScanWord(word) == Some(word)
    ensures Sscanf(HashFormat(), Printed(p, word)) ==
            if p.parallelism < 256 then Some(Fields([p.iterations, p.memory, p.parallelism], word)) else None
  {
    ScanLast(word);
    ScanThree("argon2id$", "$", p.iterations, p.memory, p.parallelism, TWO_32, 256, "$" + word, Lit("$", Str));
    ConsThree(p.iterations, p.memory, p.parallelism, word);
  }

  lemma WordOfPrinted(salt: Bytes, hash: Bytes)
    ensures ScanWord(SaltAndHash(salt, hash)) == Some(SaltAndHash(salt, hash))
  {
    var word := SaltAndHash(salt, hash);
    forall c | Space(c) || c == '\n'
      ensures c !in word
    {
      Absent(salt, c);
      Absent(hash, c);
    }
    forall i | 0 <= i < |word|
      ensures !Space(word[i]) && word[i] != '\n'
    {
      assert word[i] in word;
    }
    WordIsAll(word);
  }

  lemma {:induction false} SplitAtOnlyDot(a: string, b: string, n: nat)
    requires '.' !in b && |a| < n <= |a + "." + b|
    ensures SplitFrom(a + "." + b, '.', n) == [a, b]
  {
    var s := a + "." + b;
    if n == |a| + 1 {
      assert s[..n - 1] == a && s[n..] == b;
    } else {
      assert s[n - 1] == b[n - 2 - |a|];
      SplitAtOnlyDot(a, b, n - 1);
    }
  }

  lemma FieldsDecode(salt: Bytes, hash: Bytes)
    ensures SplitLast(SaltAndHash(salt, hash), '.') == [Encode(Std, salt), Encode(Std, hash)]
    ensures GoDecodeRaw(Encode(Std, salt)) == Some(salt) && GoDecodeRaw(Encode(Std, hash)) == Some(hash)
  {
    Absent(hash, '.');
    SplitAtOnlyDot(Encode(Std, salt), Encode(Std, hash), |SaltAndHash(salt, hash)|);
    GoRoundTrip(salt);
    GoRoundTrip(hash);
  }

  /** Argon2id returns as many bytes as it is asked for. */
  ghost predicate Sound(c: Crypto) {
    forall pw, salt, iter, mem, par, n :: |c.idKey(pw, salt, iter, mem, par, n)| == n
  }

  lemma NotBcrypt(p: Params, word: string)
    ensures var s := Printed(p, word); !("$2a$" <= s) && !("$2b$" <= s) && !("$2y$" <= s)
  {
    assert Printed(p, word)[0] == 'a';
  }

  lemma VerifyOfFields(c: Crypto, pepper: Bytes, password: Bytes, f: Fields, salt: Bytes, hash: Bytes)
    requires f.word == SaltAndHash(salt, hash)
    requires |f.numbers| == 3 && f.numbers[0] >= 1 && f.numbers[2] >= 1
    ensures VerifyFields(c, pepper, password, f)
            == Returns(c.idKey(ApplyPepper(c, pepper, password), salt, f.numbers[0], f.numbers[1], f.numbers[2], |hash|) == hash)
  {
    FieldsDecode(salt, hash);
  }

  lemma VerifyOfScan(c: Crypto, pepper: Bytes, password: Bytes, s: string, scan: Option<Fields>)
    requires !("$2a$" <= s) && !("$2b$" <= s) && !("$2y$" <= s) && Sscanf(HashFormat(), s) == scan
    ensures VerifyPassword(c, pepper, password, s) ==
            if scan.Some? then VerifyFields(c, pepper, password, scan.value) else Fails("invalid hash format")
  {
  }

  /**
   For every printed hash, every password and either pepper: verification answers whether the
   two derived keys agree, except that a parallelism above 255 was printed in full and is refused.
   */
  lemma VerifyOfPrinted(c: Crypto, p: Params, salt: Bytes, hash: Bytes, pepper: Bytes, password: Bytes)
    requires p.iterations < TWO_32 && p.memory < TWO_32 && p.iterations >= 1 && p.parallelism % 256 >= 1
    ensures VerifyPassword(c, pepper, password, Printed(p, SaltAndHash(salt, hash))) ==
            if p.parallelism < 256
            then Returns(c.idKey(ApplyPepper(c, pepper, password), salt, p.iterations, p.memory, p.parallelism, |hash|) == hash)
            else Fails("invalid hash format")
  {
    WordOfPrinted(salt, hash);
    PrintedWithWord(c, p, SaltAndHash(salt, hash), pepper, password);
    FieldsOfPrinted(c, p, salt, hash, pepper, password);
  }

  lemma FieldsOfPrinted(c: Crypto, p: Params, salt: Bytes, hash: Bytes, pepper: Bytes, password: Bytes)
    requires p.iterations >= 1 && p.parallelism % 256 >= 1
    ensures p.parallelism < 256 ==>
      VerifyFields(c, pepper, password, Fields([p.iterations, p.memory, p.parallelism], SaltAndHash(salt, hash)))
      == Returns(c.idKey(ApplyPepper(c, pepper, password), salt, p.iterations, p.memory, p.parallelism, |hash|) == hash)
  {
    if p.parallelism < 256 {
      VerifyOfFields(c, pepper, password, Fields([p.iterations, p.memory, p.parallelism], SaltAndHash(salt, hash)), salt, hash);
    }
  }

  lemma PrintedWithWord(c: Crypto, p: Params, word: string, pepper: Bytes, password: Bytes)
    requires p.iterations < TWO_32 && p.memory < TWO_32 && ScanWord(word) == Some(word)
    ensures VerifyPassword(c, pepper, password, Printed(p, word)) ==
            if p.parallelism < 256
            then VerifyFields(c, pepper, password, Fields([p.iterations, p.memory, p.parallelism], word))
            else Fails("invalid hash format")
  {
    NotBcrypt(p, word);
    ScanOfPrinted(p, word);
    VerifyOfScan(c, pepper, password, Printed(p, word), Sscanf(HashFormat(), Printed(p, word)));
  }

  /**
   VerifyPassword accepts what HashPassword printed for the same password and pepper exactly
   when the parallelism fits in a byte; otherwise it reports a malformed hash.
   */
  lemma HashVerifies(c: Crypto, pepper: Bytes, p: Params, salt: Bytes, password: Bytes)
    requires Sound(c) && p.iterations < TWO_32 && p.memory < TWO_32
    requires HashPassword(c, pepper, p, Some(salt), password).Returns?
    ensures var r := VerifyPassword(c, pepper, password, HashPassword(c, pepper, p, Some(salt), password).value);
            && (r == Returns(true) <==> p.parallelism <= 255)
            && (p.parallelism > 255 ==> r == Fails("invalid hash format"))
  {
    var pw := ApplyPepper(c, pepper, password);
    var hash := c.idKey(pw, salt, p.iterations, p.memory, p.parallelism % 256, KEY_LENGTH);
    assert |hash| == KEY_LENGTH;
    VerifyOfPrinted(c, p, salt, hash, pepper, password);
  }

  /** A parallelism of 257 hashes with one lane, is printed in full, and the hash cannot be verified. */
  lemma WideParallelismIsRefused(c: Crypto, pepper: Bytes, salt: Bytes, password: Bytes)
    requires Sound(c)
    ensures var h := HashPassword(c, pepper, Params(2, 19 * 1024, 257), Some(salt), password);
            h.Returns? && VerifyPassword(c, pepper, password, h.value) == Fails("invalid hash format")
  {
    var p := Params(2, 19 * 1024, 257);
    assert 257 % 256 == 1;
    assert HashPassword(c, pepper, p, Some(salt), password).Returns?;
    HashVerifies(c, pepper, p, salt, password);
  }

  /**
   The same for whatever the environment sets: every value is accepted at start-up, wrapped to 32 bits, and the
   stored hash can be verified exactly when the wrapped parallelism fits in a byte.
   */
  lemma ConfiguredHashVerifies(
      c: Crypto, pepper: Bytes, iter: Option<int>, mem: Option<int>, par: Option<int>, salt: Bytes, password: Bytes)
    requires Sound(c) && HashPassword(c, pepper, ArgonParams(iter, mem, par), Some(salt), password).Returns?
    ensures var hash := HashPassword(c, pepper, ArgonParams(iter, mem, par), Some(salt), password).value;
            VerifyPassword(c, pepper, password, hash) == Returns(true)
            <==> par.None? || par.value < 1 || par.value % TWO_32 <= 255
  {
    HashVerifies(c, pepper, ArgonParams(iter, mem, par), salt, password);
  }
}
