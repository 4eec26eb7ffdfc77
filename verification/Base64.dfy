/**
 Base64 over bytes, in the two alphabets of sections 4 and 5 of RFC 4648. The bit
 expressions are those of the console's own encoder; the decoder follows the
 RFC and is its partner. Go's `base64.StdEncoding`, `base64.RawStdEncoding` and
 the console's `base64UrlEncode` are three instances of the same pair.
 */
module Base64 {
  import opened Prelude

  datatype Variant = Std | Url

  const UPPER := "ABCDEFGHIJKLMNOPQRSTUVWXYZ"
  const LOWER := "abcdefghijklmnopqrstuvwxyz"
  const DIGITS := "0123456789"

  function Alphabet(v: Variant): string {
    UPPER + LOWER + DIGITS + (if v == Std then "+/" else "-_")
  }

  // ----- Single characters

  /** The decoder's view of one character: its six-bit value, or nothing. */
  function ValueAt(v: Variant, c: char): Option<int> {
    if 'A' <= c <= 'Z' then Some(c as int - 65)
    else if 'a' <= c <= 'z' then Some(c as int - 71)
    else if '0' <= c <= '9' then Some(c as int + 4)
    else if c == (if v == Std then '+' else '-') then Some(62)
    else if c == (if v == Std then '/' else '_') then Some(63)
    else None
  }

  /** `chars[x]` in the encoder; `CharIsInAlphabet` ties it to the table. */
  function CharOf(v: Variant, x: bv8): (c: char)
    requires x < 64
    ensures ValueAt(v, c) == Some(x as int)
  {
    assert x as int < 64;
    var n := x as int;
    if n < 26 then (n + 65) as char
    else if n < 52 then (n + 71) as char
    else if n < 62 then (n - 4) as char
    else if v == Std then (if n == 62 then '+' else '/')
    else (if n == 62 then '-' else '_')
  }

  lemma UpperIs(n: int)
    requires 0 <= n < 26
    ensures |UPPER| == 26 && UPPER[n] as int == n + 65
  {
  }

  lemma LowerIs(n: int)
    requires 0 <= n < 26
    ensures |LOWER| == 26 && LOWER[n] as int == n + 97
  {
  }

  lemma DigitsIs(n: int)
    requires 0 <= n < 10
    ensures |DIGITS| == 10 && DIGITS[n] as int == n + 48
  {
  }

  /** The sixty-four characters are the table's, in the table's order. */
  lemma CharIsInAlphabet(v: Variant, x: bv8)
    requires x < 64
    ensures |Alphabet(v)| == 64 && Alphabet(v)[x as int] == CharOf(v, x)
  {
    assert x as int < 64;
    var n := x as int;
    if n < 26 {
      UpperIs(n);
    } else if n < 52 {
      LowerIs(n - 26);
    } else if n < 62 {
      DigitsIs(n - 52);
    }
  }

  function Sextet(v: Variant, c: char): Option<bv8> {
    match ValueAt(v, c)
    case Some(n) => Some(n as bv8)
    case None => None
  }

  lemma SextetCharOf(v: Variant, x: bv8)
    requires x < 64
    ensures Sextet(v, CharOf(v, x)) == Some(x)
  {
    assert (x as int) as bv8 == x;
  }

  // ----- Encoding

  function First(b1: bv8): (x: bv8) ensures x < 64 { b1 >> 2 }

  function Second(b1: bv8, b2: bv8): (x: bv8) ensures x < 64 { ((b1 & 0x03) << 4) | (b2 >> 4) }

  function Third(b2: bv8, b3: bv8): (x: bv8) ensures x < 64 { ((b2 & 0x0f) << 2) | (b3 >> 6) }

  function Fourth(b3: bv8): (x: bv8) ensures x < 64 { b3 & 0x3f }

  /** The six-bit groups of a byte sequence, the last one filled up with zero bits. */
  function Sextets(bs: Bytes): (xs: Bytes)
    ensures forall i | 0 <= i < |xs| :: xs[i] < 64
  {
    if |bs| == 0 then []
    else if |bs| == 1 then [First(bs[0]), Second(bs[0], 0)]
    else if |bs| == 2 then [First(bs[0]), Second(bs[0], bs[1]), Third(bs[1], 0)]
    else [First(bs[0]), Second(bs[0], bs[1]), Third(bs[1], bs[2]), Fourth(bs[2])] + Sextets(bs[3..])
  }

  function Chars(v: Variant, xs: Bytes): (s: string)
    requires forall i | 0 <= i < |xs| :: xs[i] < 64
    ensures |s| == |xs|
  {
    if xs == [] then "" else [CharOf(v, xs[0])] + Chars(v, xs[1..])
  }

  /** Unpadded base64. */
  function Encode(v: Variant, bs: Bytes): string {
    Chars(v, Sextets(bs))
  }

  function Padding(n: nat): string {
    if n % 3 == 1 then "==" else if n % 3 == 2 then "=" else ""
  }

  /** Padded base64, as Go's `base64.StdEncoding` writes it. */
  function EncodePadded(v: Variant, bs: Bytes): string {
    Encode(v, bs) + Padding(|bs|)
  }

  // ----- Decoding

  function Byte1(x1: bv8, x2: bv8): bv8 { (x1 << 2) | (x2 >> 4) }

  function Byte2(x2: bv8, x3: bv8): bv8 { ((x2 & 0x0f) << 4) | (x3 >> 2) }

  function Byte3(x3: bv8, x4: bv8): bv8 { ((x3 & 0x03) << 6) | x4 }

  function Values(v: Variant, s: string): Option<Bytes> {
    if s == "" then Some([])
    else
      match (Sextet(v, s[0]), Values(v, s[1..]))
      case (Some(x), Some(xs)) => Some([x] + xs)
      case _ => None
  }

  function Unsextets(xs: Bytes): Option<Bytes> {
    if |xs| == 0 then Some([])
    else if |xs| == 1 then None
    else if |xs| == 2 then Some([Byte1(xs[0], xs[1])])
    else if |xs| == 3 then Some([Byte1(xs[0], xs[1]), Byte2(xs[1], xs[2])])
    else
      match Unsextets(xs[4..])
      case Some(rest) => Some([Byte1(xs[0], xs[1]), Byte2(xs[1], xs[2]), Byte3(xs[2], xs[3])] + rest)
      case None => None
  }

  function Decode(v: Variant, s: string): Option<Bytes> {
    match Values(v, s)
    case Some(xs) => Unsextets(xs)
    case None => None
  }

  /** Go's padded decoder: whole groups of four, at most two trailing pad characters. */
  function DecodePadded(v: Variant, s: string): Option<Bytes> {
    if |s| % 4 != 0 then None else Decode(v, WithoutPadding(s))
  }

  function WithoutPadding(s: string): string {
    if s == "" || s[|s| - 1] != '=' then s
    else if |s| == 1 || s[|s| - 2] != '=' then s[..|s| - 1]
    else s[..|s| - 2]
  }

  /** Go's decoders skip line breaks wherever they stand. */
  function WithoutLineBreaks(s: string): string {
    if s == "" then ""
    else (if s[0] == '\n' || s[0] == '\r' then "" else [s[0]]) + WithoutLineBreaks(s[1..])
  }

  /** `base64.StdEncoding.DecodeString` */
  function GoDecodePadded(s: string): Option<Bytes> {
    DecodePadded(Std, WithoutLineBreaks(s))
  }

  /** `base64.RawStdEncoding.DecodeString` */
  function GoDecodeRaw(s: string): Option<Bytes> {
    Decode(Std, WithoutLineBreaks(s))
  }

  // ----- Laws

  lemma GroupBits(b1: bv8, b2: bv8, b3: bv8)
    ensures Byte1(First(b1), Second(b1, b2)) == b1
    ensures Byte2(Second(b1, b2), Third(b2, b3)) == b2
    ensures Byte3(Third(b2, b3), Fourth(b3)) == b3
  {
  }

  lemma {:induction false} UnsextetsSextets(bs: Bytes)
    ensures Unsextets(Sextets(bs)) == Some(bs)
  {
    if |bs| == 0 {
    } else if |bs| == 1 {
      GroupBits(bs[0], 0, 0);
      assert bs == [bs[0]];
    } else if |bs| == 2 {
      GroupBits(bs[0], bs[1], 0);
      assert bs == [bs[0], bs[1]];
    } else {
      UnsextetsSextets(bs[3..]);
      GroupBits(bs[0], bs[1], bs[2]);
      assert Sextets(bs)[4..] == Sextets(bs[3..]);
      assert bs == [bs[0], bs[1], bs[2]] + bs[3..];
    }
  }

  lemma {:induction false} SextetsLength(bs: Bytes)
    ensures |Sextets(bs)| == (4 * |bs| + 2) / 3
  {
    if |bs| >= 3 {
      SextetsLength(bs[3..]);
    }
  }

  lemma {:induction false} ValuesChars(v: Variant, xs: Bytes)
    requires forall i | 0 <= i < |xs| :: xs[i] < 64
    ensures Values(v, Chars(v, xs)) == Some(xs)
    ensures forall c | c in Chars(v, xs) :: ValueAt(v, c).Some?
  {
    if xs != [] {
      SextetCharOf(v, xs[0]);
      ValuesChars(v, xs[1..]);
      assert Chars(v, xs)[1..] == Chars(v, xs[1..]);
      assert xs == [xs[0]] + xs[1..];
    }
  }

  /** Decoding inverts encoding on every byte sequence. */
  lemma RoundTrip(v: Variant, bs: Bytes)
    ensures Decode(v, Encode(v, bs)) == Some(bs)
  {
    ValuesChars(v, Sextets(bs));
    UnsextetsSextets(bs);
  }

  /** Distinct byte sequences never share an encoding. */
  lemma Injective(v: Variant, a: Bytes, b: Bytes)
    ensures Encode(v, a) == Encode(v, b) ==> a == b
  {
    RoundTrip(v, a);
    RoundTrip(v, b);
  }

  /** The output length is floor((4n+2)/3), and every character is one of the alphabet's. */
  lemma Shape(v: Variant, bs: Bytes)
    ensures |Encode(v, bs)| == (4 * |bs| + 2) / 3
    ensures forall c | c in Encode(v, bs) :: ValueAt(v, c).Some?
  {
    ValuesChars(v, Sextets(bs));
    SextetsLength(bs);
  }

  lemma {:induction false} LineBreaksAbsent(s: string)
    requires '\n' !in s && '\r' !in s
    ensures WithoutLineBreaks(s) == s
  {
    if s != "" {
      LineBreaksAbsent(s[1..]);
      assert s == [s[0]] + s[1..];
    }
  }

  lemma PaddingIsCut(e: string, p: string)
    requires p == "" || p == "=" || p == "=="
    requires '=' !in e
    ensures WithoutPadding(e + p) == e
  {
    assert (e + p)[..|e|] == e;
    if e != "" {
      assert (e + p)[|e| - 1] == e[|e| - 1];
    }
  }

  lemma PaddedLength(n: nat)
    ensures ((4 * n + 2) / 3 + |Padding(n)|) % 4 == 0
  {
    var q, r := n / 3, n % 3;
    assert n == 3 * q + r;
    assert (4 * n + 2) / 3 == 4 * q + (4 * r + 2) / 3;
  }

  lemma PaddedRoundTrip(v: Variant, bs: Bytes)
    ensures DecodePadded(v, EncodePadded(v, bs)) == Some(bs)
  {
    RoundTrip(v, bs);
    Shape(v, bs);
    PaddedLength(|bs|);
    PaddingIsCut(Encode(v, bs), Padding(|bs|));
  }

  /** What Go writes with either of its standard encodings it reads back. */
  lemma GoRoundTrip(bs: Bytes)
    ensures GoDecodePadded(EncodePadded(Std, bs)) == Some(bs)
    ensures GoDecodeRaw(Encode(Std, bs)) == Some(bs)
  {
    Shape(Std, bs);
    assert '\n' !in Encode(Std, bs) && '\r' !in Encode(Std, bs);
    LineBreaksAbsent(Encode(Std, bs));
    LineBreaksAbsent(EncodePadded(Std, bs));
    RoundTrip(Std, bs);
    PaddedRoundTrip(Std, bs);
  }

  /** No character outside the alphabet and the pad ever appears. */
  lemma Absent(bs: Bytes, c: char)
    requires ValueAt(Std, c).None? && c != '='
    ensures c !in Encode(Std, bs) && c !in EncodePadded(Std, bs)
  {
    Shape(Std, bs);
  }

  // ----- What Go's decoders accept

  predicate InAlphabet(v: Variant, s: string) {
    forall i | 0 <= i < |s| :: ValueAt(v, s[i]).Some?
  }

  lemma {:induction false} ValuesIff(v: Variant, s: string)
    ensures Values(v, s).Some? <==> InAlphabet(v, s)
    ensures Values(v, s).Some? ==> |Values(v, s).value| == |s|
  {
    if s != "" {
      ValuesIff(v, s[1..]);
      assert s == [s[0]] + s[1..];
    }
  }

  lemma {:induction false} UnsextetsIff(xs: Bytes)
    ensures Unsextets(xs).Some? <==> |xs| % 4 != 1
  {
    if |xs| >= 4 {
      UnsextetsIff(xs[4..]);
      assert |xs| == |xs[4..]| + 4;
    }
  }

  lemma DecodesIff(v: Variant, s: string)
    ensures Decode(v, s).Some? <==> InAlphabet(v, s) && |s| % 4 != 1
  {
    ValuesIff(v, s);
    if Values(v, s).Some? {
      UnsextetsIff(Values(v, s).value);
    }
  }

  /** Unpadded text is accepted iff, line breaks aside, its characters are the alphabet's and none is left over alone. */
  lemma RawDecodesIff(s: string)
    ensures var t := WithoutLineBreaks(s); GoDecodeRaw(s).Some? <==> InAlphabet(Std, t) && |t| % 4 != 1
  {
    DecodesIff(Std, WithoutLineBreaks(s));
  }

  /** The text is `body` and then none, one or two pads. */
  predicate PaddedWith(t: string, body: string, pads: string) {
    t == body + pads && (pads == "" || pads == "=" || pads == "==")
  }

  lemma PadIsForeign(v: Variant, s: string)
    requires InAlphabet(v, s) && s != ""
    ensures s[|s| - 1] != '='
  {
    assert ValueAt(v, s[|s| - 1]).Some?;
  }

  lemma PaddingSplits(t: string) returns (pads: string)
    ensures PaddedWith(t, WithoutPadding(t), pads)
  {
    pads := t[|WithoutPadding(t)|..];
    assert t == WithoutPadding(t) + pads;
  }

  lemma PaddingIsUnique(t: string, body: string, pads: string)
    requires PaddedWith(t, body, pads) && InAlphabet(Std, body)
    ensures WithoutPadding(t) == body
  {
    if body != "" {
      PadIsForeign(Std, body);
    }
    PaddingIsCut(body, pads);
  }

  /** Padded text is accepted iff, line breaks aside, it is whole groups of four: characters of the alphabet, then at most two pads. */
  lemma PaddedDecodesIff(s: string)
    ensures var t := WithoutLineBreaks(s);
            GoDecodePadded(s).Some? <==> |t| % 4 == 0 && exists body, pads :: PaddedWith(t, body, pads) && InAlphabet(Std, body)
  {
    var t := WithoutLineBreaks(s);
    GroupsIff(t);
    if |t| % 4 == 0 {
      LeftOver(t);
    }
    DecodesIff(Std, WithoutPadding(t));
  }

  lemma LeftOver(t: string)
    requires |t| % 4 == 0
    ensures |WithoutPadding(t)| % 4 != 1
  {
  }

  lemma GroupsIff(t: string)
    ensures InAlphabet(Std, WithoutPadding(t)) <==> exists body, pads :: PaddedWith(t, body, pads) && InAlphabet(Std, body)
  {
    var pads := PaddingSplits(t);
    if body, pads :| PaddedWith(t, body, pads) && InAlphabet(Std, body) {
      PaddingIsUnique(t, body, pads);
    }
  }

  lemma {:induction false} BreakVanishes(a: string, c: char, b: string)
    requires c == '\n' || c == '\r'
    ensures WithoutLineBreaks(a + ([c] + b)) == WithoutLineBreaks(a + b)
  {
    if a == "" {
      assert a + ([c] + b) == [c] + b && a + b == b;
      assert ([c] + b)[1..] == b;
    } else {
      assert (a + ([c] + b))[1..] == a[1..] + ([c] + b);
      assert (a + b)[1..] == a[1..] + b;
      BreakVanishes(a[1..], c, b);
    }
  }

  /** A line break anywhere changes nothing. */
  lemma BreaksDoNotCount(a: string, c: char, b: string)
    requires c == '\n' || c == '\r'
    ensures GoDecodePadded(a + ([c] + b)) == GoDecodePadded(a + b) && GoDecodeRaw(a + ([c] + b)) == GoDecodeRaw(a + b)
  {
    BreakVanishes(a, c, b);
  }
}
