/**
 The console's PKCE helpers (RFC 7636): a hand-written base64url encoder and the
 verifier built from it.
 */
module Pkce {
  import opened Prelude
  import opened Base64

  predicate Small(xs: Bytes) {
    forall i | 0 <= i < |xs| :: xs[i] < 64
  }

  lemma {:induction false} CharsSnoc(v: Variant, xs: Bytes, x: bv8)
    requires Small(xs) && x < 64
    ensures Small(xs + [x]) && Chars(v, xs + [x]) == Chars(v, xs) + [CharOf(v, x)]
  {
    if xs == [] {
      assert xs + [x] == [x];
    } else {
      assert (xs + [x])[1..] == xs[1..] + [x];
      CharsSnoc(v, xs[1..], x);
    }
  }

  /** Appending encoded values one by one. */
  lemma CharsTwo(v: Variant, xs: Bytes, x1: bv8, x2: bv8)
    requires Small(xs) && x1 < 64 && x2 < 64
    ensures Small(xs + [x1, x2]) && Chars(v, xs + [x1, x2]) == Chars(v, xs) + [CharOf(v, x1), CharOf(v, x2)]
  {
    CharsSnoc(v, xs, x1);
    CharsSnoc(v, xs + [x1], x2);
    assert xs + [x1] + [x2] == xs + [x1, x2];
  }

  lemma CharsThree(v: Variant, xs: Bytes, x1: bv8, x2: bv8, x3: bv8)
    requires Small(xs) && x1 < 64 && x2 < 64 && x3 < 64
    ensures Small(xs + [x1, x2, x3])
    ensures Chars(v, xs + [x1, x2, x3]) == Chars(v, xs) + [CharOf(v, x1), CharOf(v, x2), CharOf(v, x3)]
  {
    CharsTwo(v, xs, x1, x2);
    CharsSnoc(v, xs + [x1, x2], x3);
    assert xs + [x1, x2] + [x3] == xs + [x1, x2, x3];
  }

  lemma CharsFour(v: Variant, xs: Bytes, x1: bv8, x2: bv8, x3: bv8, x4: bv8)
    requires Small(xs) && x1 < 64 && x2 < 64 && x3 < 64 && x4 < 64
    ensures Small(xs + [x1, x2, x3, x4])
    ensures Chars(v, xs + [x1, x2, x3, x4])
            == Chars(v, xs) + [CharOf(v, x1), CharOf(v, x2), CharOf(v, x3), CharOf(v, x4)]
  {
    CharsThree(v, xs, x1, x2, x3);
    CharsSnoc(v, xs + [x1, x2, x3], x4);
    assert xs + [x1, x2, x3] + [x4] == xs + [x1, x2, x3, x4];
  }

  /** `replace(/=+$/g, "")` */
  function WithoutTrailingPads(s: string): string {
    if s != "" && s[|s| - 1] == '=' then WithoutTrailingPads(s[..|s| - 1]) else s
  }

  lemma {:induction false} PadsAreCut(e: string, p: string)
    requires '=' !in e && forall i | 0 <= i < |p| :: p[i] == '='
    ensures WithoutTrailingPads(e + p) == e
  {
    if p == "" {
      assert e + p == e;
    } else {
      assert (e + p)[..|e + p| - 1] == e + p[..|p| - 1];
      PadsAreCut(e, p[..|p| - 1]);
    }
  }

  // ----- The encoder

  /** The four characters one turn of the loop appends for the bytes from `i` on. */
  function Appended(bytes: Bytes, i: nat): string
    requires i < |bytes|
  {
    var b1 := bytes[i];
    var b2 := if i + 1 < |bytes| then bytes[i + 1] else 0;
    var b3 := if i + 2 < |bytes| then bytes[i + 2] else 0;
    [CharOf(Url, First(b1)),
     CharOf(Url, Second(b1, b2)),
     if i + 1 < |bytes| then CharOf(Url, Third(b2, b3)) else '=',
     if i + 2 < |bytes| then CharOf(Url, Fourth(b3)) else '=']
  }

  /** Before byte `i` the result holds the sextets `xs`, then pads once the input has run out. */
  ghost predicate Progress(bytes: Bytes, i: nat, xs: Bytes, pads: string, result: string) {
    && Small(xs)
    && result == Chars(Url, xs) + pads
    && if i <= |bytes| then pads == "" && xs + Sextets(bytes[i..]) == Sextets(bytes)
       else (pads == "=" || pads == "==") && xs == Sextets(bytes)
  }

  lemma WholeGroup(bytes: Bytes, i: nat, xs: Bytes, result: string) returns (next: Bytes)
    requires i + 3 <= |bytes| && Progress(bytes, i, xs, "", result)
    ensures Progress(bytes, i + 3, next, "", result + Appended(bytes, i))
  {
    var bs := bytes[i..];
    assert bs[3..] == bytes[i + 3..];
    var x1, x2, x3, x4 := First(bs[0]), Second(bs[0], bs[1]), Third(bs[1], bs[2]), Fourth(bs[2]);
    CharsFour(Url, xs, x1, x2, x3, x4);
    next := xs + [x1, x2, x3, x4];
    assert next + Sextets(bs[3..]) == xs + ([x1, x2, x3, x4] + Sextets(bs[3..]));
  }

  lemma LastGroup(bytes: Bytes, i: nat, xs: Bytes, result: string) returns (next: Bytes, pads: string)
    requires i < |bytes| < i + 3 && Progress(bytes, i, xs, "", result)
    ensures Progress(bytes, i + 3, next, pads, result + Appended(bytes, i))
  {
    var bs := bytes[i..];
    next := xs + Sextets(bs);
    if |bs| == 2 {
      CharsThree(Url, xs, First(bs[0]), Second(bs[0], bs[1]), Third(bs[1], 0));
      pads := "=";
    } else {
      CharsTwo(Url, xs, First(bs[0]), Second(bs[0], 0));
      pads := "==";
    }
  }

  lemma Finish(bytes: Bytes, i: nat, xs: Bytes, pads: string, result: string)
    requires |bytes| <= i && Progress(bytes, i, xs, pads, result)
    ensures WithoutTrailingPads(result) == Encode(Url, bytes)
  {
    if i == |bytes| {
      assert xs + Sextets(bytes[i..]) == xs;
    }
    ValuesChars(Url, xs);
    PadsAreCut(Chars(Url, xs), pads);
  }

  /** One turn of the loop. */
  method AppendGroup(bytes: Bytes, i: nat, result: string) returns (r: string)
    requires i < |bytes|
    ensures r == result + Appended(bytes, i)
  {
    var b1 := bytes[i];
    var b2 := if i + 1 < |bytes| then bytes[i + 1] else 0;
    var b3 := if i + 2 < |bytes| then bytes[i + 2] else 0;
    r := result + [CharOf(Url, First(b1))];
    r := r + [CharOf(Url, Second(b1, b2))];
    r := r + [if i + 1 < |bytes| then CharOf(Url, Third(b2, b3)) else '='];
    r := r + [if i + 2 < |bytes| then CharOf(Url, Fourth(b3)) else '='];
  }

  /** The result is unpadded base64url, so `Base64.RoundTrip` and `Base64.Injective` apply to it. */
  method Base64UrlEncode(bytes: Bytes) returns (result: string)
    ensures result == Encode(Url, bytes)
  {
    result := "";
    var i := 0;
    ghost var xs: Bytes, pads := [], "";
    while i < |bytes|
      invariant 0 <= i && Progress(bytes, i, xs, pads, result)
    {
      if i + 3 <= |bytes| {
        xs := WholeGroup(bytes, i, xs, result);
      } else {
        xs, pads := LastGroup(bytes, i, xs, result);
      }
      result := AppendGroup(bytes, i, result);
      i := i + 3;
    }
    Finish(bytes, i, xs, pads, result);
    result := WithoutTrailingPads(result);
  }

  /** The unreserved characters of section 4.1 of RFC 7636. */
  predicate Unreserved(c: char) {
    'A' <= c <= 'Z' || 'a' <= c <= 'z' || '0' <= c <= '9' || c in "-._~"
  }

  /** Every verifier is 43 unreserved characters, and different random bytes give different verifiers. */
  method GenerateCodeVerifier(random: Bytes) returns (verifier: string)
    requires |random| == 32
    ensures |verifier| == 43
    ensures forall i | 0 <= i < |verifier| :: Unreserved(verifier[i])
    ensures Decode(Url, verifier) == Some(random)
  {
    verifier := Base64UrlEncode(random);
    RoundTrip(Url, random);
    Shape(Url, random);
    forall i | 0 <= i < |verifier|
      ensures Unreserved(verifier[i])
    {
      assert verifier[i] in Encode(Url, random);
    }
  }
}
