/** The constant-time comparison that the password and the SAML code both use. */
module ConstantTime {
  import opened Prelude

  lemma Accumulate(r: bv8, x: bv8, y: bv8)
    ensures (r | (x ^ y)) == 0 <==> r == 0 && x == y
  {
  }

  /** Or-ing up the differences yields zero exactly when the slices are equal. */
  method ConstantTimeEqual(a: Bytes, b: Bytes) returns (equal: bool)
    ensures equal <==> a == b
  {
    if |a| != |b| {
      return false;
    }
    var result: bv8 := 0;
    for i := 0 to |a|
      invariant result == 0 <==> a[..i] == b[..i]
    {
      Accumulate(result, a[i], b[i]);
      assert a[..i + 1] == a[..i] + [a[i]] && b[..i + 1] == b[..i] + [b[i]];
      result := result | (a[i] ^ b[i]);
    }
    assert a[..|a|] == a && b[..|b|] == b;
    return result == 0;
  }
}
