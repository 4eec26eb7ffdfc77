/** What decrypting after encrypting gives back, for every visiting order and every failure. */
module RecordLaws {
  import opened Prelude
  import opened Records
  import Env = Envelope

  lemma MarkerOf(key: string)
    ensures IsMarker(Marker(key)) && Marker(key)[|PREFIX|..] == key
    ensures IsMarker(key) ==> Marker(key[|PREFIX|..]) == key
  {
  }

  predicate NoMarkers(keys: set<string>) {
    forall k | k in keys :: !IsMarker(k)
  }

  /** The columns registered for `table` do not look like markers. */
  predicate PlainColumns(cfgs: seq<Config>, table: string) {
    forall i | 0 <= i < |cfgs| && cfgs[i].table == table :: !IsMarker(cfgs[i].column)
  }

  // ----- One field

  /** The field `k` of `enc` holds what decrypts to `v`, or `v` itself when it carries no marker. */
  ghost predicate Opens(p: Provider, enc: Fields, k: string, v: Value) {
    && k in enc
    && if Marker(k) in enc
       then enc[Marker(k)] == Bool(true) && enc[k].Str? && v.Str? && p.decrypt(enc[k].text) == Ok(v.text)
       else enc[k] == v
  }

  /** Following the markers of `enc` gives `out`. */
  ghost predicate OpensTo(p: Provider, enc: Fields, out: Fields) {
    && NoMarkers(out.Keys)
    && (forall k | k in out :: Opens(p, enc, k, out[k]))
    && (forall k | k in enc :: k in out || (IsMarker(k) && k[|PREFIX|..] in out))
  }

  lemma SealOpens(p: Provider, enc: Fields, out: Fields, col: string, t: Bytes, c: Bytes)
    requires OpensTo(p, enc, out) && col in enc && !IsMarker(col) && p.decrypt(c) == Ok(t)
    ensures OpensTo(p, Seal(enc, col, c), out[col := Str(t)])
  {
    MarkerOf(col);
    var enc', out' := Seal(enc, col, c), out[col := Str(t)];
    forall k | k in out'
      ensures Opens(p, enc', k, out'[k])
    {
      MarkerOf(k);
      if k != col {
        assert Opens(p, enc, k, out[k]);
      }
    }
  }

  lemma OpenOpens(p: Provider, enc: Fields, out: Fields, key: string)
    requires OpensTo(p, enc, out) && key in enc
    ensures OpensTo(p, DecryptOne(p, enc, key), out)
    ensures DecryptOne(p, enc, key).Keys == if IsMarker(key) then enc.Keys - {key} else enc.Keys
  {
    MarkerOf(key);
    if IsMarker(key) {
      var field := key[|PREFIX|..];
      assert Opens(p, enc, field, out[field]);
      var enc' := DecryptOne(p, enc, key);
      assert enc' == enc[field := out[field]] - {key};
      forall k | k in out
        ensures Opens(p, enc', k, out[k])
      {
        MarkerOf(k);
        assert Opens(p, enc, k, out[k]);
      }
    }
  }

  // ----- Whole passes

  /** The record with the last layer of encryption taken off again: `out` carries what each call was given. */
  function Peeled(p: Provider, tenant: string, table: string, cfgs: seq<Config>, rec: Fields, out: Fields, n: nat): Fields {
    if cfgs == [] then out
    else if !Active(table, cfgs[0], rec) then Peeled(p, tenant, table, cfgs[1..], rec, out, n)
    else
      var col := cfgs[0].column;
      var t := Plaintext(rec[col]).value;
      match p.encrypt(n, tenant, t)
      case Err(e) => out
      case Ok(c) => Peeled(p, tenant, table, cfgs[1..], Seal(rec, col, c), out[col := Str(t)], n + 1)
  }

  lemma {:induction false} EncryptOpens(
      p: Provider, tenant: string, table: string, cfgs: seq<Config>, rec: Fields, out: Fields, n: nat)
    requires p.Sound() && OpensTo(p, rec, out) && PlainColumns(cfgs, table)
    ensures OpensTo(p, Encrypt(p, tenant, table, cfgs, rec, n).0, Peeled(p, tenant, table, cfgs, rec, out, n))
  {
    if cfgs != [] {
      if !Active(table, cfgs[0], rec) {
        EncryptOpens(p, tenant, table, cfgs[1..], rec, out, n);
      } else {
        var col := cfgs[0].column;
        var t := Plaintext(rec[col]).value;
        var c := p.encrypt(n, tenant, t);
        if c.Ok? {
          SealOpens(p, rec, out, col, t, c.value);
          EncryptOpens(p, tenant, table, cfgs[1..], Seal(rec, col, c.value), out[col := Str(t)], n + 1);
        }
      }
    }
  }

  lemma {:induction false} DecryptOpens(p: Provider, keys: seq<string>, enc: Fields, out: Fields)
    requires OpensTo(p, enc, out) && forall k | k in enc && IsMarker(k) :: k in keys
    ensures Decrypt(p, keys, enc) == out
  {
    if keys == [] {
      forall k | k in out
        ensures k in enc && enc[k] == out[k]
      {
        MarkerOf(k);
        assert Opens(p, enc, k, out[k]);
      }
      assert enc.Keys == out.Keys;
    } else {
      var next := if keys[0] in enc then DecryptOne(p, enc, keys[0]) else enc;
      if keys[0] in enc {
        OpenOpens(p, enc, out, keys[0]);
      }
      assert forall k | k in keys :: k == keys[0] || k in keys[1..];
      DecryptOpens(p, keys[1..], next, out);
    }
  }

  /**
   For every registry and every point at which encryption may have stopped, decryption in any order takes
   off exactly the last layer.
   */
  lemma DecryptTakesOffLastLayer(
      p: Provider, tenant: string, table: string, cfgs: seq<Config>, rec: Fields, n: nat, keys: seq<string>)
    requires p.Sound() && NoMarkers(rec.Keys) && PlainColumns(cfgs, table)
    requires IsOrder(keys, Encrypt(p, tenant, table, cfgs, rec, n).0)
    ensures Decrypt(p, keys, Encrypt(p, tenant, table, cfgs, rec, n).0) == Peeled(p, tenant, table, cfgs, rec, rec, n)
  {
    var enc := Encrypt(p, tenant, table, cfgs, rec, n).0;
    forall k | k in rec
      ensures Opens(p, rec, k, rec[k])
    {
      MarkerOf(k);
    }
    EncryptOpens(p, tenant, table, cfgs, rec, rec, n);
    assert forall k | k in enc :: k in Elements(keys);
    DecryptOpens(p, keys, enc, Peeled(p, tenant, table, cfgs, rec, rec, n));
  }

  // ----- How many layers

  /** How often a column is registered for a table. */
  function Registrations(cfgs: seq<Config>, table: string, column: string): nat {
    if cfgs == [] then 0
    else (if cfgs[0].table == table && cfgs[0].column == column then 1 else 0) + Registrations(cfgs[1..], table, column)
  }

  lemma {:induction false} RegistrationsZero(cfgs: seq<Config>, table: string, column: string)
    ensures Registrations(cfgs, table, column) == 0 <==> !Registered(cfgs, table, column)
  {
    if cfgs != [] {
      RegistrationsZero(cfgs[1..], table, column);
      assert cfgs == [cfgs[0]] + cfgs[1..];
      if Registered(cfgs[1..], table, column) {
        var i :| 0 <= i < |cfgs| - 1 && cfgs[1..][i].table == table && cfgs[1..][i].column == column;
        assert cfgs[i + 1].table == table && cfgs[i + 1].column == column;
      }
      if Registered(cfgs, table, column) && !(cfgs[0].table == table && cfgs[0].column == column) {
        var i :| 0 <= i < |cfgs| && cfgs[i].table == table && cfgs[i].column == column;
        assert cfgs[1..][i - 1] == cfgs[i];
      }
    }
  }

  /** Fields that will be encrypted are registered at most once, and are still as they were. */
  predicate Fresh(cfgs: seq<Config>, table: string, rec: Fields, out: Fields) {
    forall k | k in rec && Plaintext(rec[k]).Some? && !IsMarker(k) && Registrations(cfgs, table, k) > 0 ::
      Registrations(cfgs, table, k) == 1 && k in out && rec[k] == out[k]
  }

  /** `v` is `u`, or `u` as the text that was encrypted for it. */
  predicate SameText(u: Value, v: Value) {
    u == v || (Plaintext(u).Some? && v == Str(Plaintext(u).value))
  }

  /** Registered at most once, every field comes back as itself or as its own text. */
  lemma {:induction false} PeeledKeepsText(
      p: Provider, tenant: string, table: string, cfgs: seq<Config>, rec: Fields, out: Fields, n: nat)
    requires PlainColumns(cfgs, table) && Fresh(cfgs, table, rec, out)
    ensures var r := Peeled(p, tenant, table, cfgs, rec, out, n);
            r.Keys == out.Keys && forall k | k in out :: SameText(out[k], r[k])
  {
    if cfgs != [] {
      var rest := cfgs[1..];
      if !Active(table, cfgs[0], rec) {
        PeeledKeepsText(p, tenant, table, rest, rec, out, n);
      } else {
        var col := cfgs[0].column;
        var t := Plaintext(rec[col]).value;
        var c := p.encrypt(n, tenant, t);
        assert Registrations(cfgs, table, col) == 1 + Registrations(rest, table, col);
        if c.Ok? {
          MarkerOf(col);
          assert out[col] == rec[col];
          PeeledKeepsText(p, tenant, table, rest, Seal(rec, col, c.value), out[col := Str(t)], n + 1);
          StaysPut(p, tenant, table, rest, Seal(rec, col, c.value), out[col := Str(t)], n + 1, col);
        }
      }
    }
  }

  lemma {:induction false} StaysPut(
      p: Provider, tenant: string, table: string, cfgs: seq<Config>, rec: Fields, out: Fields, n: nat, col: string)
    requires Registrations(cfgs, table, col) == 0 && col in out
    ensures var r := Peeled(p, tenant, table, cfgs, rec, out, n); col in r && r[col] == out[col]
  {
    if cfgs != [] {
      var c0 := cfgs[0].column;
      if !Active(table, cfgs[0], rec) {
        StaysPut(p, tenant, table, cfgs[1..], rec, out, n, col);
      } else {
        var t := Plaintext(rec[c0]).value;
        var c := p.encrypt(n, tenant, t);
        if c.Ok? {
          StaysPut(p, tenant, table, cfgs[1..], Seal(rec, c0, c.value), out[c0 := Str(t)], n + 1, col);
        }
      }
    }
  }

  /** A second layer shows: taking one off leaves a text longer than `len`. */
  lemma {:induction false} LayersGrow(
      p: Provider, tenant: string, table: string, cfgs: seq<Config>, rec: Fields, out: Fields, n: nat, col: string, len: nat)
    requires p.Sound() && PlainColumns(cfgs, table) && !IsMarker(col)
    requires col in rec && rec[col].Str? && |rec[col].text| >= len
    requires Encrypt(p, tenant, table, cfgs, rec, n).1.None?
    requires var k := Registrations(cfgs, table, col);
             || k >= 2
             || (|rec[col].text| > len && (k >= 1 || (col in out && out[col].Str? && |out[col].text| > len)))
    ensures var r := Peeled(p, tenant, table, cfgs, rec, out, n); col in r && r[col].Str? && |r[col].text| > len
  {
    if cfgs != [] {
      if !Active(table, cfgs[0], rec) {
        LayersGrow(p, tenant, table, cfgs[1..], rec, out, n, col, len);
      } else {
        var c0 := cfgs[0].column;
        var t := Plaintext(rec[c0]).value;
        var c := p.encrypt(n, tenant, t);
        MarkerOf(c0);
        LayersGrow(p, tenant, table, cfgs[1..], Seal(rec, c0, c.value), out[c0 := Str(t)], n + 1, col, len);
      }
    }
  }

  // ----- The laws

  predicate TextOrNil(rec: Fields) {
    forall k | k in rec :: rec[k].Str? || rec[k].Nil?
  }

  /** No text of the record stands in a column registered twice. */
  predicate NoDoubleRegistration(cfgs: seq<Config>, table: string, rec: Fields) {
    forall k | k in rec && Plaintext(rec[k]).Some? :: Registrations(cfgs, table, k) <= 1
  }

  /**
   Decryption restores the record up to the text of values that are not strings, wherever encryption
   stopped and in whatever order the fields are visited.
   */
  lemma RecordRoundTrip(
      p: Provider, tenant: string, table: string, cfgs: seq<Config>, rec: Fields, n: nat, keys: seq<string>)
    requires p.Sound() && NoMarkers(rec.Keys) && PlainColumns(cfgs, table) && NoDoubleRegistration(cfgs, table, rec)
    requires IsOrder(keys, Encrypt(p, tenant, table, cfgs, rec, n).0)
    ensures var r := Decrypt(p, keys, Encrypt(p, tenant, table, cfgs, rec, n).0);
            && r.Keys == rec.Keys
            && (forall k | k in rec :: SameText(rec[k], r[k]))
            && (TextOrNil(rec) ==> r == rec)
  {
    DecryptTakesOffLastLayer(p, tenant, table, cfgs, rec, n, keys);
    PeeledKeepsText(p, tenant, table, cfgs, rec, rec, n);
  }

  /** Whatever was encrypted comes back as a text. */
  lemma {:induction false} PeeledIsText(
      p: Provider, tenant: string, table: string, cfgs: seq<Config>, rec: Fields, out: Fields, n: nat, k: string)
    requires PlainColumns(cfgs, table) && !IsMarker(k) && k in rec && Plaintext(rec[k]).Some?
    requires Encrypt(p, tenant, table, cfgs, rec, n).1.None?
    requires Registrations(cfgs, table, k) > 0 || (k in out && out[k].Str?)
    ensures var r := Peeled(p, tenant, table, cfgs, rec, out, n); k in r && r[k].Str?
  {
    if cfgs != [] {
      if !Active(table, cfgs[0], rec) {
        PeeledIsText(p, tenant, table, cfgs[1..], rec, out, n, k);
      } else {
        var col := cfgs[0].column;
        var t := Plaintext(rec[col]).value;
        var c := p.encrypt(n, tenant, t);
        MarkerOf(col);
        PeeledIsText(p, tenant, table, cfgs[1..], Seal(rec, col, c.value), out[col := Str(t)], n + 1, k);
      }
    }
  }

  /** Every field that will be encrypted is a text, in a column registered once. */
  predicate OnlyTextsOnce(cfgs: seq<Config>, table: string, rec: Fields) {
    forall k | k in rec && Plaintext(rec[k]).Some? && Registrations(cfgs, table, k) > 0 ::
      rec[k].Str? && Registrations(cfgs, table, k) == 1
  }

  lemma OnlyTextsOnceSuffices(
      p: Provider, tenant: string, table: string, cfgs: seq<Config>, rec: Fields, n: nat)
    requires NoMarkers(rec.Keys) && PlainColumns(cfgs, table) && OnlyTextsOnce(cfgs, table, rec)
    ensures Peeled(p, tenant, table, cfgs, rec, rec, n) == rec
  {
    var r := Peeled(p, tenant, table, cfgs, rec, rec, n);
    PeeledKeepsText(p, tenant, table, cfgs, rec, rec, n);
    forall k | k in rec
      ensures r[k] == rec[k]
    {
      if Registrations(cfgs, table, k) == 0 {
        StaysPut(p, tenant, table, cfgs, rec, rec, n, k);
      }
    }
  }

  lemma OnlyTextsOnceNeeded(
      p: Provider, tenant: string, table: string, cfgs: seq<Config>, rec: Fields, n: nat, k: string)
    requires p.Sound() && NoMarkers(rec.Keys) && PlainColumns(cfgs, table)
    requires Encrypt(p, tenant, table, cfgs, rec, n).1.None?
    requires k in rec && Plaintext(rec[k]).Some? && Registrations(cfgs, table, k) > 0
    requires !(rec[k].Str? && Registrations(cfgs, table, k) == 1)
    ensures Peeled(p, tenant, table, cfgs, rec, rec, n) != rec
  {
    if rec[k].Str? {
      LayersGrow(p, tenant, table, cfgs, rec, rec, n, k, |rec[k].text|);
    } else {
      PeeledIsText(p, tenant, table, cfgs, rec, rec, n, k);
    }
  }

  /**
   After an encryption without error any record comes back if and only if every field that was encrypted is a text
   in a column registered once.
   */
  lemma RestoredIff(
      p: Provider, tenant: string, table: string, cfgs: seq<Config>, rec: Fields, n: nat, keys: seq<string>)
    requires p.Sound() && NoMarkers(rec.Keys) && PlainColumns(cfgs, table)
    requires Encrypt(p, tenant, table, cfgs, rec, n).1.None?
    requires IsOrder(keys, Encrypt(p, tenant, table, cfgs, rec, n).0)
    ensures Decrypt(p, keys, Encrypt(p, tenant, table, cfgs, rec, n).0) == rec <==> OnlyTextsOnce(cfgs, table, rec)
  {
    DecryptTakesOffLastLayer(p, tenant, table, cfgs, rec, n, keys);
    if OnlyTextsOnce(cfgs, table, rec) {
      OnlyTextsOnceSuffices(p, tenant, table, cfgs, rec, n);
    } else {
      var k :| k in rec && Plaintext(rec[k]).Some? && Registrations(cfgs, table, k) > 0
               && !(rec[k].Str? && Registrations(cfgs, table, k) == 1);
      OnlyTextsOnceNeeded(p, tenant, table, cfgs, rec, n, k);
    }
  }

  /** An unregistered column is never changed. */
  lemma {:induction false} UnregisteredUntouched(
      p: Provider, tenant: string, table: string, cfgs: seq<Config>, rec: Fields, n: nat, k: string)
    requires !Registered(cfgs, table, k) && !IsMarker(k)
    ensures var enc := Encrypt(p, tenant, table, cfgs, rec, n).0; k in enc <==> k in rec
    ensures var enc := Encrypt(p, tenant, table, cfgs, rec, n).0; k in rec ==> enc[k] == rec[k]
  {
    if cfgs != [] {
      RegistrationsZero(cfgs, table, k);
      RegistrationsZero(cfgs[1..], table, k);
      if !Active(table, cfgs[0], rec) {
        UnregisteredUntouched(p, tenant, table, cfgs[1..], rec, n, k);
      } else {
        var col := cfgs[0].column;
        var c := p.encrypt(n, tenant, Plaintext(rec[col]).value);
        MarkerOf(col);
        if c.Ok? {
          UnregisteredUntouched(p, tenant, table, cfgs[1..], Seal(rec, col, c.value), n + 1, k);
        }
      }
    }
  }

  // ----- What is encrypted

  /** The bytes that are encrypted for a value: a text's own, `true` or `false`, or what marshalling yields. */
  predicate Written(v: Value, t: Bytes) {
    || v == Str(t)
    || v == Other(Some(t))
    || (v == Bool(true) && t == [0x74, 0x72, 0x75, 0x65])
    || (v == Bool(false) && t == [0x66, 0x61, 0x6c, 0x73, 0x65])
  }

  /** A value that is left out: none at all, or one that cannot be marshalled. */
  predicate Skipped(v: Value) {
    v == Nil || v == Other(None)
  }

  lemma WrittenIff(v: Value, t: Bytes)
    ensures Written(v, t) <==> Plaintext(v) == Some(t)
    ensures Skipped(v) <==> Plaintext(v) == None
  {
  }

  /** After an encryption without error, no registered value of the record that can be written is left unmarked. */
  lemma {:induction false} RegisteredIsMarked(
      p: Provider, tenant: string, table: string, cfgs: seq<Config>, rec: Fields, n: nat, k: string, t: Bytes)
    requires PlainColumns(cfgs, table) && Registered(cfgs, table, k) && k in rec && Written(rec[k], t)
    requires Encrypt(p, tenant, table, cfgs, rec, n).1.None?
    ensures var enc, marker := Encrypt(p, tenant, table, cfgs, rec, n).0, "__encrypted_" + k;
            marker in enc && enc[marker] == Bool(true)
  {
    RegistrationsZero(cfgs, table, k);
    RegistrationsZero(cfgs[1..], table, k);
    WrittenIff(rec[k], t);
    if !Active(table, cfgs[0], rec) {
      RegisteredIsMarked(p, tenant, table, cfgs[1..], rec, n, k, t);
    } else {
      var col := cfgs[0].column;
      var c := p.encrypt(n, tenant, Plaintext(rec[col]).value);
      MarkerOf(col);
      MarkerOf(k);
      if col == k {
        MarkerStays(p, tenant, table, cfgs[1..], Seal(rec, col, c.value), n + 1, k);
      } else {
        RegisteredIsMarked(p, tenant, table, cfgs[1..], Seal(rec, col, c.value), n + 1, k, t);
      }
    }
  }

  /** Registered once, it holds what the provider made of these bytes for the tenant, and so decrypts to them. */
  lemma {:induction false} RegisteredIsEncrypted(
      p: Provider, tenant: string, table: string, cfgs: seq<Config>, rec: Fields, n: nat, k: string, t: Bytes)
      returns (call: nat)
    requires PlainColumns(cfgs, table) && Registrations(cfgs, table, k) == 1 && k in rec && Written(rec[k], t)
    requires Encrypt(p, tenant, table, cfgs, rec, n).1.None?
    ensures var enc := Encrypt(p, tenant, table, cfgs, rec, n).0;
            && k in enc && enc[k].Str? && p.encrypt(call, tenant, t) == Ok(enc[k].text)
            && (p.Sound() ==> p.decrypt(enc[k].text) == Ok(t))
  {
    WrittenIff(rec[k], t);
    RegistrationsZero(cfgs, table, k);
    RegistrationsZero(cfgs[1..], table, k);
    if !Active(table, cfgs[0], rec) {
      call := RegisteredIsEncrypted(p, tenant, table, cfgs[1..], rec, n, k, t);
    } else {
      var col := cfgs[0].column;
      var c := p.encrypt(n, tenant, Plaintext(rec[col]).value);
      MarkerOf(col);
      MarkerOf(k);
      if col == k {
        call := n;
        UnregisteredUntouched(p, tenant, table, cfgs[1..], Seal(rec, col, c.value), n + 1, k);
      } else {
        call := RegisteredIsEncrypted(p, tenant, table, cfgs[1..], Seal(rec, col, c.value), n + 1, k, t);
      }
    }
  }

  /** The field and its marker are in the one record as in the other. */
  predicate SameAt(a: Fields, b: Fields, k: string) {
    && (k in a <==> k in b) && (k in a && k in b ==> a[k] == b[k])
    && var m := Marker(k); (m in a <==> m in b) && (m in a && m in b ==> a[m] == b[m])
  }

  /** A value that is left out is neither changed nor marked, and no column is marked that is not registered. */
  lemma {:induction false} LeftOutIsKept(
      p: Provider, tenant: string, table: string, cfgs: seq<Config>, rec: Fields, n: nat, k: string)
    requires PlainColumns(cfgs, table) && !IsMarker(k)
    requires !Registered(cfgs, table, k) || k !in rec || Skipped(rec[k])
    ensures SameAt(rec, Encrypt(p, tenant, table, cfgs, rec, n).0, k)
  {
    if cfgs != [] {
      RegistrationsZero(cfgs, table, k);
      RegistrationsZero(cfgs[1..], table, k);
      if !Active(table, cfgs[0], rec) {
        LeftOutIsKept(p, tenant, table, cfgs[1..], rec, n, k);
      } else {
        var col := cfgs[0].column;
        var c := p.encrypt(n, tenant, Plaintext(rec[col]).value);
        MarkerOf(col);
        MarkerOf(k);
        if c.Ok? {
          LeftOutIsKept(p, tenant, table, cfgs[1..], Seal(rec, col, c.value), n + 1, k);
        }
      }
    }
  }

  /** An error is one that the provider reported for this tenant. */
  lemma {:induction false} ErrorIsProviders(
      p: Provider, tenant: string, table: string, cfgs: seq<Config>, rec: Fields, n: nat) returns (call: nat, t: Bytes)
    requires Encrypt(p, tenant, table, cfgs, rec, n).1.Some?
    ensures p.encrypt(call, tenant, t) == Err(Encrypt(p, tenant, table, cfgs, rec, n).1.value)
  {
    if !Active(table, cfgs[0], rec) {
      call, t := ErrorIsProviders(p, tenant, table, cfgs[1..], rec, n);
    } else {
      var col := cfgs[0].column;
      call, t := n, Plaintext(rec[col]).value;
      var c := p.encrypt(n, tenant, t);
      if c.Ok? {
        call, t := ErrorIsProviders(p, tenant, table, cfgs[1..], Seal(rec, col, c.value), n + 1);
      }
    }
  }

  lemma {:induction false} MarkerStays(
      p: Provider, tenant: string, table: string, cfgs: seq<Config>, rec: Fields, n: nat, k: string)
    requires PlainColumns(cfgs, table) && Marker(k) in rec && rec[Marker(k)] == Bool(true)
    ensures var enc := Encrypt(p, tenant, table, cfgs, rec, n).0; Marker(k) in enc && enc[Marker(k)] == Bool(true)
  {
    if cfgs != [] {
      if !Active(table, cfgs[0], rec) {
        MarkerStays(p, tenant, table, cfgs[1..], rec, n, k);
      } else {
        var col := cfgs[0].column;
        var c := p.encrypt(n, tenant, Plaintext(rec[col]).value);
        MarkerOf(k);
        if c.Ok? {
          MarkerStays(p, tenant, table, cfgs[1..], Seal(rec, col, c.value), n + 1, k);
        }
      }
    }
  }

  // ----- Decrypting any record

  /** No marker marks a marker. */
  predicate Flat(rec: Fields) {
    forall k | k in rec && IsMarker(k) :: !IsMarker(k[|PREFIX|..])
  }

  /** The field is a text that its marker says is encrypted. */
  predicate Marked(rec: Fields, k: string) {
    k in rec && rec[k].Str? && Marker(k) in rec && rec[Marker(k)] == Bool(true)
  }

  lemma OtherKeyKeeps(p: Provider, rec: Fields, key: string, k: string)
    requires Flat(rec) && !IsMarker(k) && key != Marker(k) && key in rec
    ensures SameAt(rec, DecryptOne(p, rec, key), k) && Flat(DecryptOne(p, rec, key))
  {
    MarkerOf(key);
    MarkerOf(k);
    if IsMarker(key) {
      MarkerOf(key[|PREFIX|..]);
    }
  }

  lemma {:induction false} KeepsWithoutMarker(p: Provider, keys: seq<string>, rec: Fields, k: string)
    requires Flat(rec) && !IsMarker(k) && Marker(k) !in keys
    ensures SameAt(rec, Decrypt(p, keys, rec), k)
  {
    if keys != [] {
      if keys[0] in rec {
        OtherKeyKeeps(p, rec, keys[0], k);
        KeepsWithoutMarker(p, keys[1..], DecryptOne(p, rec, keys[0]), k);
      } else {
        KeepsWithoutMarker(p, keys[1..], rec, k);
      }
    }
  }

  /** What decryption makes of one field: the decrypted text without its marker, or nothing at all. */
  ghost predicate DecryptedAt(p: Provider, rec: Fields, out: Fields, k: string) {
    if Marked(rec, k) && p.decrypt(rec[k].text).Ok?
    then k in out && out[k] == Str(p.decrypt(rec[k].text).value) && Marker(k) !in out
    else SameAt(rec, out, k)
  }

  lemma MarkerTurn(p: Provider, rec: Fields, k: string)
    requires Flat(rec) && !IsMarker(k) && Marker(k) in rec
    ensures var out := DecryptOne(p, rec, Marker(k)); Flat(out) && DecryptedAt(p, rec, out, k)
  {
    MarkerOf(k);
  }

  lemma DistinctTail(keys: seq<string>)
    requires Distinct(keys) && keys != []
    ensures Distinct(keys[1..]) && keys[0] !in keys[1..]
  {
    assert forall i | 0 <= i < |keys| - 1 :: keys[1..][i] == keys[i + 1];
  }

  /**
   Decryption of any record whose markers mark no markers, in any order, field by field: a marked text that can be
   decrypted is replaced and loses its marker; every other field stays as it is, marked or not.
   */
  lemma {:induction false} DecryptByField(p: Provider, keys: seq<string>, rec: Fields, k: string)
    requires Flat(rec) && !IsMarker(k) && Distinct(keys) && (Marker(k) in rec ==> Marker(k) in keys)
    ensures DecryptedAt(p, rec, Decrypt(p, keys, rec), k)
  {
    if keys != [] {
      DistinctTail(keys);
      if keys[0] == Marker(k) {
        if keys[0] in rec {
          MarkerTurn(p, rec, k);
          KeepsWithoutMarker(p, keys[1..], DecryptOne(p, rec, keys[0]), k);
        } else {
          KeepsWithoutMarker(p, keys[1..], rec, k);
        }
      } else if keys[0] in rec {
        OtherKeyKeeps(p, rec, keys[0], k);
        DecryptByField(p, keys[1..], DecryptOne(p, rec, keys[0]), k);
      } else {
        DecryptByField(p, keys[1..], rec, k);
      }
    }
  }

  // ----- The envelope as a provider

  /** Every call may find another cipher setting, draw its own randomness and fail. */
  function EnvelopeProvider(m: Env.Primitives, kek: Bytes, cipher: nat -> string, draws: nat -> Env.Draw): Provider
    requires m.Sound()
  {
    Provider(
      (n: nat, tenant: string, plaintext: Bytes) => Env.EncryptedField(m, kek, cipher(n), draws(n), plaintext),
      encoded => Env.DecryptedField(m, kek, encoded))
  }

  /** Envelope encryption is a provider that the laws above hold for, even if its cipher changes between calls. */
  lemma EnvelopeIsSound(m: Env.Primitives, kek: Bytes, cipher: nat -> string, draws: nat -> Env.Draw)
    requires m.Sound() && forall n: nat :: draws(n).Sized()
    ensures EnvelopeProvider(m, kek, cipher, draws).Sound()
  {
    var p := EnvelopeProvider(m, kek, cipher, draws);
    forall n: nat, t: string, text: Bytes | p.encrypt(n, t, text).Ok?
      ensures p.decrypt(p.encrypt(n, t, text).value) == Ok(text) && |p.encrypt(n, t, text).value| > |text|
    {
      Env.FieldRoundTrip(m, kek, cipher(n), draws(n), text);
    }
  }

  // ----- A column registered twice

  /** A provider that puts one byte in front. */
  function Framing(): Provider {
    Provider(
      (n, t, p: Bytes) => Ok([0] + p),
      (c: Bytes) => if c == [] then Err("empty") else Ok(c[1..]))
  }

  lemma DoubleRegistrationBreaks()
    ensures Framing().Sound()
    ensures var cfg := Config("1", "t", "users", "email");
            var rec := map["email" := Str([])];
            var enc := Encrypt(Framing(), "t", "users", [cfg, cfg], rec, 0);
            enc.1.None? && forall keys | IsOrder(keys, enc.0) :: Decrypt(Framing(), keys, enc.0) != rec
  {
    var p := Framing();
    var cfg := Config("1", "t", "users", "email");
    var rec: Fields := map["email" := Str([])];
    assert p.Sound();
    var once := Seal(rec, "email", [0]);
    assert !IsMarker("email");
    MarkerOf("email");
    assert [cfg, cfg][1..] == [cfg];
    assert Active("users", cfg, rec) && Active("users", cfg, once);
    assert Encrypt(p, "t", "users", [cfg], once, 1).1.None?;
    var enc := Encrypt(p, "t", "users", [cfg, cfg], rec, 0);
    assert p.encrypt(0, "t", []) == Ok([0]) by {
      var none: Bytes := [];
      assert [0] + none == [0];
    }
    assert enc == Encrypt(p, "t", "users", [cfg], once, 1);
    assert Registrations([cfg], "users", "email") == 1;
    assert Registrations([cfg, cfg], "users", "email") == 2;
    forall keys | IsOrder(keys, enc.0)
      ensures Decrypt(p, keys, enc.0) != rec
    {
      RestoredIff(p, "t", "users", [cfg, cfg], rec, 0, keys);
    }
  }
}
