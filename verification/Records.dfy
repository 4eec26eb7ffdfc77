/**
 Field encryption of records: a registry of columns per tenant, a pass that replaces registered
 values by ciphertexts and marks them, and a pass that follows the marks back.
 */
module Records {
  import opened Prelude

  /** A dynamically typed field; Go strings are byte sequences. */
  datatype Value =
    | Nil
    | Str(text: Bytes)
    | Bool(b: bool)
    | Other(json: Option<Bytes>) // what json.Marshal makes of it, nothing when it fails

  type Fields = map<string, Value>

  datatype Config = Config(id: string, tenant: string, table: string, column: string)

  /**
   A DataKeyProvider. `encrypt` is numbered by call, so that every call may draw its own randomness,
   see its own clock and fail on its own.
   */
  datatype Provider = Provider(
    encrypt: (nat, string, Bytes) -> Result<Bytes>,
    decrypt: Bytes -> Result<Bytes>)
  {
    /** Decryption inverts encryption, and a ciphertext is longer than its plaintext. */
    ghost predicate Sound() {
      forall n, t, p | encrypt(n, t, p).Ok? ::
        decrypt(encrypt(n, t, p).value) == Ok(p) && |encrypt(n, t, p).value| > |p|
    }
  }

  const PREFIX := "__encrypted_"

  function Marker(column: string): string {
    PREFIX + column
  }

  predicate IsMarker(key: string) {
    PREFIX <= key
  }

  /** What is encrypted for a value, nothing when it is skipped. */
  function Plaintext(v: Value): Option<Bytes> {
    match v
    case Nil => None
    case Str(t) => Some(t)
    case Bool(b) => Some(if b then [0x74, 0x72, 0x75, 0x65] else [0x66, 0x61, 0x6c, 0x73, 0x65])
    case Other(j) => j
  }

  // ----- Encrypting

  predicate Active(table: string, cfg: Config, rec: Fields) {
    cfg.table == table && cfg.column in rec && Plaintext(rec[cfg.column]).Some?
  }

  /** The record after the call that encrypted `column`. */
  function Seal(rec: Fields, column: string, ciphertext: Bytes): Fields {
    rec[column := Str(ciphertext)][Marker(column) := Bool(true)]
  }

  /** The record after the whole pass, and the error that stopped it, if any. `n` counts the calls before. */
  function Encrypt(p: Provider, tenant: string, table: string, cfgs: seq<Config>, rec: Fields, n: nat)
    : (Fields, Option<string>)
  {
    if cfgs == [] then (rec, None)
    else if !Active(table, cfgs[0], rec) then Encrypt(p, tenant, table, cfgs[1..], rec, n)
    else
      var col := cfgs[0].column;
      match p.encrypt(n, tenant, Plaintext(rec[col]).value)
      case Err(e) => (rec, Some(e))
      case Ok(c) => Encrypt(p, tenant, table, cfgs[1..], Seal(rec, col, c), n + 1)
  }

  // ----- Decrypting

  /** One turn of the loop, for a key that is still in the record. */
  function DecryptOne(p: Provider, rec: Fields, key: string): Fields
    requires key in rec
  {
    if !IsMarker(key) || rec[key] != Bool(true) then rec
    else
      var field := key[|PREFIX|..];
      if field !in rec || !rec[field].Str? then rec
      else
        match p.decrypt(rec[field].text)
        case Err(_) => rec
        case Ok(t) => rec[field := Str(t)] - {key}
  }

  /** The loop over `keys`, an order of the map's keys; a key deleted before its turn is not visited. */
  function Decrypt(p: Provider, keys: seq<string>, rec: Fields): Fields {
    if keys == [] then rec
    else Decrypt(p, keys[1..], if keys[0] in rec then DecryptOne(p, rec, keys[0]) else rec)
  }

  predicate Distinct<T(==)>(s: seq<T>) {
    forall i, j | 0 <= i < j < |s| :: s[i] != s[j]
  }

  /** An order in which `range` may visit the record. */
  predicate IsOrder(keys: seq<string>, rec: Fields) {
    Distinct(keys) && Elements(keys) == rec.Keys
  }

  // ----- The loops

  /** A `map[string]any`, shared by reference. */
  class Record {
    var fields: Fields

    constructor (fields: Fields)
      ensures this.fields == fields
    {
      this.fields := fields;
    }
  }

  class FieldEncryptionService {
    const provider: Option<Provider>
    var configs: map<string, seq<Config>>

    constructor (provider: Option<Provider>)
      ensures this.provider == provider && configs == map[]
    {
      this.provider := provider;
      configs := map[];
    }

    function ListFields(tenant: string): seq<Config>
      reads this
    {
      if tenant in configs then configs[tenant] else []
    }

    /** A configuration without a tenant is ignored. */
    method RegisterField(cfg: Config)
      modifies this`configs
      ensures cfg.tenant == "" ==> configs == old(configs)
      ensures cfg.tenant != "" ==> ListFields(cfg.tenant) == old(ListFields(cfg.tenant)) + [cfg]
      ensures forall t | t != cfg.tenant :: ListFields(t) == old(ListFields(t))
    {
      if cfg.tenant == "" {
        return;
      }
      configs := configs[cfg.tenant := ListFields(cfg.tenant) + [cfg]];
    }

    /** Removes the first configuration with this id and no other. */
    method RemoveField(tenant: string, id: string)
      modifies this`configs
      ensures ListFields(tenant) == WithoutFirst(old(ListFields(tenant)), id)
      ensures forall t | t != tenant :: ListFields(t) == old(ListFields(t))
    {
      var cfgs := ListFields(tenant);
      for i := 0 to |cfgs|
        invariant forall j | 0 <= j < i :: cfgs[j].id != id
        invariant configs == old(configs)
      {
        if cfgs[i].id == id {
          WithoutFirstAt(cfgs, id, i);
          configs := configs[tenant := cfgs[..i] + cfgs[i + 1..]];
          return;
        }
      }
      WithoutFirstNone(cfgs, id);
    }

    method ShouldEncrypt(tenant: string, table: string, column: string) returns (r: bool)
      ensures r <==> Registered(ListFields(tenant), table, column)
    {
      var cfgs := ListFields(tenant);
      for i := 0 to |cfgs|
        invariant forall j | 0 <= j < i :: !(cfgs[j].table == table && cfgs[j].column == column)
      {
        if cfgs[i].table == table && cfgs[i].column == column {
          return true;
        }
      }
      return false;
    }

    /** `n` numbers the provider calls made before this one. */
    method EncryptRecord(tenant: string, table: string, record: Record, n: nat) returns (err: Option<string>)
      modifies record
      ensures provider.None? ==> err == None && record.fields == old(record.fields)
      ensures provider.Some? ==>
        (record.fields, err) == Encrypt(provider.value, tenant, table, ListFields(tenant), old(record.fields), n)
    {
      if provider.None? {
        return None;
      }
      var cfgs, calls := ListFields(tenant), n;
      for i := 0 to |cfgs|
        invariant Encrypt(provider.value, tenant, table, cfgs[i..], record.fields, calls)
          == Encrypt(provider.value, tenant, table, cfgs, old(record.fields), n)
      {
        var col := cfgs[i].column;
        assert cfgs[i..][0] == cfgs[i] && cfgs[i..][1..] == cfgs[i + 1..];
        if !Active(table, cfgs[i], record.fields) {
          continue;
        }
        var c := provider.value.encrypt(calls, tenant, Plaintext(record.fields[col]).value);
        if c.Err? {
          return Some(c.error);
        }
        record.fields := record.fields[col := Str(c.value)];
        record.fields := record.fields[Marker(col) := Bool(true)];
        calls := calls + 1;
      }
      return None;
    }

    method DecryptRecord(record: Record, keys: seq<string>)
      requires IsOrder(keys, record.fields)
      modifies record
      ensures provider.None? ==> record.fields == old(record.fields)
      ensures provider.Some? ==> record.fields == Decrypt(provider.value, keys, old(record.fields))
    {
      if provider.None? {
        return;
      }
      for i := 0 to |keys|
        invariant Decrypt(provider.value, keys[i..], record.fields)
          == Decrypt(provider.value, keys, old(record.fields))
      {
        assert keys[i..][0] == keys[i] && keys[i..][1..] == keys[i + 1..];
        if keys[i] !in record.fields || !IsMarker(keys[i]) || record.fields[keys[i]] != Bool(true) {
          continue;
        }
        var field := keys[i][|PREFIX|..];
        if field !in record.fields || !record.fields[field].Str? {
          continue;
        }
        var t := provider.value.decrypt(record.fields[field].text);
        if t.Err? {
          continue;
        }
        record.fields := record.fields[field := Str(t.value)];
        record.fields := record.fields - {keys[i]};
      }
    }
  }

  predicate Registered(cfgs: seq<Config>, table: string, column: string) {
    exists i | 0 <= i < |cfgs| :: cfgs[i].table == table && cfgs[i].column == column
  }

  function WithoutFirst(cfgs: seq<Config>, id: string): seq<Config> {
    if cfgs == [] then []
    else if cfgs[0].id == id then cfgs[1..]
    else [cfgs[0]] + WithoutFirst(cfgs[1..], id)
  }

  lemma {:induction false} WithoutFirstAt(cfgs: seq<Config>, id: string, i: nat)
    requires i < |cfgs| && cfgs[i].id == id && forall j | 0 <= j < i :: cfgs[j].id != id
    ensures WithoutFirst(cfgs, id) == cfgs[..i] + cfgs[i + 1..]
  {
    if i > 0 {
      WithoutFirstAt(cfgs[1..], id, i - 1);
      assert cfgs[..i] == [cfgs[0]] + cfgs[1..][..i - 1];
      assert cfgs[1..][i..] == cfgs[i + 1..];
    }
  }

  lemma {:induction false} WithoutFirstNone(cfgs: seq<Config>, id: string)
    requires forall j | 0 <= j < |cfgs| :: cfgs[j].id != id
    ensures WithoutFirst(cfgs, id) == cfgs
  {
    if cfgs != [] {
      WithoutFirstNone(cfgs[1..], id);
    }
  }

  /** Removing a field just registered under a new id gives the registry back. */
  lemma RemoveUndoesRegister(cfgs: seq<Config>, cfg: Config)
    requires forall j | 0 <= j < |cfgs| :: cfgs[j].id != cfg.id
    ensures WithoutFirst(cfgs + [cfg], cfg.id) == cfgs
  {
    WithoutFirstAt(cfgs + [cfg], cfg.id, |cfgs|);
    assert (cfgs + [cfg])[..|cfgs|] + (cfgs + [cfg])[|cfgs| + 1..] == cfgs;
  }
}
