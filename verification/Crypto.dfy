/** The encryption manager, its loading, and the package-level operations. */
module Crypto {
  import opened GoStrings
  import opened Base64
  import opened Keyring

  const ENC_PREFIX := "enc:v1:"
  const NONCE_LENGTH: nat := 12

  /** AES-256-GCM (section 7 of NIST SP 800-38D) as a pair of functions of key, nonce and text. */
  datatype Aead = Aead(
    seal: (Key, seq<byte>, string) -> seq<byte>,
    open: (Key, seq<byte>, seq<byte>) -> Option<string>)

  /** The ideal cipher: a box opens under exactly the key, nonce and text it was sealed from. */
  ghost predicate Ideal(a: Aead) {
    && (forall k: Key, n, box, p {:trigger a.open(k, n, box), a.seal(k, n, p)} ::
          IsKey(k) ==> (a.open(k, n, box) == Some(p) <==> box == a.seal(k, n, p)))
    && (forall k1: Key, k2: Key, n, p1, p2 {:trigger a.seal(k1, n, p1), a.seal(k2, n, p2)} ::
          IsKey(k1) && IsKey(k2) && a.seal(k1, n, p1) == a.seal(k2, n, p2) ==> k1 == k2)
  }

  datatype Manager = Manager(key: Key, previous: seq<Key>) {
    predicate Enabled() {
      |key| == KEY_LENGTH
    }

    function Held(): seq<Key> {
      [key] + previous
    }

    /** What every loader of keys establishes. */
    predicate WellKeyed() {
      forall i | 0 <= i < |Held()| :: IsKey(Held()[i])
    }
  }

  const NO_MANAGER := Manager([], [])

  function GcmSeal(a: Aead, key: Key, nonce: seq<byte>, plaintext: string): seq<byte> {
    nonce + a.seal(key, nonce, plaintext)
  }

  function GcmOpen(a: Aead, key: Key, blob: seq<byte>): Option<string> {
    if |key| != 16 && |key| != 24 && |key| != 32 then None
    else if |blob| < NONCE_LENGTH then None
    else a.open(key, blob[..NONCE_LENGTH], blob[NONCE_LENGTH..])
  }

  /** The text a value encrypted under `key` is stored as. */
  function SealedText(a: Aead, key: Key, nonce: seq<byte>, plaintext: string): string {
    ENC_PREFIX + Encode(GcmSeal(a, key, nonce, plaintext))
  }

  function Encrypted(a: Aead, m: Manager, nonce: seq<byte>, plaintext: string): string {
    if !m.Enabled() then plaintext else SealedText(a, m.key, nonce, plaintext)
  }

  /** The first key that opens the blob. */
  function OpenWith(a: Aead, keys: seq<Key>, blob: seq<byte>): Option<string> {
    if keys == [] then None
    else
      var one := GcmOpen(a, keys[0], blob);
      if one.Some? then one else OpenWith(a, keys[1..], blob)
  }

  function Decrypted(a: Aead, m: Manager, s: string): Option<string> {
    if !HasPrefix(s, ENC_PREFIX) then Some(s)
    else if !m.Enabled() then None
    else match Decode(s[|ENC_PREFIX|..])
      case None => None
      case Some(blob) => OpenWith(a, m.Held(), blob)
  }

  method Encrypt(a: Aead, m: Manager, nonce: seq<byte>, plaintext: string) returns (text: string)
    ensures text == Encrypted(a, m, nonce, plaintext)
  {
    if !m.Enabled() {
      return plaintext;
    }
    var blob := GcmSeal(a, m.key, nonce, plaintext);
    return ENC_PREFIX + Encode(blob);
  }

  /** Manager.Decrypt: the current key, then each previous key in order. */
  method Decrypt(a: Aead, m: Manager, s: string) returns (r: Result<string>)
    ensures r.Ok? <==> Decrypted(a, m, s).Some?
    ensures r.Ok? ==> r.value == Decrypted(a, m, s).value
  {
    if !HasPrefix(s, ENC_PREFIX) {
      return Ok(s);
    }
    if !m.Enabled() {
      return Err("value is encrypted but no key is set");
    }
    var blob := Decode(s[|ENC_PREFIX|..]);
    if blob.None? {
      return Err("decode encrypted value");
    }
    assert m.Held()[1..] == m.previous;
    var current := GcmOpen(a, m.key, blob.value);
    if current.Some? {
      return Ok(current.value);
    }
    for i := 0 to |m.previous|
      invariant OpenWith(a, m.Held(), blob.value) == OpenWith(a, m.previous[i..], blob.value)
    {
      var pt := GcmOpen(a, m.previous[i], blob.value);
      if pt.Some? {
        return Ok(pt.value);
      }
      assert m.previous[i..][1..] == m.previous[i + 1..];
    }
    return Err("decrypt failed with every key");
  }

  // ---- Loading ----

  /** What can go wrong around the keyring file. A failed write leaves whatever it leaves: the file is
      truncated before it is written. */
  datatype Fault =
    | NoFault
    | ReadFails
    | RandomFails
    | DirectoryFails
    | WriteFails(left: Option<string>)

  /** What loading the keyring of a data directory gives, and the file it leaves behind. */
  function Loaded(file: Option<string>, fresh_: Key, fault: Fault): (Result<Keys>, Option<string>) {
    if fault.ReadFails? then (Err("read"), file)
    else if file.Some? then (ParseKeyring(file.value), file)
    else match fault
      case NoFault => (Ok(Keys(fresh_, [])), Some(EncodeKey(fresh_) + "\n"))
      case WriteFails(left) => (Err("write"), left)
      case _ => (Err("generate key or create directory"), file)
  }

  /** Whether rotating succeeds, and the file it leaves behind. */
  function Rotated(file: Option<string>, fresh_: Key, fault: Fault): (bool, Option<string>) {
    match fault
    case NoFault => (true, Some(RotatedText(file, fresh_)))
    case WriteFails(left) => (false, left)
    case _ => (false, file)
  }

  datatype Environment = Environment(key: string, previous: string)

  /** The key selection of Init: the environment if set, else the keyring. */
  function Selected(env: Environment, file: Option<string>, fresh_: Key, fault: Fault)
    : (Result<Keys>, Option<string>)
  {
    if env.key != "" then (ParseEnvironment(env.key, env.previous), file) else Loaded(file, fresh_, fault)
  }

  /** A data directory: the content of its keyring file, if there is one. */
  class DataDir {
    var keyring: Option<string>

    constructor (keyring: Option<string>)
      ensures this.keyring == keyring
    {
      this.keyring := keyring;
    }
  }

  /** The entry loops of loadOrCreateKeyring and decodePreviousKeysFromEnv. */
  method DecodeList(entries: seq<string>) returns (r: Result<seq<Key>>)
    ensures r.Ok? <==> DecodeEntries(entries).Ok?
    ensures r.Ok? ==> r.value == DecodeEntries(entries).value
  {
    var keys: seq<Key> := [];
    for i := 0 to |entries|
      invariant DecodeEntries(entries).Ok? <==> DecodeEntries(entries[i..]).Ok?
      invariant DecodeEntries(entries).Ok? ==> DecodeEntries(entries).value == keys + DecodeEntries(entries[i..]).value
    {
      assert entries[i..][1..] == entries[i + 1..];
      var entry := TrimSpace(entries[i]);
      if entry == "" {
        continue;
      }
      var k := DecodeKey(entry);
      if k.Err? {
        return Err(k.error);
      }
      keys := keys + [k.value];
    }
    return Ok(keys);
  }

  method LoadOrCreateKeyring(dir: DataDir, fresh_: Key, fault: Fault) returns (r: Result<Keys>)
    modifies dir
    ensures r.Ok? <==> Loaded(old(dir.keyring), fresh_, fault).0.Ok?
    ensures r.Ok? ==> r.value == Loaded(old(dir.keyring), fresh_, fault).0.value
    ensures dir.keyring == Loaded(old(dir.keyring), fresh_, fault).1
  {
    if fault.ReadFails? {
      return Err("read keyring");
    }
    if dir.keyring.Some? {
      var lines := Split(TrimSpace(dir.keyring.value), "\n");
      if |lines| == 0 || TrimSpace(lines[0]) == "" {
        return Err("keyring file is empty");
      }
      var current := DecodeKey(TrimSpace(lines[0]));
      if current.Err? {
        return Err(current.error);
      }
      var previous := DecodeList(lines[1..]);
      if previous.Err? {
        return Err(previous.error);
      }
      return Ok(Keys(current.value, previous.value));
    }
    if fault.RandomFails? || fault.DirectoryFails? {
      return Err("generate key or create directory");
    }
    if fault.WriteFails? {
      dir.keyring := fault.left;
      return Err("write keyring");
    }
    dir.keyring := Some(EncodeKey(fresh_) + "\n");
    return Ok(Keys(fresh_, []));
  }

  /** RotateKeyring: only the file changes, a running manager does not. */
  method RotateKeyring(dir: DataDir, fresh_: Key, fault: Fault) returns (r: Result<string>)
    modifies dir
    ensures r.Ok? == Rotated(old(dir.keyring), fresh_, fault).0
    ensures r.Ok? ==> r.value == EncodeKey(fresh_)
    ensures dir.keyring == Rotated(old(dir.keyring), fresh_, fault).1
  {
    var existing := "";
    if fault.ReadFails? {
      return Err("read keyring");
    }
    if dir.keyring.Some? {
      existing := TrimSpace(dir.keyring.value);
    }
    if fault.RandomFails? || fault.DirectoryFails? {
      return Err("generate key or create directory");
    }
    var keyText := EncodeKey(fresh_);
    var content := keyText + "\n";
    if existing != "" {
      content := content + existing + "\n";
      assert content == EncodeKey(fresh_) + "\n" + (existing + "\n");
    } else {
      assert content == EncodeKey(fresh_) + "\n" + "";
    }
    if fault.WriteFails? {
      dir.keyring := fault.left;
      return Err("write keyring");
    }
    dir.keyring := Some(content);
    return Ok(keyText);
  }

  /** The package-level singleton. */
  class CryptoPackage {
    var defaultManager: Manager

    constructor ()
      ensures defaultManager == NO_MANAGER
    {
      defaultManager := NO_MANAGER;
    }

    method Init(env: Environment, dir: DataDir, fresh_: Key, fault: Fault) returns (ok: bool)
      modifies this, dir
      ensures var keys := Selected(env, old(dir.keyring), fresh_, fault).0;
              && ok == keys.Ok?
              && defaultManager == if keys.Ok? then Manager(keys.value.current, keys.value.previous)
                                   else old(defaultManager)
      ensures dir.keyring == Selected(env, old(dir.keyring), fresh_, fault).1
    {
      if env.key != "" {
        var key := DecodeKey(env.key);
        if key.Err? {
          return false;
        }
        var previous: Result<seq<Key>> := Ok([]);
        if env.previous != "" {
          previous := DecodeList(Split(env.previous, ","));
        }
        if previous.Err? {
          return false;
        }
        defaultManager := Manager(key.value, previous.value);
        return true;
      }
      var keys := LoadOrCreateKeyring(dir, fresh_, fault);
      if keys.Err? {
        return false;
      }
      defaultManager := Manager(keys.value.current, keys.value.previous);
      return true;
    }
  }
}
