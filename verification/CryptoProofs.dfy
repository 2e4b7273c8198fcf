/** Round trips, key sets, and whole runs of the key rotation protocol. */
module CryptoProofs {
  import opened GoStrings
  import opened Base64
  import opened Keyring
  import opened Crypto

  function CharBytes(c: char): seq<byte> {
    var n := c as int;
    [n / 256 / 256, n / 256 % 256, n % 256]
  }

  function TextBytes(p: string): seq<byte> {
    if p == "" then [] else CharBytes(p[0]) + TextBytes(p[1..])
  }

  lemma DigitsInjective(n: nat, m: nat)
    requires n / 256 / 256 == m / 256 / 256 && n / 256 % 256 == m / 256 % 256 && n % 256 == m % 256
    ensures n == m
  {
    assert n / 256 == m / 256;
  }

  lemma CharBytesInjective(c: char, d: char)
    requires CharBytes(c) == CharBytes(d)
    ensures c == d
  {
    var x, y := CharBytes(c), CharBytes(d);
    assert x[0] == y[0] && x[1] == y[1] && x[2] == y[2];
    DigitsInjective(c as int, d as int);
  }

  lemma {:induction false} TextBytesInjective(p: string, q: string)
    requires TextBytes(p) == TextBytes(q)
    ensures p == q
    decreases |p|
  {
    if p != "" && q != "" {
      assert TextBytes(p)[..3] == CharBytes(p[0]) && TextBytes(q)[..3] == CharBytes(q[0]);
      assert TextBytes(p)[3..] == TextBytes(p[1..]) && TextBytes(q)[3..] == TextBytes(q[1..]);
      CharBytesInjective(p[0], q[0]);
      TextBytesInjective(p[1..], q[1..]);
      assert p == [p[0]] + p[1..] && q == [q[0]] + q[1..];
    }
  }

  ghost function OpenBox(k: Key, box: seq<byte>): Option<string> {
    if p :| box == k + TextBytes(p) then Some(p) else None
  }

  /** The ideal is consistent: a box that spells out its key and text meets it. */
  lemma IdealExists()
    ensures exists a: Aead :: Ideal(a)
  {
    var a := Aead((k, n, p) => k + TextBytes(p), (k, n, box) => OpenBox(k, box));
    forall k: Key, n: seq<byte>, box: seq<byte>, p | IsKey(k)
      ensures a.open(k, n, box) == Some(p) <==> box == a.seal(k, n, p)
    {
      forall q, r | k + TextBytes(q) == k + TextBytes(r) ensures q == r {
        assert (k + TextBytes(q))[|k|..] == (k + TextBytes(r))[|k|..];
        TextBytesInjective(q, r);
      }
    }
    forall k1: Key, k2: Key, n: seq<byte>, p1, p2 | IsKey(k1) && IsKey(k2) && a.seal(k1, n, p1) == a.seal(k2, n, p2)
      ensures k1 == k2
    {
      assert (k1 + TextBytes(p1))[..KEY_LENGTH] == (k2 + TextBytes(p2))[..KEY_LENGTH];
    }
    assert Ideal(a);
  }

  /** At most one of any keys opens a blob, so a list of keys opens it as any member that does. */
  lemma {:induction false} OpenWithMember(a: Aead, keys: seq<Key>, blob: seq<byte>, i: nat)
    requires Ideal(a) && forall j | 0 <= j < |keys| :: IsKey(keys[j])
    requires i < |keys| && GcmOpen(a, keys[i], blob).Some?
    ensures OpenWith(a, keys, blob) == GcmOpen(a, keys[i], blob)
  {
    var here := GcmOpen(a, keys[0], blob);
    if here.Some? {
      var n, box := blob[..NONCE_LENGTH], blob[NONCE_LENGTH..];
      var p, q := here.value, GcmOpen(a, keys[i], blob).value;
      assert box == a.seal(keys[0], n, p) == a.seal(keys[i], n, q);
    } else {
      OpenWithMember(a, keys[1..], blob, i - 1);
    }
  }

  lemma {:induction false} OpenWithNone(a: Aead, keys: seq<Key>, blob: seq<byte>)
    ensures OpenWith(a, keys, blob).None? <==> forall i | 0 <= i < |keys| :: GcmOpen(a, keys[i], blob).None?
  {
    if keys != [] {
      OpenWithNone(a, keys[1..], blob);
      assert forall i | 0 < i < |keys| :: keys[i] == keys[1..][i - 1];
    }
  }

  /** Holding more keys never makes a readable value unreadable or read differently. */
  lemma MoreKeysReadMore(a: Aead, few: Manager, many: Manager, s: string)
    requires Ideal(a) && few.WellKeyed() && many.WellKeyed()
    requires forall k | k in few.Held() :: k in many.Held()
    ensures Decrypted(a, few, s).Some? ==> Decrypted(a, many, s) == Decrypted(a, few, s)
  {
    assert few.Held()[0] == few.key && many.Held()[0] == many.key;
    if HasPrefix(s, ENC_PREFIX) && Decrypted(a, few, s).Some? {
      var blob := Decode(s[|ENC_PREFIX|..]).value;
      OpenWithNone(a, few.Held(), blob);
      var i :| 0 <= i < |few.Held()| && GcmOpen(a, few.Held()[i], blob).Some?;
      assert few.Held()[i] in many.Held();
      var j :| 0 <= j < |many.Held()| && many.Held()[j] == few.Held()[i];
      OpenWithMember(a, few.Held(), blob, i);
      OpenWithMember(a, many.Held(), blob, j);
    }
  }

  /** Decrypt depends only on the set of keys held, not on which is current or in what order. */
  lemma OnlyTheKeySetMatters(a: Aead, m1: Manager, m2: Manager, s: string)
    requires Ideal(a) && m1.WellKeyed() && m2.WellKeyed()
    requires forall k :: k in m1.Held() <==> k in m2.Held()
    ensures Decrypted(a, m1, s) == Decrypted(a, m2, s)
  {
    MoreKeysReadMore(a, m1, m2, s);
    MoreKeysReadMore(a, m2, m1, s);
  }

  lemma OnlyTheKeyOpens(a: Aead, other: Key, key: Key, nonce: seq<byte>, plaintext: string)
    requires Ideal(a) && IsKey(other) && IsKey(key) && |nonce| == NONCE_LENGTH
    ensures GcmOpen(a, other, GcmSeal(a, key, nonce, plaintext)).Some? ==> other == key
  {
    var blob := GcmSeal(a, key, nonce, plaintext);
    assert blob[..NONCE_LENGTH] == nonce && blob[NONCE_LENGTH..] == a.seal(key, nonce, plaintext);
    var got := GcmOpen(a, other, blob);
    if got.Some? {
      assert a.seal(other, nonce, got.value) == a.seal(key, nonce, plaintext);
    }
  }

  /** A value sealed under a key reads back iff the manager holds that key. */
  lemma SealedReadable(a: Aead, m: Manager, key: Key, nonce: seq<byte>, plaintext: string)
    requires Ideal(a) && m.WellKeyed() && IsKey(key) && |nonce| == NONCE_LENGTH
    ensures var got := Decrypted(a, m, SealedText(a, key, nonce, plaintext));
            got == if key in m.Held() then Some(plaintext) else None
  {
    var s, blob := SealedText(a, key, nonce, plaintext), GcmSeal(a, key, nonce, plaintext);
    assert s[|ENC_PREFIX|..] == Encode(blob);
    RoundTrip(blob);
    assert blob[..NONCE_LENGTH] == nonce && blob[NONCE_LENGTH..] == a.seal(key, nonce, plaintext);
    var keys := m.Held();
    assert keys[0] == m.key;
    if key in keys {
      var i :| 0 <= i < |keys| && keys[i] == key;
      OpenWithMember(a, keys, blob, i);
    } else {
      forall i | 0 <= i < |keys| ensures GcmOpen(a, keys[i], blob).None? {
        OnlyTheKeyOpens(a, keys[i], key, nonce, plaintext);
      }
      OpenWithNone(a, keys, blob);
    }
  }

  /** With a key every text survives, even one that looks encrypted; without one exactly the texts
      that do not. */
  lemma EncryptRoundTrip(a: Aead, m: Manager, nonce: seq<byte>, plaintext: string)
    requires Ideal(a) && |nonce| == NONCE_LENGTH
    requires m.WellKeyed() || !m.Enabled()
    ensures Decrypted(a, m, Encrypted(a, m, nonce, plaintext)) == Some(plaintext)
       <==> m.Enabled() || !HasPrefix(plaintext, ENC_PREFIX)
  {
    if m.Enabled() {
      assert m.Held()[0] == m.key;
      SealedReadable(a, m, m.key, nonce, plaintext);
    }
  }

  /** Text without the prefix passes through every manager, with or without a key; without a key nothing that
      carries the prefix is read. */
  lemma PlainPassesThrough(a: Aead, m: Manager, s: string)
    ensures !HasPrefix(s, "enc:v1:") ==> Decrypted(a, m, s) == Some(s)
    ensures HasPrefix(s, "enc:v1:") && |m.key| != 32 ==> Decrypted(a, m, s) == None
  {
  }

  /** What a manager with keys reads behind the prefix, exactly: the base64 of a nonce of 12 bytes followed by a
      box that one of its keys sealed from the text under that nonce. Everything else is an error. */
  lemma DecryptsExactlySealed(a: Aead, m: Manager, body: string, plaintext: string)
    requires Ideal(a) && m.WellKeyed()
    ensures Decrypted(a, m, "enc:v1:" + body) == Some(plaintext) <==>
            && Decode(body).Some? && |Decode(body).value| >= 12
            && var nonce, box := Decode(body).value[..12], Decode(body).value[12..];
               exists key | key in m.Held() :: box == a.seal(key, nonce, plaintext)
  {
    assert ("enc:v1:" + body)[|ENC_PREFIX|..] == body;
    assert m.Held()[0] == m.key;
    if Decode(body).Some? {
      OpensExactly(a, m.Held(), Decode(body).value, plaintext);
    }
  }

  lemma OpensExactly(a: Aead, keys: seq<Key>, blob: seq<byte>, plaintext: string)
    requires Ideal(a) && forall j | 0 <= j < |keys| :: IsKey(keys[j])
    ensures OpenWith(a, keys, blob) == Some(plaintext) <==>
            |blob| >= 12 && exists key | key in keys :: blob[12..] == a.seal(key, blob[..12], plaintext)
  {
    forall i | 0 <= i < |keys|
      ensures GcmOpen(a, keys[i], blob) == Some(plaintext)
         <==> |blob| >= 12 && blob[12..] == a.seal(keys[i], blob[..12], plaintext)
    {
    }
    OpenWithNone(a, keys, blob);
    if i :| 0 <= i < |keys| && GcmOpen(a, keys[i], blob).Some? {
      OpenWithMember(a, keys, blob, i);
    }
    if |blob| >= 12 {
      if key :| key in keys && blob[12..] == a.seal(key, blob[..12], plaintext) {
        var i :| 0 <= i < |keys| && keys[i] == key;
        OpenWithMember(a, keys, blob, i);
      }
    }
  }

  /** The stored form: the prefix, then the base64 of the nonce followed by the box sealed under the current key. */
  lemma StoredForm(a: Aead, m: Manager, nonce: seq<byte>, plaintext: string)
    requires |nonce| == NONCE_LENGTH && |m.key| == 32
    ensures exists body :: Encrypted(a, m, nonce, plaintext) == "enc:v1:" + body
              && Decode(body) == Some(nonce + a.seal(m.key, nonce, plaintext))
  {
    RoundTrip(GcmSeal(a, m.key, nonce, plaintext));
    assert Encrypted(a, m, nonce, plaintext) == "enc:v1:" + Encode(GcmSeal(a, m.key, nonce, plaintext));
  }

  // ---- Whole runs ----

  /** One stored value, with the process, key and nonce that made it. */
  datatype Stored = Stored(author: nat, key: Key, nonce: seq<byte>, plaintext: string, text: string)

  /** A data directory, the managers of the running processes, and everything ever stored. */
  datatype System = System(keyring: Option<string>, managers: map<nat, Manager>, stored: seq<Stored>)

  datatype Event =
    | Start(p: nat, fresh_: Key, fault: Fault)               // Init in keyring mode; also a restart
    | Stop(p: nat)
    | Rotate(fresh_: Key, fault: Fault)                      // from any process, also with none running
    | Store(p: nat, nonce: seq<byte>, plaintext: string)     // Encrypt and keep
  {
    /** Anything may fail but the write of the keyring itself. */
    predicate Valid() {
      match this
      case Start(_, k, fault) => IsKey(k) && !fault.WriteFails?
      case Rotate(k, fault) => IsKey(k) && !fault.WriteFails?
      case Store(_, nonce, _) => |nonce| == NONCE_LENGTH
      case Stop(_) => true
    }
  }

  const EMPTY := System(None, map[], [])

  function Step(a: Aead, s: System, e: Event): System {
    match e
    case Start(p, fresh_, fault) =>
      var (keys, file) := Selected(Environment("", ""), s.keyring, fresh_, fault);
      // A process whose Init fails does not come up.
      s.(keyring := file,
         managers := if keys.Ok? then s.managers[p := Manager(keys.value.current, keys.value.previous)]
                     else s.managers - {p})
    case Stop(p) => s.(managers := s.managers - {p})
    case Rotate(fresh_, fault) => s.(keyring := Rotated(s.keyring, fresh_, fault).1)
    case Store(p, nonce, plaintext) =>
      if p !in s.managers then s
      else
        var m := s.managers[p];
        s.(stored := s.stored + [Stored(p, m.key, nonce, plaintext, Encrypted(a, m, nonce, plaintext))])
  }

  function Run(a: Aead, s: System, events: seq<Event>): System
    decreases |events|
  {
    if events == [] then s else Run(a, Step(a, s, events[0]), events[1..])
  }

  /** The keys the file holds; every stored value and every running manager keeps to them. */
  predicate Consistent(a: Aead, s: System) {
    match s.keyring
    case None => s.managers == map[] && s.stored == []
    case Some(text) =>
      && ParseKeyring(text).Ok?
      && var ring := ParseKeyring(text).value.Ring();
         && (forall i | 0 <= i < |ring| :: IsKey(ring[i]))
         && (forall p | p in s.managers :: s.managers[p].WellKeyed() && s.managers[p].key in ring)
         && (forall v | v in s.stored :: Kept(a, s, ring, v))
  }

  predicate Kept(a: Aead, s: System, ring: seq<Key>, v: Stored) {
    && IsKey(v.key) && |v.nonce| == NONCE_LENGTH && v.key in ring
    && v.text == SealedText(a, v.key, v.nonce, v.plaintext)
    && (v.author in s.managers ==> v.key in s.managers[v.author].Held())
  }

  lemma RotateKeepsConsistent(a: Aead, s: System, k: Key, fault: Fault)
    requires Consistent(a, s) && IsKey(k) && !fault.WriteFails?
    ensures Consistent(a, Step(a, s, Rotate(k, fault)))
  {
    if fault.NoFault? {
      if s.keyring.None? {
        FirstRotation(k);
        FirstKeyConsistent(a, s, RotatedText(None, k), k);
      } else {
        RotationPrepends(s.keyring.value, k);
        RingGrows(a, s, RotatedText(s.keyring, k), k);
      }
    }
  }

  lemma FirstKeyConsistent(a: Aead, s: System, text: string, k: Key)
    requires Consistent(a, s) && s.keyring.None? && IsKey(k)
    requires ParseKeyring(text) == Ok(Keys(k, []))
    ensures Consistent(a, s.(keyring := Some(text)))
  {
  }

  /** Putting a key in front of the ring keeps everything the old ring kept. */
  lemma RingGrows(a: Aead, s: System, text: string, k: Key)
    requires Consistent(a, s) && s.keyring.Some? && IsKey(k)
    requires ParseKeyring(text) == Ok(Keys(k, ParseKeyring(s.keyring.value).value.Ring()))
    ensures Consistent(a, s.(keyring := Some(text)))
  {
    var ring := ParseKeyring(s.keyring.value).value.Ring();
    var t := s.(keyring := Some(text));
    assert ParseKeyring(text).value.Ring() == [k] + ring;
    forall v | v in t.stored ensures Kept(a, t, [k] + ring, v) {
      assert Kept(a, s, ring, v);
    }
  }

  lemma StartKeepsConsistent(a: Aead, s: System, p: nat, k: Key)
    requires Consistent(a, s) && IsKey(k)
    ensures var t := Step(a, s, Start(p, k, NoFault));
            Consistent(a, t) && p in t.managers && ParseKeyring(t.keyring.value).Ok?
            && t.managers[p].Held() == ParseKeyring(t.keyring.value).value.Ring()
  {
    var t := Step(a, s, Start(p, k, NoFault));
    if s.keyring.None? {
      FreshTextParses(k);
      assert t.managers == map[p := Manager(k, [])];
    } else {
      var ring := ParseKeyring(s.keyring.value).value.Ring();
      assert t.managers[p].Held() == ring;
      assert ring[0] == t.managers[p].key;
      forall v | v in t.stored ensures Kept(a, t, ring, v) {
        assert Kept(a, s, ring, v);
      }
    }
  }

  /** A faulty start either does what a clean one does or only keeps the process down. */
  lemma FaultyStart(a: Aead, s: System, p: nat, k: Key, fault: Fault)
    requires !fault.WriteFails?
    ensures Step(a, s, Start(p, k, fault)) ==
            if fault.NoFault? || (s.keyring.Some? && !fault.ReadFails?) then Step(a, s, Start(p, k, NoFault))
            else Step(a, s, Stop(p))
  {
  }

  lemma FaultyStartKeepsConsistent(a: Aead, s: System, p: nat, k: Key, fault: Fault)
    requires Consistent(a, s) && IsKey(k) && !fault.WriteFails?
    ensures Consistent(a, Step(a, s, Start(p, k, fault)))
  {
    FaultyStart(a, s, p, k, fault);
    StartKeepsConsistent(a, s, p, k);
    StopKeepsConsistent(a, s, p);
  }

  lemma StoreKeepsConsistent(a: Aead, s: System, p: nat, nonce: seq<byte>, plaintext: string)
    requires Consistent(a, s) && |nonce| == NONCE_LENGTH
    ensures Consistent(a, Step(a, s, Store(p, nonce, plaintext)))
  {
    var t := Step(a, s, Store(p, nonce, plaintext));
    if p in s.managers {
      var m := s.managers[p];
      assert m.Held()[0] == m.key;
      var ring := ParseKeyring(s.keyring.value).value.Ring();
      forall v | v in t.stored ensures Kept(a, t, ring, v) {
        if v in s.stored {
          assert Kept(a, s, ring, v);
        }
      }
    }
  }

  lemma StopKeepsConsistent(a: Aead, s: System, p: nat)
    requires Consistent(a, s)
    ensures Consistent(a, Step(a, s, Stop(p)))
  {
  }

  lemma {:induction false} RunKeepsConsistent(a: Aead, s: System, events: seq<Event>)
    requires Consistent(a, s) && forall i | 0 <= i < |events| :: events[i].Valid()
    ensures Consistent(a, Run(a, s, events))
    decreases |events|
  {
    if events != [] {
      assert events[0].Valid();
      match events[0] {
        case Start(p, k, fault) => FaultyStartKeepsConsistent(a, s, p, k, fault);
        case Stop(p) => StopKeepsConsistent(a, s, p);
        case Rotate(k, fault) => RotateKeepsConsistent(a, s, k, fault);
        case Store(p, nonce, plaintext) => StoreKeepsConsistent(a, s, p, nonce, plaintext);
      }
      RunKeepsConsistent(a, Step(a, s, events[0]), events[1..]);
    }
  }

  /** No value is ever lost by rotating, nor by reads, key generation or directory creation failing. After
      any run from an empty data directory, a clean start succeeds and its manager reads every value ever
      stored; and every process already running, however stale, reads all it stored itself. */
  lemma NothingIsLost(a: Aead, events: seq<Event>, p: nat, k: Key)
    requires Ideal(a) && IsKey(k) && forall i | 0 <= i < |events| :: events[i].Valid()
    ensures var s := Run(a, EMPTY, events);
            var t := Step(a, s, Start(p, k, NoFault));
            && t.stored == s.stored
            && p in t.managers
            && (forall v | v in s.stored :: Decrypted(a, t.managers[p], v.text) == Some(v.plaintext))
            && (forall v | v in s.stored && v.author in s.managers ::
                  Decrypted(a, s.managers[v.author], v.text) == Some(v.plaintext))
  {
    var s := Run(a, EMPTY, events);
    RunKeepsConsistent(a, EMPTY, events);
    StartKeepsConsistent(a, s, p, k);
    var t := Step(a, s, Start(p, k, NoFault));
    forall v | v in s.stored
      ensures Decrypted(a, t.managers[p], v.text) == Some(v.plaintext)
      ensures v.author in s.managers ==> Decrypted(a, s.managers[v.author], v.text) == Some(v.plaintext)
    {
      var ring := ParseKeyring(t.keyring.value).value.Ring();
      assert Kept(a, t, ring, v);
      SealedReadable(a, t.managers[p], v.key, v.nonce, v.plaintext);
      if v.author in s.managers {
        assert Kept(a, s, ParseKeyring(s.keyring.value).value.Ring(), v);
        SealedReadable(a, s.managers[v.author], v.key, v.nonce, v.plaintext);
      }
    }
  }

  /** The keys a clean start would hold over what a torn write left. */
  function RingOver(left: Option<string>, k: Key): Option<seq<Key>> {
    match left
    case None => Some([k])
    case Some(text) => if ParseKeyring(text).Ok? then Some(ParseKeyring(text).value.Ring()) else None
  }

  /** A clean start succeeds and its manager reads every value ever stored. */
  predicate StartReadsAll(a: Aead, s: System, p: nat, k: Key) {
    var t := Step(a, s, Start(p, k, NoFault));
    p in t.managers && forall v | v in s.stored :: Decrypted(a, t.managers[p], v.text) == Some(v.plaintext)
  }

  predicate HoldsUsedKeys(left: Option<string>, k: Key, stored: seq<Stored>) {
    RingOver(left, k).Some? && forall v | v in stored :: v.key in RingOver(left, k).value
  }

  /** The write of the keyring is not atomic, and it is the one step that can lose values. After any run,
      a rotation whose write is torn leaves everything readable by a new process exactly when what is left
      of the file still parses to a ring with every key in use. */
  lemma TornRotation(a: Aead, events: seq<Event>, fresh_: Key, left: Option<string>, p: nat, k: Key)
    requires Ideal(a) && IsKey(k) && IsKey(fresh_) && forall i | 0 <= i < |events| :: events[i].Valid()
    ensures StartReadsAll(a, Step(a, Run(a, EMPTY, events), Rotate(fresh_, WriteFails(left))), p, k)
       <==> HoldsUsedKeys(left, k, Run(a, EMPTY, events).stored)
  {
    RunKeepsConsistent(a, EMPTY, events);
    TornState(a, Run(a, EMPTY, events), fresh_, left, p, k);
  }

  lemma TornState(a: Aead, s: System, fresh_: Key, left: Option<string>, p: nat, k: Key)
    requires Ideal(a) && IsKey(k) && Consistent(a, s)
    ensures StartReadsAll(a, Step(a, s, Rotate(fresh_, WriteFails(left))), p, k) <==> HoldsUsedKeys(left, k, s.stored)
  {
    var t := Step(a, s.(keyring := left), Start(p, k, NoFault));
    assert Step(a, s, Rotate(fresh_, WriteFails(left))) == s.(keyring := left);
    StartOver(a, s, left, p, k);
    if RingOver(left, k).Some? {
      forall v | v in s.stored
        ensures Decrypted(a, t.managers[p], v.text) == Some(v.plaintext) <==> v.key in t.managers[p].Held()
      {
        ReadIffHeld(a, s, v, t.managers[p]);
      }
    }
  }

  lemma StartOver(a: Aead, s: System, left: Option<string>, p: nat, k: Key)
    requires IsKey(k)
    ensures var t := Step(a, s.(keyring := left), Start(p, k, NoFault));
            && (p in t.managers <==> RingOver(left, k).Some?)
            && (p in t.managers ==> t.managers[p].WellKeyed() && t.managers[p].Held() == RingOver(left, k).value)
  {
    if left.Some? && ParseKeyring(left.value).Ok? {
      ParsedAreKeys(left.value);
    }
  }

  lemma ReadIffHeld(a: Aead, s: System, v: Stored, m: Manager)
    requires Ideal(a) && Consistent(a, s) && v in s.stored && m.WellKeyed()
    ensures Decrypted(a, m, v.text) == Some(v.plaintext) <==> v.key in m.Held()
  {
    assert Kept(a, s, ParseKeyring(s.keyring.value).value.Ring(), v);
    SealedReadable(a, m, v.key, v.nonce, v.plaintext);
  }

  predicate Leaves(e: Event, p: nat) {
    !(e.Start? && e.p == p) && !(e.Stop? && e.p == p)
  }

  lemma {:induction false} ManagerStays(a: Aead, s: System, events: seq<Event>, p: nat)
    requires p in s.managers && forall i | 0 <= i < |events| :: Leaves(events[i], p)
    ensures p in Run(a, s, events).managers && Run(a, s, events).managers[p] == s.managers[p]
    decreases |events|
  {
    if events != [] {
      assert Leaves(events[0], p);
      ManagerStays(a, Step(a, s, events[0]), events[1..], p);
    }
  }

  /** A process keeps reading everything stored before it started, whatever is rotated, started, stopped
      or stored afterwards. */
  lemma HistoryStaysReadable(a: Aead, before: seq<Event>, p: nat, k: Key, after: seq<Event>)
    requires Ideal(a) && IsKey(k) && forall i | 0 <= i < |before| :: before[i].Valid()
    requires forall i | 0 <= i < |after| :: Leaves(after[i], p)
    ensures var s := Run(a, EMPTY, before);
            var now := Run(a, Step(a, s, Start(p, k, NoFault)), after);
            && p in now.managers
            && forall v | v in s.stored :: Decrypted(a, now.managers[p], v.text) == Some(v.plaintext)
  {
    NothingIsLost(a, before, p, k);
    ManagerStays(a, Step(a, Run(a, EMPTY, before), Start(p, k, NoFault)), after, p);
  }
}
