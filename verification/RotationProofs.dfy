/** What loading and rotating do to the keyring file, and what that means for the processes that use it. */
module RotationProofs {
  import opened GoStrings
  import opened Base64
  import opened Keyring
  import opened Crypto
  import opened CryptoProofs

  /** The keys a file holds; none when there is no file yet. */
  function FileRing(file: Option<string>): seq<Key> {
    match file
    case None => []
    case Some(text) => if ParseKeyring(text).Ok? then ParseKeyring(text).value.Ring() else []
  }

  predicate Empty(file: Option<string>) {
    file.None? || Blank(file.value)
  }

  /** A rotation without a fault succeeds. It puts the new key in front of the ring the file held, starts a ring
      where the file was missing or blank, and leaves a file that does not load as unloadable as it was. */
  lemma RotationMeaning(file: Option<string>, k: Key)
    requires IsKey(k)
    ensures var (ok, left) := Rotated(file, k, NoFault);
            && ok && left.Some?
            && (Empty(file) ==> ParseKeyring(left.value) == Ok(Keys(k, [])))
            && (file.Some? && ParseKeyring(file.value).Ok? ==>
                  ParseKeyring(left.value) == Ok(Keys(k, ParseKeyring(file.value).value.Ring())))
            && (!Empty(file) && ParseKeyring(file.value).Err? ==> ParseKeyring(left.value).Err?)
  {
    if file.None? {
      FirstRotation(k);
    } else {
      RotationPrepends(file.value, k);
    }
  }

  /** A rotation that reports a failure changed nothing, unless it is the write that failed. */
  lemma FailedRotation(file: Option<string>, k: Key, fault: Fault)
    requires !fault.NoFault?
    ensures var (ok, left) := Rotated(file, k, fault);
            !ok && left == if fault.WriteFails? then fault.left else file
  {
  }

  /** After any run, a rotation makes its key the current one of every process started cleanly from then on,
      over the ring before; what such a process stores opens under that key and no other. */
  lemma StartAfterRotation(a: Aead, events: seq<Event>, k: Key, p: nat, unused: Key, m: Manager, nonce: seq<byte>,
                           plaintext: string)
    requires Ideal(a) && IsKey(k) && IsKey(unused) && forall i | 0 <= i < |events| :: events[i].Valid()
    requires m.WellKeyed() && |nonce| == NONCE_LENGTH
    ensures var s := Run(a, EMPTY, events);
            var started := Step(a, Step(a, s, Rotate(k, NoFault)), Start(p, unused, NoFault));
            && p in started.managers
            && started.managers[p] == Manager(k, FileRing(s.keyring))
            && Decrypted(a, m, Encrypted(a, started.managers[p], nonce, plaintext)) ==
               if k in m.Held() then Some(plaintext) else None
  {
    var s := Run(a, EMPTY, events);
    RunKeepsConsistent(a, EMPTY, events);
    RotationMeaning(s.keyring, k);
    SealedReadable(a, m, k, nonce, plaintext);
  }

  lemma FailedRotationKeepsSystem(a: Aead, s: System, k: Key, fault: Fault)
    requires !fault.NoFault? && !fault.WriteFails?
    ensures Step(a, s, Rotate(k, fault)) == s
  {
  }

  // ---- Values over whole runs ----

  lemma {:induction false} RunConcat(a: Aead, s: System, xs: seq<Event>, ys: seq<Event>)
    ensures Run(a, s, xs + ys) == Run(a, Run(a, s, xs), ys)
    decreases |xs|
  {
    if xs == [] {
      assert xs + ys == ys;
    } else {
      assert (xs + ys)[1..] == xs[1..] + ys;
      RunConcat(a, Step(a, s, xs[0]), xs[1..], ys);
    }
  }

  lemma RunAround(a: Aead, before: seq<Event>, e: Event, after: seq<Event>)
    ensures Run(a, EMPTY, before + [e] + after) == Run(a, Step(a, Run(a, EMPTY, before), e), after)
  {
    var s := Run(a, EMPTY, before);
    RunConcat(a, EMPTY, before + [e], after);
    RunConcat(a, EMPTY, before, [e]);
    assert [e][1..] == [] && Run(a, Step(a, s, e), []) == Step(a, s, e);
  }

  lemma {:induction false} StoredStays(a: Aead, s: System, events: seq<Event>, v: Stored)
    requires v in s.stored
    ensures v in Run(a, s, events).stored
    decreases |events|
  {
    if events != [] {
      StoredStays(a, Step(a, s, events[0]), events[1..], v);
    }
  }

  lemma ReadLater(a: Aead, events: seq<Event>, v: Stored, q: nat, unused: Key)
    requires Ideal(a) && IsKey(unused) && forall i | 0 <= i < |events| :: events[i].Valid()
    requires v in Run(a, EMPTY, events).stored
    ensures var started := Step(a, Run(a, EMPTY, events), Start(q, unused, NoFault));
            q in started.managers && Decrypted(a, started.managers[q], v.text) == Some(v.plaintext)
  {
    NothingIsLost(a, events, q, unused);
  }

  lemma ValidAround(before: seq<Event>, e: Event, after: seq<Event>)
    requires e.Valid()
    requires forall i | 0 <= i < |before| :: before[i].Valid()
    requires forall i | 0 <= i < |after| :: after[i].Valid()
    ensures forall i | 0 <= i < |before + [e] + after| :: (before + [e] + after)[i].Valid()
  {
  }

  /** Whatever text a running process makes of a value, at any time, every process started cleanly at any
      later time reads the value back from it, however many rotations, restarts and failures lie between. */
  lemma EveryValueSurvives(a: Aead, before: seq<Event>, p: nat, nonce: seq<byte>, plaintext: string,
                           after: seq<Event>, q: nat, unused: Key)
    requires Ideal(a) && IsKey(unused) && |nonce| == NONCE_LENGTH
    requires forall i | 0 <= i < |before| :: before[i].Valid()
    requires forall i | 0 <= i < |after| :: after[i].Valid()
    requires p in Run(a, EMPTY, before).managers
    ensures var s := Run(a, EMPTY, before);
            var text := Encrypted(a, s.managers[p], nonce, plaintext);
            var later := Run(a, Step(a, s, Store(p, nonce, plaintext)), after);
            var started := Step(a, later, Start(q, unused, NoFault));
            q in started.managers && Decrypted(a, started.managers[q], text) == Some(plaintext)
  {
    var s, store := Run(a, EMPTY, before), Store(p, nonce, plaintext);
    var m := s.managers[p];
    var v := Stored(p, m.key, nonce, plaintext, Encrypted(a, m, nonce, plaintext));
    RunAround(a, before, store, after);
    StoredStays(a, Step(a, s, store), after, v);
    ValidAround(before, store, after);
    ReadLater(a, before + [store] + after, v, q, unused);
  }

  // ---- Loading ----

  /** Loading never touches a file that is there, whatever fails, and only reads it if reading works; where
      there is none it leaves the one fresh key it returns, or fails and leaves what the failing step does. */
  lemma LoadingMeaning(file: Option<string>, k: Key, fault: Fault)
    requires IsKey(k)
    ensures var (keys, left) := Loaded(file, k, fault);
            && (file.Some? ==> left == file && (keys.Ok? <==> !fault.ReadFails? && ParseKeyring(file.value).Ok?))
            && (file.Some? && keys.Ok? ==> keys == ParseKeyring(file.value))
            && (file.None? ==> (keys.Ok? <==> fault.NoFault?))
            && (file.None? && keys.Ok? ==>
                  keys.value == Keys(k, []) && left.Some? && ParseKeyring(left.value) == keys)
            && (file.None? && keys.Err? ==> left == if fault.WriteFails? then fault.left else None)
  {
    FreshTextParses(k);
  }

  /** A key in the environment takes the place of the keyring, which is neither read nor created: its keys are
      the variables' own, or loading fails. Without one the variable of previous keys is ignored. */
  lemma EnvironmentComesFirst(keys: Keys, previous: string, file: Option<string>, k: Key, fault: Fault)
    requires forall i | 0 <= i < |keys.Ring()| :: IsKey(keys.Ring()[i])
    ensures Selected(Environment(EncodeKey(keys.current), Join(EncodeAll(keys.previous), ",")), file, k, fault)
         == (Ok(keys), file)
    ensures Selected(Environment("", previous), file, k, fault) == Selected(Environment("", ""), file, k, fault)
         == Loaded(file, k, fault)
  {
    EnvironmentAgreesWithKeyring(keys);
    KeyTextIsPlain(keys.current);
  }

  /** A malformed variable fails the start even over a good keyring: the key text must decode as it stands, and
      so must every entry of the list that is not blank. */
  lemma EnvironmentLoadsExactly(key: string, previous: string, file: Option<string>, k: Key, fault: Fault)
    requires key != ""
    ensures var (keys, left) := Selected(Environment(key, previous), file, k, fault);
            && left == file
            && (keys.Ok? <==> DecodeKey(key).Ok? && EntriesDecode(Split(previous, ",")))
            && (keys.Ok? ==> keys.value.current == DecodeKey(key).value)
  {
    EntriesDecodeExactly(if previous == "" then [] else Split(previous, ","));
    if previous == "" {
      SplitSingle("", ',');
      assert Split(previous, ",") == [""];
      TrimSpaceOfPadded("", "", "");
    }
  }
}
