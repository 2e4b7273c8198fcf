/** Key texts, the keyring file format, and rotation of that file. */
module Keyring {
  import opened GoStrings
  import opened Base64

  const KEY_PREFIX := "base64:"
  const KEY_LENGTH: nat := 32

  type Key = seq<byte>

  predicate IsKey(k: Key) {
    |k| == KEY_LENGTH
  }

  function EncodeKey(k: Key): string {
    KEY_PREFIX + Encode(k)
  }

  function DecodeKey(s: string): Result<Key> {
    if !HasPrefix(s, KEY_PREFIX) then Err("key must start with base64:")
    else match Decode(s[|KEY_PREFIX|..])
      case None => Err("invalid base64")
      case Some(k) => if IsKey(k) then Ok(k) else Err("key must be exactly 32 bytes")
  }

  /** The key in use and the fallbacks, newest first. */
  datatype Keys = Keys(current: Key, previous: seq<Key>) {
    function Ring(): seq<Key> {
      [current] + previous
    }
  }

  /** The keys of a list of entries; blank entries are skipped, a malformed one is an error. */
  function DecodeEntries(entries: seq<string>): Result<seq<Key>> {
    if entries == [] then Ok([])
    else
      var entry := TrimSpace(entries[0]);
      if entry == "" then DecodeEntries(entries[1..])
      else match DecodeKey(entry)
        case Err(e) => Err(e)
        case Ok(k) =>
          match DecodeEntries(entries[1..])
          case Err(e) => Err(e)
          case Ok(rest) => Ok([k] + rest)
  }

  /** The reading half of loadOrCreateKeyring. */
  function ParseKeyring(text: string): Result<Keys> {
    var lines := Split(TrimSpace(text), "\n");
    if TrimSpace(lines[0]) == "" then Err("keyring file is empty")
    else match DecodeKey(TrimSpace(lines[0]))
      case Err(e) => Err(e)
      case Ok(current) =>
        match DecodeEntries(lines[1..])
        case Err(e) => Err(e)
        case Ok(previous) => Ok(Keys(current, previous))
  }

  /** The text RotateKeyring writes for a new key over the existing file, if any. */
  function RotatedText(file: Option<string>, k: Key): string {
    var existing := if file.Some? then TrimSpace(file.value) else "";
    EncodeKey(k) + "\n" + if existing != "" then existing + "\n" else ""
  }

  /** DIRIO_ENCRYPTION_KEY together with DIRIO_PREVIOUS_ENCRYPTION_KEYS. */
  function ParseEnvironment(key: string, previous: string): Result<Keys> {
    match DecodeKey(key)
    case Err(e) => Err(e)
    case Ok(current) =>
      match DecodeEntries(if previous == "" then [] else Split(previous, ","))
      case Err(e) => Err(e)
      case Ok(keys) => Ok(Keys(current, keys))
  }

  /** A key text reads back exactly when it spells a key of full length. */
  lemma KeyRoundTrip(k: Key)
    ensures IsKey(k) ==> DecodeKey(EncodeKey(k)) == Ok(k)
    ensures !IsKey(k) ==> DecodeKey(EncodeKey(k)).Err?
  {
    RoundTrip(k);
    assert EncodeKey(k)[|KEY_PREFIX|..] == Encode(k);
  }

  /** Nothing else is a key text: the prefix, then the base64 of 32 bytes, read as leniently as base64 is. */
  lemma KeyTextForm(s: string)
    requires DecodeKey(s).Ok?
    ensures |DecodeKey(s).value| == 32
    ensures exists body :: s == "base64:" + body && Decode(body) == Some(DecodeKey(s).value)
  {
    var body := s[|KEY_PREFIX|..];
    assert s == "base64:" + body;
  }

  /** A key text is one trimmed line without commas, so neither file nor variable syntax can split it. */
  lemma KeyTextIsPlain(k: Key)
    ensures var s := EncodeKey(k);
            s != "" && '\n' !in s && ',' !in s && Trimmed(s) && TrimSpace(s) == s
  {
    var s := EncodeKey(k);
    EncodeAlphabet(k);
    forall i | 0 <= i < |s| ensures s[i] != '\n' && s[i] != ',' && !IsSpace(s[i]) {
      if i >= |KEY_PREFIX| {
        assert s[i] == Encode(k)[i - |KEY_PREFIX|];
      } else {
        assert s[i] == KEY_PREFIX[i];
      }
    }
    TrimSpaceOfTrimmed(s);
  }

  lemma SplitHead(s: string, c: char)
    requires s != "" && s[0] != c
    ensures Split(s, [c])[0] != "" && Split(s, [c])[0][0] == s[0]
  {
  }

  lemma {:induction false} DecodeEntriesCons(k: Key, rest: seq<string>)
    requires IsKey(k)
    ensures DecodeEntries([EncodeKey(k)] + rest) ==
            match DecodeEntries(rest) case Err(e) => Err(e) case Ok(ks) => Ok([k] + ks)
  {
    KeyRoundTrip(k);
    KeyTextIsPlain(k);
    assert ([EncodeKey(k)] + rest)[1..] == rest;
  }

  /** Two readings of one list, in a row. */
  function Both(l: Result<seq<Key>>, r: Result<seq<Key>>): Option<seq<Key>> {
    if l.Ok? && r.Ok? then Some(l.value + r.value) else None
  }

  function Value(r: Result<seq<Key>>): Option<seq<Key>> {
    if r.Ok? then Some(r.value) else None
  }

  lemma DecodeEntriesStep(entry: string, rest: seq<string>)
    ensures var text := TrimSpace(entry);
            Value(DecodeEntries([entry] + rest)) ==
            if text == "" then Value(DecodeEntries(rest))
            else if DecodeKey(text).Err? then None
            else Both(Ok([DecodeKey(text).value]), DecodeEntries(rest))
  {
    assert ([entry] + rest)[1..] == rest;
  }

  lemma {:induction false} DecodeEntriesConcat(xs: seq<string>, ys: seq<string>)
    ensures Value(DecodeEntries(xs + ys)) == Both(DecodeEntries(xs), DecodeEntries(ys))
  {
    if xs == [] {
      assert xs + ys == ys;
      assert DecodeEntries(ys).Ok? ==> [] + DecodeEntries(ys).value == DecodeEntries(ys).value;
    } else {
      assert xs == [xs[0]] + xs[1..] && xs + ys == [xs[0]] + (xs[1..] + ys);
      DecodeEntriesStep(xs[0], xs[1..]);
      DecodeEntriesStep(xs[0], xs[1..] + ys);
      DecodeEntriesConcat(xs[1..], ys);
      if DecodeEntries(xs).Ok? && DecodeEntries(ys).Ok? && TrimSpace(xs[0]) != "" {
        Associate([DecodeKey(TrimSpace(xs[0])).value], DecodeEntries(xs[1..]).value, DecodeEntries(ys).value);
      }
    }
  }

  lemma Associate(xs: seq<Key>, ys: seq<Key>, zs: seq<Key>)
    ensures xs + (ys + zs) == (xs + ys) + zs
  {
  }

  /** One entry: white space around it does not matter, a blank one adds nothing, a malformed one is an error. */
  lemma SingleEntry(pre: string, core: string, post: string)
    requires Blank(pre) && Blank(post) && Trimmed(core)
    ensures DecodeEntries([pre + core + post]) ==
            if core == "" then Ok([])
            else match DecodeKey(core) case Err(e) => Err(e) case Ok(k) => Ok([k])
  {
    TrimSpaceOfPadded(pre, core, post);
    assert [pre + core + post][1..] == [];
    assert DecodeKey(core).Ok? ==> [DecodeKey(core).value] + [] == [DecodeKey(core).value];
  }

  /** Every entry is blank or decodes on its own. */
  predicate EntriesDecode(entries: seq<string>) {
    forall i | 0 <= i < |entries| :: Blank(entries[i]) || DecodeKey(TrimSpace(entries[i])).Ok?
  }

  lemma {:induction false} EntriesDecodeExactly(entries: seq<string>)
    ensures DecodeEntries(entries).Ok? <==> EntriesDecode(entries)
  {
    if entries != [] {
      EntriesDecodeExactly(entries[1..]);
      assert entries == [entries[0]] + entries[1..];
      DecodeEntriesStep(entries[0], entries[1..]);
      assert forall i | 0 < i < |entries| :: entries[i] == entries[1..][i - 1];
    }
  }

  /** The entries of a list count in order, whatever blank ones stand between them. */
  lemma BlankEntriesSkipped(xs: seq<Key>, blank: string, ys: seq<Key>)
    requires Blank(blank)
    requires (forall i | 0 <= i < |xs| :: IsKey(xs[i])) && forall i | 0 <= i < |ys| :: IsKey(ys[i])
    ensures DecodeEntries(EncodeAll(xs) + [blank] + EncodeAll(ys)) == Ok(xs + ys)
  {
    DecodeAll(xs);
    DecodeAll(ys);
    SingleEntry(blank, "", "");
    assert blank + "" + "" == blank;
    DecodeEntriesConcat(EncodeAll(xs), [blank]);
    DecodeEntriesConcat(EncodeAll(xs) + [blank], EncodeAll(ys));
    assert xs + [] == xs;
  }

  /** How the trimmed core of a keyring text reads: all its lines, the first one never blank. */
  lemma CoreEntries(core: string)
    requires core != "" && Trimmed(core)
    ensures ParseKeyring(core).Ok? <==> DecodeEntries(Split(core, "\n")).Ok?
    ensures ParseKeyring(core).Ok? ==> DecodeEntries(Split(core, "\n")).value == ParseKeyring(core).value.Ring()
  {
    TrimSpaceOfTrimmed(core);
    SplitHead(core, '\n');
    var lines := Split(core, "\n");
    assert !IsSpace(lines[0][0]);
    assert !Blank(lines[0]);
  }

  /** Rotation prepends: whatever white space and blank lines the old text has, the new text parses
      iff the old one did or held nothing, to the new key over the old ring. */
  lemma RotationPrepends(text: string, k: Key)
    requires IsKey(k)
    ensures var old_, new_ := ParseKeyring(text), ParseKeyring(RotatedText(Some(text), k));
            && (new_.Ok? <==> Blank(text) || old_.Ok?)
            && (Blank(text) ==> new_ == Ok(Keys(k, [])))
            && (old_.Ok? ==> new_ == Ok(Keys(k, old_.value.Ring())))
  {
    if Blank(text) {
      FreshTextParses(k);
      assert RotatedText(Some(text), k) == EncodeKey(k) + "\n";
      BlankDoesNotParse(text);
    } else {
      PrependedParses(TrimSpace(text), k);
      CoreEntries(TrimSpace(text));
      ParseOfTrimmed(text);
      RotatedOverCore(text, k);
    }
  }

  lemma BlankDoesNotParse(text: string)
    requires Blank(text)
    ensures ParseKeyring(text).Err?
  {
  }

  lemma ParseOfTrimmed(text: string)
    ensures ParseKeyring(TrimSpace(text)) == ParseKeyring(text)
  {
    TrimSpaceOfTrimmed(TrimSpace(text));
  }

  lemma RotatedOverCore(text: string, k: Key)
    requires !Blank(text)
    ensures RotatedText(Some(text), k) == EncodeKey(k) + "\n" + TrimSpace(text) + "\n"
  {
  }

  lemma PrependedText(core: string, k: Key)
    requires core != "" && Trimmed(core)
    ensures TrimSpace(EncodeKey(k) + "\n" + core + "\n") == EncodeKey(k) + "\n" + core
  {
    KeyTextIsPlain(k);
    var body := EncodeKey(k) + "\n" + core;
    assert body[0] == EncodeKey(k)[0] && body[|body| - 1] == core[|core| - 1];
    TrimSpaceOfPadded("", body, "\n");
    assert "" + body + "\n" == body + "\n";
  }

  lemma PrependedLines(core: string, k: Key)
    requires core != "" && Trimmed(core)
    ensures Split(TrimSpace(EncodeKey(k) + "\n" + core + "\n"), "\n") == [EncodeKey(k)] + Split(core, "\n")
  {
    PrependedText(core, k);
    KeyTextIsPlain(k);
    SplitCons(EncodeKey(k), '\n', core);
  }

  lemma PrependedParses(core: string, k: Key)
    requires IsKey(k) && core != "" && Trimmed(core)
    ensures ParseKeyring(EncodeKey(k) + "\n" + core + "\n") ==
            match DecodeEntries(Split(core, "\n")) case Err(e) => Err(e) case Ok(ks) => Ok(Keys(k, ks))
  {
    PrependedLines(core, k);
    KeyTextIsPlain(k);
    KeyRoundTrip(k);
    assert ([EncodeKey(k)] + Split(core, "\n"))[1..] == Split(core, "\n");
  }

  lemma FreshLines(k: Key)
    ensures TrimSpace(EncodeKey(k) + "\n") == EncodeKey(k)
    ensures Split(EncodeKey(k), "\n") == [EncodeKey(k)]
  {
    KeyTextIsPlain(k);
    assert EncodeKey(k) + "\n" == "" + EncodeKey(k) + "\n";
    TrimSpaceOfPadded("", EncodeKey(k), "\n");
    SplitSingle(EncodeKey(k), '\n');
  }

  /** The text of a fresh keyring parses to its one key. */
  lemma FreshTextParses(k: Key)
    requires IsKey(k)
    ensures ParseKeyring(EncodeKey(k) + "\n") == Ok(Keys(k, []))
  {
    FreshLines(k);
    KeyTextIsPlain(k);
    KeyRoundTrip(k);
    assert [EncodeKey(k)][1..] == [];
  }

  /** Rotating where there is no file yet creates one. */
  lemma FirstRotation(k: Key)
    requires IsKey(k)
    ensures ParseKeyring(RotatedText(None, k)) == Ok(Keys(k, []))
  {
    FreshTextParses(k);
    assert RotatedText(None, k) == EncodeKey(k) + "\n";
  }

  /** Every key a text parses to has the full length. */
  lemma {:induction false} EntriesAreKeys(entries: seq<string>)
    ensures DecodeEntries(entries).Ok? ==>
            forall i | 0 <= i < |DecodeEntries(entries).value| :: IsKey(DecodeEntries(entries).value[i])
  {
    if entries != [] {
      EntriesAreKeys(entries[1..]);
    }
  }

  lemma ParsedAreKeys(text: string)
    requires ParseKeyring(text).Ok?
    ensures forall i | 0 <= i < |ParseKeyring(text).value.Ring()| :: IsKey(ParseKeyring(text).value.Ring()[i])
  {
    EntriesAreKeys(Split(TrimSpace(text), "\n")[1..]);
  }

  function RotateAll(text: string, keys: seq<Key>): string
    decreases |keys|
  {
    if keys == [] then text else RotateAll(RotatedText(Some(text), keys[0]), keys[1..])
  }

  function Reversed(keys: seq<Key>): seq<Key> {
    if keys == [] then [] else Reversed(keys[1..]) + [keys[0]]
  }

  lemma Regroup(xs: seq<Key>, k: Key, ys: seq<Key>)
    ensures xs + ([k] + ys) == xs + [k] + ys
  {
  }

  predicate HoldsRing(text: string, ring: seq<Key>) {
    ParseKeyring(text).Ok? && ParseKeyring(text).value.Ring() == ring
  }

  lemma RotationExtends(text: string, ring: seq<Key>, k: Key)
    requires HoldsRing(text, ring) && IsKey(k)
    ensures HoldsRing(RotatedText(Some(text), k), [k] + ring)
  {
    RotationPrepends(text, k);
  }

  /** After n rotations the ring is the n new keys, newest first, over the ring before. */
  lemma {:induction false} RotationsStack(text: string, ring: seq<Key>, keys: seq<Key>)
    requires HoldsRing(text, ring)
    requires forall i | 0 <= i < |keys| :: IsKey(keys[i])
    ensures HoldsRing(RotateAll(text, keys), Reversed(keys) + ring)
    decreases |keys|
  {
    if keys == [] {
      assert [] + ring == ring;
    } else {
      RotationExtends(text, ring, keys[0]);
      RotationsStack(RotatedText(Some(text), keys[0]), [keys[0]] + ring, keys[1..]);
      Regroup(Reversed(keys[1..]), keys[0], ring);
    }
  }

  function EncodeAll(keys: seq<Key>): seq<string> {
    seq(|keys|, i requires 0 <= i < |keys| => EncodeKey(keys[i]))
  }

  lemma {:induction false} DecodeAll(keys: seq<Key>)
    requires forall i | 0 <= i < |keys| :: IsKey(keys[i])
    ensures DecodeEntries(EncodeAll(keys)) == Ok(keys)
  {
    if keys == [] {
      assert EncodeAll(keys) == [];
    } else {
      assert EncodeAll(keys) == [EncodeKey(keys[0])] + EncodeAll(keys[1..]);
      DecodeAll(keys[1..]);
      DecodeEntriesCons(keys[0], EncodeAll(keys[1..]));
      assert keys == [keys[0]] + keys[1..];
    }
  }

  /** Key texts can be joined by either separator. */
  lemma KeyTextsArePlain(keys: seq<Key>)
    ensures forall i | 0 <= i < |keys| ::
              var s := EncodeAll(keys)[i]; s != "" && '\n' !in s && ',' !in s && Trimmed(s)
  {
    forall i | 0 <= i < |keys|
      ensures var s := EncodeAll(keys)[i]; s != "" && '\n' !in s && ',' !in s && Trimmed(s)
    {
      KeyTextIsPlain(keys[i]);
    }
  }

  lemma PreviousVariableDecodes(keys: seq<Key>)
    requires forall i | 0 <= i < |keys| :: IsKey(keys[i])
    ensures var raw := Join(EncodeAll(keys), ",");
            DecodeEntries(if raw == "" then [] else Split(raw, ",")) == Ok(keys)
  {
    DecodeAll(keys);
    if keys == [] {
      assert EncodeAll(keys) == [];
    } else {
      KeyTextsArePlain(keys);
      SplitOfJoin(EncodeAll(keys), ',');
      JoinNotEmpty(EncodeAll(keys), ",");
    }
  }

  lemma KeyringLinesParse(keys: Keys)
    requires forall i | 0 <= i < |keys.Ring()| :: IsKey(keys.Ring()[i])
    ensures ParseKeyring(Join(EncodeAll(keys.Ring()), "\n")) == Ok(keys)
  {
    var lines := EncodeAll(keys.Ring());
    KeyTextsArePlain(keys.Ring());
    SplitOfJoin(lines, '\n');
    JoinTrimmed(lines, "\n");
    CoreEntries(Join(lines, "\n"));
    DecodeAll(keys.Ring());
    RingDetermines(ParseKeyring(Join(lines, "\n")).value, keys);
  }

  lemma ReturnedEntry(s: string)
    requires Trimmed(s)
    ensures TrimSpace(s + "\r") == TrimSpace(s)
  {
    TrimSpaceOfPadded("", s, "\r");
    TrimSpaceOfTrimmed(s);
    assert "" + s + "\r" == s + "\r";
  }

  lemma {:induction false} ReturnedEntriesDecode(entries: seq<string>)
    requires forall i | 0 <= i < |entries| :: Trimmed(entries[i])
    ensures Value(DecodeEntries(Returned(entries))) == Value(DecodeEntries(entries))
  {
    if |entries| > 1 {
      ReturnedEntriesDecode(entries[1..]);
      ReturnedEntry(entries[0]);
      DecodeEntriesStep(entries[0] + "\r", Returned(entries[1..]));
      DecodeEntriesStep(entries[0], entries[1..]);
      assert entries == [entries[0]] + entries[1..];
    }
  }

  /** A keyring saved with carriage returns at its line ends loads the same keys. */
  lemma CarriageReturnsIgnored(keys: Keys)
    requires forall i | 0 <= i < |keys.Ring()| :: IsKey(keys.Ring()[i])
    ensures ParseKeyring(Join(EncodeAll(keys.Ring()), "\r\n")) == Ok(keys)
  {
    var text := Join(EncodeAll(keys.Ring()), "\r\n");
    KeyTextsArePlain(keys.Ring());
    JoinTrimmed(EncodeAll(keys.Ring()), "\r\n");
    JoinOfReturned(EncodeAll(keys.Ring()));
    ReturnedEntriesDecode(EncodeAll(keys.Ring()));
    DecodeAll(keys.Ring());
    SplitOfJoin(Returned(EncodeAll(keys.Ring())), '\n');
    CoreEntries(text);
    RingDetermines(ParseKeyring(text).value, keys);
  }

  lemma RingDetermines(a: Keys, b: Keys)
    requires a.Ring() == b.Ring()
    ensures a == b
  {
    assert a.current == a.Ring()[0] && a.previous == a.Ring()[1..];
    assert b.current == b.Ring()[0] && b.previous == b.Ring()[1..];
  }

  /** The environment variables hold the same keys as the keyring file: moving the lines of a keyring
      to the two variables, joined by commas, loads the same manager. */
  lemma EnvironmentAgreesWithKeyring(keys: Keys)
    requires forall i | 0 <= i < |keys.Ring()| :: IsKey(keys.Ring()[i])
    ensures ParseEnvironment(EncodeKey(keys.current), Join(EncodeAll(keys.previous), ",")) == Ok(keys)
    ensures ParseKeyring(Join(EncodeAll(keys.Ring()), "\n")) == Ok(keys)
  {
    assert keys.current == keys.Ring()[0] && keys.previous == keys.Ring()[1..];
    KeyRoundTrip(keys.current);
    PreviousVariableDecodes(keys.previous);
    KeyringLinesParse(keys);
  }

  lemma JoinNotEmpty(parts: seq<string>, sep: string)
    requires |parts| >= 1 && parts[0] != ""
    ensures Join(parts, sep) != ""
  {
  }

  lemma {:induction false} JoinTrimmed(parts: seq<string>, sep: string)
    requires |parts| >= 1
    requires forall i | 0 <= i < |parts| :: parts[i] != "" && Trimmed(parts[i])
    ensures Join(parts, sep) != "" && Trimmed(Join(parts, sep))
  {
    if |parts| > 1 {
      JoinTrimmed(parts[1..], sep);
      var rest := Join(parts[1..], sep);
      var s := parts[0] + sep + rest;
      assert s[0] == parts[0][0] && s[|s| - 1] == rest[|rest| - 1];
    }
  }
}
