/** The versioned keyring as a state machine on values: what each operation does to the
    policies, the cipher cache and the seal. Class Keyring is proved against these functions.
    Random bytes (None when the generator fails) and clock readings are parameters. */
module KeyringModel {
  import opened Wire
  import opened Envelope

  const KEY_SIZE: nat := 32

  datatype KeyringError =
    | Sealed | KeyNotFound | VersionNotFound | VersionBelowMin | AlreadyExists | DeletionNotAllowed
    | RandomFailed | InvalidKey | InvalidData

  datatype Reply<+T> = Done(value: T) | Failed(error: KeyringError)

  datatype KeyData = KeyData(version: int, key: bytes, kind: int, createdAt: int)

  datatype Policy = Policy(
    name: string, kind: int, latest: int, minDecryption: int, minEncryption: int, exportable: bool,
    derived: bool, convergent: bool, autoRotate: int, deletionAllowed: bool, keys: seq<KeyData>,
    createdAt: int, updatedAt: int)

  datatype State = State(policies: map<string, Policy>, ciphers: map<string, map<int, Cipher>>, isSealed: bool)

  /** The seven option constructors. */
  datatype KeyOption =
    | WithExportable(b: bool) | WithDerived(b: bool) | WithConvergentEncryption(b: bool)
    | WithMinDecryptionVersion(v: int) | WithMinEncryptionVersion(v: int)
    | WithAutoRotatePeriod(seconds: int) | WithDeletionAllowed(b: bool)

  function ApplyOption(p: Policy, opt: KeyOption): Policy {
    match opt
    case WithExportable(b) => p.(exportable := b)
    case WithDerived(b) => p.(derived := b)
    case WithConvergentEncryption(b) => p.(convergent := b)
    case WithMinDecryptionVersion(v) => p.(minDecryption := v)
    case WithMinEncryptionVersion(v) => p.(minEncryption := v)
    case WithAutoRotatePeriod(t) => p.(autoRotate := t)
    case WithDeletionAllowed(b) => p.(deletionAllowed := b)
  }

  function ApplyOptions(p: Policy, opts: seq<KeyOption>): Policy {
    if opts == [] then p else ApplyOption(ApplyOptions(p, opts[..|opts| - 1]), opts[|opts| - 1])
  }

  function NewPolicy(name: string, kind: int, created: int, updated: int): Policy {
    Policy(name, kind, 0, 1, 0, false, false, false, 0, false, [], created, updated)
  }

  function AddVersion(p: Policy, key: bytes, now: int): Policy {
    p.(latest := p.latest + 1, keys := p.keys + [KeyData(p.latest + 1, key, p.kind, now)])
  }

  /** The clock readings of CreateKey, in the order they are taken. */
  datatype Times = Times(created: int, updated: int, key: int)

  /** First key with the given version, in list order. */
  function FindKey(keys: seq<KeyData>, version: int): Option<KeyData> {
    if keys == [] then None
    else if keys[0].version == version then Some(keys[0])
    else FindKey(keys[1..], version)
  }

  /** Version 0 means the latest. */
  function Actual(p: Policy, version: int): int { if version == 0 then p.latest else version }

  const NewState := State(map[], map[], false)

  datatype Op =
    | CreateKey(name: string, kind: int, opts: seq<KeyOption>, random: Option<bytes>, times: Times)
    | GetCipher(name: string, version: int)
    | RotateKey(name: string, random: Option<bytes>, keyTime: int, now: int)
    | DeleteKey(name: string)
    | UpdateConfig(name: string, opts: seq<KeyOption>, now: int)
    | Seal
    | Unmarshal(data: Option<map<string, Policy>>)

  /** The generator fills the 32-byte buffer or fails. */
  predicate ValidOp(op: Op) {
    op.CreateKey? || op.RotateKey? ==> (op.random.Some? ==> |op.random.value| == KEY_SIZE)
  }

  function MakeCipher(keys: seq<KeyData>, version: int): Reply<Cipher> {
    match FindKey(keys, version)
    case None => Failed(VersionNotFound)
    case Some(k) =>
      match NewCipher(k.key, k.version)
      case Bad(_) => Failed(InvalidKey)
      case Good(c) => Done(c)
  }

  /** The cipher for a key version without looking at the cache. */
  function DirectCipher(s: State, name: string, version: int): Reply<Cipher> {
    if s.isSealed then Failed(Sealed)
    else if name !in s.policies then Failed(KeyNotFound)
    else MakeCipher(s.policies[name].keys, Actual(s.policies[name], version))
  }

  function Cached(s: State, name: string, version: int): Option<Cipher> {
    if name in s.ciphers && version in s.ciphers[name] then Some(s.ciphers[name][version]) else None
  }

  function Store(ciphers: map<string, map<int, Cipher>>, name: string, version: int, c: Cipher)
    : map<string, map<int, Cipher>>
  {
    ciphers[name := (if name in ciphers then ciphers[name] else map[])[version := c]]
  }

  /** GetCipher as written: the cache first, then the key list, then the cache is filled. */
  function CipherFor(s: State, name: string, version: int): (Reply<Cipher>, State) {
    if s.isSealed then (Failed(Sealed), s)
    else if name !in s.policies then (Failed(KeyNotFound), s)
    else
      var v := Actual(s.policies[name], version);
      match Cached(s, name, v)
      case Some(c) => (Done(c), s)
      case None =>
        match MakeCipher(s.policies[name].keys, v)
        case Failed(e) => (Failed(e), s)
        case Done(c) => (Done(c), s.(ciphers := Store(s.ciphers, name, v, c)))
  }

  /** Which error, if any, an operation reports. */
  function Failure(s: State, op: Op): Option<KeyringError> {
    match op
    case Seal => None
    case Unmarshal(data) => if data.None? then Some(InvalidData) else None
    case GetCipher(name, version) =>
      var r := CipherFor(s, name, version).0;
      if r.Failed? then Some(r.error) else None
    case CreateKey(name, _, _, random, _) =>
      if s.isSealed then Some(Sealed)
      else if name in s.policies then Some(AlreadyExists)
      else if random.None? then Some(RandomFailed) else None
    case RotateKey(name, random, _, _) =>
      if s.isSealed then Some(Sealed)
      else if name !in s.policies then Some(KeyNotFound)
      else if random.None? then Some(RandomFailed) else None
    case DeleteKey(name) =>
      if s.isSealed then Some(Sealed)
      else if name !in s.policies then Some(KeyNotFound)
      else if !s.policies[name].deletionAllowed then Some(DeletionNotAllowed) else None
    case UpdateConfig(name, _, _) =>
      if s.isSealed then Some(Sealed) else if name !in s.policies then Some(KeyNotFound) else None
  }

  /** A new policy with options applied and its first key. */
  function FirstVersion(name: string, kind: int, opts: seq<KeyOption>, key: bytes, t: Times): Policy {
    AddVersion(ApplyOptions(NewPolicy(name, kind, t.created, t.updated), opts), key, t.key)
  }

  function Rotated(p: Policy, key: bytes, keyTime: int, now: int): Policy {
    AddVersion(p, key, keyTime).(updatedAt := now)
  }

  function Configured(p: Policy, opts: seq<KeyOption>, now: int): Policy {
    ApplyOptions(p, opts).(updatedAt := now)
  }

  function Step(s: State, op: Op): State {
    if Failure(s, op).Some? then s
    else match op
      case CreateKey(name, kind, opts, random, t) =>
        s.(policies := s.policies[name := FirstVersion(name, kind, opts, random.value, t)])
      case GetCipher(name, version) => CipherFor(s, name, version).1
      case RotateKey(name, random, keyTime, now) =>
        s.(policies := s.policies[name := Rotated(s.policies[name], random.value, keyTime, now)])
      case DeleteKey(name) => s.(policies := s.policies - {name}, ciphers := s.ciphers - {name})
      case UpdateConfig(name, opts, now) =>
        s.(policies := s.policies[name := Configured(s.policies[name], opts, now)])
      case Seal => State(map[], map[], true)
      case Unmarshal(data) => State(data.value, map[], false)
  }

  ghost function Run(s: State, ops: seq<Op>): State
    decreases |ops|
  {
    if ops == [] then s else Run(Step(s, ops[0]), ops[1..])
  }

  lemma {:induction false} OptionsKeepKeys(p: Policy, opts: seq<KeyOption>)
    ensures var q := ApplyOptions(p, opts); q.keys == p.keys && q.latest == p.latest && q.kind == p.kind
    decreases |opts|
  {
    hide ApplyOption;
    if opts != [] {
      OptionsKeepKeys(p, opts[..|opts| - 1]);
      OptionKeepsKeys(ApplyOptions(p, opts[..|opts| - 1]), opts[|opts| - 1]);
    }
  }

  lemma OptionKeepsKeys(p: Policy, opt: KeyOption)
    ensures var q := ApplyOption(p, opt); q.keys == p.keys && q.latest == p.latest && q.kind == p.kind
  {}

  // ---------------------------------------------------------------- the cache agrees with the keys

  /** Every cached cipher is what the first key of its version makes. */
  ghost predicate CacheOk(s: State) {
    forall name, v | name in s.ciphers && v in s.ciphers[name] :: EntryOk(s, name, v)
  }

  ghost predicate EntryOk(s: State, name: string, v: int)
    requires name in s.ciphers && v in s.ciphers[name]
  {
    && name in s.policies
    && FindKey(s.policies[name].keys, v).Some?
    && (var k := FindKey(s.policies[name].keys, v).value; NewCipher(k.key, k.version) == Good(s.ciphers[name][v]))
  }

  lemma {:induction false} FindInLonger(keys: seq<KeyData>, more: seq<KeyData>, version: int)
    requires FindKey(keys, version).Some?
    ensures FindKey(keys + more, version) == FindKey(keys, version)
    decreases |keys|
  {
    assert (keys + more)[0] == keys[0];
    if keys[0].version != version {
      assert (keys + more)[1..] == keys[1..] + more;
      FindInLonger(keys[1..], more, version);
    }
  }

  /** A state whose keys for `name` only grew keeps the cached entries of `name`. */
  lemma EntryKept(s: State, s': State, name: string, v: int)
    requires name in s.ciphers && v in s.ciphers[name] && EntryOk(s, name, v)
    requires name in s'.ciphers && v in s'.ciphers[name] && s'.ciphers[name][v] == s.ciphers[name][v]
    requires name in s'.policies && s.policies[name].keys <= s'.policies[name].keys
    ensures EntryOk(s', name, v)
  {
    var a, b := s.policies[name].keys, s'.policies[name].keys;
    assert b == a + b[|a|..];
    FindInLonger(a, b[|a|..], v);
  }

  /** One step keeps the cache consistent, whatever Unmarshal is fed. */
  lemma StepKeepsCache(s: State, op: Op)
    requires CacheOk(s)
    ensures CacheOk(Step(s, op))
  {
    hide FindKey, NewCipher;
    var s' := Step(s, op);
    forall name, v | name in s'.ciphers && v in s'.ciphers[name] ensures EntryOk(s', name, v) {
      if name in s.ciphers && v in s.ciphers[name] && s'.ciphers[name][v] == s.ciphers[name][v] {
        assert EntryOk(s, name, v);
        KeysGrow(s, op, name);
        EntryKept(s, s', name, v);
      }
    }
  }

  /** Unless the key is deleted or the keyring replaced, its key list only grows at the end. */
  lemma KeysGrow(s: State, op: Op, name: string)
    requires name in s.policies && name in Step(s, op).policies
    requires !op.Seal? && (op.Unmarshal? ==> op.data.None?)
    ensures s.policies[name].keys <= Step(s, op).policies[name].keys
  {
    hide FindKey, NewCipher;
    if op.UpdateConfig? && op.name == name && !s.isSealed {
      OptionsKeepKeys(s.policies[name], op.opts);
    }
  }

  lemma {:induction false} RunKeepsCache(s: State, ops: seq<Op>)
    requires CacheOk(s)
    ensures CacheOk(Run(s, ops))
    decreases |ops|
  {
    hide CacheOk, Step;
    if ops != [] {
      StepKeepsCache(s, ops[0]);
      RunKeepsCache(Step(s, ops[0]), ops[1..]);
    }
  }

  /** In every reachable state GetCipher returns what a lookup without the cache would. */
  lemma CacheRefinement(ops: seq<Op>, name: string, version: int)
    ensures var s := Run(NewState, ops);
      && CipherFor(s, name, version).0 == DirectCipher(s, name, version)
      && CipherFor(s, name, version).1.policies == s.policies
  {
    hide Run;
    RunKeepsCache(NewState, ops);
    CacheAnswers(Run(NewState, ops), name, version);
  }

  lemma CacheAnswers(s: State, name: string, version: int)
    requires CacheOk(s)
    ensures CipherFor(s, name, version).0 == DirectCipher(s, name, version)
    ensures CipherFor(s, name, version).1.policies == s.policies
  {
    hide FindKey, NewCipher;
    if !s.isSealed && name in s.policies {
      var v := Actual(s.policies[name], version);
      if name in s.ciphers && v in s.ciphers[name] {
        assert EntryOk(s, name, v);
      }
    }
  }

  // ---------------------------------------------------------------- version density

  /** Versions are 1, 2, ... without gaps, the latest is the last, keys have 32 bytes. */
  ghost predicate Dense(p: Policy) {
    && p.latest == |p.keys| >= 1
    && forall i | 0 <= i < |p.keys| :: p.keys[i].version == i + 1 && |p.keys[i].key| == KEY_SIZE
  }

  ghost predicate AllDense(policies: map<string, Policy>) {
    forall name | name in policies :: Dense(policies[name])
  }

  /** Data handed to Unmarshal comes from a keyring of this kind. */
  ghost predicate GoodOp(op: Op) {
    ValidOp(op) && (op.Unmarshal? && op.data.Some? ==> AllDense(op.data.value))
  }

  lemma StepKeepsDense(s: State, op: Op)
    requires AllDense(s.policies) && GoodOp(op)
    ensures AllDense(Step(s, op).policies)
  {
    if op.CreateKey? {
      OptionsKeepKeys(NewPolicy(op.name, op.kind, op.times.created, op.times.updated), op.opts);
    }
    if op.UpdateConfig? && op.name in s.policies {
      OptionsKeepKeys(s.policies[op.name], op.opts);
      assert Dense(s.policies[op.name]);
    }
    if op.RotateKey? && op.name in s.policies {
      assert Dense(s.policies[op.name]);
    }
  }

  /** Over every run each policy has LatestVersion = |Keys| >= 1 and Keys[i].Version = i + 1. */
  lemma {:induction false} VersionDensity(s: State, ops: seq<Op>)
    requires AllDense(s.policies) && forall op | op in ops :: GoodOp(op)
    ensures AllDense(Run(s, ops).policies)
    decreases |ops|
  {
    hide AllDense, GoodOp, Step;
    if ops != [] {
      StepKeepsDense(s, ops[0]);
      VersionDensity(Step(s, ops[0]), ops[1..]);
    }
  }

  /** In a dense policy the key of version v is the v-th, and there is no other. */
  lemma {:induction false} FindDense(keys: seq<KeyData>, first: int, version: int)
    requires forall i | 0 <= i < |keys| :: keys[i].version == first + i
    ensures FindKey(keys, version)
      == if first <= version < first + |keys| then Some(keys[version - first]) else None
    decreases |keys|
  {
    if keys != [] && keys[0].version != version {
      FindDense(keys[1..], first + 1, version);
    }
  }

  // ---------------------------------------------------------------- seal and restore

  /** A sealed keyring stays as it is through any operations but a successful Unmarshal, and
      everything else that can fail says that it is sealed. */
  lemma {:induction false} SealedUntilUnmarshal(s: State, ops: seq<Op>)
    requires forall op | op in ops :: op.Unmarshal? ==> op.data.None?
    ensures Run(Step(s, Seal), ops) == State(map[], map[], true)
    ensures forall op | op in ops && !op.Seal? && !op.Unmarshal? :: Failure(Step(s, Seal), op) == Some(Sealed)
    decreases |ops|
  {
    if ops != [] {
      assert Step(Step(s, Seal), ops[0]) == Step(s, Seal);
      SealedUntilUnmarshal(s, ops[1..]);
    }
  }

  /** What Marshal wrote, Unmarshal brings back after a seal: the same policies, and the same
      cipher for every name and version. */
  lemma SealAndRestore(ops: seq<Op>, name: string, version: int)
    requires !Run(NewState, ops).isSealed
    ensures var s := Run(NewState, ops);
      var s' := Step(Step(s, Seal), Unmarshal(Some(s.policies)));
      && s'.policies == s.policies && !s'.isSealed && s'.ciphers == map[]
      && CipherFor(s', name, version).0 == CipherFor(s, name, version).0
  {
    hide Run;
    RunKeepsCache(NewState, ops);
    var s := Run(NewState, ops);
    var s' := Step(Step(s, Seal), Unmarshal(Some(s.policies)));
    CacheAnswers(s, name, version);
    CacheAnswers(s', name, version);
  }

  // ---------------------------------------------------------------- versions in use

  /** GetKeyVersion: like the lookup of GetCipher, but it also enforces the minimum version. */
  function KeyVersionFor(s: State, name: string, version: int): Reply<KeyData> {
    if s.isSealed then Failed(Sealed)
    else if name !in s.policies then Failed(KeyNotFound)
    else
      var p := s.policies[name];
      var v := Actual(p, version);
      if v < p.minDecryption then Failed(VersionBelowMin)
      else match FindKey(p.keys, v)
        case None => Failed(VersionNotFound)
        case Some(k) => Done(k)
  }

  /** Both lookups serve exactly the versions 1 to latest, except that GetCipher does not
      look at the minimum decryption version: they agree exactly when the version reaches it. */
  lemma VersionWindow(ops: seq<Op>, name: string, version: int)
    requires forall op | op in ops :: GoodOp(op)
    requires var s := Run(NewState, ops); !s.isSealed && name in s.policies
    ensures var s := Run(NewState, ops);
      var p := s.policies[name];
      var v := Actual(p, version);
      && (CipherFor(s, name, version).0.Done? <==> 1 <= v <= p.latest)
      && (KeyVersionFor(s, name, version).Done? <==> p.minDecryption <= v && 1 <= v <= p.latest)
      && (CipherFor(s, name, version).0.Done? ==>
            (KeyVersionFor(s, name, version).Done? <==> v >= p.minDecryption))
  {
    hide Run, FindKey, CipherFor;
    VersionDensity(NewState, ops);
    RunKeepsCache(NewState, ops);
    var s := Run(NewState, ops);
    CacheAnswers(s, name, version);
    var p := s.policies[name];
    assert Dense(p);
    FindDense(p.keys, 1, Actual(p, version));
  }

  /** For instance, a key created with minimum decryption version 2: version 1 decrypts, though
      GetKeyVersion refuses it. */
  lemma BelowMinimumStillDecrypts(key: bytes, t: Times)
    requires |key| == KEY_SIZE
    ensures var op := CreateKey("k", 0, [WithMinDecryptionVersion(2)], Some(key), t);
      var s := Run(NewState, [op]);
      CipherFor(s, "k", 1).0.Done? && KeyVersionFor(s, "k", 1) == Failed(VersionBelowMin)
  {
    var blank := NewPolicy("k", 0, t.created, t.updated);
    OneOption(blank, WithMinDecryptionVersion(2));
    var op := CreateKey("k", 0, [WithMinDecryptionVersion(2)], Some(key), t);
    assert Run(NewState, [op]) == Step(NewState, op) by { assert [op][1..] == []; }
    var p := AddVersion(blank.(minDecryption := 2), key, t.key);
    assert Step(NewState, op).policies["k"] == p;
    assert FindKey(p.keys, 1) == Some(p.keys[0]);
  }

  lemma OneOption(p: Policy, opt: KeyOption)
    ensures ApplyOptions(p, [opt]) == ApplyOption(p, opt)
  {
    assert [opt][..|[opt]| - 1] == [];
  }

  // ---------------------------------------------------------------- old ciphertexts

  /** The operation neither seals, nor replaces the keyring, nor deletes `name`. */
  predicate KeepsName(s: State, op: Op, name: string) {
    && !op.Seal? && (op.Unmarshal? ==> op.data.None?)
    && (op == DeleteKey(name) ==> Failure(s, op).Some?)
  }

  ghost predicate Survives(s: State, ops: seq<Op>, name: string)
    decreases |ops|
  {
    ops == [] || (KeepsName(s, ops[0], name) && Survives(Step(s, ops[0]), ops[1..], name))
  }

  lemma NameStays(s: State, op: Op, name: string)
    requires name in s.policies && !s.isSealed && KeepsName(s, op, name)
    ensures var s' := Step(s, op);
      name in s'.policies && !s'.isSealed && s.policies[name].keys <= s'.policies[name].keys
  {
    hide FindKey, NewCipher;
    KeysGrow(s, op, name);
  }

  lemma {:induction false} KeysGrowAlong(s: State, ops: seq<Op>, name: string)
    requires name in s.policies && !s.isSealed && Survives(s, ops, name)
    ensures var s' := Run(s, ops);
      name in s'.policies && !s'.isSealed && s.policies[name].keys <= s'.policies[name].keys
    decreases |ops|
  {
    hide Step, KeepsName;
    if ops != [] {
      NameStays(s, ops[0], name);
      KeysGrowAlong(Step(s, ops[0]), ops[1..], name);
    }
  }

  /** A version once found is found with the same key after the list has grown. */
  lemma SameCipherLater(s: State, s': State, name: string, v: int, c: Cipher)
    requires CacheOk(s') && v != 0 && DirectCipher(s, name, v) == Done(c)
    requires name in s'.policies && !s'.isSealed && s.policies[name].keys <= s'.policies[name].keys
    ensures CipherFor(s', name, v).0 == Done(c)
  {
    hide CipherFor, FindKey, NewCipher;
    var a, b := s.policies[name].keys, s'.policies[name].keys;
    assert b == a + b[|a|..];
    FindInLonger(a, b[|a|..], v);
    CacheAnswers(s', name, v);
  }

  /** Old ciphertexts stay readable: what is encrypted with the latest version of a key is
      recovered, after any later operations that keep the key, by parsing its version and
      asking for that version's cipher. */
  lemma OldCiphertextsReadable(
    a: Aead, before: seq<Op>, after: seq<Op>, name: string, plain: bytes, aad: bytes, nonce: bytes, c: Cipher)
    requires IsAead(a) && |nonce| == NONCE_SIZE && plain != []
    requires forall op | op in before :: GoodOp(op)
    requires CipherFor(Run(NewState, before), name, 0).0 == Done(c) && c.version < TWO_63
    requires Survives(CipherFor(Run(NewState, before), name, 0).1, after, name)
    ensures EncryptWithNonce(a, c, plain, aad, nonce).Good?
    ensures
      var text := EncryptWithNonce(a, c, plain, aad, nonce).value;
      var later := Run(CipherFor(Run(NewState, before), name, 0).1, after);
      && ParseCiphertext(text).Good?
      && (var v := ParseCiphertext(text).value.0;
          && CipherFor(later, name, v).0 == Done(c)
          && Decrypt(a, c, text, aad) == Good((plain, v)))
  {
    hide Run, CipherFor, Survives, FindKey, EncryptWithNonce, ParseCiphertext, Decrypt;
    var s := Run(NewState, before);
    VersionDensity(NewState, before);
    RunKeepsCache(NewState, before);
    CacheAnswers(s, name, 0);
    var s1 := CipherFor(s, name, 0).1;
    CipherStep(s, name, 0);
    StepKeepsCache(s, GetCipher(name, 0));
    RunKeepsCache(s1, after);
    KeysGrowAlong(s1, after, name);
    var p := s.policies[name];
    assert Dense(p);
    FindDense(p.keys, 1, p.latest);
    EnvelopeRoundTrip(a, c, plain, aad, nonce);
    SameCipherLater(s, Run(s1, after), name, p.latest, c);
  }

  lemma CipherStep(s: State, name: string, version: int)
    ensures CipherFor(s, name, version).0.Done? ==>
      CipherFor(s, name, version).1 == Step(s, GetCipher(name, version))
    ensures CipherFor(s, name, version).1.isSealed == s.isSealed
  {}
}
