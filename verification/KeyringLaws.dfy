/** What the keyring operations mean for those who call them: which key a cipher holds, which
    setting an option sets, what a new or rotated key consists of, and when a key can go. */
module KeyringLaws {
  import opened Wire
  import opened Envelope
  import opened KeyringModel

  // ---------------------------------------------------------------- keys and ciphers

  /** Key `i` is the first of its version in the list. */
  ghost predicate FirstOf(keys: seq<KeyData>, version: int, i: nat) {
    && i < |keys| && keys[i].version == version
    && forall j | 0 <= j < i :: keys[j].version != version
  }

  lemma {:induction false} FindFirst(keys: seq<KeyData>, version: int)
    ensures match FindKey(keys, version)
      case None => forall i: nat :: !FirstOf(keys, version, i)
      case Some(k) => exists i: nat :: FirstOf(keys, version, i) && k == keys[i]
    decreases |keys|
  {
    if keys != [] {
      FindFirst(keys[1..], version);
      if keys[0].version == version {
        assert FirstOf(keys, version, 0);
      } else {
        forall i: nat ensures FirstOf(keys, version, i) <==> i > 0 && FirstOf(keys[1..], version, i - 1) {
          FirstShift(keys, version, i);
        }
        if FindKey(keys, version).Some? {
          var i: nat :| FirstOf(keys[1..], version, i) && FindKey(keys, version).value == keys[1..][i];
          assert FirstOf(keys, version, i + 1) && keys[i + 1] == keys[1..][i];
        }
      }
    }
  }

  lemma FirstShift(keys: seq<KeyData>, version: int, i: nat)
    requires keys != [] && keys[0].version != version
    ensures FirstOf(keys, version, i) <==> i > 0 && FirstOf(keys[1..], version, i - 1)
  {
    if i > 0 && FirstOf(keys[1..], version, i - 1) {
      assert keys[i] == keys[1..][i - 1];
      forall j | 0 <= j < i ensures keys[j].version != version {
        if j > 0 {
          assert keys[j] == keys[1..][j - 1];
        }
      }
    }
    if i > 0 && FirstOf(keys, version, i) {
      assert keys[1..][i - 1] == keys[i];
      assert forall j | 0 <= j < i - 1 :: keys[1..][j] == keys[j + 1];
    }
  }

  lemma FirstIsUnique(keys: seq<KeyData>, version: int, i: nat, j: nat)
    requires FirstOf(keys, version, i) && FirstOf(keys, version, j)
    ensures i == j
  {}

  /** Cipher `c` is made of key `i`, which is the first of version `v` and has a size that AES
      knows. */
  ghost predicate MadeOf(keys: seq<KeyData>, v: int, i: nat, c: Cipher) {
    && FirstOf(keys, v, i) && (|keys[i].key| == 16 || |keys[i].key| == 24 || |keys[i].key| == 32)
    && c.key == keys[i].key && c.version == v
  }

  ghost predicate Makes(keys: seq<KeyData>, v: int, c: Cipher) {
    exists i: nat :: MadeOf(keys, v, i, c)
  }

  /** In every reachable state, whatever data was ever loaded, GetCipher answers with the key
      bytes of the first key of the version asked for, the latest when that is 0, and answers
      so exactly when there is one of a proper size. */
  lemma CipherIsKey(ops: seq<Op>, name: string, version: int, c: Cipher)
    ensures var s := Run(NewState, ops);
      CipherFor(s, name, version).0 == Done(c) <==>
        && !s.isSealed && name in s.policies
        && (var p := s.policies[name]; Makes(p.keys, if version == 0 then p.latest else version, c))
  {
    hide Run, CipherFor;
    RunKeepsCache(NewState, ops);
    var s := Run(NewState, ops);
    CacheAnswers(s, name, version);
    if !s.isSealed && name in s.policies {
      var p := s.policies[name];
      MakeCipherExactly(p.keys, if version == 0 then p.latest else version, c);
    }
  }

  lemma MakeCipherExactly(keys: seq<KeyData>, v: int, c: Cipher)
    ensures MakeCipher(keys, v) == Done(c) <==> Makes(keys, v, c)
  {
    hide FindKey;
    FindFirst(keys, v);
    if FindKey(keys, v).Some? {
      var i: nat :| FirstOf(keys, v, i) && FindKey(keys, v).value == keys[i];
      forall j: nat | MadeOf(keys, v, j, c) ensures j == i {
        FirstIsUnique(keys, v, i, j);
      }
      assert MakeCipher(keys, v) == Done(c) ==> MadeOf(keys, v, i, c);
    }
  }

  /** In a keyring that was filled by its own operations, version v is served with key v - 1
      and no other, by GetCipher and by GetKeyVersion. */
  lemma ServedKeys(ops: seq<Op>, name: string, version: int, c: Cipher, k: KeyData)
    requires forall op | op in ops :: GoodOp(op)
    ensures var s := Run(NewState, ops);
      CipherFor(s, name, version).0 == Done(c) <==>
        && !s.isSealed && name in s.policies
        && (var keys := s.policies[name].keys;
            var v := if version == 0 then |keys| else version;
            1 <= v <= |keys| && c.version == v && c.key == keys[v - 1].key && |c.key| == 32)
    ensures var s := Run(NewState, ops);
      KeyVersionFor(s, name, version) == Done(k) <==>
        && !s.isSealed && name in s.policies
        && (var keys := s.policies[name].keys;
            var v := if version == 0 then |keys| else version;
            1 <= v <= |keys| && s.policies[name].minDecryption <= v && k == keys[v - 1])
  {
    hide Run, CipherFor, FindKey;
    VersionDensity(NewState, ops);
    RunKeepsCache(NewState, ops);
    var s := Run(NewState, ops);
    CacheAnswers(s, name, version);
    if !s.isSealed && name in s.policies {
      var p := s.policies[name];
      assert Dense(p);
      FindDense(p.keys, 1, if version == 0 then |p.keys| else version);
    }
  }

  /** A cipher once served is in the cache, and no other entry of the cache changes. */
  lemma Remembered(s: State, name: string, version: int, c: Cipher)
    requires CipherFor(s, name, version).0 == Done(c)
    ensures var (s', v) := (CipherFor(s, name, version).1, if version == 0 then s.policies[name].latest else version);
      && name in s'.ciphers && v in s'.ciphers[name] && s'.ciphers[name][v] == c
      && forall m, w | m != name || w != v :: Cached(s', m, w) == Cached(s, m, w)
  {
    hide MakeCipher;
  }

  // ---------------------------------------------------------------- options

  /** The policy has the value that the option carries, in the setting that it is for. */
  predicate Holds(p: Policy, opt: KeyOption) {
    match opt
    case WithExportable(b) => p.exportable == b
    case WithDerived(b) => p.derived == b
    case WithConvergentEncryption(b) => p.convergent == b
    case WithMinDecryptionVersion(v) => p.minDecryption == v
    case WithMinEncryptionVersion(v) => p.minEncryption == v
    case WithAutoRotatePeriod(t) => p.autoRotate == t
    case WithDeletionAllowed(b) => p.deletionAllowed == b
  }

  predicate SameSetting(a: KeyOption, b: KeyOption) {
    || (a.WithExportable? && b.WithExportable?) || (a.WithDerived? && b.WithDerived?)
    || (a.WithConvergentEncryption? && b.WithConvergentEncryption?)
    || (a.WithMinDecryptionVersion? && b.WithMinDecryptionVersion?)
    || (a.WithMinEncryptionVersion? && b.WithMinEncryptionVersion?)
    || (a.WithAutoRotatePeriod? && b.WithAutoRotatePeriod?)
    || (a.WithDeletionAllowed? && b.WithDeletionAllowed?)
  }

  /** The last option for the setting that `opt` is for. */
  function LastFor(opts: seq<KeyOption>, opt: KeyOption): Option<KeyOption> {
    if opts == [] then None
    else if SameSetting(opts[|opts| - 1], opt) then Some(opts[|opts| - 1])
    else LastFor(opts[..|opts| - 1], opt)
  }

  /** Nothing but settings differs. */
  ghost predicate SameButSettings(p: Policy, q: Policy) {
    && q.name == p.name && q.kind == p.kind && q.latest == p.latest && q.keys == p.keys
    && q.createdAt == p.createdAt && q.updatedAt == p.updatedAt
  }

  /** Each setting ends with the value of the last option for it, or keeps its value when there
      is none; nothing else changes. */
  lemma {:induction false} OptionsExactly(p: Policy, opts: seq<KeyOption>, opt: KeyOption)
    ensures var q := ApplyOptions(p, opts);
      && SameButSettings(p, q)
      && (Holds(q, opt) <==> match LastFor(opts, opt) case Some(last) => opt == last case None => Holds(p, opt))
    decreases |opts|
  {
    hide ApplyOption, SameSetting, Holds;
    if opts != [] {
      var init, last := opts[..|opts| - 1], opts[|opts| - 1];
      OptionsExactly(p, init, opt);
      OptionExactly(ApplyOptions(p, init), last, opt);
    }
  }

  lemma OptionExactly(p: Policy, o: KeyOption, opt: KeyOption)
    ensures var q := ApplyOption(p, o);
      && SameButSettings(p, q)
      && (Holds(q, opt) <==> if SameSetting(o, opt) then opt == o else Holds(p, opt))
  {}

  // ---------------------------------------------------------------- creating, rotating, updating

  /** The settings of a key created without options. */
  const DEFAULTS: set<KeyOption> := {
    WithExportable(false), WithDerived(false), WithConvergentEncryption(false), WithMinDecryptionVersion(1),
    WithMinEncryptionVersion(0), WithAutoRotatePeriod(0), WithDeletionAllowed(false)}

  /** A new key has version 1 made of the random bytes, the times given, and each setting from
      the last option for it or from the defaults. */
  lemma CreatedExactly(s: State, name: string, kind: int, opts: seq<KeyOption>, key: bytes, t: Times, opt: KeyOption)
    requires !s.isSealed && name !in s.policies
    ensures var s' := Step(s, CreateKey(name, kind, opts, Some(key), t));
      && name in s'.policies
      && (var p := s'.policies[name];
          && p.name == name && p.kind == kind && p.createdAt == t.created && p.updatedAt == t.updated
          && p.latest == 1 && p.keys == [KeyData(1, key, kind, t.key)]
          && (Holds(p, opt) <==> match LastFor(opts, opt) case Some(last) => opt == last case None => opt in DEFAULTS))
  {
    var blank := NewPolicy(name, kind, t.created, t.updated);
    OptionsExactly(blank, opts, opt);
    assert Holds(blank, opt) <==> opt in DEFAULTS;
  }

  /** Rotation appends one version made of the random bytes and moves the update time. */
  lemma RotatedExactly(s: State, name: string, key: bytes, keyTime: int, now: int, opt: KeyOption)
    requires !s.isSealed && name in s.policies
    ensures var s' := Step(s, RotateKey(name, Some(key), keyTime, now));
      && name in s'.policies
      && (var p, q := s.policies[name], s'.policies[name];
          && q.name == p.name && q.kind == p.kind && q.createdAt == p.createdAt && q.updatedAt == now
          && q.latest == p.latest + 1 && q.keys == p.keys + [KeyData(p.latest + 1, key, p.kind, keyTime)]
          && (Holds(q, opt) <==> Holds(p, opt)))
  {}

  lemma UpdatedExactly(s: State, name: string, opts: seq<KeyOption>, now: int, opt: KeyOption)
    requires !s.isSealed && name in s.policies
    ensures var s' := Step(s, UpdateConfig(name, opts, now));
      && name in s'.policies
      && (var p, q := s.policies[name], s'.policies[name];
          && q.updatedAt == now && SameButSettings(p.(updatedAt := now), q)
          && (Holds(q, opt) <==> match LastFor(opts, opt) case Some(last) => opt == last case None => Holds(p, opt)))
  {
    OptionsExactly(s.policies[name], opts, opt);
  }

  // ---------------------------------------------------------------- deleting

  predicate Protected(s: State, name: string) {
    !s.isSealed && name in s.policies && !s.policies[name].deletionAllowed
  }

  /** The operation neither seals, nor replaces the keyring, nor permits deletion of `name`. */
  predicate KeepsProtection(op: Op, name: string) {
    && !op.Seal? && (op.Unmarshal? ==> op.data.None?)
    && (op.UpdateConfig? && op.name == name ==> WithDeletionAllowed(true) !in op.opts)
  }

  lemma {:induction false} NoPermission(opts: seq<KeyOption>)
    requires WithDeletionAllowed(true) !in opts
    ensures LastFor(opts, WithDeletionAllowed(true)) != Some(WithDeletionAllowed(true))
    decreases |opts|
  {
    if opts != [] {
      assert opts[|opts| - 1] in opts;
      NoPermission(opts[..|opts| - 1]);
    }
  }

  lemma StepProtects(s: State, op: Op, name: string)
    requires Protected(s, name) && KeepsProtection(op, name)
    ensures Protected(Step(s, op), name)
  {
    hide FindKey, NewCipher, ApplyOptions;
    if op.UpdateConfig? && op.name == name {
      NoPermission(op.opts);
      OptionsExactly(s.policies[name], op.opts, WithDeletionAllowed(true));
    }
  }

  /** A key whose deletion is not allowed is there after every run that does not allow it,
      however often DeleteKey is called. */
  lemma {:induction false} ProtectedKeysStay(s: State, ops: seq<Op>, name: string)
    requires Protected(s, name) && forall op | op in ops :: KeepsProtection(op, name)
    ensures Protected(Run(s, ops), name)
    decreases |ops|
  {
    hide Step, Protected, KeepsProtection;
    if ops != [] {
      StepProtects(s, ops[0], name);
      ProtectedKeysStay(Step(s, ops[0]), ops[1..], name);
    }
  }

  /** A key whose deletion is allowed is gone after DeleteKey, its ciphers too. */
  lemma DeletedKeysGo(s: State, name: string, version: int)
    requires !s.isSealed && name in s.policies && s.policies[name].deletionAllowed
    ensures var s' := Step(s, DeleteKey(name));
      && name !in s'.policies && name !in s'.ciphers
      && CipherFor(s', name, version).0 == Failed(KeyNotFound)
      && KeyVersionFor(s', name, version) == Failed(KeyNotFound)
  {}

  /** An operation on one key leaves every other key and its cached ciphers alone. */
  lemma OthersUntouched(s: State, op: Op, name: string)
    requires !op.Seal? && !op.Unmarshal? && op.name != name
    ensures var s' := Step(s, op);
      && (name in s'.policies <==> name in s.policies) && (name in s.policies ==> s'.policies[name] == s.policies[name])
      && (name in s'.ciphers <==> name in s.ciphers) && (name in s.ciphers ==> s'.ciphers[name] == s.ciphers[name])
  {
    hide FindKey, NewCipher, ApplyOptions;
  }

  // ---------------------------------------------------------------- refusals

  /** Why an unsealed keyring refuses an operation other than a lookup, and when. */
  lemma RefusalsExactly(s: State, op: Op)
    requires !s.isSealed && !op.GetCipher? && !op.Unmarshal?
    ensures var e := Failure(s, op);
      && (e == Some(AlreadyExists) <==> op.CreateKey? && op.name in s.policies)
      && (e == Some(KeyNotFound) <==> (op.RotateKey? || op.DeleteKey? || op.UpdateConfig?) && op.name !in s.policies)
      && (e == Some(DeletionNotAllowed) <==> op.DeleteKey? && Protected(s, op.name))
      && (e == Some(RandomFailed) <==>
            (op.CreateKey? || op.RotateKey?) && op.random.None? && (op.CreateKey? <==> op.name !in s.policies))
      && (e.Some? ==> e.value in {AlreadyExists, KeyNotFound, DeletionNotAllowed, RandomFailed} && Step(s, op) == s)
  {}
}
