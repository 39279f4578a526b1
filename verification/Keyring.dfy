/** The keyring object: policies updated in place, key bytes in arrays that Seal overwrites,
    and a cipher cache. `View` is its value in the terms of module KeyringModel. */
module Keyring {
  import opened Wire
  import opened Envelope
  import M = KeyringModel

  /** One key version; the bytes live in an array so that they can be erased. */
  datatype Key = Key(version: int, data: array<byte>, kind: int, createdAt: int)

  function KeyView(k: Key): M.KeyData
    reads k.data
  {
    M.KeyData(k.version, k.data[..], k.kind, k.createdAt)
  }

  function Arrays(keys: seq<Key>): set<array<byte>> {
    set k | k in keys :: k.data
  }

  function KeyViews(keys: seq<Key>): (r: seq<M.KeyData>)
    reads Arrays(keys)
    ensures |r| == |keys| && forall i | 0 <= i < |keys| :: r[i] == KeyView(keys[i])
  {
    if keys == [] then [] else KeyViews(keys[..|keys| - 1]) + [KeyView(keys[|keys| - 1])]
  }

  lemma KeyViewsSnoc(keys: seq<Key>, k: Key)
    ensures KeyViews(keys + [k]) == KeyViews(keys) + [KeyView(k)]
  {
    assert (keys + [k])[..|keys|] == keys;
  }

  class KeyPolicy {
    const name: string
    const kind: int
    var latest: int
    var minDecryption: int
    var minEncryption: int
    var exportable: bool
    var derived: bool
    var convergent: bool
    var autoRotate: int
    var deletionAllowed: bool
    var keys: seq<Key>
    const createdAt: int
    var updatedAt: int

    function View(): M.Policy
      reads this, Arrays(keys)
    {
      M.Policy(name, kind, latest, minDecryption, minEncryption, exportable, derived, convergent,
               autoRotate, deletionAllowed, KeyViews(keys), createdAt, updatedAt)
    }

    constructor (name: string, kind: int, created: int, updated: int)
      ensures View() == M.NewPolicy(name, kind, created, updated) && keys == []
    {
      this.name, this.kind := name, kind;
      createdAt, updatedAt := created, updated;
      latest, minDecryption, minEncryption := 0, 1, 0;
      exportable, derived, convergent, autoRotate, deletionAllowed := false, false, false, 0, false;
      keys := [];
    }

    /** What a key option does to the policy it is called on. */
    method Apply(opt: M.KeyOption)
      modifies this
      ensures keys == old(keys) && View() == M.ApplyOption(old(View()), opt)
    {
      hide KeyViews;
      match opt {
        case WithExportable(b) => exportable := b;
        case WithDerived(b) => derived := b;
        case WithConvergentEncryption(b) => convergent := b;
        case WithMinDecryptionVersion(v) => minDecryption := v;
        case WithMinEncryptionVersion(v) => minEncryption := v;
        case WithAutoRotatePeriod(t) => autoRotate := t;
        case WithDeletionAllowed(b) => deletionAllowed := b;
      }
    }

    method ApplyAll(opts: seq<M.KeyOption>)
      modifies this
      ensures keys == old(keys) && View() == M.ApplyOptions(old(View()), opts)
    {
      for i := 0 to |opts|
        invariant keys == old(keys) && View() == M.ApplyOptions(old(View()), opts[..i])
      {
        Apply(opts[i]);
        assert opts[..i + 1][..i] == opts[..i];
      }
      assert opts[..|opts|] == opts;
    }

    /** Appends a key with the next version, made of 32 fresh random bytes. */
    method GenerateKeyVersion(random: Option<bytes>, now: int) returns (err: Option<M.KeyringError>)
      requires random.Some? ==> |random.value| == M.KEY_SIZE
      modifies this`latest, this`keys
      ensures random.None? ==> err == Some(M.RandomFailed) && latest == old(latest) && keys == old(keys)
      ensures random.Some? ==> err == None && View() == M.AddVersion(old(View()), random.value, now)
      ensures fresh(Arrays(keys) - old(Arrays(keys)))
    {
      hide KeyViews;
      if random.None? {
        return Some(M.RandomFailed);
      }
      ghost var was := KeyViews(keys);
      var data := new byte[M.KEY_SIZE](i requires 0 <= i < M.KEY_SIZE => random.value[i]);
      assert data[..] == random.value;
      assert KeyViews(keys) == was;
      latest := latest + 1;
      KeyViewsSnoc(keys, Key(latest, data, kind, now));
      keys := keys + [Key(latest, data, kind, now)];
      return None;
    }

    /** The next key version and the new update time, or the error of the generator. */
    method Rotate(random: Option<bytes>, keyTime: int, now: int) returns (err: Option<M.KeyringError>)
      requires random.Some? ==> |random.value| == M.KEY_SIZE
      modifies this
      ensures random.None? ==> err == Some(M.RandomFailed) && unchanged(this)
      ensures random.Some? ==> err == None && View() == M.Rotated(old(View()), random.value, keyTime, now)
      ensures fresh(Arrays(keys) - old(Arrays(keys)))
    {
      hide KeyViews;
      err := GenerateKeyVersion(random, keyTime);
      if err == None {
        updatedAt := now;
      }
    }

    /** Options and the new update time. */
    method Configure(opts: seq<M.KeyOption>, now: int)
      modifies this
      ensures keys == old(keys) && View() == M.Configured(old(View()), opts, now)
    {
      hide KeyViews, M.ApplyOptions;
      ApplyAll(opts);
      updatedAt := now;
    }
  }

  /** A policy object with the contents of `p`, in arrays of its own. */
  method LoadPolicy(p: M.Policy) returns (q: KeyPolicy)
    ensures fresh(q) && fresh(Arrays(q.keys)) && q.View() == p
  {
    hide KeyViews;
    q := new KeyPolicy(p.name, p.kind, p.createdAt, p.updatedAt);
    q.latest, q.minDecryption, q.minEncryption := p.latest, p.minDecryption, p.minEncryption;
    q.exportable, q.derived, q.convergent := p.exportable, p.derived, p.convergent;
    q.autoRotate, q.deletionAllowed := p.autoRotate, p.deletionAllowed;
    q.keys := LoadKeys(p.keys);
  }

  /** `q` has the contents of `p`, in arrays among `arrays`. */
  ghost predicate IsCopy(q: KeyPolicy, p: M.Policy, arrays: set<array<byte>>)
    reads q, Arrays(q.keys)
  {
    q.View() == p && Arrays(q.keys) <= arrays
  }

  /** No two names share a policy object. */
  ghost predicate Distinct(policies: map<string, KeyPolicy>) {
    forall m, n | m in policies && n in policies && m != n :: policies[m] != policies[n]
  }

  method LoadKeys(data: seq<M.KeyData>) returns (keys: seq<Key>)
    ensures fresh(Arrays(keys)) && KeyViews(keys) == data
  {
    hide KeyViews;
    keys := [];
    for i := 0 to |data|
      invariant |keys| == i
      invariant forall j | 0 <= j < i :: fresh(keys[j].data) && KeyView(keys[j]) == data[j]
    {
      var k := LoadKey(data[i]);
      keys := keys + [k];
    }
  }

  method LoadKey(d: M.KeyData) returns (k: Key)
    ensures fresh(k.data) && KeyView(k) == d
  {
    var data := new byte[|d.key|](i requires 0 <= i < |d.key| => d.key[i]);
    assert data[..] == d.key;
    k := Key(d.version, data, d.kind, d.createdAt);
  }

  /** A policy that was not touched, and whose key bytes were not, looks as before. */
  twostate lemma SameView(p: KeyPolicy)
    requires unchanged(p) && forall k | k in p.keys :: unchanged(k.data)
    ensures p.View() == old(p.View())
  {
    hide KeyViews;
  }

  lemma NoneShared()
    ensures Distinct(map[])
  {}

  lemma OneMore(policies: map<string, KeyPolicy>, name: string, policy: KeyPolicy)
    requires Distinct(policies) && policy !in policies.Values
    ensures Distinct(policies[name := policy])
  {}

  ghost predicate IsZero(a: array<byte>)
    reads a
  {
    forall i | 0 <= i < a.Length :: a[i] == 0
  }

  method ZeroArray(a: array<byte>)
    modifies a
    ensures IsZero(a)
  {
    for i := 0 to a.Length
      invariant forall j | 0 <= j < i :: a[j] == 0
    {
      a[i] := 0;
    }
  }

  /** Overwrites the keys with zeros; arrays that are zero stay so. */
  method ZeroKeys(keys: seq<Key>, ghost zero: set<array<byte>>)
    requires forall a | a in zero :: IsZero(a)
    modifies Arrays(keys)
    ensures forall a | a in zero + Arrays(keys) :: IsZero(a)
  {
    for i := 0 to |keys|
      invariant forall j | 0 <= j < i :: IsZero(keys[j].data)
      invariant forall a | a in zero :: IsZero(a)
    {
      assert keys[i] in keys;
      ZeroArray(keys[i].data);
    }
  }

  lemma MapWith(m: map<string, M.Policy>, m': map<string, M.Policy>, name: string)
    requires m'.Keys == m.Keys + {name} && forall n | n in m && n != name :: m'[n] == m[n]
    ensures m' == m[name := m'[name]]
  {}

  lemma FillCache(ciphers: map<string, map<int, Cipher>>, name: string, version: int, c: Cipher)
    ensures M.Store(ciphers, name, version, c)
      == if name in ciphers then ciphers[name := ciphers[name][version := c]]
         else ciphers[name := map[]][name := map[][version := c]]
  {}

  /** A policy with options applied and its first key, or the error of the generator. */
  method BuildPolicy(name: string, kind: int, opts: seq<M.KeyOption>, random: Option<bytes>, t: M.Times)
    returns (policy: KeyPolicy, err: Option<M.KeyringError>)
    requires random.Some? ==> |random.value| == M.KEY_SIZE
    ensures fresh(policy) && fresh(Arrays(policy.keys))
    ensures random.None? ==> err == Some(M.RandomFailed)
    ensures random.Some? ==>
      err == None && policy.View() == M.FirstVersion(name, kind, opts, random.value, t)
  {
    hide KeyViews, M.ApplyOptions;
    policy := new KeyPolicy(name, kind, t.created, t.updated);
    policy.ApplyAll(opts);
    err := policy.GenerateKeyVersion(random, t.key);
  }

  class Keyring {
    var policies: map<string, KeyPolicy>
    var ciphers: map<string, map<int, Cipher>>
    var isSealed: bool

    /** Every key array the keyring holds. */
    ghost function Held(): set<array<byte>>
      reads this, policies.Values
    {
      set name, k | name in policies && k in policies[name].keys :: k.data
    }

    ghost function PolicyViews(): (r: map<string, M.Policy>)
      reads this, policies.Values, Held()
      ensures r.Keys == policies.Keys && forall name | name in policies :: r[name] == policies[name].View()
    {
      map name | name in policies :: policies[name].View()
    }

    ghost function View(): M.State
      reads this, policies.Values, Held()
    {
      M.State(PolicyViews(), ciphers, isSealed)
    }

    ghost predicate Valid()
      reads this
    {
      Distinct(policies)
    }

    /** `name` is untouched since the old state: same policy object, same contents. */
    twostate predicate Untouched(name: string)
      requires name in old(policies)
      reads this, policies.Values, Held()
    {
      && name in policies && policies[name] == old(policies)[name]
      && unchanged(old(policies)[name]) && forall k | k in old(policies)[name].keys :: unchanged(k.data)
    }

    twostate lemma AllKept()
      requires policies.Keys == old(policies).Keys && forall n | n in old(policies) :: Untouched(n)
      ensures PolicyViews() == old(PolicyViews())
    {
      hide KeyViews;
      forall n | n in policies ensures policies[n].View() == old(policies[n].View()) {
        assert Untouched(n);
        SameView(policies[n]);
      }
    }

    twostate lemma OneReplaced(name: string)
      requires name in policies && policies.Keys == old(policies).Keys + {name}
      requires forall n | n in old(policies) && n != name :: Untouched(n)
      ensures PolicyViews() == old(PolicyViews())[name := policies[name].View()]
    {
      hide KeyViews, PolicyViews;
      forall n | n in policies && n != name ensures PolicyViews()[n] == old(PolicyViews())[n] {
        assert Untouched(n);
        SameView(policies[n]);
      }
      MapWith(old(PolicyViews()), PolicyViews(), name);
    }

    twostate lemma OneRemoved(name: string)
      requires policies == old(policies) - {name}
      requires forall n | n in old(policies) && n != name :: Untouched(n)
      ensures PolicyViews() == old(PolicyViews()) - {name}
    {
      hide KeyViews, PolicyViews;
      forall n | n in policies ensures PolicyViews()[n] == old(PolicyViews())[n] {
        assert Untouched(n);
        SameView(policies[n]);
      }
    }

    constructor ()
      ensures Valid() && View() == M.NewState && Held() == {}
    {
      policies, ciphers, isSealed := map[], map[], false;
    }

    method Register(name: string, policy: KeyPolicy)
      requires Valid() && name !in policies && policy !in policies.Values
      modifies this`policies
      ensures Valid() && policies == old(policies)[name := policy]
      ensures PolicyViews() == old(PolicyViews())[name := old(policy.View())]
    {
      hide KeyViews, PolicyViews;
      policies := policies[name := policy];
      SameView(policy);
      OneReplaced(name);
    }

    method CreateKey(name: string, kind: int, opts: seq<M.KeyOption>, random: Option<bytes>, t: M.Times)
      returns (r: M.Reply<KeyPolicy>)
      requires Valid() && (random.Some? ==> |random.value| == M.KEY_SIZE)
      modifies this
      ensures Valid()
      ensures View() == M.Step(old(View()), M.CreateKey(name, kind, opts, random, t))
      ensures match M.Failure(old(View()), M.CreateKey(name, kind, opts, random, t))
        case Some(e) => r == M.Failed(e) && policies == old(policies)
        case None => r.Done? && fresh(r.value) && fresh(Arrays(r.value.keys)) && policies == old(policies)[name := r.value]
    {
      hide KeyViews, M.FirstVersion, PolicyViews;
      if isSealed {
        return M.Failed(M.Sealed);
      }
      if name in policies {
        return M.Failed(M.AlreadyExists);
      }
      var policy, err := BuildPolicy(name, kind, opts, random, t);
      if err.Some? {
        AllKept();
        return M.Failed(err.value);
      }
      AllKept();
      Register(name, policy);
      return M.Done(policy);
    }

    method RotateKey(name: string, random: Option<bytes>, keyTime: int, now: int) returns (r: M.Reply<int>)
      requires Valid() && (random.Some? ==> |random.value| == M.KEY_SIZE)
      modifies policies.Values
      ensures Valid() && policies == old(policies)
      ensures View() == M.Step(old(View()), M.RotateKey(name, random, keyTime, now))
      ensures match M.Failure(old(View()), M.RotateKey(name, random, keyTime, now))
        case Some(e) => r == M.Failed(e)
        case None => r == M.Done(View().policies[name].latest)
      ensures fresh(Held() - old(Held()))
    {
      hide KeyViews, PolicyViews, M.Rotated;
      if isSealed {
        return M.Failed(M.Sealed);
      }
      if name !in policies {
        return M.Failed(M.KeyNotFound);
      }
      var policy := policies[name];
      var err := policy.Rotate(random, keyTime, now);
      if err.Some? {
        AllKept();
        return M.Failed(err.value);
      }
      OneReplaced(name);
      HeldGrew(name);
      return M.Done(policy.latest);
    }

    method UpdateConfig(name: string, opts: seq<M.KeyOption>, now: int) returns (err: Option<M.KeyringError>)
      requires Valid()
      modifies policies.Values
      ensures Valid() && policies == old(policies)
      ensures View() == M.Step(old(View()), M.UpdateConfig(name, opts, now))
      ensures err == M.Failure(old(View()), M.UpdateConfig(name, opts, now))
    {
      hide KeyViews, M.Configured, PolicyViews;
      if isSealed {
        return Some(M.Sealed);
      }
      if name !in policies {
        return Some(M.KeyNotFound);
      }
      policies[name].Configure(opts, now);
      OneReplaced(name);
      return None;
    }

    method DeleteKey(name: string) returns (err: Option<M.KeyringError>)
      requires Valid()
      modifies this
      ensures Valid()
      ensures View() == M.Step(old(View()), M.DeleteKey(name))
      ensures err == M.Failure(old(View()), M.DeleteKey(name))
    {
      hide KeyViews, PolicyViews;
      if isSealed {
        return Some(M.Sealed);
      }
      if name !in policies {
        return Some(M.KeyNotFound);
      }
      if !policies[name].deletionAllowed {
        return Some(M.DeletionNotAllowed);
      }
      policies := policies - {name};
      ciphers := ciphers - {name};
      OneRemoved(name);
      return None;
    }

    /** The first key of a version in the list, by the loop of GetCipher and GetKeyVersion. */
    static method Find(keys: seq<Key>, version: int) returns (r: Option<Key>)
      ensures r.None? ==> M.FindKey(KeyViews(keys), version).None?
      ensures r.Some? ==> r.value in keys && M.FindKey(KeyViews(keys), version) == Some(KeyView(r.value))
    {
      hide KeyViews;
      ghost var views := KeyViews(keys);
      assert views[0..] == views;
      for i := 0 to |keys|
        invariant M.FindKey(views, version) == M.FindKey(views[i..], version)
      {
        assert views[i..][0] == KeyView(keys[i]) && views[i..][1..] == views[i + 1..];
        if keys[i].version == version {
          return Some(keys[i]);
        }
      }
      return None;
    }

    method GetKeyVersion(name: string, version0: int) returns (r: M.Reply<Key>)
      requires Valid()
      ensures match M.KeyVersionFor(View(), name, version0)
        case Failed(e) => r == M.Failed(e)
        case Done(k) => r.Done? && r.value in policies[name].keys && KeyView(r.value) == k
    {
      hide KeyViews, M.FindKey, M.MakeCipher, M.Store, PolicyViews;
      if isSealed {
        return M.Failed(M.Sealed);
      }
      if name !in policies {
        return M.Failed(M.KeyNotFound);
      }
      var policy := policies[name];
      var version := if version0 == 0 then policy.latest else version0;
      if version < policy.minDecryption {
        return M.Failed(M.VersionBelowMin);
      }
      var key := Find(policy.keys, version);
      return if key.None? then M.Failed(M.VersionNotFound) else M.Done(key.value);
    }

    /** Finds the key in the list and makes a cipher of it. */
    static method MakeCipher(policy: KeyPolicy, version: int) returns (r: M.Reply<Cipher>)
      ensures r == M.MakeCipher(policy.View().keys, version)
    {
      hide KeyViews, M.FindKey;
      var key := Find(policy.keys, version);
      if key.None? {
        return M.Failed(M.VersionNotFound);
      }
      var cipher := NewCipher(key.value.data[..], key.value.version);
      return if cipher.Bad? then M.Failed(M.InvalidKey) else M.Done(cipher.value);
    }

    /** Puts a cipher into the cache. */
    method Remember(name: string, version: int, cipher: Cipher)
      modifies this`ciphers
      ensures ciphers == M.Store(old(ciphers), name, version, cipher)
    {
      FillCache(ciphers, name, version, cipher);
      if name !in ciphers {
        ciphers := ciphers[name := map[]];
      }
      ciphers := ciphers[name := ciphers[name][version := cipher]];
    }

    method GetCipher(name: string, version0: int) returns (r: M.Reply<Cipher>)
      requires Valid()
      modifies this`ciphers
      ensures Valid() && (r, View()) == M.CipherFor(old(View()), name, version0)
    {
      hide KeyViews, M.FindKey, M.MakeCipher, M.Store, PolicyViews;
      if isSealed {
        return M.Failed(M.Sealed);
      }
      if name !in policies {
        return M.Failed(M.KeyNotFound);
      }
      var policy := policies[name];
      var version := if version0 == 0 then policy.latest else version0;
      if name in ciphers && version in ciphers[name] {
        return M.Done(ciphers[name][version]);
      }
      var cipher := MakeCipher(policy, version);
      AllKept();
      if cipher.Failed? {
        return cipher;
      }
      Remember(name, version, cipher.value);
      AllKept();
      return M.Done(cipher.value);
    }

    /** Overwrites every byte of every key array with zero. */
    method EraseKeys()
      modifies Held()
      ensures forall a | a in old(Held()) :: IsZero(a)
    {
      hide IsZero;
      ghost var held, done: set<array<byte>> := Held(), {};
      var rest := policies.Keys;
      while rest != {}
        invariant rest <= policies.Keys && unchanged(policies.Values)
        invariant done <= held && forall a | a in done :: IsZero(a)
        invariant forall name | name in policies.Keys - rest :: Arrays(policies[name].keys) <= done
        decreases |rest|
      {
        var name :| name in rest;
        ghost var arrays := Arrays(policies[name].keys);
        assert arrays <= held;
        ZeroKeys(policies[name].keys, done);
        done := done + arrays;
        rest := rest - {name};
      }
      assert held <= done;
    }

    /** Erases the key bytes, then forgets all keys. Only the keyring and the arrays it held
        are written. */
    method Seal()
      requires Valid()
      modifies this, Held()
      ensures Valid() && View() == M.Step(old(View()), M.Seal) && Held() == {}
      ensures forall a | a in old(Held()) :: IsZero(a)
    {
      hide IsZero, KeyViews;
      EraseKeys();
      policies, ciphers, isSealed := map[], map[], true;
    }

    /** A deep copy of the policies, key bytes included. */
    method Marshal() returns (data: map<string, M.Policy>)
      requires Valid()
      ensures data == View().policies
    {
      data := map name | name in policies :: policies[name].View();
    }

    /** If only `name` has new keys, and those are fresh, then all that is new is fresh. */
    twostate lemma HeldGrew(name: string)
      requires name in old(policies) && policies == old(policies)
      requires fresh(Arrays(policies[name].keys) - old(Arrays(policies[name].keys)))
      requires forall n | n in old(policies) && n != name :: Untouched(n)
      ensures fresh(Held() - old(Held()))
    {
      forall a | a in Held() - old(Held()) ensures fresh(a) {
        var n, k :| n in policies && k in policies[n].keys && a == k.data;
        assert a in Arrays(policies[n].keys);
      }
    }

    /** Replaces the contents by `data`, empties the cache and unseals; bad data changes
        nothing. */
    method Unmarshal(data: Option<map<string, M.Policy>>) returns (err: Option<M.KeyringError>)
      requires Valid()
      modifies this
      ensures Valid() && View() == M.Step(old(View()), M.Unmarshal(data))
      ensures err == M.Failure(old(View()), M.Unmarshal(data))
      ensures data.Some? ==> fresh(Held())
    {
      hide KeyViews, PolicyViews;
      if data.None? {
        return Some(M.InvalidData);
      }
      var loaded, arrays := LoadAll(data.value);
      Install(loaded, data.value, arrays);
      return None;
    }

    method Install(loaded: map<string, KeyPolicy>, ghost data: map<string, M.Policy>, ghost arrays: set<array<byte>>)
      requires loaded.Keys == data.Keys && forall name | name in loaded :: IsCopy(loaded[name], data[name], arrays)
      requires Distinct(loaded)
      modifies this
      ensures Valid() && View() == M.State(data, map[], false) && Held() <= arrays
    {
      hide KeyViews, PolicyViews;
      policies, ciphers, isSealed := loaded, map[], false;
      forall name | name in loaded ensures PolicyViews()[name] == data[name] && Arrays(loaded[name].keys) <= arrays {
        assert old(IsCopy(loaded[name], data[name], arrays));
        SameView(loaded[name]);
      }
      forall a | a in Held() ensures a in arrays {
        var name, k :| name in policies && k in policies[name].keys && a == k.data;
        assert k.data in Arrays(loaded[name].keys);
      }
    }

    static method LoadAll(data: map<string, M.Policy>)
      returns (loaded: map<string, KeyPolicy>, ghost arrays: set<array<byte>>)
      ensures loaded.Keys == data.Keys && fresh(arrays) && Distinct(loaded)
      ensures forall name | name in loaded :: IsCopy(loaded[name], data[name], arrays)
    {
      hide KeyViews, KeyPolicy.View, Distinct;
      loaded, arrays := map[], {};
      assert Distinct(loaded) by { NoneShared(); }
      var rest := data.Keys;
      while rest != {}
        invariant rest <= data.Keys && loaded.Keys == data.Keys - rest && fresh(arrays) && Distinct(loaded)
        invariant forall name | name in loaded :: IsCopy(loaded[name], data[name], arrays)
        decreases |rest|
      {
        var name :| name in rest;
        var policy := LoadPolicy(data[name]);
        arrays := arrays + Arrays(policy.keys);
        OneMore(loaded, name, policy);
        loaded := loaded[name := policy];
        rest := rest - {name};
      }
    }
  }
}
