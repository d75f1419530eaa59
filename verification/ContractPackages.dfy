/** The versions of a contract package: issuing, disabling and looking them up. */
module ContractPackages {
  import opened Basics

  /** Ordered by protocol major version, then by contract version. */
  datatype VersionKey = VersionKey(major: U32, version: U32)

  datatype ContractHash = ContractHash(bytes: Bytes)

  datatype PackageError = ContractNotFound

  type Versions = map<VersionKey, ContractHash>

  datatype Package = Package(versions: Versions, disabled: set<VersionKey>)

  const MAX_VERSION: U32 := 0xFFFF_FFFF

  predicate Lt(a: VersionKey, b: VersionKey) {
    a.major < b.major || (a.major == b.major && a.version < b.version)
  }

  /** The place of a key among all keys. */
  function Ordinal(k: VersionKey): nat {
    0x1_0000_0000 * k.major + k.version
  }

  /** The major version decides, then the contract version. */
  lemma LtExactly(a: VersionKey, b: VersionKey)
    ensures Lt(a, b) <==> Ordinal(a) < Ordinal(b)
  {
  }

  // ----- First and last keys ---------------------------------------------------------------------

  predicate IsLast(ks: set<VersionKey>, k: VersionKey) {
    k in ks && forall j | j in ks :: j == k || Lt(j, k)
  }

  predicate IsFirst(ks: set<VersionKey>, k: VersionKey) {
    k in ks && forall j | j in ks :: j == k || Lt(k, j)
  }

  lemma {:induction false} LastExists(ks: set<VersionKey>)
    requires ks != {}
    ensures exists k :: IsLast(ks, k)
    decreases |ks|
  {
    var x :| x in ks;
    if ks == {x} {
      assert IsLast(ks, x);
    } else {
      assert ks - {x} != {};
      LastExists(ks - {x});
      var k :| IsLast(ks - {x}, k);
      assert forall j | j in ks :: j == x || j in ks - {x};
      assert IsLast(ks, if Lt(x, k) then k else x);
    }
  }

  lemma {:induction false} FirstExists(ks: set<VersionKey>)
    requires ks != {}
    ensures exists k :: IsFirst(ks, k)
    decreases |ks|
  {
    var x :| x in ks;
    if ks == {x} {
      assert IsFirst(ks, x);
    } else {
      assert ks - {x} != {};
      FirstExists(ks - {x});
      var k :| IsFirst(ks - {x}, k);
      assert forall j | j in ks :: j == x || j in ks - {x};
      assert IsFirst(ks, if Lt(k, x) then k else x);
    }
  }

  ghost function Last(ks: set<VersionKey>): (r: Option<VersionKey>)
    ensures r.None? <==> ks == {}
    ensures r.Some? ==> IsLast(ks, r.value)
  {
    if ks == {} then None else
    LastExists(ks);
    var k :| IsLast(ks, k);
    Some(k)
  }

  ghost function First(ks: set<VersionKey>): (r: Option<VersionKey>)
    ensures r.None? <==> ks == {}
    ensures r.Some? ==> IsFirst(ks, r.value)
  {
    if ks == {} then None else
    FirstExists(ks);
    var k :| IsFirst(ks, k);
    Some(k)
  }

  ghost function KeysOfMajor(vs: Versions, major: U32): set<VersionKey> {
    set k | k in vs && k.major == major
  }

  ghost function KeysOfHash(vs: Versions, hash: ContractHash): set<VersionKey> {
    set k | k in vs && vs[k] == hash
  }

  /** The newest version number issued for a major version, 0 if none. */
  ghost function LastVersion(vs: Versions, major: U32): U32 {
    match Last(KeysOfMajor(vs, major))
    case Some(k) => k.version
    case None => 0
  }

  // ----- Operations ------------------------------------------------------------------------------

  datatype Event =
    | Insert(major: U32, hash: ContractHash)
    | Disable(hash: ContractHash)

  /** The key an insertion issues; the 32-bit addition wraps. */
  ghost function NextKey(vs: Versions, major: U32): VersionKey {
    VersionKey(major, (LastVersion(vs, major) + 1) % U32_LIMIT)
  }

  ghost function Step(p: Package, e: Event): Package {
    match e
    case Insert(major, hash) => p.(versions := p.versions[NextKey(p.versions, major) := hash])
    case Disable(hash) =>
      match First(KeysOfHash(p.versions, hash))
      case Some(k) => p.(disabled := p.disabled + {k})
      case None => p
  }

  ghost function Run(p: Package, es: seq<Event>): Package
    decreases |es|
  {
    if es == [] then p else Run(Step(p, es[0]), es[1..])
  }

  predicate IsVersionEnabled(p: Package, k: VersionKey) {
    k !in p.disabled && k in p.versions
  }

  function LookupContractHash(p: Package, k: VersionKey): Option<ContractHash> {
    if !IsVersionEnabled(p, k) then None else Some(p.versions[k])
  }

  ghost predicate IsContractEnabled(p: Package, hash: ContractHash) {
    match First(KeysOfHash(p.versions, hash))
    case Some(k) => k !in p.disabled
    case None => false
  }

  ghost function EnabledKeys(p: Package): set<VersionKey> {
    set k | k in p.versions && IsVersionEnabled(p, k)
  }

  class ContractPackage {
    var versions: Versions
    var disabledVersions: set<VersionKey>

    ghost function Value(): Package
      reads this
    {
      Package(versions, disabledVersions)
    }

    /** A package without versions. */
    constructor ()
      ensures Value() == Package(map[], {})
    {
      versions, disabledVersions := map[], {};
    }

    /** The keys from last to first, until one has the major version asked for. */
    method NextContractVersionFor(major: U32) returns (next: U32)
      ensures next == NextKey(versions, major).version
    {
      var rest := versions.Keys;
      while rest != {}
        invariant rest <= versions.Keys
        invariant forall k | k in versions && k.major == major :: k in rest
        decreases rest
      {
        LastExists(rest);
        var k :| k in rest && forall j | j in rest :: j == k || Lt(j, k);
        if k.major == major {
          assert IsLast(KeysOfMajor(versions, major), k);
          return (k.version + 1) % U32_LIMIT;
        }
        rest := rest - {k};
      }
      assert KeysOfMajor(versions, major) == {};
      return 1;
    }

    method InsertContractVersion(major: U32, hash: ContractHash) returns (key: VersionKey)
      modifies this
      ensures key == NextKey(old(versions), major)
      ensures Value() == Step(old(Value()), Insert(major, hash))
    {
      var next := NextContractVersionFor(major);
      key := VersionKey(major, next);
      versions := versions[key := hash];
    }

    /** The keys from first to last, until one holds the hash. */
    method FindContractVersionKeyByHash(hash: ContractHash) returns (key: Option<VersionKey>)
      ensures key == First(KeysOfHash(versions, hash))
    {
      var rest := versions.Keys;
      while rest != {}
        invariant rest <= versions.Keys
        invariant forall k | k in versions && versions[k] == hash :: k in rest
        decreases rest
      {
        FirstExists(rest);
        var k :| k in rest && forall j | j in rest :: j == k || Lt(k, j);
        if versions[k] == hash {
          assert IsFirst(KeysOfHash(versions, hash), k);
          return Some(k);
        }
        rest := rest - {k};
      }
      assert KeysOfHash(versions, hash) == {};
      return None;
    }

    method DisableContractVersion(hash: ContractHash) returns (r: Result<(), PackageError>)
      modifies this
      ensures Value() == Step(old(Value()), Disable(hash))
      ensures r == if exists k :: k in old(versions) && old(versions)[k] == hash then Ok(()) else Err(ContractNotFound)
    {
      var key := FindContractVersionKeyByHash(hash);
      if key.None? {
        assert forall k | k in versions :: versions[k] == hash ==> k in KeysOfHash(versions, hash);
        return Err(ContractNotFound);
      }
      assert key.value in KeysOfHash(versions, hash);
      if key.value !in disabledVersions {
        disabledVersions := disabledVersions + {key.value};
      }
      assert old(disabledVersions) + {key.value} == disabledVersions;
      return Ok(());
    }

    method ContractIsEnabled(hash: ContractHash) returns (enabled: bool)
      ensures enabled == IsContractEnabled(Value(), hash)
    {
      var key := FindContractVersionKeyByHash(hash);
      enabled := key.Some? && key.value !in disabledVersions;
    }

    method EnabledVersions() returns (ret: Versions)
      ensures ret.Keys == EnabledKeys(Value())
      ensures forall k | k in ret :: ret[k] == versions[k]
    {
      ret := map[];
      var rest := versions.Keys;
      while rest != {}
        invariant rest <= versions.Keys
        invariant ret.Keys == EnabledKeys(Value()) - rest
        invariant forall k | k in ret :: ret[k] == versions[k]
        decreases rest
      {
        var k :| k in rest;
        if IsVersionEnabled(Package(versions, disabledVersions), k) {
          ret := ret[k := versions[k]];
        }
        rest := rest - {k};
      }
    }

    /** The newest enabled version and its hash, if any version is enabled. */
    method CurrentContract() returns (key: Option<VersionKey>, hash: Option<ContractHash>)
      ensures key.None? <==> EnabledKeys(Value()) == {}
      ensures key.Some? ==> IsLast(EnabledKeys(Value()), key.value) && LookupContractHash(Value(), key.value) == hash
      ensures hash.Some? <==> key.Some?
    {
      var enabled := EnabledVersions();
      if enabled.Keys == {} {
        return None, None;
      }
      LastExists(enabled.Keys);
      var k :| k in enabled.Keys && forall j | j in enabled.Keys :: j == k || Lt(j, k);
      return Some(k), Some(enabled[k]);
    }
  }

  // ----- Runs ------------------------------------------------------------------------------------

  /** Within every major version the versions issued are exactly 1 to the last; only issued ones are disabled. */
  ghost predicate Dense(p: Package) {
    && (forall k | k in p.versions :: 1 <= k.version)
    && (forall k: VersionKey, v: U32 | k in p.versions && 1 <= v <= k.version :: VersionKey(k.major, v) in p.versions)
    && p.disabled <= p.versions.Keys
  }

  lemma LastVersionBounds(vs: Versions, major: U32)
    ensures forall k | k in vs && k.major == major :: k.version <= LastVersion(vs, major)
    ensures LastVersion(vs, major) > 0 ==> VersionKey(major, LastVersion(vs, major)) in vs
  {
    forall k | k in vs && k.major == major ensures k.version <= LastVersion(vs, major) {
      assert k in KeysOfMajor(vs, major);
    }
    if Last(KeysOfMajor(vs, major)).Some? {
      var k := Last(KeysOfMajor(vs, major)).value;
      assert k in KeysOfMajor(vs, major) && k == VersionKey(major, k.version);
    }
  }

  lemma LastVersionIs(vs: Versions, major: U32, v: U32)
    requires v > 0 && VersionKey(major, v) in vs
    requires forall k | k in vs && k.major == major :: k.version <= v
    ensures LastVersion(vs, major) == v
  {
    LastVersionBounds(vs, major);
  }

  lemma LastVersionSame(vs: Versions, ws: Versions, major: U32)
    requires forall k: VersionKey | k.major == major :: k in vs <==> k in ws
    ensures LastVersion(vs, major) == LastVersion(ws, major)
  {
    assert KeysOfMajor(vs, major) == KeysOfMajor(ws, major);
  }

  /** In a dense package the keys of a major version are exactly 1 to its last version. */
  lemma DenseKeys(p: Package, k: VersionKey)
    requires Dense(p)
    ensures k in p.versions <==> 1 <= k.version <= LastVersion(p.versions, k.major)
  {
    LastVersionBounds(p.versions, k.major);
    if 1 <= k.version <= LastVersion(p.versions, k.major) {
      var top := VersionKey(k.major, LastVersion(p.versions, k.major));
      assert top in p.versions && VersionKey(top.major, k.version) == k;
    }
  }

  /** An insertion is safe exactly while the version counter has room. */
  lemma InsertExactly(p: Package, major: U32, hash: ContractHash)
    requires Dense(p)
    ensures Dense(Step(p, Insert(major, hash))) <==> LastVersion(p.versions, major) < MAX_VERSION
    ensures LastVersion(p.versions, major) < MAX_VERSION ==>
              var q := Step(p, Insert(major, hash));
              && NextKey(p.versions, major) == VersionKey(major, LastVersion(p.versions, major) + 1)
              && NextKey(p.versions, major) !in p.versions
              && LastVersion(q.versions, major) == LastVersion(p.versions, major) + 1
  {
    var key := NextKey(p.versions, major);
    var q := Step(p, Insert(major, hash));
    LastVersionBounds(p.versions, major);
    if LastVersion(p.versions, major) < MAX_VERSION {
      forall k: VersionKey, v: U32 | k in q.versions && 1 <= v <= k.version
        ensures VersionKey(k.major, v) in q.versions
      {
        if k == key && v < k.version {
          DenseKeys(p, VersionKey(major, v));
        }
      }
      LastVersionIs(q.versions, major, key.version);
    } else {
      assert key in q.versions && key.version == 0;
    }
  }

  /** With the counter at its limit, two insertions issue the same key and the second overwrites the first. */
  lemma WrappedKeyIsReused(p: Package, major: U32, a: ContractHash, b: ContractHash)
    requires VersionKey(major, MAX_VERSION) in p.versions
    ensures var q := Step(p, Insert(major, a));
            && NextKey(p.versions, major) == NextKey(q.versions, major) == VersionKey(major, 0)
            && Step(q, Insert(major, b)).versions[VersionKey(major, 0)] == b
  {
    LastVersionIs(p.versions, major, MAX_VERSION);
    LastVersionIs(Step(p, Insert(major, a)).versions, major, MAX_VERSION);
  }

  /** How many insertions for one major version a run makes. */
  function Inserts(es: seq<Event>, major: U32): nat {
    if es == [] then 0 else Inserts(es[1..], major) + if es[0].Insert? && es[0].major == major then 1 else 0
  }

  /** The run stays within the 32-bit version counters. */
  ghost predicate Room(p: Package, es: seq<Event>) {
    forall major: U32 :: LastVersion(p.versions, major) + Inserts(es, major) <= MAX_VERSION
  }

  lemma StepFacts(p: Package, es: seq<Event>)
    requires es != [] && Dense(p)
    requires es[0].Insert? ==> LastVersion(p.versions, es[0].major) < MAX_VERSION
    ensures var q := Step(p, es[0]);
            && Dense(q)
            && (forall major: U32 ::
                  LastVersion(q.versions, major) + Inserts(es[1..], major)
                  == LastVersion(p.versions, major) + Inserts(es, major))
            && (forall k | k in p.versions :: k in q.versions && q.versions[k] == p.versions[k])
            && p.disabled <= q.disabled
  {
    var q := Step(p, es[0]);
    match es[0]
    case Insert(major, hash) =>
      InsertExactly(p, major, hash);
      forall other: U32
        ensures LastVersion(q.versions, other) + Inserts(es[1..], other)
             == LastVersion(p.versions, other) + Inserts(es, other)
      {
        if other != major {
          LastVersionSame(p.versions, q.versions, other);
        }
      }
    case Disable(hash) =>
      assert q.versions == p.versions;
  }

  lemma {:induction false} KeysStay(p: Package, es: seq<Event>, k: VersionKey)
    requires k in p.versions
    ensures k in Run(p, es).versions
    decreases |es|
  {
    if es != [] {
      KeysStay(Step(p, es[0]), es[1..], k);
    }
  }

  /** A run with room left makes a first step with room left, and one without room that steps has none after it. */
  lemma RoomStep(p: Package, es: seq<Event>)
    requires es != [] && Dense(p)
    ensures Room(p, es) && es[0].Insert? ==> LastVersion(p.versions, es[0].major) < MAX_VERSION
    ensures (es[0].Insert? ==> LastVersion(p.versions, es[0].major) < MAX_VERSION) ==>
              (Room(p, es) <==> Room(Step(p, es[0]), es[1..]))
  {
    if es[0].Insert? {
      assert Inserts(es, es[0].major) >= 1;
      assert Room(p, es) ==> LastVersion(p.versions, es[0].major) + Inserts(es, es[0].major) <= MAX_VERSION;
    }
    if es[0].Insert? ==> LastVersion(p.versions, es[0].major) < MAX_VERSION {
      StepFacts(p, es);
    }
  }

  /**
   A run keeps versions dense exactly if it stays within the counters.  Then it counts them exactly,
   never reuses or rebinds a key, and never takes a version off the disabled list.
   */
  lemma {:induction false} RunKeepsVersions(p: Package, es: seq<Event>, major: U32)
    requires Dense(p)
    ensures var q := Run(p, es);
            && (Dense(q) <==> Room(p, es))
            && (Room(p, es) ==>
                  && LastVersion(q.versions, major) == LastVersion(p.versions, major) + Inserts(es, major)
                  && (forall k | k in p.versions :: k in q.versions && q.versions[k] == p.versions[k])
                  && p.disabled <= q.disabled)
    decreases |es|
  {
    if es == [] {
      assert Run(p, es) == p;
    } else {
      RoomStep(p, es);
      var q := Step(p, es[0]);
      if es[0].Insert? && LastVersion(p.versions, es[0].major) == MAX_VERSION {
        var zero := VersionKey(es[0].major, 0);
        KeysStay(q, es[1..], zero);
      } else {
        StepFacts(p, es);
        RunKeepsVersions(q, es[1..], major);
      }
    }
  }

  /** From an empty package: the versions of a major are exactly 1 to the number of insertions for it. */
  lemma VersionsFromEmpty(es: seq<Event>, k: VersionKey)
    requires forall major: U32 :: Inserts(es, major) <= MAX_VERSION
    ensures k in Run(Package(map[], {}), es).versions <==> 1 <= k.version <= Inserts(es, k.major)
  {
    var p := Package(map[], {});
    assert forall major: U32 :: LastVersion(p.versions, major) == 0 by {
      forall major: U32 ensures LastVersion(p.versions, major) == 0 {
        assert KeysOfMajor(p.versions, major) == {};
      }
    }
    RunKeepsVersions(p, es, k.major);
    DenseKeys(Run(p, es), k);
  }

  /** Once disabled, a version is refused for good, by any run at all. */
  lemma {:induction false} DisabledForever(p: Package, es: seq<Event>, k: VersionKey)
    requires k in p.disabled
    ensures !IsVersionEnabled(Run(p, es), k) && LookupContractHash(Run(p, es), k) == None
    decreases |es|
  {
    if es != [] {
      DisabledForever(Step(p, es[0]), es[1..], k);
    }
  }

  // ----- Hashes ----------------------------------------------------------------------------------

  /** No hash is held by two versions. */
  predicate DistinctHashes(vs: Versions) {
    forall j, k | j in vs && k in vs && vs[j] == vs[k] :: j == k
  }

  /** No smaller key holds the hash of version `k`. */
  predicate FirstOfItsHash(vs: Versions, k: VersionKey)
    requires k in vs
  {
    forall j | j in vs && vs[j] == vs[k] :: j == k || Lt(k, j)
  }

  /** A contract is enabled exactly when the first version that holds it is. */
  lemma ContractAndVersionAgree(p: Package, k: VersionKey)
    requires k in p.versions && FirstOfItsHash(p.versions, k)
    ensures IsContractEnabled(p, p.versions[k]) <==> IsVersionEnabled(p, k)
  {
    assert k in KeysOfHash(p.versions, p.versions[k]);
  }

  lemma {:induction false} DistinctInsertsStayDistinct(p: Package, es: seq<Event>)
    requires Dense(p) && Room(p, es) && DistinctHashes(p.versions)
    requires forall i | 0 <= i < |es| && es[i].Insert? :: KeysOfHash(p.versions, es[i].hash) == {}
    requires forall i, j | 0 <= i < j < |es| && es[i].Insert? && es[j].Insert? :: es[i].hash != es[j].hash
    ensures DistinctHashes(Run(p, es).versions)
    decreases |es|
  {
    if es != [] {
      RoomStep(p, es);
      StepFacts(p, es);
      var q := Step(p, es[0]);
      if es[0].Insert? {
        forall k | k in p.versions ensures p.versions[k] != es[0].hash {
          assert k !in KeysOfHash(p.versions, es[0].hash);
        }
      }
      forall i | 0 <= i < |es[1..]| && es[1..][i].Insert? ensures KeysOfHash(q.versions, es[1..][i].hash) == {} {
        assert es[1..][i] == es[i + 1];
        forall k | k in q.versions ensures q.versions[k] != es[i + 1].hash {
          if k in p.versions {
            assert k !in KeysOfHash(p.versions, es[i + 1].hash);
          }
        }
      }
      var rest := es[1..];
      assert forall i, j | 0 <= i < j < |rest| && rest[i].Insert? && rest[j].Insert? :: rest[i].hash != rest[j].hash;
      DistinctInsertsStayDistinct(q, es[1..]);
    }
  }

  /** A request to disable the hash of a version reaches that version exactly if no smaller key holds the hash. */
  lemma DisableExactly(p: Package, k: VersionKey)
    requires k in p.versions
    ensures k in Step(p, Disable(p.versions[k])).disabled <==> k in p.disabled || FirstOfItsHash(p.versions, k)
    ensures IsVersionEnabled(Step(p, Disable(p.versions[k])), k)
       <==> IsVersionEnabled(p, k) && !FirstOfItsHash(p.versions, k)
  {
    var ks := KeysOfHash(p.versions, p.versions[k]);
    assert k in ks;
    assert forall j :: j in ks <==> j in p.versions && p.versions[j] == p.versions[k];
  }

  /** A request to disable a hash touches no version that holds another hash. */
  lemma DisableFrame(p: Package, hash: ContractHash, j: VersionKey)
    requires j in p.versions && p.versions[j] != hash
    ensures IsVersionEnabled(Step(p, Disable(hash)), j) <==> IsVersionEnabled(p, j)
    ensures Step(p, Disable(hash)).versions == p.versions
  {
    assert j !in KeysOfHash(p.versions, hash);
  }

  /** A contract that no version holds is not enabled. */
  lemma UnknownContractDisabled(p: Package, hash: ContractHash)
    requires forall k | k in p.versions :: p.versions[k] != hash
    ensures !IsContractEnabled(p, hash) && Step(p, Disable(hash)) == p
  {
    assert KeysOfHash(p.versions, hash) == {};
  }

  /** Event `i` of the run asks for a hash whose first version at that moment is `k`. */
  ghost predicate AskedFor(p: Package, es: seq<Event>, i: nat, k: VersionKey)
    requires i < |es|
  {
    var vs := Run(p, es[..i]).versions;
    es[i].Disable? && k in vs && vs[k] == es[i].hash && FirstOfItsHash(vs, k)
  }

  /** After any run, exactly those versions are disabled that were, or that some request reached. */
  lemma {:induction false} RunDisablesExactly(p: Package, es: seq<Event>, k: VersionKey)
    ensures k in Run(p, es).disabled <==> k in p.disabled || exists i | 0 <= i < |es| :: AskedFor(p, es, i, k)
    decreases |es|
  {
    if es != [] {
      var q, rest := Step(p, es[0]), es[1..];
      RunDisablesExactly(q, rest, k);
      StepDisablesExactly(p, es, k);
      forall i | 0 <= i < |rest| ensures AskedFor(q, rest, i, k) == AskedFor(p, es, i + 1, k) {
        assert es[..i + 1][0] == es[0] && es[..i + 1][1..] == rest[..i];
      }
      if i: int :| 0 <= i < |es| && AskedFor(p, es, i, k) {
        assert i > 0 ==> AskedFor(q, rest, i - 1, k);
      }
      if i: int :| 0 <= i < |rest| && AskedFor(q, rest, i, k) {
        assert AskedFor(p, es, i + 1, k);
      }
    }
  }

  lemma StepDisablesExactly(p: Package, es: seq<Event>, k: VersionKey)
    requires es != []
    ensures k in Step(p, es[0]).disabled <==> k in p.disabled || AskedFor(p, es, 0, k)
  {
    assert Run(p, es[..0]) == p;
    if es[0].Disable? {
      var ks := KeysOfHash(p.versions, es[0].hash);
      assert forall j :: j in ks <==> j in p.versions && p.versions[j] == es[0].hash;
    }
  }

  /** A run that never names the hash of an enabled version leaves it enabled. */
  lemma {:induction false} UnnamedStaysEnabled(p: Package, es: seq<Event>, k: VersionKey)
    requires IsVersionEnabled(p, k) && k.version > 0
    requires forall i | 0 <= i < |es| :: es[i].Disable? ==> es[i].hash != p.versions[k]
    ensures IsVersionEnabled(Run(p, es), k) && LookupContractHash(Run(p, es), k) == Some(p.versions[k])
    decreases |es|
  {
    if es != [] {
      NeverRebound(p, es[0], k);
      if es[0].Disable? {
        DisableFrame(p, es[0].hash, k);
      }
      UnnamedStaysEnabled(Step(p, es[0]), es[1..], k);
    }
  }

  /** A key above version 0 is never rebound, not even when the counter wraps. */
  lemma NeverRebound(p: Package, e: Event, k: VersionKey)
    requires k in p.versions && k.version > 0
    ensures k in Step(p, e).versions && Step(p, e).versions[k] == p.versions[k]
  {
    if e.Insert? {
      LastVersionBounds(p.versions, e.major);
    }
  }

  /**
   A version whose hash also stands under a smaller key stays enabled over any run at all: every
   request to disable the hash finds a smaller key first.
   */
  lemma {:induction false} RepeatedHashNeverDisabled(p: Package, es: seq<Event>, j: VersionKey, k: VersionKey)
    requires j in p.versions && k in p.versions && Lt(j, k) && p.versions[j] == p.versions[k]
    requires j.version > 0 && k.version > 0
    requires k !in p.disabled
    ensures IsVersionEnabled(Run(p, es), k)
    decreases |es|
  {
    if es != [] {
      NeverRebound(p, es[0], j);
      NeverRebound(p, es[0], k);
      if es[0].Disable? && p.versions[k] == es[0].hash {
        assert j in KeysOfHash(p.versions, es[0].hash);
      }
      RepeatedHashNeverDisabled(Step(p, es[0]), es[1..], j, k);
    }
  }

  /** Some run, within the counters or at all, disables a version exactly if no smaller key holds its hash. */
  lemma CanBeDisabledExactly(p: Package, k: VersionKey)
    requires IsVersionEnabled(p, k) && forall j | j in p.versions :: j.version > 0
    ensures (exists es :: k in Run(p, es).disabled) <==> FirstOfItsHash(p.versions, k)
    ensures (exists es | Room(p, es) :: k in Run(p, es).disabled) <==> FirstOfItsHash(p.versions, k)
  {
    hide Run, Room;
    if FirstOfItsHash(p.versions, k) {
      OneRequestDisables(p, k);
    } else {
      var j :| j in p.versions && p.versions[j] == p.versions[k] && j != k && !Lt(k, j);
      forall es ensures k !in Run(p, es).disabled {
        RepeatedHashNeverDisabled(p, es, j, k);
      }
    }
  }

  lemma OneRequestDisables(p: Package, k: VersionKey)
    requires k in p.versions && FirstOfItsHash(p.versions, k)
    ensures Room(p, [Disable(p.versions[k])]) && k in Run(p, [Disable(p.versions[k])]).disabled
  {
    hide FirstOfItsHash;
    DisableExactly(p, k);
    var disable := [Disable(p.versions[k])];
    assert disable[1..] == [] && Run(p, disable) == Step(p, disable[0]);
    assert forall major: U32 :: Inserts(disable, major) == Inserts(disable[1..], major) == 0;
  }

  /** Two versions that hold one hash. */
  function Twice(major: U32, hash: ContractHash): Versions {
    map[VersionKey(major, 1) := hash, VersionKey(major, 2) := hash]
  }

  lemma InsertTwice(major: U32, hash: ContractHash)
    ensures Run(Package(map[], {}), [Insert(major, hash), Insert(major, hash)]) == Package(Twice(major, hash), {})
  {
    var empty := Package(map[], {});
    var insert := Insert(major, hash);
    var one := Step(empty, insert);
    assert KeysOfMajor(empty.versions, major) == {};
    LastVersionIs(one.versions, major, 1);
    var two := Step(one, insert);
    assert [insert, insert][1..] == [insert] && [insert][1..] == [];
    assert Run(empty, [insert, insert]) == Run(one, [insert]) == Run(two, []) == two;
  }

  /** Such a version after two insertions of one hash into an empty package: nothing ever disables the second. */
  lemma SecondInsertNeverDisabled(major: U32, hash: ContractHash, es: seq<Event>)
    ensures var p := Run(Package(map[], {}), [Insert(major, hash), Insert(major, hash)]);
            && p.versions == Twice(major, hash)
            && IsVersionEnabled(Run(p, es), VersionKey(major, 2))
  {
    InsertTwice(major, hash);
    RepeatedHashNeverDisabled(Package(Twice(major, hash), {}), es, VersionKey(major, 1), VersionKey(major, 2));
  }

  /** After a request to disable it, the contract counts as disabled while it is still the current version. */
  lemma DisabledContractStaysCurrent(major: U32, hash: ContractHash)
    ensures var two := Run(Package(map[], {}), [Insert(major, hash), Insert(major, hash)]);
            var p := Step(two, Disable(hash));
            && !IsContractEnabled(p, hash)
            && IsLast(EnabledKeys(p), VersionKey(major, 2))
            && LookupContractHash(p, VersionKey(major, 2)) == Some(hash)
  {
    InsertTwice(major, hash);
    var two := Package(Twice(major, hash), {});
    var first, second := VersionKey(major, 1), VersionKey(major, 2);
    DisableExactly(two, first);
    DisableExactly(two, second);
    var p := Step(two, Disable(hash));
    ContractAndVersionAgree(p, first);
    assert EnabledKeys(p) == {second};
  }
}
