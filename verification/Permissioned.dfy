/** Permissioned mode: the client configurations that are accepted, and the keys loaded from them. */
module Permissioned {
  import opened Results
  import opened Sequences
  import opened MasterKeys

  datatype ClientKey =
    | Derived(index: nat)
    | Imported(envVar: string)
    | Exported(deprecatedIndex: nat)

  datatype ClientConfig<I> = ClientConfig(name: string, key: ClientKey, serverId: I, packageIds: seq<I>)

  // ----- Validation

  function Names<I>(configs: seq<ClientConfig<I>>): seq<string> {
    if |configs| == 0 then [] else Names(configs[..|configs| - 1]) + [configs[|configs| - 1].name]
  }

  /** The derivation indices in use, those of exported keys included. */
  function Indices<I>(configs: seq<ClientConfig<I>>): seq<nat> {
    if |configs| == 0 then [] else Indices(configs[..|configs| - 1]) + IndexOf(configs[|configs| - 1].key)
  }

  function IndexOf(key: ClientKey): seq<nat> {
    match key
    case Derived(i) => [i]
    case Exported(i) => [i]
    case Imported(_) => []
  }

  function EnvVars<I>(configs: seq<ClientConfig<I>>): seq<string> {
    if |configs| == 0 then [] else EnvVars(configs[..|configs| - 1]) + EnvVarOf(configs[|configs| - 1].key)
  }

  function EnvVarOf(key: ClientKey): seq<string> {
    if key.Imported? then [key.envVar] else []
  }

  /** The ids of the key server objects and of the packages, together. */
  function ObjectIds<I>(configs: seq<ClientConfig<I>>): seq<I> {
    if |configs| == 0 then []
    else ObjectIds(configs[..|configs| - 1]) + [configs[|configs| - 1].serverId] + configs[|configs| - 1].packageIds
  }

  /** Every client has a package; names, derivation indices, environment variables and object ids are
      unique; and the derivation indices start at 0 without gaps. */
  ghost predicate ValidConfigs<I>(configs: seq<ClientConfig<I>>) {
    && (forall i :: 0 <= i < |configs| ==> |configs[i].packageIds| > 0)
    && NoRepetition(configs)
    && (forall i :: 0 <= i < |Indices(configs)| ==> i in Indices(configs))
  }

  // What one client uses.

  function IdsOf<I>(config: ClientConfig<I>): seq<I> { [config.serverId] + config.packageIds }

  function Parts<I, T>(configs: seq<ClientConfig<I>>, part: ClientConfig<I> -> seq<T>): seq<seq<T>> {
    seq(|configs|, i requires 0 <= i < |configs| => part(configs[i]))
  }

  lemma PartsSnoc<I, T>(configs: seq<ClientConfig<I>>, part: ClientConfig<I> -> seq<T>)
    requires |configs| > 0
    ensures
      var n := |configs| - 1;
      Concat(Parts(configs, part)) == Concat(Parts(configs[..n], part)) + part(configs[n])
  {
    var n := |configs| - 1;
    assert Parts(configs, part)[..n] == Parts(configs[..n], part);
  }

  lemma {:induction false} ListsAreParts<I>(configs: seq<ClientConfig<I>>)
    ensures Names(configs) == Concat(Parts(configs, (c: ClientConfig<I>) => [c.name]))
    ensures Indices(configs) == Concat(Parts(configs, (c: ClientConfig<I>) => IndexOf(c.key)))
    ensures EnvVars(configs) == Concat(Parts(configs, (c: ClientConfig<I>) => EnvVarOf(c.key)))
    ensures ObjectIds(configs) == Concat(Parts(configs, (c: ClientConfig<I>) => IdsOf(c)))
  {
    if |configs| > 0 {
      ListsAreParts(configs[..|configs| - 1]);
      PartsSnoc(configs, (c: ClientConfig<I>) => [c.name]);
      PartsSnoc(configs, (c: ClientConfig<I>) => IndexOf(c.key));
      PartsSnoc(configs, (c: ClientConfig<I>) => EnvVarOf(c.key));
      PartsSnoc(configs, (c: ClientConfig<I>) => IdsOf(c));
    }
  }

  /** Two clients share no name, derivation index, environment variable or object. */
  ghost predicate Apart<I>(a: ClientConfig<I>, b: ClientConfig<I>) {
    && a.name != b.name
    && (a.key.Imported? && b.key.Imported? ==> a.key.envVar != b.key.envVar)
    && (!a.key.Imported? && !b.key.Imported? ==>
         (if a.key.Derived? then a.key.index else a.key.deprecatedIndex)
         != (if b.key.Derived? then b.key.index else b.key.deprecatedIndex))
    && a.serverId != b.serverId && a.serverId !in b.packageIds && b.serverId !in a.packageIds
    && forall p :: p in a.packageIds ==> p !in b.packageIds
  }

  lemma {:induction false} ListsOfPrefix<I>(configs: seq<ClientConfig<I>>, n: nat)
    requires n <= |configs|
    ensures Names(configs[..n]) <= Names(configs)
    ensures Indices(configs[..n]) <= Indices(configs)
    ensures EnvVars(configs[..n]) <= EnvVars(configs)
    ensures ObjectIds(configs[..n]) <= ObjectIds(configs)
  {
    if n == |configs| {
      assert configs[..n] == configs;
    } else {
      var init := configs[..|configs| - 1];
      ListsOfPrefix(init, n);
      assert init[..n] == configs[..n];
    }
  }

  /** Insert into a set, as the source does: false when the element was there already. */
  method Insert<T(!new, ==)>(s: set<T>, ghost list: seq<T>, x: T) returns (r: set<T>, inserted: bool)
    requires Holds(s, list) && Distinct(list)
    ensures Holds(r, list + [x])
    ensures inserted <==> Distinct(list + [x])
  {
    DistinctSnoc(list, x);
    inserted := x !in s;
    r := s + {x};
  }

  /** The checks of one client, which extend the sets of what was seen before. */
  ghost predicate NoRepetition<I>(configs: seq<ClientConfig<I>>) {
    && Distinct(Names(configs))
    && Distinct(Indices(configs))
    && Distinct(EnvVars(configs))
    && Distinct(ObjectIds(configs))
  }

  /** The four sets hold what the clients use. */
  ghost predicate Seen<I(!new)>(configs: seq<ClientConfig<I>>, names: set<string>, indices: set<nat>,
                                envVars: set<string>, ids: set<I>) {
    && Holds(names, Names(configs))
    && Holds(indices, Indices(configs))
    && Holds(envVars, EnvVars(configs))
    && Holds(ids, ObjectIds(configs))
  }

  method CheckClient<I(!new, ==)>(config: ClientConfig<I>, names: set<string>, indices: set<nat>, envVars: set<string>,
                                  ids: set<I>, ghost before: seq<ClientConfig<I>>)
    returns (ok: bool, names': set<string>, indices': set<nat>, envVars': set<string>, ids': set<I>)
    requires Seen(before, names, indices, envVars, ids) && NoRepetition(before)
    ensures ok <==> |config.packageIds| > 0 && NoRepetition(before + [config])
    ensures ok ==> Seen(before + [config], names', indices', envVars', ids')
  {
    ghost var all := before + [config];
    assert all[..|before|] == before;
    names', indices', envVars', ids' := names, indices, envVars, ids;
    if |config.packageIds| == 0 {
      return false, names', indices', envVars', ids';
    }
    ok := true;
    names', ok := Insert(names, Names(before), config.name);
    if !ok {
      return;
    }
    match config.key {
      case Derived(index) =>
        indices', ok := Insert(indices, Indices(before), index);
      case Exported(index) =>
        indices', ok := Insert(indices, Indices(before), index);
      case Imported(envVar) =>
        envVars', ok := Insert(envVars, EnvVars(before), envVar);
    }
    if !ok {
      return;
    }
    ids', ok := Insert(ids, ObjectIds(before), config.serverId);
    ghost var server := ObjectIds(before) + [config.serverId];
    assert ObjectIds(all) == server + config.packageIds;
    if !ok {
      if Distinct(ObjectIds(all)) {
        DistinctPrefix(server, ObjectIds(all));
      }
      return;
    }
    for j := 0 to |config.packageIds|
      invariant Holds(ids', server + config.packageIds[..j]) && Distinct(server + config.packageIds[..j])
    {
      ghost var next := server + config.packageIds[..j] + [config.packageIds[j]];
      assert next == server + config.packageIds[..j + 1];
      ids', ok := Insert(ids', server + config.packageIds[..j], config.packageIds[j]);
      if !ok {
        if Distinct(ObjectIds(all)) {
          assert next <= ObjectIds(all);
          DistinctPrefix(next, ObjectIds(all));
        }
        return;
      }
    }
    assert config.packageIds[..|config.packageIds|] == config.packageIds;
    ok := true;
  }

  lemma PrefixWithoutRepetition<I>(configs: seq<ClientConfig<I>>, n: nat)
    requires n <= |configs|
    ensures NoRepetition(configs) ==> NoRepetition(configs[..n])
  {
    ListsOfPrefix(configs, n);
    if NoRepetition(configs) {
      DistinctPrefix(Names(configs[..n]), Names(configs));
      DistinctPrefix(Indices(configs[..n]), Indices(configs));
      DistinctPrefix(EnvVars(configs[..n]), EnvVars(configs));
      DistinctPrefix(ObjectIds(configs[..n]), ObjectIds(configs));
    }
  }

  lemma BadClient<I>(configs: seq<ClientConfig<I>>, i: nat)
    requires i < |configs|
    requires |configs[i].packageIds| == 0 || !NoRepetition(configs[..i] + [configs[i]])
    ensures !ValidConfigs(configs)
  {
    assert configs[..i + 1] == configs[..i] + [configs[i]];
    PrefixWithoutRepetition(configs, i + 1);
  }

  lemma PairApart<I>(a: ClientConfig<I>, b: ClientConfig<I>)
    ensures Apart(a, b) <==>
      && Disjoint([a.name], [b.name])
      && Disjoint(IndexOf(a.key), IndexOf(b.key))
      && Disjoint(EnvVarOf(a.key), EnvVarOf(b.key))
      && Disjoint(IdsOf(a), IdsOf(b))
  {
    assert Disjoint([a.name], [b.name]) <==> a.name != b.name by {
      assert [a.name][0] == a.name && [b.name][0] == b.name;
    }
    KeysApart(a.key, b.key);
    IdsApart(a, b);
  }

  lemma KeysApart(a: ClientKey, b: ClientKey)
    ensures Disjoint(IndexOf(a), IndexOf(b)) <==>
      (!a.Imported? && !b.Imported? ==>
         (if a.Derived? then a.index else a.deprecatedIndex) != (if b.Derived? then b.index else b.deprecatedIndex))
    ensures Disjoint(EnvVarOf(a), EnvVarOf(b)) <==> (a.Imported? && b.Imported? ==> a.envVar != b.envVar)
  {
    if !a.Imported? && !b.Imported? {
      assert Disjoint(IndexOf(a), IndexOf(b)) <==> IndexOf(a)[0] != IndexOf(b)[0];
    }
    if a.Imported? && b.Imported? {
      assert Disjoint(EnvVarOf(a), EnvVarOf(b)) <==> EnvVarOf(a)[0] != EnvVarOf(b)[0];
    }
  }

  lemma IdsMember<I>(config: ClientConfig<I>, id: I)
    ensures id in IdsOf(config) <==> id == config.serverId || id in config.packageIds
  {
  }

  lemma IdsApart<I>(a: ClientConfig<I>, b: ClientConfig<I>)
    ensures Disjoint(IdsOf(a), IdsOf(b)) <==>
      && a.serverId != b.serverId && a.serverId !in b.packageIds && b.serverId !in a.packageIds
      && forall p :: p in a.packageIds ==> p !in b.packageIds
  {
    DisjointMembers(IdsOf(a), IdsOf(b));
    IdsMember(a, a.serverId);
    IdsMember(b, a.serverId);
    IdsMember(a, b.serverId);
    IdsMember(b, b.serverId);
    forall p | p in a.packageIds ensures p in IdsOf(a) && (p in IdsOf(b) <==> p == b.serverId || p in b.packageIds) {
      IdsMember(a, p);
      IdsMember(b, p);
    }
  }

  lemma DisjointMembers<T>(a: seq<T>, b: seq<T>)
    ensures Disjoint(a, b) <==> forall x :: x in a ==> x !in b
  {
    if Disjoint(a, b) {
      forall x | x in a ensures x !in b {
      }
    }
    if forall x :: x in a ==> x !in b {
      forall i, j | 0 <= i < |a| && 0 <= j < |b| ensures a[i] != b[j] {
        assert a[i] in a && b[j] in b;
      }
    }
  }

  ghost predicate OwnDistinct<I, T>(configs: seq<ClientConfig<I>>, part: ClientConfig<I> -> seq<T>) {
    forall i :: 0 <= i < |configs| ==> Distinct(part(configs[i]))
  }

  ghost predicate PairsDisjoint<I, T>(configs: seq<ClientConfig<I>>, part: ClientConfig<I> -> seq<T>) {
    forall i, j :: 0 <= i < j < |configs| ==> Disjoint(part(configs[i]), part(configs[j]))
  }

  lemma DistinctByPart<I, T>(configs: seq<ClientConfig<I>>, part: ClientConfig<I> -> seq<T>)
    ensures Distinct(Concat(Parts(configs, part))) <==> OwnDistinct(configs, part) && PairsDisjoint(configs, part)
  {
    var parts := Parts(configs, part);
    DistinctConcat(parts);
    assert forall i :: 0 <= i < |configs| ==> parts[i] == part(configs[i]);
  }

  lemma NoRepetitionByPart<I>(configs: seq<ClientConfig<I>>, name: ClientConfig<I> -> seq<string>,
                              index: ClientConfig<I> -> seq<nat>, envVar: ClientConfig<I> -> seq<string>,
                              ids: ClientConfig<I> -> seq<I>)
    requires name == ((c: ClientConfig<I>) => [c.name]) && index == ((c: ClientConfig<I>) => IndexOf(c.key))
    requires envVar == ((c: ClientConfig<I>) => EnvVarOf(c.key)) && ids == ((c: ClientConfig<I>) => IdsOf(c))
    ensures NoRepetition(configs) <==>
      && OwnDistinct(configs, ids)
      && PairsDisjoint(configs, name) && PairsDisjoint(configs, index)
      && PairsDisjoint(configs, envVar) && PairsDisjoint(configs, ids)
  {
    ListsAreParts(configs);
    DistinctByPart(configs, name);
    DistinctByPart(configs, index);
    DistinctByPart(configs, envVar);
    DistinctByPart(configs, ids);
  }

  /** What is free of repetition: no client names an object twice, and any two clients are apart. */
  lemma NoRepetitionMeans<I>(configs: seq<ClientConfig<I>>)
    ensures NoRepetition(configs) <==>
      && (forall i :: 0 <= i < |configs| ==> Distinct(IdsOf(configs[i])))
      && (forall i, j :: 0 <= i < j < |configs| ==> Apart(configs[i], configs[j]))
  {
    var name, index := (c: ClientConfig<I>) => [c.name], (c: ClientConfig<I>) => IndexOf(c.key);
    var envVar, ids := (c: ClientConfig<I>) => EnvVarOf(c.key), (c: ClientConfig<I>) => IdsOf(c);
    NoRepetitionByPart(configs, name, index, envVar, ids);
    forall i, j | 0 <= i < j < |configs|
      ensures Apart(configs[i], configs[j]) <==>
        && Disjoint(name(configs[i]), name(configs[j])) && Disjoint(index(configs[i]), index(configs[j]))
        && Disjoint(envVar(configs[i]), envVar(configs[j])) && Disjoint(ids(configs[i]), ids(configs[j]))
    {
      PairApart(configs[i], configs[j]);
    }
  }

  /** A derivation index is in use exactly when a client derives or once derived its key from it. */
  lemma {:induction false} IndexInUse<I>(configs: seq<ClientConfig<I>>, x: nat)
    ensures x in Indices(configs) <==> UsesIndex(configs, x)
  {
    if |configs| > 0 {
      var init, last := configs[..|configs| - 1], configs[|configs| - 1];
      IndexInUse(init, x);
      assert configs == init + [last];
      assert x in IndexOf(last.key) <==> last.key == Derived(x) || last.key == Exported(x);
      if exists i :: 0 <= i < |init| && (init[i].key == Derived(x) || init[i].key == Exported(x)) {
        var i :| 0 <= i < |init| && (init[i].key == Derived(x) || init[i].key == Exported(x));
        assert configs[i] == init[i];
      }
      if x in IndexOf(last.key) {
        assert configs[|init|] == last;
      }
    }
  }

  /** An accepted list in terms of its clients: each has packages and names no object twice, any two are
      apart, and the derivation indices of the clients are exactly the numbers below some n. */
  lemma AcceptedConfigurations<I>(configs: seq<ClientConfig<I>>)
    ensures ValidConfigs(configs) <==>
      && (forall i :: 0 <= i < |configs| ==> |configs[i].packageIds| > 0 && Distinct(IdsOf(configs[i])))
      && (forall i, j :: 0 <= i < j < |configs| ==> Apart(configs[i], configs[j]))
      && exists n: nat :: IndicesBelow(configs, n)
  {
    NoRepetitionMeans(configs);
    forall x: nat ensures x in Indices(configs) <==> UsesIndex(configs, x) {
      IndexInUse(configs, x);
    }
    if ValidConfigs(configs) {
      forall x: nat ensures UsesIndex(configs, x) <==> x < |Indices(configs)| {
        IndicesAreIncremental(configs, x);
      }
      assert IndicesBelow(configs, |Indices(configs)|);
    }
    if NoRepetition(configs) && exists n: nat :: IndicesBelow(configs, n) {
      var n: nat :| IndicesBelow(configs, n);
      SetOfDistinct(Below(n), Indices(configs));
      forall i | 0 <= i < |Indices(configs)| ensures i in Indices(configs) {
        assert UsesIndex(configs, i) <==> i < n;
      }
    }
  }

  ghost predicate UsesIndex<I>(configs: seq<ClientConfig<I>>, x: nat) {
    exists i :: 0 <= i < |configs| && (configs[i].key == Derived(x) || configs[i].key == Exported(x))
  }

  ghost predicate IndicesBelow<I>(configs: seq<ClientConfig<I>>, n: nat) {
    forall x: nat :: UsesIndex(configs, x) <==> x < n
  }

  /** Looking for gaps in the set is looking for gaps in the list. */
  lemma NoGaps(s: set<nat>, list: seq<nat>)
    requires Holds(s, list) && Distinct(list)
    ensures (forall i :: 0 <= i < |s| ==> i in s) <==> (forall i :: 0 <= i < |list| ==> i in list)
  {
    SetOfDistinct(s, list);
    if forall i :: 0 <= i < |s| ==> i in s {
      forall i | 0 <= i < |list| ensures i in list {
        assert i in s;
      }
    }
  }

  method Validate<I(!new, ==)>(configs: seq<ClientConfig<I>>) returns (ok: bool)
    ensures ok <==> ValidConfigs(configs)
  {
    var names: set<string>, indices: set<nat>, envVars: set<string>, ids: set<I> := {}, {}, {}, {};
    for i := 0 to |configs|
      invariant Seen(configs[..i], names, indices, envVars, ids) && NoRepetition(configs[..i])
      invariant forall j :: 0 <= j < i ==> |configs[j].packageIds| > 0
    {
      assert configs[..i + 1] == configs[..i] + [configs[i]];
      var good;
      good, names, indices, envVars, ids := CheckClient(configs[i], names, indices, envVars, ids, configs[..i]);
      if !good {
        BadClient(configs, i);
        return false;
      }
    }
    assert configs[..|configs|] == configs;
    NoGaps(indices, Indices(configs));
    ok := forall i :: 0 <= i < |indices| ==> i in indices;
  }

  /** The derivation indices of an accepted list are exactly the numbers below their count, so the
      next free index is that count. */
  lemma IndicesAreIncremental<I>(configs: seq<ClientConfig<I>>, x: nat)
    requires ValidConfigs(configs)
    ensures x in Indices(configs) <==> x < |Indices(configs)|
  {
    NumbersBelow(Indices(configs), x);
  }

  // ----- Loading

  /** The key of a client: derived from the seed, decoded from the environment, or none any more. */
  function KeyOf<I, K>(derive: nat -> K, env: string -> Option<K>, config: ClientConfig<I>): Option<K> {
    match config.key
    case Derived(index) => Some(derive(index))
    case Imported(envVar) => env(envVar)
    case Exported(_) => None
  }

  function PackageMap<I, K>(derive: nat -> K, env: string -> Option<K>, configs: seq<ClientConfig<I>>): map<I, K> {
    if |configs| == 0 then map[]
    else
      var m, last := PackageMap(derive, env, configs[..|configs| - 1]), configs[|configs| - 1];
      match KeyOf(derive, env, last)
      case Some(key) => m + map p | p in last.packageIds :: key
      case None => m
  }

  function ServerMap<I, K>(derive: nat -> K, env: string -> Option<K>, configs: seq<ClientConfig<I>>): map<I, K> {
    if |configs| == 0 then map[]
    else
      var m, last := ServerMap(derive, env, configs[..|configs| - 1]), configs[|configs| - 1];
      match KeyOf(derive, env, last)
      case Some(key) => m[last.serverId := key]
      case None => m
  }

  /** Every imported key is in the environment. */
  ghost predicate Available<I, K>(env: string -> Option<K>, configs: seq<ClientConfig<I>>) {
    forall i :: 0 <= i < |configs| && configs[i].key.Imported? ==> env(configs[i].key.envVar).Some?
  }

  method InsertPackages<I(!new, ==), K>(m: map<I, K>, packageIds: seq<I>, key: K) returns (r: map<I, K>)
    ensures r == m + map p | p in packageIds :: key
  {
    r := m;
    for j := 0 to |packageIds|
      invariant r == m + map p | p in packageIds[..j] :: key
    {
      assert packageIds[..j + 1] == packageIds[..j] + [packageIds[j]];
      r := r[packageIds[j] := key];
    }
    assert packageIds[..|packageIds|] == packageIds;
  }

  /** The seed, where it decodes, is given by what it derives. */
  method Load<I(!new, ==), K>(seed: Option<nat -> K>, env: string -> Option<K>, configs: seq<ClientConfig<I>>)
    returns (r: Result<MasterKeys<I, K>>)
    ensures r.Ok? <==> seed.Some? && Available(env, configs) && PackageMap(seed.value, env, configs) != map[]
    ensures r.Ok? ==> r.value == Permissioned(PackageMap(seed.value, env, configs), ServerMap(seed.value, env, configs))
  {
    if seed.None? {
      return Err(GeneralError("Invalid seed"));
    }
    var derive := seed.value;
    var packageToKey: map<I, K>, serverToKey: map<I, K> := map[], map[];
    for i := 0 to |configs|
      invariant packageToKey == PackageMap(derive, env, configs[..i])
      invariant serverToKey == ServerMap(derive, env, configs[..i])
      invariant Available(env, configs[..i])
    {
      var config := configs[i];
      assert configs[..i + 1][..i] == configs[..i] && configs[..i + 1][i] == config;
      var masterKey: K;
      match config.key {
        case Derived(index) =>
          masterKey := derive(index);
        case Imported(envVar) =>
          var decoded := env(envVar);
          if decoded.None? {
            return Err(GeneralError("Invalid imported key"));
          }
          masterKey := decoded.value;
        case Exported(_) =>
          continue;
      }
      packageToKey := InsertPackages(packageToKey, config.packageIds, masterKey);
      serverToKey := serverToKey[config.serverId := masterKey];
    }
    assert configs[..|configs|] == configs;
    if |packageToKey| == 0 {
      return Err(GeneralError("No clients found in the configuration"));
    }
    return Ok(Permissioned(packageToKey, serverToKey));
  }

  // ----- Every client gets its own key

  lemma {:induction false} IdsAmongAll<I>(configs: seq<ClientConfig<I>>, i: nat)
    requires i < |configs|
    ensures configs[i].serverId in ObjectIds(configs)
    ensures forall p :: p in configs[i].packageIds ==> p in ObjectIds(configs)
  {
    if i < |configs| - 1 {
      IdsAmongAll(configs[..|configs| - 1], i);
    }
  }

  lemma DistinctParts<T>(a: seq<T>, x: T, b: seq<T>)
    requires Distinct(a + [x] + b)
    ensures Distinct(a) && x !in a && x !in b
    ensures forall y :: y in b ==> y !in a
  {
    var all := a + [x] + b;
    DistinctPrefix(a, all);
    forall i | 0 <= i < |a| ensures a[i] != x {
      assert all[i] != all[|a|];
    }
    forall j | 0 <= j < |b| ensures b[j] != x && b[j] !in a {
      assert all[|a| + 1 + j] == b[j] && all[|a|] == x;
      forall i | 0 <= i < |a| ensures a[i] != b[j] {
        assert all[i] != all[|a| + 1 + j];
      }
    }
  }

  /** With distinct object ids nothing is overwritten: each package and each server id leads to its
      own client's key, and those of exported clients to none. */
  lemma {:induction false} EveryClientItsKey<I, K>(derive: nat -> K, env: string -> Option<K>,
                                                   configs: seq<ClientConfig<I>>, i: nat)
    requires Distinct(ObjectIds(configs)) && i < |configs|
    ensures
      var packages, servers := PackageMap(derive, env, configs), ServerMap(derive, env, configs);
      match KeyOf(derive, env, configs[i])
      case Some(key) =>
        && configs[i].serverId in servers && servers[configs[i].serverId] == key
        && forall p :: p in configs[i].packageIds ==> p in packages && packages[p] == key
      case None =>
        && configs[i].serverId !in servers
        && forall p :: p in configs[i].packageIds ==> p !in packages
  {
    var n := |configs| - 1;
    var init, last := configs[..n], configs[n];
    DistinctParts(ObjectIds(init), last.serverId, last.packageIds);
    if i < n {
      EveryClientItsKey(derive, env, init, i);
      IdsAmongAll(init, i);
    } else {
      forall p | p in last.packageIds + [last.serverId]
        ensures p !in PackageMap(derive, env, init) && p !in ServerMap(derive, env, init) {
        OnlyKnownIds(derive, env, init, p);
      }
    }
  }

  lemma {:induction false} OnlyKnownIds<I, K>(derive: nat -> K, env: string -> Option<K>, configs: seq<ClientConfig<I>>,
                                              id: I)
    requires id !in ObjectIds(configs)
    ensures id !in PackageMap(derive, env, configs) && id !in ServerMap(derive, env, configs)
  {
    if |configs| > 0 {
      OnlyKnownIds(derive, env, configs[..|configs| - 1], id);
    }
  }

  /** For accepted configurations that load: each package of a client whose key was not exported is
      served with that client's own key, and packages of exported clients are not served. */
  lemma LoadedKeysServe<I, K>(derive: nat -> K, env: string -> Option<K>, configs: seq<ClientConfig<I>>, version: U32,
                              i: nat, packageId: I)
    requires ValidConfigs(configs) && Available(env, configs)
    requires i < |configs| && packageId in configs[i].packageIds
    ensures
      var keys := Permissioned(PackageMap(derive, env, configs), ServerMap(derive, env, configs));
      KeyForPackage(keys, version, packageId) ==
        match configs[i].key
        case Derived(index) => Found(derive(index))
        case Imported(envVar) => Found(env(envVar).value)
        case Exported(_) => Missing(UnsupportedPackageId)
  {
    EveryClientItsKey(derive, env, configs, i);
  }

  /** The key server objects for which proofs of possession are built: clients that still have a key. */
  function SupportedServerIds<I>(configs: seq<ClientConfig<I>>): seq<I> {
    if |configs| == 0 then []
    else
      SupportedServerIds(configs[..|configs| - 1]) + (if configs[|configs| - 1].key.Exported? then []
                                                      else [configs[|configs| - 1].serverId])
  }

  /** Whatever the configurations, once they load every supported server id has a key. */
  lemma {:induction false} SupportedServersHaveKeys<I, K>(derive: nat -> K, env: string -> Option<K>,
                                                          configs: seq<ClientConfig<I>>, version: U32, id: I)
    requires Available(env, configs)
    requires id in SupportedServerIds(configs)
    ensures KeyForServer(Permissioned(PackageMap(derive, env, configs), ServerMap(derive, env, configs)), version,
                         id).Found?
  {
    var init, last := configs[..|configs| - 1], configs[|configs| - 1];
    if id in SupportedServerIds(init) {
      SupportedServersHaveKeys(derive, env, init, version, id);
    }
    assert last.key.Imported? ==> env(last.key.envVar).Some?;
  }

  /** A server id is supported exactly when it is that of a client that still has a key. */
  lemma {:induction false} SupportedExactly<I>(configs: seq<ClientConfig<I>>, id: I)
    ensures id in SupportedServerIds(configs)
       <==> exists i :: 0 <= i < |configs| && configs[i].serverId == id && !configs[i].key.Exported?
  {
    if |configs| > 0 {
      var init, last := configs[..|configs| - 1], configs[|configs| - 1];
      SupportedExactly(init, id);
      if exists i :: 0 <= i < |init| && init[i].serverId == id && !init[i].key.Exported? {
        var i :| 0 <= i < |init| && init[i].serverId == id && !init[i].key.Exported?;
        assert configs[i] == init[i];
      }
      if last.serverId == id && !last.key.Exported? {
        assert configs[|init|].serverId == id;
      }
      if exists i :: 0 <= i < |configs| && configs[i].serverId == id && !configs[i].key.Exported? {
        var i :| 0 <= i < |configs| && configs[i].serverId == id && !configs[i].key.Exported?;
        assert i < |init| ==> init[i] == configs[i];
      }
    }
  }
}
