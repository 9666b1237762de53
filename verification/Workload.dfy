/**
 The app workload deployment: secrets and permissions gathered from dependencies and handed to
 the container apps and jobs one after the other, through list objects that are shared and grown
 in place.
 */
module Workload {
  import opened Wrappers

  datatype Secret = Secret(key: string, value: string)

  datatype Permission = Permission(role: string, scope: string)

  const REGISTRY_KEY := "registry-secret"

  /** A list object of secrets. */
  class SecretList {
    var items: seq<Secret>

    constructor ()
      ensures items == []
    {
      items := [];
    }

    method Append(x: Secret)
      modifies this
      ensures items == old(items) + [x]
    {
      items := items + [x];
    }

    method Extend(xs: seq<Secret>)
      modifies this
      ensures items == old(items) + xs
    {
      items := items + xs;
    }
  }

  /** A list object of permissions. */
  class PermissionList {
    var items: seq<Permission>

    constructor ()
      ensures items == []
    {
      items := [];
    }

    method Extend(xs: seq<Permission>)
      modifies this
      ensures items == old(items) + xs
    {
      items := items + xs;
    }
  }

  /** An app or job configuration: its list fields are objects, absent lists are null. */
  datatype Config = Config(name: string, secrets: SecretList?, permissions: PermissionList?,
                           registryPassword: Option<string>)

  /** What a dependency (a storage account, the configuration store) contributes. */
  datatype Dependency = Dependency(secrets: seq<Secret>, permissions: seq<Permission>)

  // ---------------------------------------------------------------- the run as a function of values

  datatype ConfigValue = ConfigValue(
    secrets: seq<Secret>,
    permissions: seq<Permission>,
    registryPassword: Option<string>)

  function SecretsOf(l: SecretList?): seq<Secret>
    reads l
  {
    if l == null then [] else l.items
  }

  function PermissionsOf(l: PermissionList?): seq<Permission>
    reads l
  {
    if l == null then [] else l.items
  }

  function ValueOf(c: Config): (v: ConfigValue)
    reads c.secrets, c.permissions
    ensures v.secrets == if c.secrets == null then [] else c.secrets.items
    ensures v.permissions == if c.permissions == null then [] else c.permissions.items
    ensures v.registryPassword == c.registryPassword
  {
    ConfigValue(SecretsOf(c.secrets), PermissionsOf(c.permissions), c.registryPassword)
  }

  /** The secret appended for a registry. */
  function RegistrySecret(c: ConfigValue): seq<Secret> {
    match c.registryPassword case None => [] case Some(p) => [Secret(REGISTRY_KEY, p)]
  }

  /** The secrets one app is created with, given what the shared list held before. */
  function Emitted(shared: seq<Secret>, c: ConfigValue): seq<Secret> { shared + c.secrets + RegistrySecret(c) }

  /**
   What the shared list holds afterwards.  An empty shared list is replaced by a fresh one in the
   app, which then takes the registry secret away with it.
   */
  function SharedAfter(shared: seq<Secret>, c: ConfigValue): seq<Secret> {
    if shared + c.secrets == [] then [] else Emitted(shared, c)
  }

  function SharedAfterAll(shared: seq<Secret>, cs: seq<ConfigValue>): seq<Secret> {
    if cs == [] then shared
    else SharedAfter(SharedAfterAll(shared, cs[..|cs| - 1]), cs[|cs| - 1])
  }

  /** What a created app or job receives: the arguments of the resource, fixed at creation. */
  datatype Created = Created(secrets: seq<Secret>, permissions: seq<Permission>)

  /** Everything created by a run. */
  function CreatedAll(shared: seq<Secret>, common: seq<Permission>, cs: seq<ConfigValue>): (r: seq<Created>)
    ensures |r| == |cs|
  {
    if cs == [] then []
    else
      var n := |cs| - 1;
      CreatedAll(shared, common, cs[..n])
      + [Created(Emitted(SharedAfterAll(shared, cs[..n]), cs[n]), cs[n].permissions + common)]
  }

  /** The secrets that app or job number `i` is created with. */
  function EmittedAt(shared: seq<Secret>, cs: seq<ConfigValue>, i: nat): seq<Secret>
    requires i < |cs|
  {
    Emitted(SharedAfterAll(shared, cs[..i]), cs[i])
  }

  // ---------------------------------------------------------------- the code on list objects

  class ContainerApp {
    var secrets: SecretList
    var emittedSecrets: seq<Secret>
    var emittedPermissions: seq<Permission>

    /**
     Takes the given list object unless it is empty, appends the registry secret to whichever
     list it took, and creates the app from the result.
     */
    constructor (given: SecretList, permissions: PermissionList, registryPassword: Option<string>)
      modifies given
      ensures emittedSecrets == old(given.items) + RegistrySecret(ConfigValue([], [], registryPassword))
      ensures emittedPermissions == permissions.items
      ensures given.items == if old(given.items) == [] then [] else emittedSecrets
      ensures secrets.items == emittedSecrets && (secrets == given || fresh(secrets))
    {
      var taken := given;
      if given.items == [] {
        taken := new SecretList();
      }
      secrets := taken;
      emittedSecrets := [];
      emittedPermissions := permissions.items;
      new;
      if registryPassword.Some? {
        secrets.Append(Secret(REGISTRY_KEY, registryPassword.value));
      }
      emittedSecrets := secrets.items;
    }
  }

  /** No two configurations share a permission list object. */
  ghost predicate Unaliased(configs: seq<Config>) {
    forall i, j :: 0 <= i < j < |configs| && configs[i].permissions != null ==>
      configs[i].permissions != configs[j].permissions
  }

  function PermissionLists(configs: seq<Config>): set<PermissionList> {
    set c | c in configs && c.permissions != null :: c.permissions
  }

  function SecretLists(configs: seq<Config>): set<SecretList> {
    set c | c in configs && c.secrets != null :: c.secrets
  }

  function ValuesOf(configs: seq<Config>): (r: seq<ConfigValue>)
    reads SecretLists(configs), PermissionLists(configs)
    ensures |r| == |configs|
    ensures forall i :: 0 <= i < |configs| ==> assert configs[i] in configs; r[i] == ValueOf(configs[i])
  {
    seq(|configs|, i requires 0 <= i < |configs| reads SecretLists(configs), PermissionLists(configs) =>
      assert configs[i] in configs; ValueOf(configs[i]))
  }

  /** The body of the app loop, and of the job loop. */
  method DeployOne(config: Config, appSecrets: SecretList, appPerms: PermissionList) returns (created: Created)
    requires config.secrets != appSecrets && config.permissions != appPerms
    modifies appSecrets, config.permissions
    ensures created.secrets == Emitted(old(appSecrets.items), old(ValueOf(config)))
    ensures created.permissions == old(PermissionsOf(config.permissions)) + appPerms.items
    ensures appSecrets.items == SharedAfter(old(appSecrets.items), old(ValueOf(config)))
    ensures config.permissions != null ==>
              config.permissions.items == if old(config.permissions.items) == [] then [] else created.permissions
  {
    if config.secrets != null && config.secrets.items != [] {
      appSecrets.Extend(config.secrets.items);
    }
    var perms: PermissionList;
    if config.permissions != null && config.permissions.items != [] {
      perms := config.permissions;
    } else {
      perms := new PermissionList();
    }
    perms.Extend(appPerms.items);
    var app := new ContainerApp(appSecrets, perms, config.registryPassword);
    return Created(app.emittedSecrets, app.emittedPermissions);
  }

  /** The configurations from `i` on read as the given values. */
  ghost predicate ReadsAs(configs: seq<Config>, values: seq<ConfigValue>, i: nat)
    reads SecretLists(configs), PermissionLists(configs)
  {
    && |values| == |configs|
    && forall k :: i <= k < |configs| ==>
         assert configs[k] in configs; ValueOf(configs[k]) == values[k]
  }

  /** One turn of the loop changes no configuration that is still to come. */
  method DeployNext(configs: seq<Config>, i: nat, ghost values: seq<ConfigValue>, appSecrets: SecretList,
                    appPerms: PermissionList)
    returns (one: Created)
    requires i < |configs| && Unaliased(configs) && ReadsAs(configs, values, i)
    requires appSecrets !in SecretLists(configs) && appPerms !in PermissionLists(configs)
    modifies appSecrets, PermissionLists(configs)
    ensures one == Created(Emitted(old(appSecrets.items), values[i]), values[i].permissions + appPerms.items)
    ensures appSecrets.items == SharedAfter(old(appSecrets.items), values[i])
    ensures ReadsAs(configs, values, i + 1)
    ensures appPerms.items == old(appPerms.items)
  {
    assert configs[i] in configs;
    assert ValueOf(configs[i]) == values[i];
    one := DeployOne(configs[i], appSecrets, appPerms);
    forall k | i + 1 <= k < |configs|
      ensures ValueOf(configs[k]) == values[k]
    {
      assert configs[k] in configs;
      assert old(ValueOf(configs[k])) == values[k];
    }
  }

  /** Both loops of `deploy`: each app is created from the list as the earlier ones left it. */
  method DeployAll(configs: seq<Config>, appSecrets: SecretList, appPerms: PermissionList)
    returns (created: seq<Created>)
    requires Unaliased(configs)
    requires appSecrets !in SecretLists(configs) && appPerms !in PermissionLists(configs)
    modifies appSecrets, PermissionLists(configs)
    ensures created == CreatedAll(old(appSecrets.items), appPerms.items, old(ValuesOf(configs)))
    ensures appSecrets.items == SharedAfterAll(old(appSecrets.items), old(ValuesOf(configs)))
  {
    created := [];
    ghost var values := ValuesOf(configs);
    ghost var shared := appSecrets.items;
    for i := 0 to |configs|
      invariant ReadsAs(configs, values, i)
      invariant appSecrets.items == SharedAfterAll(shared, values[..i])
      invariant created == CreatedAll(shared, appPerms.items, values[..i])
    {
      assert values[..i + 1][..i] == values[..i];
      var one := DeployNext(configs, i, values, appSecrets, appPerms);
      created := created + [one];
    }
    assert values[..|configs|] == values;
  }

  /** The dependency loops of `deploy`: both lists are grown by each dependency in turn. */
  method CollectDependencies(dependencies: seq<Dependency>) returns (appSecrets: SecretList, appPerms: PermissionList)
    ensures fresh(appSecrets) && fresh(appPerms)
    ensures appSecrets.items == AllSecrets(dependencies) && appPerms.items == AllPermissions(dependencies)
  {
    appSecrets := new SecretList();
    appPerms := new PermissionList();
    for i := 0 to |dependencies|
      invariant appSecrets.items == AllSecrets(dependencies[..i])
      invariant appPerms.items == AllPermissions(dependencies[..i])
    {
      assert dependencies[..i + 1][..i] == dependencies[..i];
      appSecrets.Extend(dependencies[i].secrets);
      appPerms.Extend(dependencies[i].permissions);
    }
    assert dependencies[..|dependencies|] == dependencies;
  }

  /** `deploy`: dependencies first, then apps, then jobs, all on one secret list. */
  method Deploy(dependencies: seq<Dependency>, apps: seq<Config>, jobs: seq<Config>)
    returns (created: seq<Created>)
    requires Unaliased(apps + jobs)
    modifies PermissionLists(apps + jobs)
    ensures created == CreatedAll(AllSecrets(dependencies), AllPermissions(dependencies), old(ValuesOf(apps + jobs)))
    ensures Deployed(created, dependencies, old(ValuesOf(apps + jobs)))
  {
    ghost var values := ValuesOf(apps + jobs);
    CreatedIsDeployed(dependencies, values);
    var appSecrets, appPerms := CollectDependencies(dependencies);
    assert ValuesOf(apps + jobs) == values;
    created := DeployAll(apps + jobs, appSecrets, appPerms);
  }

  function AllSecrets(ds: seq<Dependency>): seq<Secret> {
    if ds == [] then [] else AllSecrets(ds[..|ds| - 1]) + ds[|ds| - 1].secrets
  }

  function AllPermissions(ds: seq<Dependency>): seq<Permission> {
    if ds == [] then [] else AllPermissions(ds[..|ds| - 1]) + ds[|ds| - 1].permissions
  }

  // ---------------------------------------------------------------- what every app receives

  /** Where part `k` stands when parts are put one after the other. */
  function Offset<T>(parts: seq<seq<T>>, k: nat): nat
    requires k <= |parts|
  {
    if k == 0 then 0 else Offset(parts, k - 1) + |parts[k - 1]|
  }

  /** Part `k` stands at its place. */
  predicate PartAt<T(==)>(whole: seq<T>, parts: seq<seq<T>>, k: nat)
    requires k < |parts|
  {
    var at := Offset(parts, k);
    at + |parts[k]| <= |whole| && whole[at..at + |parts[k]|] == parts[k]
  }

  /** The list is exactly the parts, each in its place. */
  predicate InOrder<T(==)>(whole: seq<T>, parts: seq<seq<T>>) {
    |whole| == Offset(parts, |parts|) && forall k :: 0 <= k < |parts| ==> PartAt(whole, parts, k)
  }

  function SecretParts(ds: seq<Dependency>): (r: seq<seq<Secret>>)
    ensures |r| == |ds| && forall k :: 0 <= k < |ds| ==> r[k] == ds[k].secrets
  {
    seq(|ds|, k requires 0 <= k < |ds| => ds[k].secrets)
  }

  function PermissionParts(ds: seq<Dependency>): (r: seq<seq<Permission>>)
    ensures |r| == |ds| && forall k :: 0 <= k < |ds| ==> r[k] == ds[k].permissions
  {
    seq(|ds|, k requires 0 <= k < |ds| => ds[k].permissions)
  }

  lemma {:induction false} OffsetPrefix<T>(parts: seq<seq<T>>, last: seq<T>, k: nat)
    requires k <= |parts|
    ensures Offset(parts + [last], k) == Offset(parts, k)
  {
    if k > 0 {
      OffsetPrefix(parts, last, k - 1);
    }
  }

  /** One more part at the end. */
  lemma InOrderMore<T>(whole: seq<T>, parts: seq<seq<T>>, last: seq<T>)
    requires InOrder(whole, parts)
    ensures InOrder(whole + last, parts + [last])
  {
    var longer, more := whole + last, parts + [last];
    forall k | 0 <= k < |more|
      ensures PartAt(longer, more, k)
    {
      OffsetPrefix(parts, last, k);
      if k < |parts| {
        var at := Offset(parts, k);
        assert PartAt(whole, parts, k);
        assert longer[at..at + |parts[k]|] == whole[at..at + |parts[k]|];
      }
    }
    OffsetPrefix(parts, last, |parts|);
  }

  /** The dependency lists are the contributions of the dependencies in order. */
  lemma {:induction false} ContributionsInOrder(ds: seq<Dependency>)
    ensures InOrder(AllSecrets(ds), SecretParts(ds)) && InOrder(AllPermissions(ds), PermissionParts(ds))
  {
    if ds != [] {
      var n := |ds| - 1;
      ContributionsInOrder(ds[..n]);
      InOrderMore(AllSecrets(ds[..n]), SecretParts(ds[..n]), ds[n].secrets);
      InOrderMore(AllPermissions(ds[..n]), PermissionParts(ds[..n]), ds[n].permissions);
      PartsMore(ds);
    }
  }

  lemma PartsMore(ds: seq<Dependency>)
    requires ds != []
    ensures SecretParts(ds) == SecretParts(ds[..|ds| - 1]) + [ds[|ds| - 1].secrets]
    ensures PermissionParts(ds) == PermissionParts(ds[..|ds| - 1]) + [ds[|ds| - 1].permissions]
  {}

  /**
   What a deployment creates: every app has its own permissions followed by the contributions of
   all dependencies in order, and as secrets those contributions, what the earlier apps left
   behind, its own and its registry secret.
   */
  ghost predicate Deployed(created: seq<Created>, ds: seq<Dependency>, cs: seq<ConfigValue>) {
    && |created| == |cs|
    && exists shared, common ::
         && InOrder(shared, SecretParts(ds)) && InOrder(common, PermissionParts(ds))
         && forall i :: 0 <= i < |cs| ==>
              && created[i].permissions == cs[i].permissions + common
              && created[i].secrets
                 == shared + LeftBehind(shared, cs[..i]) + cs[i].secrets
                    + (if cs[i].registryPassword.None? then []
                       else [Secret("registry-secret", cs[i].registryPassword.value)])
  }

  lemma CreatedIsDeployed(ds: seq<Dependency>, cs: seq<ConfigValue>)
    ensures Deployed(CreatedAll(AllSecrets(ds), AllPermissions(ds), cs), ds, cs)
  {
    ContributionsInOrder(ds);
    var shared, common := AllSecrets(ds), AllPermissions(ds);
    var created := CreatedAll(shared, common, cs);
    forall i | 0 <= i < |cs|
      ensures created[i].permissions == cs[i].permissions + common
      ensures created[i].secrets
              == shared + LeftBehind(shared, cs[..i]) + cs[i].secrets
                 + (if cs[i].registryPassword.None? then []
                    else [Secret("registry-secret", cs[i].registryPassword.value)])
    {
      CreatedHas(shared, common, cs, i);
      OwnAndDependencySecrets(shared, cs, i);
    }
  }

  /** Every contribution reaches every app. */
  lemma ContributionReaches(created: seq<Created>, ds: seq<Dependency>, cs: seq<ConfigValue>, i: nat, k: nat)
    requires Deployed(created, ds, cs) && i < |cs| && k < |ds|
    ensures forall x :: x in ds[k].permissions ==> x in created[i].permissions
    ensures forall x :: x in ds[k].secrets ==> x in created[i].secrets
  {
    var shared, common :|
      && InOrder(shared, SecretParts(ds)) && InOrder(common, PermissionParts(ds))
      && forall i :: 0 <= i < |cs| ==>
           && created[i].permissions == cs[i].permissions + common
           && created[i].secrets
              == shared + LeftBehind(shared, cs[..i]) + cs[i].secrets
                 + (if cs[i].registryPassword.None? then []
                    else [Secret("registry-secret", cs[i].registryPassword.value)]);
    PartWithin(shared, SecretParts(ds), k);
    PartWithin(common, PermissionParts(ds), k);
  }

  lemma PartWithin<T>(whole: seq<T>, parts: seq<seq<T>>, k: nat)
    requires InOrder(whole, parts) && k < |parts|
    ensures forall x :: x in parts[k] ==> x in whole
  {
    assert PartAt(whole, parts, k);
  }

  /**
   Each app's permissions are exactly its own followed by those of the dependencies, and its
   secrets come from the shared list as the earlier apps left it.
   */
  lemma {:induction false} CreatedHas(shared: seq<Secret>, common: seq<Permission>, cs: seq<ConfigValue>, i: nat)
    requires i < |cs|
    ensures CreatedAll(shared, common, cs)[i] == Created(EmittedAt(shared, cs, i), cs[i].permissions + common)
  {
    var n := |cs| - 1;
    assert CreatedAll(shared, common, cs)[i]
        == if i < n then CreatedAll(shared, common, cs[..n])[i]
           else Created(EmittedAt(shared, cs, n), cs[n].permissions + common);
    if i < n {
      CreatedHas(shared, common, cs[..n], i);
      assert cs[..n][..i] == cs[..i] && cs[..n][i] == cs[i];
    }
  }

  lemma {:induction false} SharedStartsWith(shared: seq<Secret>, cs: seq<ConfigValue>)
    ensures shared <= SharedAfterAll(shared, cs)
  {
    if cs != [] {
      SharedStartsWith(shared, cs[..|cs| - 1]);
    }
  }

  /** By its turn something is in the shared list, so app `i` takes the list object itself. */
  predicate Shares(shared: seq<Secret>, cs: seq<ConfigValue>, i: nat)
    requires i < |cs|
  {
    shared != [] || exists m :: 0 <= m <= i && cs[m].secrets != []
  }

  /** What app `i` leaves in the shared list: its own secrets, and its registry secret if it took the list. */
  function Leaves(shared: seq<Secret>, cs: seq<ConfigValue>, i: nat): seq<Secret>
    requires i < |cs|
  {
    cs[i].secrets + (if Shares(shared, cs, i) then RegistrySecret(cs[i]) else [])
  }

  function LeftBehind(shared: seq<Secret>, cs: seq<ConfigValue>): seq<Secret> {
    if cs == [] then []
    else LeftBehind(shared, cs[..|cs| - 1]) + Leaves(shared, cs, |cs| - 1)
  }

  lemma {:induction false} SharedEmpty(shared: seq<Secret>, cs: seq<ConfigValue>)
    ensures SharedAfterAll(shared, cs) == [] <==> shared == [] && forall m :: 0 <= m < |cs| ==> cs[m].secrets == []
  {
    if cs != [] {
      var n := |cs| - 1;
      SharedEmpty(shared, cs[..n]);
      assert forall m :: 0 <= m < n ==> cs[..n][m] == cs[m];
    }
  }

  lemma SharesIs(shared: seq<Secret>, cs: seq<ConfigValue>, i: nat)
    requires i < |cs|
    ensures Shares(shared, cs, i) <==> SharedAfterAll(shared, cs[..i]) + cs[i].secrets != []
  {
    SharedEmpty(shared, cs[..i]);
    assert forall m :: 0 <= m < i ==> cs[..i][m] == cs[m];
  }

  lemma SharedStep(shared: seq<Secret>, c: ConfigValue)
    ensures SharedAfter(shared, c)
            == shared + (c.secrets + (if shared + c.secrets != [] then RegistrySecret(c) else []))
  {}

  /** The shared list holds the dependency secrets and then what each app left behind, in order. */
  lemma {:induction false} SharedIs(shared: seq<Secret>, cs: seq<ConfigValue>)
    ensures SharedAfterAll(shared, cs) == shared + LeftBehind(shared, cs)
  {
    if cs != [] {
      var n := |cs| - 1;
      SharedIs(shared, cs[..n]);
      SharesIs(shared, cs, n);
      SharedStep(SharedAfterAll(shared, cs[..n]), cs[n]);
    }
  }

  /**
   Every app is created with the dependency secrets, then what the earlier apps left behind, then
   its own secrets and its registry secret.
   */
  lemma OwnAndDependencySecrets(shared: seq<Secret>, cs: seq<ConfigValue>, i: nat)
    requires i < |cs|
    ensures EmittedAt(shared, cs, i) == shared + LeftBehind(shared, cs[..i]) + cs[i].secrets + RegistrySecret(cs[i])
  {
    SharedIs(shared, cs[..i]);
  }

  /** The list never shrinks, and stays the same exactly when the apps leave nothing behind. */
  lemma {:induction false} SharedUnchanged(shared: seq<Secret>, cs: seq<ConfigValue>)
    ensures SharedAfterAll(shared, cs) == shared
            <==> forall j :: 0 <= j < |cs| ==> cs[j].secrets == [] && (cs[j].registryPassword.None? || shared == [])
  {
    if cs != [] {
      var n := |cs| - 1;
      SharedUnchanged(shared, cs[..n]);
      SharedStartsWith(shared, cs[..n]);
      var before := SharedAfterAll(shared, cs[..n]);
      assert forall j :: 0 <= j < n ==> cs[..n][j] == cs[j];
      assert |before| >= |shared| && (|before| == |shared| ==> before == shared);
      assert before + cs[n].secrets == [] ==> before == [] && cs[n].secrets == [];
    }
  }

  /**
   An app gets no secret of an earlier one exactly when every earlier one has no secrets of its
   own, and no registry either unless there are no dependency secrets.
   */
  lemma IsolatedExactly(shared: seq<Secret>, cs: seq<ConfigValue>, i: nat)
    requires i < |cs|
    ensures EmittedAt(shared, cs, i) == shared + cs[i].secrets + RegistrySecret(cs[i])
            <==> forall j :: 0 <= j < i ==> cs[j].secrets == [] && (cs[j].registryPassword.None? || shared == [])
  {
    var before := SharedAfterAll(shared, cs[..i]);
    var own := cs[i].secrets + RegistrySecret(cs[i]);
    SharedUnchanged(shared, cs[..i]);
    SharedStartsWith(shared, cs[..i]);
    assert forall j :: 0 <= j < i ==> cs[..i][j] == cs[j];
    assert before + cs[i].secrets + RegistrySecret(cs[i]) == before + own;
    assert shared + cs[i].secrets + RegistrySecret(cs[i]) == shared + own;
    if before + own == shared + own {
      assert |before| == |shared|;
    }
  }

  /** An app without secrets of its own is created with the secret of the app before it. */
  lemma SecretInherited(a: Secret)
    ensures var cs := [ConfigValue([a], [], None), ConfigValue([], [], None)];
            EmittedAt([], cs, 1) == [a] && EmittedAt([], cs, 1) != cs[1].secrets
  {
    var cs := [ConfigValue([a], [], None), ConfigValue([], [], None)];
    OwnAndDependencySecrets([], cs, 1);
    assert cs[..1][..0] == [];
    assert LeftBehind([], []) == [];
  }

  // ---------------------------------------------------------------- how often the registry key occurs

  function KeyCount(secrets: seq<Secret>): nat {
    if secrets == [] then 0
    else (if secrets[0].key == REGISTRY_KEY then 1 else 0) + KeyCount(secrets[1..])
  }

  lemma {:induction false} KeyCountConcat(a: seq<Secret>, b: seq<Secret>)
    ensures KeyCount(a + b) == KeyCount(a) + KeyCount(b)
  {
    if a == [] {
      assert a + b == b;
    } else {
      KeyCountConcat(a[1..], b);
      assert (a + b)[1..] == a[1..] + b;
    }
  }

  predicate KeyFree(secrets: seq<Secret>) { forall k :: 0 <= k < |secrets| ==> secrets[k].key != REGISTRY_KEY }

  lemma {:induction false} KeyCountFree(secrets: seq<Secret>)
    ensures KeyCount(secrets) == 0 <==> KeyFree(secrets)
  {
    if secrets != [] {
      KeyCountFree(secrets[1..]);
      assert forall k :: 1 <= k < |secrets| ==> secrets[k] == secrets[1..][k - 1];
    }
  }

  /** The registry keys among the configured secrets. */
  function OwnKeys(cs: seq<ConfigValue>): nat {
    if cs == [] then 0 else OwnKeys(cs[..|cs| - 1]) + KeyCount(cs[|cs| - 1].secrets)
  }

  /** The apps before `n` whose registry secret stays in the shared list. */
  function Keepers(shared: seq<Secret>, cs: seq<ConfigValue>, n: nat): set<int>
    requires n <= |cs|
  {
    set i | 0 <= i < n && cs[i].registryPassword.Some? && Shares(shared, cs, i)
  }

  lemma KeepersPrefix(shared: seq<Secret>, cs: seq<ConfigValue>, n: nat)
    requires n <= |cs|
    ensures Keepers(shared, cs[..n], n) == Keepers(shared, cs, n)
  {
    assert forall m :: 0 <= m < n ==> cs[..n][m] == cs[m];
  }

  lemma KeepersNext(shared: seq<Secret>, cs: seq<ConfigValue>, n: nat)
    requires n < |cs|
    ensures |Keepers(shared, cs, n + 1)|
            == |Keepers(shared, cs, n)| + if cs[n].registryPassword.Some? && Shares(shared, cs, n) then 1 else 0
  {
    if cs[n].registryPassword.Some? && Shares(shared, cs, n) {
      assert Keepers(shared, cs, n + 1) == Keepers(shared, cs, n) + {n};
    } else {
      assert Keepers(shared, cs, n + 1) == Keepers(shared, cs, n);
    }
  }

  lemma {:induction false} KeysLeftBehind(shared: seq<Secret>, cs: seq<ConfigValue>)
    ensures KeyCount(LeftBehind(shared, cs)) == OwnKeys(cs) + |Keepers(shared, cs, |cs|)|
  {
    if cs != [] {
      var n := |cs| - 1;
      KeysLeftBehind(shared, cs[..n]);
      KeepersPrefix(shared, cs, n);
      KeepersNext(shared, cs, n);
      KeyCountConcat(LeftBehind(shared, cs[..n]), Leaves(shared, cs, n));
      KeyCountConcat(cs[n].secrets, if Shares(shared, cs, n) then RegistrySecret(cs[n]) else []);
    }
  }

  /**
   How many secrets an app is created with under the registry key: those configured, one for each
   earlier app with a registry that took the shared list, and its own.
   */
  lemma RegistryKeyCount(shared: seq<Secret>, cs: seq<ConfigValue>, j: nat)
    requires j < |cs|
    ensures KeyCount(EmittedAt(shared, cs, j))
            == KeyCount(shared) + OwnKeys(cs[..j + 1]) + |Keepers(shared, cs, j)|
               + if cs[j].registryPassword.Some? then 1 else 0
  {
    var left := LeftBehind(shared, cs[..j]);
    OwnAndDependencySecrets(shared, cs, j);
    KeysLeftBehind(shared, cs[..j]);
    KeepersPrefix(shared, cs, j);
    KeyCountConcat(shared + left + cs[j].secrets, RegistrySecret(cs[j]));
    KeyCountConcat(shared + left, cs[j].secrets);
    KeyCountConcat(shared, left);
    assert cs[..j + 1][..j] == cs[..j];
  }

  lemma {:induction false} NoOwnKeys(cs: seq<ConfigValue>)
    requires forall m :: 0 <= m < |cs| ==> KeyFree(cs[m].secrets)
    ensures OwnKeys(cs) == 0
  {
    if cs != [] {
      NoOwnKeys(cs[..|cs| - 1]);
      KeyCountFree(cs[|cs| - 1].secrets);
    }
  }

  /**
   Where nothing else uses the registry key, an app with a registry has exactly one secret under
   it exactly when every earlier app with a registry came while no secret at all was configured.
   */
  lemma RegistryKeyOnce(shared: seq<Secret>, cs: seq<ConfigValue>, j: nat)
    requires j < |cs| && cs[j].registryPassword.Some?
    requires KeyFree(shared) && forall m :: 0 <= m <= j ==> KeyFree(cs[m].secrets)
    ensures KeyCount(EmittedAt(shared, cs, j)) == 1
            <==> forall i :: 0 <= i < j && cs[i].registryPassword.Some? ==>
                   shared == [] && forall m :: 0 <= m <= i ==> cs[m].secrets == []
  {
    RegistryKeyCount(shared, cs, j);
    KeyCountFree(shared);
    NoOwnKeys(cs[..j + 1]);
    var keepers := Keepers(shared, cs, j);
    assert |keepers| == 0 <==> keepers == {};
    if i :| 0 <= i < j && cs[i].registryPassword.Some? && Shares(shared, cs, i) {
      assert i in keepers;
    }
  }

  /** Two apps with registries behind one dependency secret: the second has the key twice. */
  lemma RegistryKeyTwice(x: Secret, p: string, q: string)
    requires x.key != REGISTRY_KEY
    ensures KeyCount(EmittedAt([x], [ConfigValue([], [], Some(p)), ConfigValue([], [], Some(q))], 1)) == 2
  {
    var cs := [ConfigValue([], [], Some(p)), ConfigValue([], [], Some(q))];
    RegistryKeyCount([x], cs, 1);
    NoOwnKeys(cs[..2]);
    assert Keepers([x], cs, 1) == {0};
    KeyCountFree([x]);
  }
}
