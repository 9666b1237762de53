/**
 The metadata loader: one set of service files feeds the flat v1 index, keyed by module path, and
 the v2 tree, keyed by service and class name.
 */
module Metadata {
  import opened Wrappers
  import opened Dicts
  import opened Naming
  import opened SnakeCase

  datatype ResourceSchema = ResourceSchema(
    naming: NamingRule,
    namespace: Option<string>,
    resourceType: Option<string>,
    subResourceName: Option<string>,
    publicDnsZone: Option<string>,
    privateDnsZone: Option<string>)

  /** The entries of a service file's `resources`, in file order. */
  datatype Service = Service(azureNamespace: Option<string>, resources: seq<(string, ResourceSchema)>)

  datatype ServiceFile = ServiceFile(stem: string, service: Service)

  // ---------------------------------------------------------------- the records stored

  datatype Value = Str(s: string) | Flag(b: bool) | Num(n: int)

  type Record = map<string, Value>

  /** `_naming_to_v1_dict`, and the naming part of `_resource_to_dict`: defaults are left out. */
  function NamingRecord(rule: NamingRule): Record {
    var r0: Record := map["prefix" := Str(rule.prefix)];
    var r1 := if rule.alphanumeric then r0["alphanumeric" := Flag(true)] else r0;
    var r2 := if rule.lowercase then r1["lowercase" := Flag(true)] else r1;
    if rule.maxLength.Some? then r2["max_length" := Num(rule.maxLength.value)] else r2
  }

  /** How the namers read a record: a missing flag is false, a missing length is none. */
  function ReadRule(r: Record): Option<NamingRule> {
    if "prefix" !in r || !r["prefix"].Str? then None
    else
      Some(NamingRule(
        r["prefix"].s,
        "alphanumeric" in r && r["alphanumeric"] == Flag(true),
        "lowercase" in r && r["lowercase"] == Flag(true),
        if "max_length" in r && r["max_length"].Num? then Some(r["max_length"].n) else None))
  }

  /** A resource in the tree: its naming record and the optional texts that are present. */
  datatype ResourceEntry = ResourceEntry(naming: Record, fields: map<string, string>)

  function With(m: map<string, string>, key: string, v: Option<string>): map<string, string> {
    if v.Some? then m[key := v.value] else m
  }

  function Get(m: map<string, string>, key: string): Option<string> { if key in m then Some(m[key]) else None }

  /** `_resource_to_dict`. */
  function ResourceToEntry(r: ResourceSchema): ResourceEntry {
    var f1 := With(map[], "namespace", r.namespace);
    var f2 := With(f1, "resource_type", r.resourceType);
    var f3 := With(f2, "sub_resource_name", r.subResourceName);
    var f4 := With(f3, "public_dns_zone", r.publicDnsZone);
    ResourceEntry(NamingRecord(r.naming), With(f4, "private_dns_zone", r.privateDnsZone))
  }

  function ReadResource(e: ResourceEntry): Option<ResourceSchema> {
    match ReadRule(e.naming)
    case None => None
    case Some(rule) =>
      Some(ResourceSchema(rule, Get(e.fields, "namespace"), Get(e.fields, "resource_type"),
                          Get(e.fields, "sub_resource_name"), Get(e.fields, "public_dns_zone"),
                          Get(e.fields, "private_dns_zone")))
  }

  /** Leaving out defaults loses nothing. */
  lemma RecordRoundTrip(rule: NamingRule)
    ensures ReadRule(NamingRecord(rule)) == Some(rule)
  {}

  /** What a record holds: the prefix, flags only when true, a length only when given, and nothing else. */
  lemma RecordHolds(rule: NamingRule)
    ensures var r := NamingRecord(rule);
            && "prefix" in r && r["prefix"] == Str(rule.prefix)
            && ("alphanumeric" in r <==> rule.alphanumeric) && ("alphanumeric" in r ==> r["alphanumeric"] == Flag(true))
            && ("lowercase" in r <==> rule.lowercase) && ("lowercase" in r ==> r["lowercase"] == Flag(true))
            && ("max_length" in r <==> rule.maxLength.Some?)
            && ("max_length" in r ==> r["max_length"] == Num(rule.maxLength.value))
            && forall key :: key in r ==> key in ["prefix", "alphanumeric", "lowercase", "max_length"]
  {}

  lemma EntryHolds(r: ResourceSchema)
    ensures var e := ResourceToEntry(r);
            && e.naming == NamingRecord(r.naming)
            && Get(e.fields, "namespace") == r.namespace && Get(e.fields, "resource_type") == r.resourceType
            && Get(e.fields, "sub_resource_name") == r.subResourceName
            && Get(e.fields, "public_dns_zone") == r.publicDnsZone
            && Get(e.fields, "private_dns_zone") == r.privateDnsZone
  {}

  lemma ResourceRoundTrip(r: ResourceSchema)
    ensures ReadResource(ResourceToEntry(r)) == Some(r)
  {
    RecordRoundTrip(r.naming);
  }

  // ---------------------------------------------------------------- module paths

  /** `_V1_MODULE_PATH_OVERRIDES`: full paths for some classes. */
  function Override(stem: string, className: string): Option<string> {
    if stem == "random" && className == "RandomPassword" then Some("pulumi_random.random_password")
    else if stem == "web" && className == "WebApp" then Some("pulumi_azure_native.web.web_app")
    else if stem == "eventhub" && className == "EventHub" then Some("pulumi_azure_native.eventhub.event_hub")
    else None
  }

  const EXCLUDED: set<(string, string)> := {
    ("insights", "Component"), ("insights", "Diagnosticsetting"), ("insights", "DiagnosticSetting"),
    ("eventhub", "Eventhub")}

  const V2_SERVICES: set<string> := {
    "app", "appconfiguration", "authorization", "cognitiveservices", "containerregistry", "eventgrid",
    "eventhub", "insights", "keyvault", "network", "operationalinsights", "providerhub", "resources",
    "search", "servicebus", "sql", "storage", "web"}

  const PACKAGE := "pulumi_azure_native."

  function DerivedPath(stem: string, className: string): string { PACKAGE + stem + "." + PascalToSnake(className) }

  function ModulePath(stem: string, className: string): string {
    match Override(stem, className)
    case Some(path) => path
    case None => DerivedPath(stem, className)
  }

  // ---------------------------------------------------------------- the two indexes as functions

  /** The assignments a service file makes to the flat index. */
  function V1Pairs(stem: string, resources: seq<(string, ResourceSchema)>): seq<(string, Record)> {
    if resources == [] then []
    else
      var n := |resources| - 1;
      var (className, resource) := resources[n];
      V1Pairs(stem, resources[..n])
      + (if (stem, className) in EXCLUDED then [] else [(ModulePath(stem, className), NamingRecord(resource.naming))])
  }

  function AllV1Pairs(files: seq<ServiceFile>): seq<(string, Record)> {
    if files == [] then []
    else
      var n := |files| - 1;
      AllV1Pairs(files[..n]) + V1Pairs(files[n].stem, files[n].service.resources)
  }

  function V1Index(files: seq<ServiceFile>): map<string, Record> { FromPairs(AllV1Pairs(files)) }

  datatype Namespace = Namespace(namespace: Option<string>, resources: map<string, ResourceEntry>)

  function EntryPairs(resources: seq<(string, ResourceSchema)>): seq<(string, ResourceEntry)>
  {
    seq(|resources|, i requires 0 <= i < |resources| => (resources[i].0, ResourceToEntry(resources[i].1)))
  }

  /** `_build_v2_namespace`. */
  function BuildV2Namespace(s: Service): Namespace {
    Namespace(s.azureNamespace, FromPairs(EntryPairs(s.resources)))
  }

  function V2Pairs(files: seq<ServiceFile>): seq<(string, Namespace)> {
    if files == [] then []
    else
      var n := |files| - 1;
      V2Pairs(files[..n])
      + (if files[n].stem in V2_SERVICES then [(files[n].stem, BuildV2Namespace(files[n].service))] else [])
  }

  function V2Tree(files: seq<ServiceFile>): map<string, Namespace> { FromPairs(V2Pairs(files)) }

  lemma FromPairsSnoc<K, V>(pairs: seq<(K, V)>, more: seq<(K, V)>, last: (K, V))
    ensures FromPairs(pairs + (more + [last])) == FromPairs(pairs + more)[last.0 := last.1]
    ensures FromPairs(pairs + []) == FromPairs(pairs)
  {
    assert (pairs + (more + [last]))[..|pairs + more|] == pairs + more;
    assert pairs + [] == pairs;
  }

  // ---------------------------------------------------------------- the loader

  class Loader {
    var tree: map<string, Namespace>
    var prefixes: map<string, Record>

    constructor ()
      ensures tree == map[] && prefixes == map[]
    {
      tree, prefixes := map[], map[];
    }

    /** `_build_v1_prefixes`: fills the flat index from one service file. */
    method BuildV1Prefixes(stem: string, service: Service, ghost sofar: seq<(string, Record)>)
      requires prefixes == FromPairs(sofar)
      modifies this`prefixes
      ensures prefixes == FromPairs(sofar + V1Pairs(stem, service.resources))
    {
      var entries := service.resources;
      FromPairsSnoc(sofar, [], ("", map[]));
      for i := 0 to |entries|
        invariant prefixes == FromPairs(sofar + V1Pairs(stem, entries[..i]))
      {
        var (className, resource) := entries[i];
        assert entries[..i + 1][..i] == entries[..i];
        ghost var done := V1Pairs(stem, entries[..i]);
        if (stem, className) in EXCLUDED {
          assert done + [] == done;
        } else {
          var modulePath := "pulumi_azure_native." + stem + "." + PascalToSnake(className);
          if Override(stem, className).Some? {
            modulePath := Override(stem, className).value;
          }
          prefixes := prefixes[modulePath := NamingRecord(resource.naming)];
          FromPairsSnoc(sofar, done, (modulePath, NamingRecord(resource.naming)));
        }
      }
      assert entries[..|entries|] == entries;
    }

    /** The loop of `_load_all` over the service files. */
    method LoadAll(files: seq<ServiceFile>)
      modifies this
      ensures tree == V2Tree(files)
      ensures prefixes == V1Index(files)
    {
      tree, prefixes := map[], map[];
      for i := 0 to |files|
        invariant tree == V2Tree(files[..i])
        invariant prefixes == V1Index(files[..i])
      {
        var file := files[i];
        assert files[..i + 1][..i] == files[..i];
        ghost var done := V2Pairs(files[..i]);
        assert done + [] == done;
        if file.stem in V2_SERVICES {
          var ns := BuildV2Namespace(file.service);
          tree := tree[file.stem := ns];
          FromPairsSnoc(done, [], (file.stem, ns));
          assert done + ([] + [(file.stem, ns)]) == V2Pairs(files[..i + 1]);
        }
        BuildV1Prefixes(file.stem, file.service, AllV1Pairs(files[..i]));
      }
      assert files[..|files|] == files;
    }
  }
}
