/** The firewall configuration validator and the chain of emitted collection groups. */
module FirewallPolicy {
  import opened Wrappers
  import opened Counting
  import opened Firewall

  datatype Sku = Basic | Standard | Premium

  datatype CollectionType = ApplicationType | NetworkType | DnatType

  datatype CollectionAction = AllowAction | DenyAction

  datatype RuleCollection = RuleCollection(
    name: string, kind: CollectionType, priority: int, action: CollectionAction, rules: Option<seq<Rule>>)

  datatype RuleCollectionGroup = RuleCollectionGroup(name: string, priority: int, collections: seq<RuleCollection>)

  datatype FirewallConfig = FirewallConfig(
    sku: Sku,
    virtualHub: Option<string>,
    managementSubnet: Option<string>,
    dnsProxy: bool,
    customDnsServers: seq<string>,
    groups: seq<RuleCollectionGroup>)

  datatype ConfigError =
    | ManagementSubnetRequired
    | DnsProxyUnsupported
    | DnsServersUnsupported
    | UrlsNeedPremium
    | DuplicateGroupPriority(priority: int)
    | DuplicateCollectionPriority(group: string, priority: int)

  // ---------------------------------------------------------------- what a legal configuration is

  function GroupPriorities(groups: seq<RuleCollectionGroup>): seq<int>
  {
    seq(|groups|, i requires 0 <= i < |groups| => groups[i].priority)
  }

  function CollectionPriorities(collections: seq<RuleCollection>): seq<int>
  {
    seq(|collections|, i requires 0 <= i < |collections| => collections[i].priority)
  }

  predicate SkuOk(c: FirewallConfig) {
    c.sku == Basic ==>
      && (c.managementSubnet.GetOr("") != "" || c.virtualHub.GetOr("") != "")
      && !c.dnsProxy
      && c.customDnsServers == []
  }

  predicate UsesUrls(rule: Rule) { rule.Application? && PresentList(rule.app.destinationUrls) }

  /** An application collection of the group has a rule with destination URLs. */
  predicate CollectionUsesUrls(rc: RuleCollection) {
    rc.kind == ApplicationType && exists rule :: rule in rc.rules.GetOr([]) && UsesUrls(rule)
  }

  predicate GroupUsesUrls(g: RuleCollectionGroup) {
    exists rc :: rc in g.collections && CollectionUsesUrls(rc)
  }

  predicate UrlsOk(c: FirewallConfig) { c.sku == Premium || forall g :: g in c.groups ==> !GroupUsesUrls(g) }

  predicate PrioritiesOk(groups: seq<RuleCollectionGroup>) {
    && Distinct(GroupPriorities(groups))
    && forall i :: 0 <= i < |groups| ==> Distinct(CollectionPriorities(groups[i].collections))
  }

  // ---------------------------------------------------------------- the validator

  /** The innermost loop over the rules of an application collection. */
  method FindUrls(rc: RuleCollection) returns (found: bool)
    ensures found <==> CollectionUsesUrls(rc)
  {
    if rc.kind != ApplicationType {
      return false;
    }
    var rules := rc.rules.GetOr([]);
    for i := 0 to |rules|
      invariant forall k :: 0 <= k < i ==> !UsesUrls(rules[k])
    {
      if rules[i].Application? && rules[i].app.destinationUrls.GetOr([]) != [] {
        assert rules[i] in rules && UsesUrls(rules[i]);
        return true;
      }
    }
    return false;
  }

  /** The loops over groups and collections: a rule with URLs is refused unless the SKU is Premium. */
  method CheckUrls(c: FirewallConfig) returns (ok: bool)
    ensures ok <==> UrlsOk(c)
  {
    for i := 0 to |c.groups|
      invariant c.sku == Premium || forall k :: 0 <= k < i ==> !GroupUsesUrls(c.groups[k])
    {
      var collections := c.groups[i].collections;
      for j := 0 to |collections|
        invariant c.sku == Premium || forall k :: 0 <= k < j ==> !CollectionUsesUrls(collections[k])
      {
        var found := FindUrls(collections[j]);
        if found && c.sku != Premium {
          assert collections[j] in collections && GroupUsesUrls(c.groups[i]);
          return false;
        }
      }
    }
    return true;
  }

  /** The inner loop: grows a set of the priorities seen, and stops at the first repeat. */
  method FindRepeat(collections: seq<RuleCollection>) returns (repeated: Option<int>)
    ensures repeated == None <==> Distinct(CollectionPriorities(collections))
    ensures repeated.Some? ==> exists i, j :: 0 <= i < j < |collections|
                                 && collections[i].priority == repeated.value == collections[j].priority
  {
    var seen: set<int> := {};
    var priorities := CollectionPriorities(collections);
    for i := 0 to |collections|
      invariant seen == Elements(priorities[..i])
      invariant Distinct(priorities[..i])
    {
      var p := collections[i].priority;
      if p in seen {
        var k :| 0 <= k < i && priorities[..i][k] == p;
        assert collections[k].priority == collections[i].priority && priorities[i] == p;
        return Some(p);
      }
      seen := seen + {p};
      assert priorities[..i + 1] == priorities[..i] + [p];
    }
    assert priorities[..|collections|] == priorities;
    return None;
  }

  /** Accepts exactly the legal configurations. */
  method ValidateFirewallConfig(c: FirewallConfig) returns (r: Result<(), ConfigError>)
    ensures r.Ok? <==> SkuOk(c) && UrlsOk(c) && PrioritiesOk(c.groups)
    ensures var noSubnet := (c.managementSubnet == None || c.managementSubnet == Some(""))
                            && (c.virtualHub == None || c.virtualHub == Some(""));
            && (r == Err(ManagementSubnetRequired) <==> c.sku == Basic && noSubnet)
            && (r == Err(DnsProxyUnsupported) <==> c.sku == Basic && !noSubnet && c.dnsProxy)
            && (r == Err(DnsServersUnsupported)
                <==> c.sku == Basic && !noSubnet && !c.dnsProxy && c.customDnsServers != [])
    ensures r == Err(UrlsNeedPremium) <==> SkuOk(c) && !UrlsOk(c)
    ensures r.Err? && r.error.DuplicateGroupPriority? ==> SkuOk(c) && UrlsOk(c) && !Distinct(GroupPriorities(c.groups))
    ensures r.Err? && r.error.DuplicateCollectionPriority? ==>
              && SkuOk(c) && UrlsOk(c)
              && exists i :: 0 <= i < |c.groups| && c.groups[i].name == r.error.group
                             && !Distinct(CollectionPriorities(c.groups[i].collections))
  {
    if c.sku == Basic {
      if c.managementSubnet.GetOr("") == "" && c.virtualHub.GetOr("") == "" {
        return Err(ManagementSubnetRequired);
      }
      if c.dnsProxy {
        return Err(DnsProxyUnsupported);
      }
      if c.customDnsServers != [] {
        return Err(DnsServersUnsupported);
      }
    }
    var urlsOk := CheckUrls(c);
    if !urlsOk {
      return Err(UrlsNeedPremium);
    }
    var groupPriorities: set<int> := {};
    var priorities := GroupPriorities(c.groups);
    for i := 0 to |c.groups|
      invariant groupPriorities == Elements(priorities[..i])
      invariant Distinct(priorities[..i])
      invariant forall k :: 0 <= k < i ==> Distinct(CollectionPriorities(c.groups[k].collections))
    {
      var group := c.groups[i];
      if group.priority in groupPriorities {
        var k :| 0 <= k < i && priorities[..i][k] == group.priority;
        assert priorities[k] == priorities[i];
        return Err(DuplicateGroupPriority(group.priority));
      }
      groupPriorities := groupPriorities + {group.priority};
      assert priorities[..i + 1] == priorities[..i] + [group.priority];
      var repeated := FindRepeat(group.collections);
      if repeated.Some? {
        return Err(DuplicateCollectionPriority(group.name, repeated.value));
      }
    }
    assert priorities[..|c.groups|] == priorities;
    return Ok(());
  }

  // ---------------------------------------------------------------- emitted collections and groups

  /** A filter collection, or a NAT collection for the DNAT kind. */
  datatype CollectionArgs =
    | FilterArgs(
        name: string, priority: int, kind: CollectionType, action: CollectionAction, rules: Option<seq<RuleArgs>>)
    | NatArgs(
        name: string, priority: int, kind: CollectionType, action: CollectionAction, rules: Option<seq<RuleArgs>>)

  datatype GroupArgs = GroupArgs(name: string, priority: int, collections: seq<CollectionArgs>, dependsOn: Option<nat>)

  /** An emitted collection carries the configured one: same header, one rule per rule, in order. */
  predicate Carries(e: CollectionArgs, rc: RuleCollection) {
    && e.name == rc.name && e.priority == rc.priority && e.kind == rc.kind && e.action == rc.action
    && (e.NatArgs? <==> rc.kind == DnatType)
    && |e.rules.GetOr([])| == |rc.rules.GetOr([])|
    && (e.rules == None <==> rc.rules.GetOr([]) == [])
    && forall i :: 0 <= i < |rc.rules.GetOr([])| ==> e.rules.GetOr([])[i] == ArgsOf(rc.rules.GetOr([])[i])
  }

  predicate AllCarry(es: seq<CollectionArgs>, rcs: seq<RuleCollection>) {
    |es| == |rcs| && forall i :: 0 <= i < |rcs| ==> Carries(es[i], rcs[i])
  }

  method RuleCollections(rcs: seq<RuleCollection>) returns (collections: seq<CollectionArgs>)
    ensures AllCarry(collections, rcs)
  {
    collections := [];
    for i := 0 to |rcs|
      invariant AllCarry(collections, rcs[..i])
    {
      var rc := rcs[i];
      var rules: Option<seq<RuleArgs>> := None;
      if rc.rules.GetOr([]) != [] {
        rules := Rules(rc.rules.value);
      }
      var args := if rc.kind == DnatType then NatArgs(rc.name, rc.priority, rc.kind, rc.action, rules)
                  else FilterArgs(rc.name, rc.priority, rc.kind, rc.action, rules);
      assert Carries(args, rc);
      collections := collections + [args];
    }
    assert rcs[..|rcs|] == rcs;
  }

  /** Each emitted group depends on the one before it and on nothing else. */
  ghost predicate Chained(out: seq<GroupArgs>) {
    forall i :: 0 <= i < |out| ==> out[i].dependsOn == if i == 0 then None else Some(i - 1)
  }

  /** `_rule_collection_groups`: a variable carries the previous group to the next one. */
  method RuleCollectionGroups(groups: seq<RuleCollectionGroup>) returns (out: seq<GroupArgs>)
    ensures |out| == |groups| && Chained(out)
    ensures forall i :: 0 <= i < |groups| ==>
              && out[i].name == groups[i].name && out[i].priority == groups[i].priority
              && AllCarry(out[i].collections, groups[i].collections)
  {
    out := [];
    var previous: Option<nat> := None;
    for i := 0 to |groups|
      invariant |out| == i && Chained(out)
      invariant previous == if i == 0 then None else Some(i - 1)
      invariant forall k :: 0 <= k < i ==>
                  && out[k].name == groups[k].name && out[k].priority == groups[k].priority
                  && AllCarry(out[k].collections, groups[k].collections)
    {
      var collections := RuleCollections(groups[i].collections);
      out := out + [GroupArgs(groups[i].name, groups[i].priority, collections, previous)];
      previous := Some(i);
    }
  }

  /** An order of creation: every group once, and none before the group it depends on. */
  ghost predicate CreationOrder(out: seq<GroupArgs>, order: seq<nat>) {
    && |order| == |out|
    && Distinct(order)
    && (forall i :: 0 <= i < |order| ==> order[i] < |out|)
    && forall i :: 0 <= i < |order| ==>
         match out[order[i]].dependsOn
         case None => true
         case Some(d) => exists j :: 0 <= j < i && order[j] == d
  }

  /** The configured order is the only order in which the groups can be created. */
  lemma {:induction false} OnlyOrder(out: seq<GroupArgs>, order: seq<nat>, i: nat)
    requires Chained(out) && CreationOrder(out, order) && i < |order|
    ensures order[i] == i
    ensures forall j :: 0 <= j <= i ==> order[j] == j
  {
    var k := order[i];
    if i > 0 {
      OnlyOrder(out, order, i - 1);
    }
    assert k !in order[..i];
    forall j: nat | j < i
      ensures j in order[..i]
    {
      assert order[..i][j] == j;
    }
    if k > 0 {
      var j :| 0 <= j < i && order[j] == k - 1;
    }
  }

  /** And it is such an order. */
  lemma ConfiguredOrder(out: seq<GroupArgs>)
    requires Chained(out)
    ensures CreationOrder(out, seq(|out|, i => i))
  {
    var order: seq<nat> := seq(|out|, i => i);
    forall i | 0 <= i < |order| && out[order[i]].dependsOn.Some?
      ensures exists j :: 0 <= j < i && order[j] == out[order[i]].dependsOn.value
    {
      assert order[i - 1] == i - 1;
    }
  }
}
