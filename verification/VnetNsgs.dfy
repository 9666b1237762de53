/**
 `Vnet._nsgs`: the loop that gives subnets their network security groups, writes automatic
 priorities into the configured rule objects, and reuses one global deny rule.
 */
module VnetNsgs {
  import opened Wrappers
  import opened Counting
  import opened Dicts
  import opened NsgRules
  import opened NsgPackets

  /** A configured rule object: its priority is written in place. */
  class NsgRule {
    const body: RuleBody
    var priority: Option<int>

    constructor (body: RuleBody, priority: Option<int>)
      ensures this.body == body && this.priority == priority
    {
      this.body := body;
      this.priority := priority;
    }
  }

  datatype Subnet = Subnet(name: string, networkRules: Option<seq<NsgRule>>) {
    function Rules(): seq<NsgRule> { networkRules.GetOr([]) }
  }

  datatype SecurityGroup = SecurityGroup(subnet: string, rules: seq<SecurityRule>)

  const NON_NSG_SUBNETS: set<string> := {"GatewaySubnet", "AzureFirewallSubnet", "AzureFirewallManagementSubnet"}

  /** `SubnetConfig.validate_network_rules`: no rules on the subnets that cannot have a group. */
  predicate AcceptsRules(s: Subnet) { !(s.Rules() != [] && s.name in NON_NSG_SUBNETS) }

  /** A subnet gets a group for its own rules, or by default unless its name is excluded. */
  predicate GetsGroup(s: Subnet, createDefault: bool) {
    s.Rules() != [] || (createDefault && s.name !in NON_NSG_SUBNETS)
  }

  /** The subnets that get a group, in order. */
  function Chosen(subnets: seq<Subnet>, createDefault: bool): seq<Subnet> {
    if subnets == [] then []
    else
      var n := |subnets| - 1;
      Chosen(subnets[..n], createDefault) + (if GetsGroup(subnets[n], createDefault) then [subnets[n]] else [])
  }

  function RulesOf(subnets: seq<Subnet>): set<NsgRule> { set s, r | s in subnets && r in s.Rules() :: r }

  function Bodies(rules: seq<NsgRule>): seq<RuleBody>
  {
    seq(|rules|, j requires 0 <= j < |rules| => rules[j].body)
  }

  /** Position of the first occurrence of an element. */
  ghost function FirstIndex<T>(s: seq<T>, x: T): (k: nat)
    requires x in s
    ensures k < |s| && s[k] == x && x !in s[..k]
  {
    HasFirst(s, x);
    var k: nat :| k < |s| && s[k] == x && x !in s[..k];
    k
  }

  lemma {:induction false} HasFirst<T>(s: seq<T>, x: T)
    requires x in s
    ensures exists k: nat :: k < |s| && s[k] == x && x !in s[..k]
  {
    var n := |s| - 1;
    if x in s[..n] {
      HasFirst(s[..n], x);
      var k: nat :| k < n && s[..n][k] == x && x !in s[..n][..k];
      assert s[..n][..k] == s[..k];
    } else {
      assert s[n] == x;
    }
  }

  // ---------------------------------------------------------------- the run as a function of values

  /** The priorities that rule objects carry, as a value. */
  type Priorities = map<NsgRule, Option<int>>

  ghost function PriorityMap(rules: set<NsgRule>): (m: Priorities)
    reads rules
    ensures m.Keys == rules && forall r :: r in rules ==> m[r] == r.priority
  {
    map r | r in rules :: r.priority
  }

  /** The priority of a rule in such a value. */
  ghost function At(m: Priorities, r: NsgRule): Option<int> { if r in m then m[r] else None }

  /** One group: explicit priorities stay, unset ones become 100 plus the first position. */
  ghost function Step(m: Priorities, rules: seq<NsgRule>): (r: Priorities)
    ensures r.Keys == m.Keys
  {
    map r | r in m :: if r in rules then Some(Final(m[r], FirstIndex(rules, r))) else m[r]
  }

  /** The rules emitted when the objects carry the given priorities. */
  ghost function EmittedWith(m: Priorities, rules: seq<NsgRule>): seq<SecurityRule>
  {
    seq(|rules|, j requires 0 <= j < |rules| => Emit(rules[j].body, At(m, rules[j]).GetOr(0)))
  }

  ghost function RunPriorities(m: Priorities, subnets: seq<Subnet>, createDefault: bool, deny: NsgRule): (r: Priorities)
    ensures r.Keys == m.Keys
  {
    if subnets == [] then m
    else
      var n := |subnets| - 1;
      var before := RunPriorities(m, subnets[..n], createDefault, deny);
      if GetsGroup(subnets[n], createDefault) then Step(before, [deny] + subnets[n].Rules()) else before
  }

  ghost function RunGroups(m: Priorities, subnets: seq<Subnet>, createDefault: bool, deny: NsgRule)
    : seq<SecurityGroup>
  {
    if subnets == [] then []
    else
      var n := |subnets| - 1;
      var rules := [deny] + subnets[n].Rules();
      var earlier := RunGroups(m, subnets[..n], createDefault, deny);
      if GetsGroup(subnets[n], createDefault) then
        var before := RunPriorities(m, subnets[..n], createDefault, deny);
        earlier + [SecurityGroup(subnets[n].name, EmittedWith(Step(before, rules), rules))]
      else earlier
  }

  /** The assignments `nsgs[subnet.name] = nsg`, in order. */
  function Named(created: seq<SecurityGroup>): (r: seq<(string, SecurityGroup)>)
    ensures |r| == |created| && forall k :: 0 <= k < |r| ==> r[k] == (created[k].subnet, created[k])
  {
    seq(|created|, k requires 0 <= k < |created| => (created[k].subnet, created[k]))
  }

  function ByName(created: seq<SecurityGroup>): map<string, SecurityGroup> { FromPairs(Named(created)) }

  lemma ByNameNext(created: seq<SecurityGroup>, nsg: SecurityGroup)
    ensures ByName(created + [nsg]) == ByName(created)[nsg.subnet := nsg]
  {
    assert Named(created + [nsg])[..|created|] == Named(created);
  }

  // ---------------------------------------------------------------- the loops

  lemma FirstSeen<T>(s: seq<T>, i: nat)
    requires i < |s|
    ensures s[i] !in s[..i] ==> FirstIndex(s, s[i]) == i
  {}

  /** The rules met before position `i` carry their final numbers, the others what they had before. */
  ghost predicate Assigned(rules: seq<NsgRule>, i: nat, before: Priorities)
    requires i <= |rules|
    reads rules
  {
    forall r :: r in rules ==>
      && r in before
      && r.priority == if r in rules[..i] then Some(Final(before[r], FirstIndex(rules, r))) else before[r]
  }

  /** The rule emitted at a position, with its final number. */
  ghost function EmittedRule(rules: seq<NsgRule>, before: Priorities, j: nat): SecurityRule
    requires j < |rules|
  {
    Emit(rules[j].body, Final(At(before, rules[j]), FirstIndex(rules, rules[j])))
  }

  /** One turn of the inner loop: a rule without a priority gets the one of its position. */
  method EmitRule(rules: seq<NsgRule>, i: nat, ghost before: Priorities) returns (emitted: SecurityRule)
    requires i < |rules| && Assigned(rules, i, before)
    modifies rules[i]
    ensures Assigned(rules, i + 1, before)
    ensures emitted == EmittedRule(rules, before, i)
  {
    var rule := rules[i];
    assert rules[..i + 1] == rules[..i] + [rule];
    FirstSeen(rules, i);
    if rule.priority == None {
      rule.priority := Some(FIRST_PRIORITY + i);
    }
    return Emit(rule.body, rule.priority.value);
  }

  /**
   The inner loop for one group: explicit priorities stay, unset ones become 100 plus the
   position of the first occurrence, and each rule is emitted with the number it ends up with.
   */
  method EmitRules(rules: seq<NsgRule>, ghost before: Priorities) returns (emitted: seq<SecurityRule>)
    requires before == PriorityMap(set r | r in rules)
    modifies rules
    ensures forall r :: r in rules ==> r.priority == Some(Final(before[r], FirstIndex(rules, r)))
    ensures |emitted| == |rules|
    ensures forall j :: 0 <= j < |rules| ==> emitted[j] == EmittedRule(rules, before, j)
  {
    emitted := [];
    for i := 0 to |rules|
      invariant |emitted| == i && Assigned(rules, i, before)
      invariant forall j :: 0 <= j < i ==> emitted[j] == EmittedRule(rules, before, j)
    {
      var e := EmitRule(rules, i, before);
      emitted := emitted + [e];
    }
    assert rules[..|rules|] == rules;
  }

  /** The inner loop, seen as one step on the priorities of all rule objects. */
  method EmitStep(rules: seq<NsgRule>, ghost all: set<NsgRule>) returns (emitted: seq<SecurityRule>)
    requires forall r :: r in rules ==> r in all
    modifies all
    ensures PriorityMap(all) == Step(old(PriorityMap(all)), rules)
    ensures emitted == EmittedWith(PriorityMap(all), rules)
  {
    emitted := EmitRules(rules, PriorityMap(set r | r in rules));
    assert forall j :: 0 <= j < |rules| ==> rules[j] in rules;
  }

  /** The whole loop over the subnets does, in place, what the functions above say on values. */
  method Nsgs(subnets: seq<Subnet>, createDefault: bool, deny: NsgRule)
    returns (nsgs: map<string, SecurityGroup>, created: seq<SecurityGroup>)
    modifies {deny} + RulesOf(subnets)
    ensures PriorityMap({deny} + RulesOf(subnets))
            == RunPriorities(old(PriorityMap({deny} + RulesOf(subnets))), subnets, createDefault, deny)
    ensures created == RunGroups(old(PriorityMap({deny} + RulesOf(subnets))), subnets, createDefault, deny)
    ensures nsgs == ByName(created)
  {
    nsgs, created := map[], [];
    ghost var all := {deny} + RulesOf(subnets);
    ghost var m := PriorityMap(all);
    for i := 0 to |subnets|
      invariant PriorityMap(all) == RunPriorities(m, subnets[..i], createDefault, deny)
      invariant created == RunGroups(m, subnets[..i], createDefault, deny)
      invariant nsgs == ByName(created)
    {
      var subnet := subnets[i];
      assert subnets[..i + 1][..i] == subnets[..i];
      if GetsGroup(subnet, createDefault) {
        var rules := [deny] + subnet.Rules();
        RulesCovered(subnets, i, deny);
        var emitted := EmitStep(rules, all);
        var nsg := SecurityGroup(subnet.name, emitted);
        ByNameNext(created, nsg);
        created := created + [nsg];
        nsgs := nsgs[subnet.name := nsg];
      }
    }
    assert subnets[..|subnets|] == subnets;
  }

  lemma RulesCovered(subnets: seq<Subnet>, i: nat, deny: NsgRule)
    requires i < |subnets|
    ensures forall r :: r in [deny] + subnets[i].Rules() ==> r in {deny} + RulesOf(subnets)
  {}

  // ---------------------------------------------------------------- what holds over every run

  /** A priority once set is never changed; in particular the shared deny rule stays at 4096. */
  lemma {:induction false} ExplicitKept(m: Priorities, subnets: seq<Subnet>, createDefault: bool, deny: NsgRule,
                                        r: NsgRule)
    requires r in m && m[r].Some?
    ensures RunPriorities(m, subnets, createDefault, deny)[r] == m[r]
  {
    if subnets != [] {
      ExplicitKept(m, subnets[..|subnets| - 1], createDefault, deny, r);
    }
  }

  /** Covers a configuration: the deny rule at 4096 and every configured rule object. */
  ghost predicate Covers(m: Priorities, subnets: seq<Subnet>, deny: NsgRule) {
    && deny in m && m[deny] == Some(DENY_PRIORITY)
    && forall k, r :: 0 <= k < |subnets| && r in subnets[k].Rules() ==> r in m
  }

  /** No rule object occurs twice in the configuration, and none is the global deny rule. */
  ghost predicate Unshared(subnets: seq<Subnet>, deny: NsgRule) {
    && (forall k :: 0 <= k < |subnets| ==> Distinct(subnets[k].Rules()) && deny !in subnets[k].Rules())
    && (forall k, l, r :: 0 <= k < l < |subnets| && r in subnets[k].Rules() ==> r !in subnets[l].Rules())
  }

  lemma {:induction false} ChosenFrom(subnets: seq<Subnet>, createDefault: bool, s: Subnet)
    ensures s in Chosen(subnets, createDefault) <==> s in subnets && GetsGroup(s, createDefault)
  {
    if subnets != [] {
      var n := |subnets| - 1;
      ChosenFrom(subnets[..n], createDefault, s);
      assert subnets == subnets[..n] + [subnets[n]];
    }
  }

  /** Every rule of a list carries a number. */
  ghost predicate Settled(m: Priorities, rules: seq<NsgRule>) {
    forall r :: r in rules ==> At(m, r).Some?
  }

  lemma CoversPrefix(m: Priorities, subnets: seq<Subnet>, deny: NsgRule)
    requires Covers(m, subnets, deny) && subnets != []
    ensures Covers(m, subnets[..|subnets| - 1], deny)
    ensures forall r :: r in [deny] + subnets[|subnets| - 1].Rules() ==> r in m
  {}

  /** What the groups created by a run are: one per chosen subnet, with the numbers of `m`. */
  ghost predicate GroupsRead(groups: seq<SecurityGroup>, m: Priorities, chosen: seq<Subnet>, deny: NsgRule) {
    && |groups| == |chosen|
    && forall k :: 0 <= k < |groups| ==>
         && Settled(m, [deny] + chosen[k].Rules())
         && groups[k] == SecurityGroup(chosen[k].name, EmittedWith(m, [deny] + chosen[k].Rules()))
  }

  lemma GroupsReadLater(groups: seq<SecurityGroup>, m: Priorities, later: Priorities, chosen: seq<Subnet>,
                        deny: NsgRule)
    requires GroupsRead(groups, m, chosen, deny)
    requires forall r :: r in m && m[r].Some? ==> r in later && later[r] == m[r]
    ensures GroupsRead(groups, later, chosen, deny)
  {}

  /**
   Each group holds the deny rule and then the subnet's own rules, with exactly the numbers the
   rule objects carry when the whole run is over, also when rule objects are shared.
   */
  lemma {:induction false} GroupsMatchObjects(m: Priorities, subnets: seq<Subnet>, createDefault: bool, deny: NsgRule)
    requires Covers(m, subnets, deny)
    ensures GroupsRead(RunGroups(m, subnets, createDefault, deny), RunPriorities(m, subnets, createDefault, deny),
                       Chosen(subnets, createDefault), deny)
  {
    if subnets != [] {
      var n := |subnets| - 1;
      var before := RunPriorities(m, subnets[..n], createDefault, deny);
      var after := RunPriorities(m, subnets, createDefault, deny);
      CoversPrefix(m, subnets, deny);
      GroupsMatchObjects(m, subnets[..n], createDefault, deny);
      GroupsReadLater(RunGroups(m, subnets[..n], createDefault, deny), before, after,
                      Chosen(subnets[..n], createDefault), deny);
      if GetsGroup(subnets[n], createDefault) {
        assert Settled(after, [deny] + subnets[n].Rules());
      }
    }
  }

  lemma {:induction false} SettledRun(m: Priorities, subnets: seq<Subnet>, createDefault: bool, deny: NsgRule)
    requires forall k :: 0 <= k < |subnets| && GetsGroup(subnets[k], createDefault) ==>
               Settled(m, [deny] + subnets[k].Rules())
    ensures RunPriorities(m, subnets, createDefault, deny) == m
  {
    if subnets != [] {
      var n := |subnets| - 1;
      SettledRun(m, subnets[..n], createDefault, deny);
      if GetsGroup(subnets[n], createDefault) {
        var rules := [deny] + subnets[n].Rules();
        assert Settled(m, rules);
        assert Step(m, rules) == m;
      }
    }
  }

  /** A second run changes no priority and creates the same groups again. */
  lemma SecondRunSame(m: Priorities, subnets: seq<Subnet>, createDefault: bool, deny: NsgRule)
    requires Covers(m, subnets, deny)
    ensures var after := RunPriorities(m, subnets, createDefault, deny);
            && RunPriorities(after, subnets, createDefault, deny) == after
            && RunGroups(after, subnets, createDefault, deny) == RunGroups(m, subnets, createDefault, deny)
  {
    var after := RunPriorities(m, subnets, createDefault, deny);
    var chosen := Chosen(subnets, createDefault);
    GroupsMatchObjects(m, subnets, createDefault, deny);
    forall k | 0 <= k < |subnets| && GetsGroup(subnets[k], createDefault)
      ensures Settled(after, [deny] + subnets[k].Rules())
    {
      ChosenFrom(subnets, createDefault, subnets[k]);
      var c :| 0 <= c < |chosen| && chosen[c] == subnets[k];
    }
    SettledRun(after, subnets, createDefault, deny);
    ExplicitKept(m, subnets, createDefault, deny, deny);
    GroupsMatchObjects(after, subnets, createDefault, deny);
  }

  /** The group that compiling a subnet's own list gives. */
  ghost function GroupFrom(m: Priorities, s: Subnet): SecurityGroup {
    SecurityGroup(s.name, EmittedFor(Bodies(s.Rules()), Looked(m, s.Rules())))
  }

  ghost function Looked(m: Priorities, rules: seq<NsgRule>): seq<Option<int>>
  {
    seq(|rules|, j requires 0 <= j < |rules| => At(m, rules[j]))
  }

  /** The dictionary gives under a name the last group created with it. */
  lemma LastOfName(created: seq<SecurityGroup>, k: nat)
    requires k < |created| && forall j :: k < j < |created| ==> created[j].subnet != created[k].subnet
    ensures created[k].subnet in ByName(created) && ByName(created)[created[k].subnet] == created[k]
  {
    FromPairsLast(Named(created), k);
  }

  lemma NamesCreated(created: seq<SecurityGroup>, name: string)
    ensures name in ByName(created) <==> exists k :: 0 <= k < |created| && created[k].subnet == name
  {
    FromPairsKeys(Named(created));
    assert forall k :: 0 <= k < |created| ==> KeysOf(Named(created))[k] == created[k].subnet;
  }

  /** A subnet under which a group is created: it has rules of its own, or gets the default ones. */
  predicate Protected(s: Subnet, createDefault: bool) {
    || (s.networkRules.Some? && |s.networkRules.value| > 0)
    || (createDefault && s.name != "GatewaySubnet" && s.name != "AzureFirewallSubnet"
        && s.name != "AzureFirewallManagementSubnet")
  }

  lemma ProtectedGets(s: Subnet, createDefault: bool)
    ensures GetsGroup(s, createDefault) <==> Protected(s, createDefault)
  {}

  /**
   The dictionary has a name exactly when a subnet of that name has rules of its own, or any has
   it while defaults are created and the name is not one of the three excluded ones.
   */
  lemma GroupsExactly(m: Priorities, subnets: seq<Subnet>, createDefault: bool, deny: NsgRule, name: string)
    requires Covers(m, subnets, deny)
    ensures name in ByName(RunGroups(m, subnets, createDefault, deny))
            <==> exists k :: 0 <= k < |subnets| && subnets[k].name == name && Protected(subnets[k], createDefault)
  {
    var groups, chosen := RunGroups(m, subnets, createDefault, deny), Chosen(subnets, createDefault);
    GroupsMatchObjects(m, subnets, createDefault, deny);
    NamesCreated(groups, name);
    if k :| 0 <= k < |groups| && groups[k].subnet == name {
      ChosenFrom(subnets, createDefault, chosen[k]);
      ProtectedGets(chosen[k], createDefault);
      var s :| 0 <= s < |subnets| && subnets[s] == chosen[k];
    }
    if s :| 0 <= s < |subnets| && subnets[s].name == name && Protected(subnets[s], createDefault) {
      ProtectedGets(subnets[s], createDefault);
      ChosenFrom(subnets, createDefault, subnets[s]);
      var k :| 0 <= k < |chosen| && chosen[k] == subnets[s];
      assert groups[k].subnet == name;
    }
  }

  /** The validator accepts all subnets exactly when no group is created under an excluded name. */
  lemma NoGroupForExcluded(m: Priorities, subnets: seq<Subnet>, createDefault: bool, deny: NsgRule)
    requires Covers(m, subnets, deny)
    ensures (forall k :: 0 <= k < |subnets| ==> AcceptsRules(subnets[k]))
            <==> forall name :: name in NON_NSG_SUBNETS ==> name !in ByName(RunGroups(m, subnets, createDefault, deny))
  {
    forall name
      ensures name in ByName(RunGroups(m, subnets, createDefault, deny))
              <==> exists k :: 0 <= k < |subnets| && subnets[k].name == name && Protected(subnets[k], createDefault)
    {
      GroupsExactly(m, subnets, createDefault, deny, name);
    }
    forall k | 0 <= k < |subnets| && subnets[k].name in NON_NSG_SUBNETS
      ensures AcceptsRules(subnets[k]) <==> !Protected(subnets[k], createDefault)
    {
    }
  }

  // ---------------------------------------------------------------- the numbers that shared rules get

  /** The first of the given subnets that lists a rule. */
  function FirstLister(chosen: seq<Subnet>, r: NsgRule): (c: Option<nat>)
    ensures c.Some? ==> c.value < |chosen| && r in chosen[c.value].Rules()
    ensures c.Some? ==> forall k :: 0 <= k < c.value ==> r !in chosen[k].Rules()
    ensures c.None? ==> forall k :: 0 <= k < |chosen| ==> r !in chosen[k].Rules()
  {
    if chosen == [] then None
    else
      var n := |chosen| - 1;
      var earlier := FirstLister(chosen[..n], r);
      assert forall k :: 0 <= k < n ==> chosen[..n][k] == chosen[k];
      if earlier.Some? then earlier else if r in chosen[n].Rules() then Some(n) else None
  }

  /** The number a rule ends up with: its own, or one by its position in the first chosen subnet that lists it. */
  ghost function FinalNumber(m: Priorities, chosen: seq<Subnet>, r: NsgRule): Option<int>
    requires r in m
  {
    if m[r].Some? then m[r]
    else
      match FirstLister(chosen, r)
      case None => None
      case Some(c) => Some(FIRST_PRIORITY + 1 + FirstIndex(chosen[c].Rules(), r))
  }

  lemma IndexBehind<T>(first: T, s: seq<T>, x: T)
    requires x in s && x != first
    ensures FirstIndex([first] + s, x) == 1 + FirstIndex(s, x)
  {
    var k, whole := FirstIndex(s, x), [first] + s;
    var l := FirstIndex(whole, x);
    assert whole[k + 1] == x && s[l - 1] == x;
  }

  /** What one group does to the number of a rule. */
  lemma StepNumber(before: Priorities, rules: seq<NsgRule>, deny: NsgRule, r: NsgRule)
    requires r in before && r != deny
    ensures Step(before, [deny] + rules)[r]
            == if r in rules && before[r] == None then Some(FIRST_PRIORITY + 1 + FirstIndex(rules, r)) else before[r]
  {
    if r in rules {
      IndexBehind(deny, rules, r);
    }
  }

  /** What one more chosen subnet does to it. */
  lemma NumberNext(m: Priorities, chosen: seq<Subnet>, s: Subnet, r: NsgRule)
    requires r in m && m[r] == None
    ensures FinalNumber(m, chosen + [s], r)
            == if FinalNumber(m, chosen, r) == None && r in s.Rules() then
                 Some(FIRST_PRIORITY + 1 + FirstIndex(s.Rules(), r))
               else
                 FinalNumber(m, chosen, r)
    ensures chosen + [] == chosen
  {
    assert (chosen + [s])[..|chosen|] == chosen;
    var c := FirstLister(chosen, r);
    assert c.Some? ==> (chosen + [s])[c.value] == chosen[c.value];
  }

  /** After the whole run every rule object, shared or not, carries that number. */
  lemma {:induction false} SharedNumber(m: Priorities, subnets: seq<Subnet>, createDefault: bool, deny: NsgRule,
                                        r: NsgRule)
    requires r in m && r != deny
    ensures RunPriorities(m, subnets, createDefault, deny)[r] == FinalNumber(m, Chosen(subnets, createDefault), r)
  {
    if m[r].Some? {
      ExplicitKept(m, subnets, createDefault, deny, r);
    } else if subnets != [] {
      var n := |subnets| - 1;
      SharedNumber(m, subnets[..n], createDefault, deny, r);
      NumberNext(m, Chosen(subnets[..n], createDefault), subnets[n], r);
      if GetsGroup(subnets[n], createDefault) {
        StepNumber(RunPriorities(m, subnets[..n], createDefault, deny), subnets[n].Rules(), deny, r);
      }
    }
  }

  // ---------------------------------------------------------------- end to end

  /** The numbers of a chosen subnet's rules when the run is over. */
  ghost function FinalNumbers(m: Priorities, subnets: seq<Subnet>, createDefault: bool, deny: NsgRule, k: nat)
    : (r: seq<Option<int>>)
    requires k < |Chosen(subnets, createDefault)|
    ensures |r| == |Chosen(subnets, createDefault)[k].Rules()|
  {
    Looked(RunPriorities(m, subnets, createDefault, deny), Chosen(subnets, createDefault)[k].Rules())
  }

  /** The bodies of a chosen subnet's rules. */
  function ChosenBodies(subnets: seq<Subnet>, createDefault: bool, k: nat): (r: seq<RuleBody>)
    requires k < |Chosen(subnets, createDefault)|
    ensures |r| == |Chosen(subnets, createDefault)[k].Rules()|
  {
    Bodies(Chosen(subnets, createDefault)[k].Rules())
  }

  lemma SettledCompiles(after: Priorities, rules: seq<NsgRule>, deny: NsgRule)
    requires deny.body == DEFAULT_DENY && At(after, deny) == Some(DENY_PRIORITY) && Settled(after, [deny] + rules)
    ensures EmittedWith(after, [deny] + rules) == EmittedFor(Bodies(rules), Looked(after, rules))
  {
    var all, bodies := [deny] + rules, [DEFAULT_DENY] + Bodies(rules);
    var given := [Some(DENY_PRIORITY)] + Looked(after, rules);
    forall j | 0 <= j < |all|
      ensures Emit(all[j].body, At(after, all[j]).GetOr(0)) == Emit(bodies[j], Final(given[j], j))
    {
      assert all[j] in all;
      assert j > 0 ==> all[j] == rules[j - 1];
    }
  }

  /**
   End to end, rule objects shared or not: the group created for a subnet is the compilation of
   its list with the numbers that the rule objects carry in the end, and the dictionary holds that
   group unless a later subnet has the same name.
   */
  lemma GroupCompiled(m: Priorities, subnets: seq<Subnet>, createDefault: bool, deny: NsgRule, k: nat)
    requires Covers(m, subnets, deny) && deny.body == DEFAULT_DENY && k < |Chosen(subnets, createDefault)|
    ensures var groups := RunGroups(m, subnets, createDefault, deny);
            && k < |groups|
            && groups[k].rules == EmittedFor(ChosenBodies(subnets, createDefault, k),
                                             FinalNumbers(m, subnets, createDefault, deny, k))
    ensures var groups, chosen := RunGroups(m, subnets, createDefault, deny), Chosen(subnets, createDefault);
            (forall j :: k < j < |chosen| ==> chosen[j].name != chosen[k].name) ==>
              chosen[k].name in ByName(groups) && ByName(groups)[chosen[k].name] == groups[k]
  {
    var groups, chosen := RunGroups(m, subnets, createDefault, deny), Chosen(subnets, createDefault);
    GroupsMatchObjects(m, subnets, createDefault, deny);
    ExplicitKept(m, subnets, createDefault, deny, deny);
    SettledCompiles(RunPriorities(m, subnets, createDefault, deny), chosen[k].Rules(), deny);
    if forall j :: k < j < |chosen| ==> chosen[j].name != chosen[k].name {
      LastOfName(groups, k);
    }
  }

  /** When no rule object is shared, each group is the compilation of its subnet's own list. */
  lemma UnsharedGroups(m: Priorities, subnets: seq<Subnet>, createDefault: bool, deny: NsgRule, k: nat)
    requires Covers(m, subnets, deny) && Unshared(subnets, deny) && deny.body == DEFAULT_DENY
    requires k < |Chosen(subnets, createDefault)|
    ensures k < |RunGroups(m, subnets, createDefault, deny)|
    ensures RunGroups(m, subnets, createDefault, deny)[k] == GroupFrom(m, Chosen(subnets, createDefault)[k])
  {
    var chosen := Chosen(subnets, createDefault);
    var rules := chosen[k].Rules();
    GroupCompiled(m, subnets, createDefault, deny, k);
    GroupsMatchObjects(m, subnets, createDefault, deny);
    ChosenFrom(subnets, createDefault, chosen[k]);
    forall j | 0 <= j < |rules|
      ensures At(RunPriorities(m, subnets, createDefault, deny), rules[j]) == Some(Final(At(m, rules[j]), j + 1))
    {
      assert rules[j] in rules;
      SharedNumber(m, subnets, createDefault, deny, rules[j]);
      ListedOnce(subnets, createDefault, deny, k, rules[j]);
    }
    SameFinals(Bodies(rules), Looked(m, rules), Looked(RunPriorities(m, subnets, createDefault, deny), rules));
  }

  /** Only final numbers show in the emitted rules. */
  lemma SameFinals(bodies: seq<RuleBody>, given: seq<Option<int>>, final: seq<Option<int>>)
    requires |given| == |final| == |bodies|
    requires forall j :: 0 <= j < |bodies| ==> final[j] == Some(Final(given[j], j + 1))
    ensures EmittedFor(bodies, final) == EmittedFor(bodies, given)
  {}

  /** The only place where an unshared rule is listed. */
  lemma ListedOnce(subnets: seq<Subnet>, createDefault: bool, deny: NsgRule, k: nat, r: NsgRule)
    requires Unshared(subnets, deny) && k < |Chosen(subnets, createDefault)|
    requires r in Chosen(subnets, createDefault)[k].Rules()
    ensures var chosen := Chosen(subnets, createDefault);
            && FirstLister(chosen, r).Some? && chosen[FirstLister(chosen, r).value].Rules() == chosen[k].Rules()
            && Distinct(chosen[k].Rules())
  {
    var chosen := Chosen(subnets, createDefault);
    var c := FirstLister(chosen, r).value;
    ChosenFrom(subnets, createDefault, chosen[k]);
    ChosenFrom(subnets, createDefault, chosen[c]);
    var s :| 0 <= s < |subnets| && subnets[s] == chosen[k];
    var l :| 0 <= l < |subnets| && subnets[l] == chosen[c];
  }

  /** What the group created for a subnet decides about a packet. */
  ghost function GroupVerdict<P>(m: Priorities, subnets: seq<Subnet>, createDefault: bool, deny: NsgRule, k: nat,
                                 t: Traffic<P>, p: P): Verdict
    requires k < |RunGroups(m, subnets, createDefault, deny)|
  {
    var rules := RunGroups(m, subnets, createDefault, deny)[k].rules;
    Evaluate(rules, Live(t, rules, p))
  }

  /**
   Every packet of a direction gets what the subnet's list says exactly when the packets made of
   the texts of two of its rules do, under the final numbers.
   */
  lemma GroupMeaningExactly(m: Priorities, subnets: seq<Subnet>, createDefault: bool, deny: NsgRule, k: nat,
                            d: Direction)
    requires Covers(m, subnets, deny) && deny.body == DEFAULT_DENY && k < |Chosen(subnets, createDefault)|
    ensures k < |RunGroups(m, subnets, createDefault, deny)|
    ensures PairsKept(ChosenBodies(subnets, createDefault, k), FinalNumbers(m, subnets, createDefault, deny, k), d)
            <==> forall q: Packet :: q.direction == d ==>
                   GroupVerdict(m, subnets, createDefault, deny, k, ALL, q)
                   == Intended(ALL, ChosenBodies(subnets, createDefault, k), q)
  {
    var bodies, given := ChosenBodies(subnets, createDefault, k), FinalNumbers(m, subnets, createDefault, deny, k);
    GroupCompiled(m, subnets, createDefault, deny, k);
    MeaningKeptOnPackets(bodies, given, d);
    forall q: Packet
      ensures MeaningKept(bodies, given, q)
              <==> GroupVerdict(m, subnets, createDefault, deny, k, ALL, q) == Intended(ALL, bodies, q)
    {
    }
  }

  /** Then the packets of any traffic do, too. */
  lemma GroupMeaning<P>(m: Priorities, subnets: seq<Subnet>, createDefault: bool, deny: NsgRule, k: nat,
                        t: Traffic<P>, p: P)
    requires Covers(m, subnets, deny) && deny.body == DEFAULT_DENY
    requires k < |Chosen(subnets, createDefault)| && t.WildcardsMatch(p)
    requires PairsKept(ChosenBodies(subnets, createDefault, k), FinalNumbers(m, subnets, createDefault, deny, k),
                       t.direction(p))
    ensures k < |RunGroups(m, subnets, createDefault, deny)|
    ensures GroupVerdict(m, subnets, createDefault, deny, k, t, p)
            == Intended(t, ChosenBodies(subnets, createDefault, k), p)
  {
    GroupCompiled(m, subnets, createDefault, deny, k);
    PairsKeptMeaning(t, ChosenBodies(subnets, createDefault, k), FinalNumbers(m, subnets, createDefault, deny, k), p);
  }

  /** No later subnet with a group has the name of this one. */
  predicate LastNamed(subnets: seq<Subnet>, createDefault: bool, s: nat)
    requires s < |subnets|
  {
    forall l :: s < l < |subnets| && Protected(subnets[l], createDefault) ==> subnets[l].name != subnets[s].name
  }

  lemma {:induction false} ChosenAt(subnets: seq<Subnet>, createDefault: bool, s: nat) returns (k: nat)
    requires s < |subnets| && Protected(subnets[s], createDefault)
    ensures k < |Chosen(subnets, createDefault)| && Chosen(subnets, createDefault)[k] == subnets[s]
    ensures LastNamed(subnets, createDefault, s) ==>
              forall j :: k < j < |Chosen(subnets, createDefault)| ==>
                Chosen(subnets, createDefault)[j].name != subnets[s].name
  {
    var n := |subnets| - 1;
    ProtectedGets(subnets[n], createDefault);
    if s == n {
      k := |Chosen(subnets[..n], createDefault)|;
    } else {
      k := ChosenAt(subnets[..n], createDefault, s);
      if LastNamed(subnets, createDefault, s) {
        assert LastNamed(subnets[..n], createDefault, s) by {
          assert forall l :: 0 <= l < n ==> subnets[..n][l] == subnets[l];
        }
      }
    }
  }

  /**
   What the dictionary holds for a subnet: the rules of its own list, or none, behind the deny
   rule, with the numbers that the rule objects carry in the end.
   */
  lemma GroupOf(m: Priorities, subnets: seq<Subnet>, createDefault: bool, deny: NsgRule, s: nat)
    requires Covers(m, subnets, deny) && deny.body == DEFAULT_DENY
    requires s < |subnets| && Protected(subnets[s], createDefault) && LastNamed(subnets, createDefault, s)
    ensures var nsgs := ByName(RunGroups(m, subnets, createDefault, deny));
            var rules := if subnets[s].networkRules.None? then [] else subnets[s].networkRules.value;
            && subnets[s].name in nsgs
            && nsgs[subnets[s].name].subnet == subnets[s].name
            && nsgs[subnets[s].name].rules
               == EmittedFor(Bodies(rules), Looked(RunPriorities(m, subnets, createDefault, deny), rules))
  {
    var groups, chosen := RunGroups(m, subnets, createDefault, deny), Chosen(subnets, createDefault);
    var k := ChosenAt(subnets, createDefault, s);
    GroupCompiled(m, subnets, createDefault, deny, k);
    GroupsMatchObjects(m, subnets, createDefault, deny);
    assert groups[k].subnet == subnets[s].name;
  }

  /** With defaults on, the group of every subnet not excluded denies inbound packets its list does not match. */
  lemma DefaultDenies<P>(m: Priorities, subnets: seq<Subnet>, deny: NsgRule, s: nat, t: Traffic<P>, p: P)
    requires Covers(m, subnets, deny) && deny.body == DEFAULT_DENY && t.WildcardsMatch(p)
    requires s < |subnets| && LastNamed(subnets, true, s)
    requires subnets[s].name !in {"GatewaySubnet", "AzureFirewallSubnet", "AzureFirewallManagementSubnet"}
    requires t.direction(p) == Inbound
    requires subnets[s].networkRules.Some? ==>
               forall r :: r in subnets[s].networkRules.value ==> !Matches(t, r.body, p)
    ensures var nsgs := ByName(RunGroups(m, subnets, true, deny));
            && subnets[s].name in nsgs
            && Evaluate(nsgs[subnets[s].name].rules, Live(t, nsgs[subnets[s].name].rules, p)) == Decided(Deny)
  {
    GroupOf(m, subnets, true, deny, s);
    var rules := if subnets[s].networkRules.None? then [] else subnets[s].networkRules.value;
    DenyAlone(t, Bodies(rules), Looked(RunPriorities(m, subnets, true, deny), rules), p);
  }

  lemma DenyAlone<P>(t: Traffic<P>, bodies: seq<RuleBody>, given: seq<Option<int>>, p: P)
    requires |given| == |bodies| && t.WildcardsMatch(p) && t.direction(p) == Inbound
    requires forall j :: 0 <= j < |bodies| ==> !Matches(t, bodies[j], p)
    ensures Outcome(t, bodies, given, p) == Decided(Deny)
  {
    var e := EmittedFor(bodies, given);
    EmittedLive(t, bodies, given, p);
    assert Decides(e, [true] + Matching(t, bodies, p), 0);
    EvaluateIs(e, [true] + Matching(t, bodies, p), 0);
  }

  /** A list whose rules all lack a number, and are met here first and once. */
  ghost predicate FreshList(m: Priorities, chosen: seq<Subnet>, deny: NsgRule, k: nat)
    requires k < |chosen|
  {
    && Distinct(chosen[k].Rules()) && deny !in chosen[k].Rules()
    && forall r :: r in chosen[k].Rules() ==> At(m, r) == None && FirstLister(chosen, r) == Some(k)
  }

  lemma FreshNumbers(m: Priorities, subnets: seq<Subnet>, createDefault: bool, deny: NsgRule, k: nat)
    requires Covers(m, subnets, deny) && k < |Chosen(subnets, createDefault)|
    requires FreshList(m, Chosen(subnets, createDefault), deny, k)
    ensures forall j :: 0 <= j < |FinalNumbers(m, subnets, createDefault, deny, k)| ==>
              FinalNumbers(m, subnets, createDefault, deny, k)[j] == Some(FIRST_PRIORITY + 1 + j)
  {
    var chosen := Chosen(subnets, createDefault);
    var rules := chosen[k].Rules();
    ChosenFrom(subnets, createDefault, chosen[k]);
    forall j | 0 <= j < |rules|
      ensures At(RunPriorities(m, subnets, createDefault, deny), rules[j]) == Some(FIRST_PRIORITY + 1 + j)
    {
      assert rules[j] in rules;
      SharedNumber(m, subnets, createDefault, deny, rules[j]);
    }
  }

  /**
   In particular a subnet of at most 3995 rules that all leave the priority unset, none of them
   repeated or listed by an earlier chosen subnet.
   */
  lemma UnsetGroupMeaning<P>(m: Priorities, subnets: seq<Subnet>, createDefault: bool, deny: NsgRule, k: nat,
                             t: Traffic<P>, p: P)
    requires Covers(m, subnets, deny) && deny.body == DEFAULT_DENY
    requires k < |Chosen(subnets, createDefault)| && t.WildcardsMatch(p)
    requires FreshList(m, Chosen(subnets, createDefault), deny, k)
    requires |Chosen(subnets, createDefault)[k].Rules()| <= ROOM
    ensures k < |RunGroups(m, subnets, createDefault, deny)|
    ensures GroupVerdict(m, subnets, createDefault, deny, k, t, p)
            == Intended(t, ChosenBodies(subnets, createDefault, k), p)
  {
    FreshNumbers(m, subnets, createDefault, deny, k);
    GroupCompiled(m, subnets, createDefault, deny, k);
    OrderKeptMeaning(t, ChosenBodies(subnets, createDefault, k), FinalNumbers(m, subnets, createDefault, deny, k), p);
  }

  /** A rule third in one subnet and first in the next, and the rule listed after it there. */
  function Overlapping(x: NsgRule, y: NsgRule, b: NsgRule, d: NsgRule): seq<Subnet> {
    [Subnet("one", Some([x, y, b])), Subnet("two", Some([b, d]))]
  }

  lemma OverlappingNumbers(m: Priorities, deny: NsgRule, x: NsgRule, y: NsgRule, b: NsgRule, d: NsgRule)
    requires Distinct([x, y, b, d, deny]) && forall r :: r in [x, y, b, d] ==> r in m && m[r] == None
    ensures Chosen(Overlapping(x, y, b, d), true) == Overlapping(x, y, b, d)
    ensures FinalNumbers(m, Overlapping(x, y, b, d), true, deny, 1) == [Some(103), Some(102)]
  {
    var subnets := Overlapping(x, y, b, d);
    FivePart([x, y, b, d, deny]);
    TwoChosen(subnets[0], subnets[1]);
    SharedNumber(m, subnets, true, deny, b);
    SharedNumber(m, subnets, true, deny, d);
    assert FirstLister(subnets, b) == Some(0) by {
      assert b in subnets[0].Rules();
    }
    assert FirstLister(subnets, d) == Some(1) by {
      assert d in subnets[1].Rules() && d !in subnets[0].Rules();
    }
    assert FirstIndex([x, y, b], b) == 2 && FirstIndex([b, d], d) == 1;
  }

  /**
   Sharing can reverse an order: the shared rule keeps the number of its third place, and where it
   is listed first the rule after it overrules it.
   */
  lemma SharedOrderLost<P>(m: Priorities, deny: NsgRule, x: NsgRule, y: NsgRule, b: NsgRule, d: NsgRule,
                           t: Traffic<P>, p: P)
    requires Distinct([x, y, b, d, deny]) && deny.body == DEFAULT_DENY
    requires deny in m && m[deny] == Some(DENY_PRIORITY)
    requires forall r :: r in [x, y, b, d] ==> r in m && m[r] == None
    requires t.WildcardsMatch(p) && Matches(t, b.body, p) && Matches(t, d.body, p) && b.body.action != d.body.action
    ensures 1 < |RunGroups(m, Overlapping(x, y, b, d), true, deny)|
    ensures Intended(t, Bodies([b, d]), p) == Decided(b.body.action)
    ensures GroupVerdict(m, Overlapping(x, y, b, d), true, deny, 1, t, p) == Decided(d.body.action)
  {
    var subnets := Overlapping(x, y, b, d);
    OverlappingNumbers(m, deny, x, y, b, d);
    OverlappingCovered(m, deny, x, y, b, d);
    GroupCompiled(m, subnets, true, deny, 1);
    assert Bodies([b, d]) == [b.body, d.body];
    ExplicitMeaningLost(t, b.body, d.body, 103, 102, p);
  }

  lemma OverlappingCovered(m: Priorities, deny: NsgRule, x: NsgRule, y: NsgRule, b: NsgRule, d: NsgRule)
    requires deny in m && m[deny] == Some(DENY_PRIORITY) && forall r :: r in [x, y, b, d] ==> r in m
    ensures Covers(m, Overlapping(x, y, b, d), deny)
  {}

  lemma FivePart<T>(s: seq<T>)
    requires |s| == 5 && Distinct(s)
    ensures s[0] != s[2] && s[1] != s[2] && s[2] != s[3] && s[0] != s[3] && s[1] != s[3] && s[2] != s[4] && s[3] != s[4]
  {}

  lemma TwoChosen(one: Subnet, two: Subnet)
    requires one.Rules() != [] && two.Rules() != []
    ensures Chosen([one, two], true) == [one, two]
  {
    assert [one, two][..1] == [one] && [one][..0] == [];
    assert Chosen([one], true) == [one];
  }
}
