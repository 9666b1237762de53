/**
 Network security rules: what a configured rule and an emitted one mean for a packet, and how a
 rule list is compiled to prioritised rules.
 */
module NsgRules {
  import opened Wrappers
  import opened Counting

  datatype Action = Allow | Deny

  datatype Direction = Inbound | Outbound

  /** A single address, tag or `*`, or a list of addresses, each in printed form. */
  datatype AddressSpec = One(address: string) | Many(addresses: seq<string>)

  datatype RuleBody = RuleBody(
    name: string,
    action: Action,
    destination: AddressSpec,
    destinationPorts: string,
    source: AddressSpec,
    sourcePorts: string,
    direction: Direction,
    protocol: string,
    description: Option<string>)

  /** The arguments of an emitted rule: a single prefix or a list of them, never both. */
  datatype SecurityRule = SecurityRule(
    name: string,
    access: Action,
    destinationPrefix: Option<string>,
    destinationPrefixes: Option<seq<string>>,
    destinationPorts: string,
    sourcePrefix: Option<string>,
    sourcePrefixes: Option<seq<string>>,
    sourcePorts: string,
    direction: Direction,
    protocol: string,
    description: Option<string>,
    priority: int)

  const DENY_PRIORITY := 4096
  const FIRST_PRIORITY := 100

  const DEFAULT_DENY: RuleBody := RuleBody(
    "Deny_All_Traffic_Not_Specified_Above", Deny, One("*"), "*", One("*"), "*", Inbound, "*",
    Some("Deny all inbound traffic not specified above"))

  /** The priority a rule ends up with at a position of the list: an explicit one is kept. */
  function Final(given: Option<int>, position: nat): int {
    given.GetOr(FIRST_PRIORITY + position)
  }

  function SinglePrefix(a: AddressSpec): Option<string> { if a.Many? then None else Some(a.address) }

  function PrefixList(a: AddressSpec): Option<seq<string>> { if a.Many? then Some(a.addresses) else None }

  function Emit(b: RuleBody, priority: int): SecurityRule {
    SecurityRule(
      b.name, b.action, SinglePrefix(b.destination), PrefixList(b.destination), b.destinationPorts,
      SinglePrefix(b.source), PrefixList(b.source), b.sourcePorts, b.direction, b.protocol, b.description, priority)
  }

  /** The rules emitted for a list of bodies with the given priorities. */
  function Compiled(bodies: seq<RuleBody>, given: seq<Option<int>>): seq<SecurityRule>
    requires |given| == |bodies|
  {
    seq(|bodies|, j requires 0 <= j < |bodies| => Emit(bodies[j], Final(given[j], j)))
  }

  // ---------------------------------------------------------------- meaning for packets

  /**
   What the platform makes of a rule's texts.  Only the wildcards are known here: they match
   everything.
   */
  datatype Traffic<!P> = Traffic(
    direction: P -> Direction,
    source: (string, P) -> bool,
    destination: (string, P) -> bool,
    sourcePorts: (string, P) -> bool,
    destinationPorts: (string, P) -> bool,
    protocol: (string, P) -> bool)
  {
    predicate WildcardsMatch(p: P) {
      source("*", p) && destination("*", p) && sourcePorts("*", p) && destinationPorts("*", p) && protocol("*", p)
    }
  }

  predicate AddressMatches<P>(test: (string, P) -> bool, spec: AddressSpec, p: P) {
    match spec
    case One(a) => test(a, p)
    case Many(list) => exists a :: a in list && test(a, p)
  }

  /** A configured rule matches a packet. */
  predicate Matches<P>(t: Traffic<P>, b: RuleBody, p: P) {
    && b.direction == t.direction(p)
    && AddressMatches(t.source, b.source, p)
    && AddressMatches(t.destination, b.destination, p)
    && t.sourcePorts(b.sourcePorts, p)
    && t.destinationPorts(b.destinationPorts, p)
    && t.protocol(b.protocol, p)
  }

  /** The two prefix arguments of an emitted rule match an address. */
  predicate PrefixesMatch<P>(test: (string, P) -> bool, single: Option<string>, list: Option<seq<string>>, p: P) {
    || (single.Some? && test(single.value, p))
    || (list.Some? && exists a :: a in list.value && test(a, p))
  }

  /** An emitted rule applies to a packet. */
  predicate Applies<P>(t: Traffic<P>, r: SecurityRule, p: P) {
    && r.direction == t.direction(p)
    && PrefixesMatch(t.source, r.sourcePrefix, r.sourcePrefixes, p)
    && PrefixesMatch(t.destination, r.destinationPrefix, r.destinationPrefixes, p)
    && t.sourcePorts(r.sourcePorts, p)
    && t.destinationPorts(r.destinationPorts, p)
    && t.protocol(r.protocol, p)
  }

  /** Which of the emitted rules apply to a packet. */
  function Live<P>(t: Traffic<P>, rules: seq<SecurityRule>, p: P): seq<bool>
  {
    seq(|rules|, j requires 0 <= j < |rules| => Applies(t, rules[j], p))
  }

  /** Which of the configured rules match a packet. */
  function Matching<P>(t: Traffic<P>, bodies: seq<RuleBody>, p: P): seq<bool>
  {
    seq(|bodies|, j requires 0 <= j < |bodies| => Matches(t, bodies[j], p))
  }

  /** The live rule with strictly the lowest priority number. */
  ghost predicate Decides(rules: seq<SecurityRule>, live: seq<bool>, k: nat)
    requires |live| == |rules|
  {
    && k < |rules|
    && live[k]
    && forall j :: 0 <= j < |rules| && j != k && live[j] ==> rules[k].priority < rules[j].priority
  }

  datatype Verdict = Decided(action: Action) | NoRuleApplies | Ambiguous

  /** Evaluation of the live rules: the lowest priority number wins, and a tie decides nothing. */
  ghost function Evaluate(rules: seq<SecurityRule>, live: seq<bool>): Verdict
    requires |live| == |rules|
  {
    if k: nat :| Decides(rules, live, k) then Decided(rules[k].access)
    else if exists j :: 0 <= j < |rules| && live[j] then Ambiguous
    else NoRuleApplies
  }

  lemma EvaluateIs(rules: seq<SecurityRule>, live: seq<bool>, k: nat)
    requires |live| == |rules| && Decides(rules, live, k)
    ensures Evaluate(rules, live) == Decided(rules[k].access)
  {}

  /** A live rule whose number no other live rule is below. */
  ghost predicate Least(rules: seq<SecurityRule>, live: seq<bool>, k: nat)
    requires |live| == |rules|
  {
    k < |rules| && live[k] && forall j :: 0 <= j < |rules| && live[j] ==> rules[k].priority <= rules[j].priority
  }

  lemma {:induction false} LeastExists(rules: seq<SecurityRule>, live: seq<bool>)
    requires |live| == |rules| && exists j :: 0 <= j < |rules| && live[j]
    ensures exists k: nat :: Least(rules, live, k)
  {
    var n := |rules| - 1;
    var fewer, flags := rules[..n], live[..n];
    if exists j :: 0 <= j < n && flags[j] {
      LeastExists(fewer, flags);
      var k: nat :| Least(fewer, flags, k);
      assert forall j :: 0 <= j < n ==> fewer[j] == rules[j] && flags[j] == live[j];
      assert Least(rules, live, if live[n] && rules[n].priority < rules[k].priority then n else k);
    } else {
      assert forall j :: 0 <= j < n ==> flags[j] == live[j];
      assert Least(rules, live, n);
    }
  }

  /** Two least live rules leave nothing decided. */
  lemma TieIsAmbiguous(rules: seq<SecurityRule>, live: seq<bool>, a: nat, b: nat)
    requires |live| == |rules| && Least(rules, live, a) && Least(rules, live, b) && a != b
    ensures Evaluate(rules, live) == Ambiguous
  {
    assert forall m: nat :: !Decides(rules, live, m);
  }

  /** Index of the first true entry. */
  function First(hits: seq<bool>): (r: Option<nat>)
    ensures r.Some? ==> r.value < |hits| && hits[r.value]
    ensures r.Some? ==> forall j :: 0 <= j < r.value ==> !hits[j]
    ensures r.None? ==> forall j :: 0 <= j < |hits| ==> !hits[j]
  {
    if hits == [] then None
    else if hits[0] then Some(0)
    else
      match First(hits[1..])
      case None => None
      case Some(k) => assert hits[1..][k] == hits[k + 1]; Some(k + 1)
  }

  /** What the configured list says about a packet: first match, and Deny for other inbound ones. */
  function Intended<P>(t: Traffic<P>, bodies: seq<RuleBody>, p: P): Verdict {
    IntendedOn(bodies, t.direction(p), Matching(t, bodies, p))
  }

  /** The same, by which rules of the list match a packet of a direction. */
  function IntendedOn(bodies: seq<RuleBody>, d: Direction, hits: seq<bool>): Verdict
    requires |hits| == |bodies|
  {
    match First(hits)
    case Some(k) => Decided(bodies[k].action)
    case None => if d == Inbound then Decided(Deny) else NoRuleApplies
  }

  /** The rules emitted for a subnet: the deny rule first, then the configured ones. */
  function EmittedFor(bodies: seq<RuleBody>, given: seq<Option<int>>): (r: seq<SecurityRule>)
    requires |given| == |bodies|
    ensures |r| == 1 + |bodies|
    ensures r[0].priority == DENY_PRIORITY && r[0].access == Deny
    ensures forall j :: 1 <= j < |r| ==> r[j].priority == Final(given[j - 1], j) && r[j].access == bodies[j - 1].action
  {
    Compiled([DEFAULT_DENY] + bodies, [Some(DENY_PRIORITY)] + given)
  }

  /** What the emitted rules for a subnet decide about a packet. */
  ghost function Outcome<P>(t: Traffic<P>, bodies: seq<RuleBody>, given: seq<Option<int>>, p: P): Verdict
    requires |given| == |bodies|
  {
    var e := EmittedFor(bodies, given);
    Evaluate(e, Live(t, e, p))
  }

  /** The emitted rules apply where the configured ones match; the deny rule applies inbound. */
  lemma EmittedLive<P>(t: Traffic<P>, bodies: seq<RuleBody>, given: seq<Option<int>>, p: P)
    requires |given| == |bodies| && t.WildcardsMatch(p)
    ensures Live(t, EmittedFor(bodies, given), p) == [t.direction(p) == Inbound] + Matching(t, bodies, p)
  {}

  /** Each emitted rule has the texts of its configured one, and the deny rule its own. */
  lemma EmittedSays(bodies: seq<RuleBody>, given: seq<Option<int>>, j: nat)
    requires |given| == |bodies| && j < |bodies|
    ensures var r, b := EmittedFor(bodies, given)[j + 1], bodies[j];
            && r.name == b.name && r.access == b.action && r.direction == b.direction && r.description == b.description
            && r.protocol == b.protocol && r.sourcePorts == b.sourcePorts && r.destinationPorts == b.destinationPorts
            && r.priority == (if given[j].Some? then given[j].value else 101 + j)
    ensures var r := EmittedFor(bodies, given)[0];
            && r.access == Deny && r.direction == Inbound && r.priority == 4096
            && r.sourcePrefix == Some("*") && r.destinationPrefix == Some("*") && r.protocol == "*"
            && r.sourcePorts == "*" && r.destinationPorts == "*"
  {}

  /** What the emitted rules decide, by which rules of the list match a packet of a direction. */
  ghost function VerdictOn(bodies: seq<RuleBody>, given: seq<Option<int>>, d: Direction, hits: seq<bool>): Verdict
    requires |given| == |bodies| == |hits|
  {
    Evaluate(EmittedFor(bodies, given), [d == Inbound] + hits)
  }

  lemma OutcomeIs<P>(t: Traffic<P>, bodies: seq<RuleBody>, given: seq<Option<int>>, p: P)
    requires |given| == |bodies| && t.WildcardsMatch(p)
    ensures Outcome(t, bodies, given, p) == VerdictOn(bodies, given, t.direction(p), Matching(t, bodies, p))
    ensures Fits(bodies, t.direction(p), Matching(t, bodies, p))
  {
    EmittedLive(t, bodies, given, p);
  }

  // ---------------------------------------------------------------- when the meaning is kept

  /** Only rules of a packet's direction match it. */
  predicate Fits(bodies: seq<RuleBody>, d: Direction, hits: seq<bool>) {
    |hits| == |bodies| && forall j :: 0 <= j < |hits| && hits[j] ==> bodies[j].direction == d
  }

  /** The number a configured rule ends up with, behind the deny rule. */
  function Number(given: seq<Option<int>>, j: nat): int
    requires j < |given|
  {
    Final(given[j], j + 1)
  }

  /** The deny rule takes nothing from this rule. */
  predicate Stands(bodies: seq<RuleBody>, given: seq<Option<int>>, d: Direction, i: nat)
    requires |given| == |bodies| && i < |bodies|
  {
    d == Inbound ==>
      Number(given, i) < DENY_PRIORITY || (Number(given, i) > DENY_PRIORITY && bodies[i].action == Deny)
  }

  /** A later rule takes nothing from an earlier one. */
  predicate StandsBefore(bodies: seq<RuleBody>, given: seq<Option<int>>, d: Direction, i: nat, j: nat)
    requires |given| == |bodies| && i < |bodies| && j < |bodies|
  {
    || Number(given, i) < Number(given, j)
    || (Number(given, j) < Number(given, i) && bodies[i].action == bodies[j].action)
    || (d == Inbound && Number(given, i) > DENY_PRIORITY && Number(given, j) > DENY_PRIORITY)
  }

  /** A test on numbers and actions only, rule by rule and pair by pair. */
  predicate Kept(bodies: seq<RuleBody>, given: seq<Option<int>>, d: Direction)
    requires |given| == |bodies|
  {
    && (forall i :: 0 <= i < |bodies| && bodies[i].direction == d ==> Stands(bodies, given, d, i))
    && (forall i, j :: 0 <= i < j < |bodies| && bodies[i].direction == d && bodies[j].direction == d ==>
          StandsBefore(bodies, given, d, i, j))
  }

  /** No two rules of a direction tie where it matters. */
  predicate TieFree(bodies: seq<RuleBody>, given: seq<Option<int>>, d: Direction)
    requires |given| == |bodies|
  {
    && (d == Inbound ==>
          forall i :: 0 <= i < |bodies| && bodies[i].direction == d ==> Number(given, i) != DENY_PRIORITY)
    && (forall i, j :: 0 <= i < j < |bodies| && bodies[i].direction == d && bodies[j].direction == d ==>
          Number(given, i) != Number(given, j) || (d == Inbound && Number(given, i) > DENY_PRIORITY))
  }

  /** Without ties the verdict is that of the matching rule with the least number, the deny rule included. */
  lemma LeastDecides(bodies: seq<RuleBody>, given: seq<Option<int>>, d: Direction, hits: seq<bool>, w: nat)
    requires |given| == |bodies| && TieFree(bodies, given, d) && Fits(bodies, d, hits)
    requires Least(EmittedFor(bodies, given), [d == Inbound] + hits, w)
    ensures VerdictOn(bodies, given, d, hits) == Decided(EmittedFor(bodies, given)[w].access)
  {
    var e, live := EmittedFor(bodies, given), [d == Inbound] + hits;
    forall j | 0 <= j < |e| && j != w && live[j]
      ensures e[w].priority < e[j].priority
    {
      assert d == Inbound ==> live[0];
      assert j > 0 ==> e[j].priority == Number(given, j - 1) && hits[j - 1];
      assert w > 0 ==> e[w].priority == Number(given, w - 1) && hits[w - 1];
    }
    assert Decides(e, live, w);
    EvaluateIs(e, live, w);
  }

  lemma NothingMatches(bodies: seq<RuleBody>, given: seq<Option<int>>, d: Direction, hits: seq<bool>)
    requires |given| == |bodies| == |hits| && d == Outbound && First(hits) == None
    ensures VerdictOn(bodies, given, d, hits) == NoRuleApplies
  {
    var live := [d == Inbound] + hits;
    assert forall j :: 0 <= j < |live| ==> !live[j];
  }

  lemma KeptVerdict(bodies: seq<RuleBody>, given: seq<Option<int>>, d: Direction, hits: seq<bool>)
    requires |given| == |bodies| && Kept(bodies, given, d) && Fits(bodies, d, hits)
    ensures VerdictOn(bodies, given, d, hits) == IntendedOn(bodies, d, hits)
  {
    var e, live := EmittedFor(bodies, given), [d == Inbound] + hits;
    if d == Outbound && First(hits) == None {
      NothingMatches(bodies, given, d, hits);
    } else {
      assert live[if First(hits).Some? then First(hits).value + 1 else 0];
      LeastExists(e, live);
      var w: nat :| Least(e, live, w);
      LeastDecides(bodies, given, d, hits, w);
      LeastAction(bodies, given, d, hits, w);
    }
  }

  lemma LeastAction(bodies: seq<RuleBody>, given: seq<Option<int>>, d: Direction, hits: seq<bool>, w: nat)
    requires |given| == |bodies| && Kept(bodies, given, d) && Fits(bodies, d, hits)
    requires Least(EmittedFor(bodies, given), [d == Inbound] + hits, w)
    ensures IntendedOn(bodies, d, hits) == Decided(EmittedFor(bodies, given)[w].access)
  {
    var e, live := EmittedFor(bodies, given), [d == Inbound] + hits;
    assert d == Inbound ==> live[0];
    assert w > 0 ==> hits[w - 1] && e[w].priority == Number(given, w - 1);
    match First(hits)
    case None => assert w == 0;
    case Some(k) =>
      assert live[k + 1] && e[k + 1].priority == Number(given, k);
      assert Stands(bodies, given, d, k);
      assert w > k + 1 ==> StandsBefore(bodies, given, d, k, w - 1);
  }

  /** The matches of at most two rules. */
  function Pattern(n: nat, i: nat, j: nat): (r: seq<bool>)
    ensures |r| == n && forall m :: 0 <= m < n ==> (r[m] <==> m == i || m == j)
  {
    seq(n, m => m == i || m == j)
  }

  lemma PairVerdict(bodies: seq<RuleBody>, given: seq<Option<int>>, d: Direction, i: nat, j: nat, w: nat)
    requires |given| == |bodies| && i <= j < |bodies|
    requires w == i + 1 || w == j + 1 || (w == 0 && d == Inbound)
    requires var e := EmittedFor(bodies, given);
             e[w].priority <= e[i + 1].priority && e[w].priority <= e[j + 1].priority
             && (d == Inbound ==> e[w].priority <= DENY_PRIORITY)
    ensures Least(EmittedFor(bodies, given), [d == Inbound] + Pattern(|bodies|, i, j), w)
    ensures IntendedOn(bodies, d, Pattern(|bodies|, i, j)) == Decided(bodies[i].action)
  {
    var e, hits := EmittedFor(bodies, given), Pattern(|bodies|, i, j);
    var live := [d == Inbound] + hits;
    assert forall m :: 1 <= m < |live| ==> live[m] == hits[m - 1];
    assert hits[i] && First(hits).Some? && hits[First(hits).value];
    assert forall m :: 0 <= m < |e| && live[m] ==> m == 0 || m == i + 1 || m == j + 1;
  }

  /** A rule alone against the deny rule: the listed meaning survives exactly if the rule stands. */
  lemma SingleExactly(bodies: seq<RuleBody>, given: seq<Option<int>>, d: Direction, i: nat)
    requires |given| == |bodies| && i < |bodies| && bodies[i].direction == d
    ensures VerdictOn(bodies, given, d, Pattern(|bodies|, i, i)) == IntendedOn(bodies, d, Pattern(|bodies|, i, i))
            <==> Stands(bodies, given, d, i)
  {
    var e, hits, n := EmittedFor(bodies, given), Pattern(|bodies|, i, i), Number(given, i);
    var live := [d == Inbound] + hits;
    if d == Inbound && n >= DENY_PRIORITY {
      PairVerdict(bodies, given, d, i, i, 0);
      if n == DENY_PRIORITY {
        PairVerdict(bodies, given, d, i, i, i + 1);
        TieIsAmbiguous(e, live, 0, i + 1);
      } else {
        assert Decides(e, live, 0) by {
          assert forall m :: 1 <= m < |live| && live[m] ==> m == i + 1;
        }
        EvaluateIs(e, live, 0);
      }
    } else {
      PairVerdict(bodies, given, d, i, i, i + 1);
      assert Decides(e, live, i + 1) by {
        assert forall m :: 1 <= m < |live| && live[m] ==> m == i + 1;
      }
      EvaluateIs(e, live, i + 1);
    }
  }

  /** The later of two rules decides when its number is below that of the other and of the deny rule. */
  lemma LaterDecides(bodies: seq<RuleBody>, given: seq<Option<int>>, d: Direction, i: nat, j: nat)
    requires |given| == |bodies| && i < j < |bodies| && Number(given, j) < Number(given, i)
    requires d == Inbound ==> Number(given, j) < DENY_PRIORITY
    ensures VerdictOn(bodies, given, d, Pattern(|bodies|, i, j)) == Decided(bodies[j].action)
  {
    var e, live := EmittedFor(bodies, given), [d == Inbound] + Pattern(|bodies|, i, j);
    assert forall m :: 1 <= m < |live| && live[m] ==> m == i + 1 || m == j + 1;
    assert Decides(e, live, j + 1);
    EvaluateIs(e, live, j + 1);
  }

  /** Two rules that each stand but not before one another: together they lose the listed meaning. */
  lemma PairBreaks(bodies: seq<RuleBody>, given: seq<Option<int>>, d: Direction, i: nat, j: nat)
    requires |given| == |bodies| && i < j < |bodies| && bodies[i].direction == d && bodies[j].direction == d
    requires Stands(bodies, given, d, i) && Stands(bodies, given, d, j) && !StandsBefore(bodies, given, d, i, j)
    ensures VerdictOn(bodies, given, d, Pattern(|bodies|, i, j)) != IntendedOn(bodies, d, Pattern(|bodies|, i, j))
  {
    PairVerdict(bodies, given, d, i, j, j + 1);
    if Number(given, i) == Number(given, j) {
      TieShows(bodies, given, d, i, j);
    } else {
      LaterDecides(bodies, given, d, i, j);
    }
  }

  /**
   For any priorities, explicit or not: the emitted rules give the listed meaning whichever rules
   of a direction match, exactly when the test on numbers and actions passes.
   */
  lemma MeaningKeptExactly(bodies: seq<RuleBody>, given: seq<Option<int>>, d: Direction)
    requires |given| == |bodies|
    ensures Kept(bodies, given, d) <==>
              forall hits :: Fits(bodies, d, hits) ==> VerdictOn(bodies, given, d, hits) == IntendedOn(bodies, d, hits)
  {
    if Kept(bodies, given, d) {
      forall hits | Fits(bodies, d, hits)
        ensures VerdictOn(bodies, given, d, hits) == IntendedOn(bodies, d, hits)
      {
        KeptVerdict(bodies, given, d, hits);
      }
    } else if i :| 0 <= i < |bodies| && bodies[i].direction == d && !Stands(bodies, given, d, i) {
      SingleExactly(bodies, given, d, i);
      assert Fits(bodies, d, Pattern(|bodies|, i, i));
    } else {
      var i, j :| 0 <= i < j < |bodies| && bodies[i].direction == d && bodies[j].direction == d
                  && !StandsBefore(bodies, given, d, i, j);
      PairBreaks(bodies, given, d, i, j);
      assert Fits(bodies, d, Pattern(|bodies|, i, j));
    }
  }

  /** Ties are all that can leave a packet undecided. */
  lemma NeverAmbiguous(bodies: seq<RuleBody>, given: seq<Option<int>>, d: Direction)
    requires |given| == |bodies|
    ensures TieFree(bodies, given, d) <==>
              forall hits :: Fits(bodies, d, hits) ==> VerdictOn(bodies, given, d, hits) != Ambiguous
  {
    if TieFree(bodies, given, d) {
      forall hits | Fits(bodies, d, hits)
        ensures VerdictOn(bodies, given, d, hits) != Ambiguous
      {
        var e, live := EmittedFor(bodies, given), [d == Inbound] + hits;
        if exists j :: 0 <= j < |e| && live[j] {
          LeastExists(e, live);
          var w: nat :| Least(e, live, w);
          LeastDecides(bodies, given, d, hits, w);
        }
      }
    } else {
      var i, j := TieAt(bodies, given, d);
      TieShows(bodies, given, d, i, j);
      assert Fits(bodies, d, Pattern(|bodies|, i, j));
    }
  }

  lemma TieShows(bodies: seq<RuleBody>, given: seq<Option<int>>, d: Direction, i: nat, j: nat)
    requires |given| == |bodies| && i <= j < |bodies|
    requires if i == j then d == Inbound && Number(given, i) == DENY_PRIORITY
             else Number(given, i) == Number(given, j) && (d == Inbound ==> Number(given, i) < DENY_PRIORITY)
    ensures VerdictOn(bodies, given, d, Pattern(|bodies|, i, j)) == Ambiguous
  {
    var e, live := EmittedFor(bodies, given), [d == Inbound] + Pattern(|bodies|, i, j);
    var other := if i == j then 0 else i + 1;
    PairVerdict(bodies, given, d, i, j, j + 1);
    PairVerdict(bodies, given, d, i, j, other);
    TieIsAmbiguous(e, live, other, j + 1);
  }

  /** A tie with the deny rule, or one between two rules at or below it. */
  lemma TieAt(bodies: seq<RuleBody>, given: seq<Option<int>>, d: Direction) returns (i: nat, j: nat)
    requires |given| == |bodies| && !TieFree(bodies, given, d)
    ensures i <= j < |bodies| && bodies[i].direction == bodies[j].direction == d
    ensures if i == j then d == Inbound && Number(given, i) == DENY_PRIORITY
            else Number(given, i) == Number(given, j) && (d == Inbound ==> Number(given, i) < DENY_PRIORITY)
  {
    if k :| d == Inbound && 0 <= k < |bodies| && bodies[k].direction == d && Number(given, k) == DENY_PRIORITY {
      i, j := k, k;
    } else {
      i, j :| 0 <= i < j < |bodies| && bodies[i].direction == d && bodies[j].direction == d
              && Number(given, i) == Number(given, j) && (d == Inbound ==> Number(given, i) <= DENY_PRIORITY);
    }
  }

  /** Every packet gets what the configured list says, when the test passes for its direction. */
  lemma KeptMeaning<P>(t: Traffic<P>, bodies: seq<RuleBody>, given: seq<Option<int>>, p: P)
    requires |given| == |bodies| && t.WildcardsMatch(p) && Kept(bodies, given, t.direction(p))
    ensures Outcome(t, bodies, given, p) == Intended(t, bodies, p)
  {
    OutcomeIs(t, bodies, given, p);
    KeptVerdict(bodies, given, t.direction(p), Matching(t, bodies, p));
  }

  /** The configured priorities rise along the list and stay below the deny rule. */
  predicate OrderKept(given: seq<Option<int>>) {
    && (forall i, j :: 0 <= i < j < |given| ==> Number(given, i) < Number(given, j))
    && forall i :: 0 <= i < |given| ==> Number(given, i) < DENY_PRIORITY
  }

  /**
   Compilation preserves meaning whenever the priorities rise along the list and stay below the
   deny rule, although the deny rule is emitted first.
   */
  lemma OrderKeptMeaning<P>(t: Traffic<P>, bodies: seq<RuleBody>, given: seq<Option<int>>, p: P)
    requires |given| == |bodies| && OrderKept(given) && t.WildcardsMatch(p)
    ensures Outcome(t, bodies, given, p) == Intended(t, bodies, p)
  {
    KeptMeaning(t, bodies, given, p);
  }

  function AllUnset(n: nat): (r: seq<Option<int>>)
    ensures |r| == n && forall i :: 0 <= i < n ==> r[i] == None
  {
    seq(n, _ => None)
  }

  /** Most user rules that fit between the first automatic priority and the deny rule. */
  const ROOM: nat := 3995

  /** Automatic priorities rise and stay below the deny rule exactly for up to 3995 rules. */
  lemma UnsetOrderKept(n: nat)
    ensures OrderKept(AllUnset(n)) <==> n <= ROOM
  {
    if n > ROOM {
      assert Number(AllUnset(n), n - 1) >= DENY_PRIORITY;
    }
  }

  /**
   Rules without priorities: every outbound packet gets what the list says, and every inbound one
   does for up to 3995 rules.
   */
  lemma UnsetMeaning<P>(t: Traffic<P>, bodies: seq<RuleBody>, p: P)
    requires (|bodies| <= ROOM || t.direction(p) == Outbound) && t.WildcardsMatch(p)
    ensures Outcome(t, bodies, AllUnset(|bodies|), p) == Intended(t, bodies, p)
  {
    KeptMeaning(t, bodies, AllUnset(|bodies|), p);
  }

  /**
   Without the bound: a packet gets the listed meaning exactly when it is outbound, or its first
   match is among the first 3995 rules, or lies beyond the rule that ties with the deny rule and
   denies anyway.
   */
  lemma UnsetMeaningExactly<P>(t: Traffic<P>, bodies: seq<RuleBody>, p: P)
    requires t.WildcardsMatch(p)
    ensures Outcome(t, bodies, AllUnset(|bodies|), p) == Intended(t, bodies, p)
            <==> || t.direction(p) == Outbound
                 || match First(Matching(t, bodies, p))
                    case None => true
                    case Some(k) => k < ROOM || (k > ROOM && bodies[k].action == Deny)
  {
    if t.direction(p) == Outbound {
      UnsetMeaning(t, bodies, p);
    } else {
      var given := AllUnset(|bodies|);
      var e, hits := EmittedFor(bodies, given), Matching(t, bodies, p);
      EmittedLive(t, bodies, given, p);
      assert forall j :: 1 <= j < |e| ==> e[j].priority == FIRST_PRIORITY + j;
      RaceWithDeny(e, [true] + hits, hits);
    }
  }

  /** Behind 3995 rules that do not match, an allowing rule without a priority ties with the deny rule. */
  lemma UnsetMeaningLost<P>(t: Traffic<P>, other: RuleBody, b: RuleBody, p: P)
    requires t.WildcardsMatch(p) && t.direction(p) == Inbound
    requires !Matches(t, other, p) && Matches(t, b, p) && b.action == Allow
    ensures var bodies := seq(ROOM, _ => other) + [b];
            && Intended(t, bodies, p) == Decided(Allow)
            && Outcome(t, bodies, AllUnset(ROOM + 1), p) == Ambiguous
  {
    var bodies := seq(ROOM, _ => other) + [b];
    var given, n := AllUnset(ROOM + 1), ROOM + 1;
    assert Matching(t, bodies, p) == Pattern(n, ROOM, ROOM);
    OutcomeIs(t, bodies, given, p);
    PairVerdict(bodies, given, Inbound, ROOM, ROOM, 0);
    PairVerdict(bodies, given, Inbound, ROOM, ROOM, n);
    TieIsAmbiguous(EmittedFor(bodies, given), [true] + Pattern(n, ROOM, ROOM), 0, n);
  }

  /** The deny rule against automatically numbered ones: who decides, by the position of the first hit. */
  lemma RaceWithDeny(e: seq<SecurityRule>, live: seq<bool>, hits: seq<bool>)
    requires |live| == |e| == 1 + |hits| && live == [true] + hits
    requires e[0].priority == DENY_PRIORITY && forall j :: 1 <= j < |e| ==> e[j].priority == FIRST_PRIORITY + j
    ensures match First(hits)
            case None => Evaluate(e, live) == Decided(e[0].access)
            case Some(k) =>
              && (k < ROOM ==> Evaluate(e, live) == Decided(e[k + 1].access))
              && (k == ROOM ==> Evaluate(e, live) == Ambiguous)
              && (k > ROOM ==> Evaluate(e, live) == Decided(e[0].access))
  {
    var first := First(hits);
    assert first.Some? ==> live[first.value + 1];
    assert forall j :: 1 <= j < |live| ==> live[j] == hits[j - 1];
    if first == Some(ROOM) {
      assert live[0] && live[ROOM + 1] && e[0].priority == e[ROOM + 1].priority;
      assert forall m: nat :: !Decides(e, live, m);
    } else {
      var winner := if first.Some? && first.value < ROOM then first.value + 1 else 0;
      assert Decides(e, live, winner);
      EvaluateIs(e, live, winner);
    }
  }

  // ---------------------------------------------------------------- mixed priorities

  function Finals(given: seq<Option<int>>): seq<int>
  {
    seq(|given|, j requires 0 <= j < |given| => Final(given[j], j))
  }

  /**
   The emitted priorities are pairwise distinct exactly when the explicit ones are distinct, avoid
   the deny rule's number and every automatic number, and no automatic number is the deny rule's.
   */
  lemma DistinctPriorities(given: seq<Option<int>>)
    ensures Distinct(Finals([Some(DENY_PRIORITY)] + given)) <==>
              && (forall i, j :: 0 <= i < j < |given| && given[i].Some? && given[j].Some? ==> given[i] != given[j])
              && (forall i :: 0 <= i < |given| && given[i].Some? ==> given[i].value != DENY_PRIORITY)
              && (forall i, j :: 0 <= i < |given| && 0 <= j < |given| && given[i].Some? && given[j].None? ==>
                    given[i].value != FIRST_PRIORITY + 1 + j)
              && (|given| > ROOM ==> given[ROOM].Some?)
  {
    DistinctNumbers(given);
    assert forall i :: 0 <= i < |given| ==>
        Number(given, i) == if given[i].Some? then given[i].value else FIRST_PRIORITY + 1 + i;
  }

  lemma DistinctNumbers(given: seq<Option<int>>)
    ensures Distinct(Finals([Some(DENY_PRIORITY)] + given)) <==>
              && (forall i :: 0 <= i < |given| ==> Number(given, i) != DENY_PRIORITY)
              && (forall i, j :: 0 <= i < j < |given| ==> Number(given, i) != Number(given, j))
  {
    var f := Finals([Some(DENY_PRIORITY)] + given);
    assert f[0] == DENY_PRIORITY;
    assert forall j :: 1 <= j < |f| ==> f[j] == Number(given, j - 1);
    assert forall i :: 0 <= i < |given| ==> Number(given, i) == f[i + 1];
    if Distinct(f) {
      forall i | 0 <= i < |given|
        ensures Number(given, i) != DENY_PRIORITY
        ensures forall j :: i < j < |given| ==> Number(given, i) != Number(given, j)
      {
        assert f[0] != f[i + 1];
      }
    }
  }

  /** With distinct priorities every packet is decided, or matched by nothing at all. */
  lemma DistinctDecides<P>(t: Traffic<P>, bodies: seq<RuleBody>, given: seq<Option<int>>, p: P)
    requires |given| == |bodies| && t.WildcardsMatch(p) && Distinct(Finals([Some(DENY_PRIORITY)] + given))
    ensures Outcome(t, bodies, given, p) != Ambiguous
    ensures forall w: nat :: Least(EmittedFor(bodies, given), Live(t, EmittedFor(bodies, given), p), w) ==>
              Outcome(t, bodies, given, p) == Decided(EmittedFor(bodies, given)[w].access)
  {
    var d, hits := t.direction(p), Matching(t, bodies, p);
    var f := Finals([Some(DENY_PRIORITY)] + given);
    assert f[0] == DENY_PRIORITY;
    assert forall j :: 0 <= j < |given| ==> f[j + 1] == Number(given, j);
    assert TieFree(bodies, given, d);
    OutcomeIs(t, bodies, given, p);
    EmittedLive(t, bodies, given, p);
    NeverAmbiguous(bodies, given, d);
    forall w: nat | Least(EmittedFor(bodies, given), [d == Inbound] + hits, w)
      ensures VerdictOn(bodies, given, d, hits) == Decided(EmittedFor(bodies, given)[w].access)
    {
      LeastDecides(bodies, given, d, hits, w);
    }
  }
}
