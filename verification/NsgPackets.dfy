/**
 Which packets keep the listed meaning under any priorities.  Packets are abstract, so a packet is
 made of the texts it is matched by; a pair of rules is then enough to find out about all packets.
 */
module NsgPackets {
  import opened Wrappers
  import opened NsgRules

  /** A packet, given by its direction and the texts of each field that match it, besides the wildcard. */
  datatype Packet = Packet(
    direction: Direction,
    sources: set<string>,
    destinations: set<string>,
    sourcePorts: set<string>,
    destinationPorts: set<string>,
    protocols: set<string>)

  predicate Hit(text: string, texts: set<string>) { text == "*" || text in texts }

  /** The traffic made of all such packets. */
  const ALL: Traffic<Packet> := Traffic(
    (p: Packet) => p.direction,
    (s: string, p: Packet) => Hit(s, p.sources),
    (s: string, p: Packet) => Hit(s, p.destinations),
    (s: string, p: Packet) => Hit(s, p.sourcePorts),
    (s: string, p: Packet) => Hit(s, p.destinationPorts),
    (s: string, p: Packet) => Hit(s, p.protocols))

  lemma WildcardsHit(p: Packet)
    ensures ALL.WildcardsMatch(p)
  {}

  // ---------------------------------------------------------------- every packet is one of these

  function Texts(a: AddressSpec): set<string> {
    match a
    case One(text) => {text}
    case Many(list) => set text | text in list
  }

  /** The texts of a rule list that match a packet of any traffic. */
  function Copy<P>(t: Traffic<P>, bodies: seq<RuleBody>, p: P): Packet {
    Packet(
      t.direction(p),
      set b, s | b in bodies && s in Texts(b.source) && t.source(s, p) :: s,
      set b, s | b in bodies && s in Texts(b.destination) && t.destination(s, p) :: s,
      set b | b in bodies && t.sourcePorts(b.sourcePorts, p) :: b.sourcePorts,
      set b | b in bodies && t.destinationPorts(b.destinationPorts, p) :: b.destinationPorts,
      set b | b in bodies && t.protocol(b.protocol, p) :: b.protocol)
  }

  lemma AddressCopied<P>(test: (string, P) -> bool, a: AddressSpec, texts: set<string>, p: P)
    requires test("*", p)
    requires forall s :: s in Texts(a) ==> (s in texts <==> test(s, p))
    ensures AddressMatches(test, a, p) <==> exists s :: s in Texts(a) && Hit(s, texts)
  {
    if AddressMatches(test, a, p) && a.Many? {
      var s :| s in a.addresses && test(s, p);
      assert s in Texts(a);
    }
    if s :| s in Texts(a) && Hit(s, texts) {
      assert test(s, p);
    }
  }

  lemma AddressHit(a: AddressSpec, test: (string, Packet) -> bool, texts: set<string>, q: Packet)
    requires forall s :: test(s, q) <==> Hit(s, texts)
    ensures AddressMatches(test, a, q) <==> exists s :: s in Texts(a) && Hit(s, texts)
  {
    if AddressMatches(test, a, q) && a.Many? {
      var s :| s in a.addresses && test(s, q);
      assert s in Texts(a);
    }
  }

  /** What it takes to match one of these packets. */
  lemma MatchesIs(b: RuleBody, q: Packet)
    ensures Matches(ALL, b, q) <==>
              && b.direction == q.direction
              && (exists s :: s in Texts(b.source) && Hit(s, q.sources))
              && (exists s :: s in Texts(b.destination) && Hit(s, q.destinations))
              && Hit(b.sourcePorts, q.sourcePorts)
              && Hit(b.destinationPorts, q.destinationPorts)
              && Hit(b.protocol, q.protocols)
  {
    AddressHit(b.source, ALL.source, q.sources, q);
    AddressHit(b.destination, ALL.destination, q.destinations, q);
  }

  /** A packet of any traffic is matched by the same rules as its copy. */
  lemma CopyMatches<P>(t: Traffic<P>, bodies: seq<RuleBody>, p: P)
    requires t.WildcardsMatch(p)
    ensures Matching(t, bodies, p) == Matching(ALL, bodies, Copy(t, bodies, p))
  {
    var q := Copy(t, bodies, p);
    forall j | 0 <= j < |bodies|
      ensures Matches(t, bodies[j], p) <==> Matches(ALL, bodies[j], q)
    {
      var b := bodies[j];
      assert b in bodies;
      MatchesIs(b, q);
      AddressCopied(t.source, b.source, q.sources, p);
      AddressCopied(t.destination, b.destination, q.destinations, p);
    }
  }

  // ---------------------------------------------------------------- packets of two rules

  /** One text of each field of a rule. */
  datatype Choice = Choice(
    source: string,
    destination: string,
    sourcePorts: string,
    destinationPorts: string,
    protocol: string)

  predicate Picks(b: RuleBody, c: Choice) {
    && c.source in Texts(b.source) && c.destination in Texts(b.destination)
    && c.sourcePorts == b.sourcePorts && c.destinationPorts == b.destinationPorts && c.protocol == b.protocol
  }

  /** The packet matched by the texts of two choices and nothing else. */
  function PairPacket(d: Direction, x: Choice, y: Choice): Packet {
    Packet(d, {x.source, y.source}, {x.destination, y.destination}, {x.sourcePorts, y.sourcePorts},
           {x.destinationPorts, y.destinationPorts}, {x.protocol, y.protocol})
  }

  ghost predicate MeaningKept(bodies: seq<RuleBody>, given: seq<Option<int>>, q: Packet)
    requires |given| == |bodies|
  {
    Outcome(ALL, bodies, given, q) == Intended(ALL, bodies, q)
  }

  /** The listed meaning is kept on the packets of any two rules of a direction: finitely many. */
  ghost predicate PairsKept(bodies: seq<RuleBody>, given: seq<Option<int>>, d: Direction)
    requires |given| == |bodies|
  {
    forall i, j, x, y :: 0 <= i < |bodies| && 0 <= j < |bodies| && bodies[i].direction == bodies[j].direction == d
                         && Picks(bodies[i], x) && Picks(bodies[j], y) ==>
      MeaningKept(bodies, given, PairPacket(d, x, y))
  }

  /** The packets of any two rules of a direction are decided. */
  ghost predicate PairsDecided(bodies: seq<RuleBody>, given: seq<Option<int>>, d: Direction)
    requires |given| == |bodies|
  {
    forall i, j, x, y :: 0 <= i < |bodies| && 0 <= j < |bodies| && bodies[i].direction == bodies[j].direction == d
                         && Picks(bodies[i], x) && Picks(bodies[j], y) ==>
      Outcome(ALL, bodies, given, PairPacket(d, x, y)) != Ambiguous
  }

  /** The texts by which a rule matches a packet. */
  lemma ChoiceIn(b: RuleBody, q: Packet) returns (c: Choice)
    requires Matches(ALL, b, q)
    ensures Picks(b, c) && b.direction == q.direction
    ensures Hits(c, q)
  {
    MatchesIs(b, q);
    var s :| s in Texts(b.source) && Hit(s, q.sources);
    var e :| e in Texts(b.destination) && Hit(e, q.destinations);
    c := Choice(s, e, b.sourcePorts, b.destinationPorts, b.protocol);
  }

  lemma ChoiceMatches(b: RuleBody, c: Choice, q: Packet)
    requires Picks(b, c) && b.direction == q.direction
    requires c.source in q.sources && c.destination in q.destinations
    requires c.sourcePorts in q.sourcePorts && c.destinationPorts in q.destinationPorts && c.protocol in q.protocols
    ensures Matches(ALL, b, q)
  {
    MatchesIs(b, q);
    assert Hit(c.source, q.sources) && Hit(c.destination, q.destinations);
  }

  /** The texts of a choice all match a packet. */
  predicate Hits(c: Choice, q: Packet) {
    && Hit(c.source, q.sources) && Hit(c.destination, q.destinations)
    && Hit(c.sourcePorts, q.sourcePorts) && Hit(c.destinationPorts, q.destinationPorts) && Hit(c.protocol, q.protocols)
  }

  /** What matches the packet of two matching rules matches the whole packet. */
  lemma PairWithin(b: RuleBody, x: Choice, y: Choice, q: Packet)
    requires Hits(x, q) && Hits(y, q) && Matches(ALL, b, PairPacket(q.direction, x, y))
    ensures Matches(ALL, b, q)
  {
    var small := PairPacket(q.direction, x, y);
    MatchesIs(b, small);
    MatchesIs(b, q);
    var s :| s in Texts(b.source) && Hit(s, small.sources);
    assert Hit(s, q.sources);
    var e :| e in Texts(b.destination) && Hit(e, small.destinations);
    assert Hit(e, q.destinations);
  }

  /** Shrinks a packet to the texts by which two rules match it. */
  lemma Shrink(bodies: seq<RuleBody>, q: Packet, i: nat, j: nat) returns (x: Choice, y: Choice)
    requires i < |bodies| && j < |bodies| && Matches(ALL, bodies[i], q) && Matches(ALL, bodies[j], q)
    ensures bodies[i].direction == bodies[j].direction == q.direction
    ensures Picks(bodies[i], x) && Picks(bodies[j], y)
    ensures var small := PairPacket(q.direction, x, y);
            && Matching(ALL, bodies, small)[i] && Matching(ALL, bodies, small)[j]
            && forall m :: 0 <= m < |bodies| && Matching(ALL, bodies, small)[m] ==> Matching(ALL, bodies, q)[m]
  {
    x := ChoiceIn(bodies[i], q);
    y := ChoiceIn(bodies[j], q);
    var small := PairPacket(q.direction, x, y);
    ChoiceMatches(bodies[i], x, small);
    ChoiceMatches(bodies[j], y, small);
    forall m | 0 <= m < |bodies| && Matches(ALL, bodies[m], small)
      ensures Matches(ALL, bodies[m], q)
    {
      PairWithin(bodies[m], x, y, q);
    }
  }

  // ---------------------------------------------------------------- two rules are enough

  /** Fewer matches. */
  predicate Fewer(small: seq<bool>, hits: seq<bool>) {
    |small| == |hits| && forall m :: 0 <= m < |hits| && small[m] ==> hits[m]
  }

  ghost predicate Lost(bodies: seq<RuleBody>, given: seq<Option<int>>, d: Direction, hits: seq<bool>)
    requires |given| == |bodies| == |hits|
  {
    VerdictOn(bodies, given, d, hits) != IntendedOn(bodies, d, hits)
  }

  lemma FirstStays(small: seq<bool>, hits: seq<bool>)
    requires Fewer(small, hits) && First(hits).Some? && small[First(hits).value]
    ensures First(small) == First(hits)
  {}

  /** A tie stays a tie as long as both rules match. */
  lemma TieStays(bodies: seq<RuleBody>, given: seq<Option<int>>, d: Direction, hits: seq<bool>, small: seq<bool>,
                 v: nat, w: nat)
    requires |given| == |bodies| == |hits| && Fewer(small, hits) && v != w
    requires Least(EmittedFor(bodies, given), [d == Inbound] + hits, v)
    requires Least(EmittedFor(bodies, given), [d == Inbound] + hits, w)
    requires (v > 0 ==> small[v - 1]) && (w > 0 ==> small[w - 1])
    ensures VerdictOn(bodies, given, d, small) == Ambiguous && Lost(bodies, given, d, small)
  {
    var e, live, fewer := EmittedFor(bodies, given), [d == Inbound] + hits, [d == Inbound] + small;
    assert forall m :: 0 <= m < |live| && fewer[m] ==> live[m];
    TieIsAmbiguous(e, fewer, v, w);
  }

  /** So does a verdict against the first match, as long as both rules match. */
  lemma LossStays(bodies: seq<RuleBody>, given: seq<Option<int>>, d: Direction, hits: seq<bool>, small: seq<bool>,
                  w: nat)
    requires |given| == |bodies| == |hits| && Fewer(small, hits)
    requires Decides(EmittedFor(bodies, given), [d == Inbound] + hits, w) && (w > 0 ==> small[w - 1])
    requires First(hits).Some? && small[First(hits).value]
    requires EmittedFor(bodies, given)[w].access != bodies[First(hits).value].action
    ensures Lost(bodies, given, d, small)
  {
    var e, live, fewer := EmittedFor(bodies, given), [d == Inbound] + hits, [d == Inbound] + small;
    assert forall m :: 0 <= m < |live| && fewer[m] ==> live[m];
    assert Decides(e, fewer, w);
    EvaluateIs(e, fewer, w);
    FirstStays(small, hits);
  }

  lemma LostHasFirst(bodies: seq<RuleBody>, given: seq<Option<int>>, d: Direction, hits: seq<bool>)
    requires |given| == |bodies| == |hits| && Lost(bodies, given, d, hits)
    ensures First(hits).Some?
  {
    if First(hits) == None {
      if d == Outbound {
        NothingMatches(bodies, given, d, hits);
      } else {
        assert Decides(EmittedFor(bodies, given), [true] + hits, 0);
        EvaluateIs(EmittedFor(bodies, given), [true] + hits, 0);
      }
      assert false;
    }
  }

  /** Two matching rules lose the meaning, whichever of the others match besides. */
  ghost predicate Culprits(bodies: seq<RuleBody>, given: seq<Option<int>>, d: Direction, hits: seq<bool>,
                           i: nat, j: nat)
    requires |given| == |bodies| == |hits|
  {
    && i < |bodies| && j < |bodies| && hits[i] && hits[j]
    && forall small :: Fewer(small, hits) && small[i] && small[j] ==>
         && Lost(bodies, given, d, small)
         && (VerdictOn(bodies, given, d, hits) == Ambiguous ==> VerdictOn(bodies, given, d, small) == Ambiguous)
  }

  lemma TieCulprits(bodies: seq<RuleBody>, given: seq<Option<int>>, d: Direction, hits: seq<bool>, v: nat, w: nat)
    requires |given| == |bodies| == |hits| && v < w
    requires Least(EmittedFor(bodies, given), [d == Inbound] + hits, v)
    requires Least(EmittedFor(bodies, given), [d == Inbound] + hits, w)
    ensures Culprits(bodies, given, d, hits, if v > 0 then v - 1 else w - 1, w - 1)
  {
    forall small | Fewer(small, hits) && small[if v > 0 then v - 1 else w - 1] && small[w - 1]
      ensures VerdictOn(bodies, given, d, small) == Ambiguous && Lost(bodies, given, d, small)
    {
      TieStays(bodies, given, d, hits, small, v, w);
    }
  }

  lemma LossCulprits(bodies: seq<RuleBody>, given: seq<Option<int>>, d: Direction, hits: seq<bool>, w: nat)
    requires |given| == |bodies| == |hits| && Lost(bodies, given, d, hits) && First(hits).Some?
    requires Decides(EmittedFor(bodies, given), [d == Inbound] + hits, w)
    ensures Culprits(bodies, given, d, hits, First(hits).value, if w > 0 then w - 1 else First(hits).value)
  {
    EvaluateIs(EmittedFor(bodies, given), [d == Inbound] + hits, w);
    forall small | Fewer(small, hits) && small[First(hits).value] && small[if w > 0 then w - 1 else First(hits).value]
      ensures Lost(bodies, given, d, small)
    {
      LossStays(bodies, given, d, hits, small, w);
    }
  }

  lemma LeastAlone(rules: seq<SecurityRule>, live: seq<bool>, w: nat)
    requires |live| == |rules| && Least(rules, live, w) && !exists v: nat :: v != w && Least(rules, live, v)
    ensures Decides(rules, live, w)
  {
    assert forall m: nat :: m < |rules| && m != w && live[m] ==> !Least(rules, live, m);
  }

  lemma SomeLeast(bodies: seq<RuleBody>, given: seq<Option<int>>, d: Direction, hits: seq<bool>) returns (w: nat)
    requires |given| == |bodies| == |hits| && First(hits).Some?
    ensures Least(EmittedFor(bodies, given), [d == Inbound] + hits, w)
  {
    assert ([d == Inbound] + hits)[First(hits).value + 1];
    LeastExists(EmittedFor(bodies, given), [d == Inbound] + hits);
    w :| Least(EmittedFor(bodies, given), [d == Inbound] + hits, w);
  }

  /** Where the meaning is lost there are such rules. */
  lemma TwoLose(bodies: seq<RuleBody>, given: seq<Option<int>>, d: Direction, hits: seq<bool>) returns (i: nat, j: nat)
    requires |given| == |bodies| == |hits| && Lost(bodies, given, d, hits)
    ensures Culprits(bodies, given, d, hits, i, j)
  {
    var e, live := EmittedFor(bodies, given), [d == Inbound] + hits;
    LostHasFirst(bodies, given, d, hits);
    var w := SomeLeast(bodies, given, d, hits);
    if v: nat :| v != w && Least(e, live, v) {
      var low, high := if v < w then v else w, if v < w then w else v;
      TieCulprits(bodies, given, d, hits, low, high);
      i, j := if low > 0 then low - 1 else high - 1, high - 1;
    } else {
      LeastAlone(e, live, w);
      LossCulprits(bodies, given, d, hits, w);
      i, j := First(hits).value, if w > 0 then w - 1 else First(hits).value;
    }
  }

  // ---------------------------------------------------------------- what holds of every packet

  lemma OutcomeOn(bodies: seq<RuleBody>, given: seq<Option<int>>, q: Packet)
    requires |given| == |bodies|
    ensures Outcome(ALL, bodies, given, q) == VerdictOn(bodies, given, q.direction, Matching(ALL, bodies, q))
    ensures Intended(ALL, bodies, q) == IntendedOn(bodies, q.direction, Matching(ALL, bodies, q))
  {
    WildcardsHit(q);
    OutcomeIs(ALL, bodies, given, q);
  }

  /** A packet that loses its meaning shrinks to one of two rules that loses it in the same way. */
  lemma PairLoses(bodies: seq<RuleBody>, given: seq<Option<int>>, q: Packet)
    requires |given| == |bodies| && !MeaningKept(bodies, given, q)
    ensures !PairsKept(bodies, given, q.direction)
    ensures Outcome(ALL, bodies, given, q) == Ambiguous ==> !PairsDecided(bodies, given, q.direction)
  {
    var hits := Matching(ALL, bodies, q);
    OutcomeOn(bodies, given, q);
    var i, j := TwoLose(bodies, given, q.direction, hits);
    var x, y := Shrink(bodies, q, i, j);
    var small := PairPacket(q.direction, x, y);
    OutcomeOn(bodies, given, small);
    assert Fewer(Matching(ALL, bodies, small), hits);
    assert !MeaningKept(bodies, given, small);
  }

  /**
   For any priorities: all packets of a direction get the listed meaning exactly when the packets
   made of the texts of two rules do.
   */
  lemma MeaningKeptOnPackets(bodies: seq<RuleBody>, given: seq<Option<int>>, d: Direction)
    requires |given| == |bodies|
    ensures PairsKept(bodies, given, d) <==> forall q: Packet :: q.direction == d ==> MeaningKept(bodies, given, q)
  {
    if PairsKept(bodies, given, d) {
      forall q: Packet | q.direction == d
        ensures MeaningKept(bodies, given, q)
      {
        if !MeaningKept(bodies, given, q) {
          PairLoses(bodies, given, q);
          assert false;
        }
      }
    }
  }

  /** No packet of a direction is left undecided exactly when none made of the texts of two rules is. */
  lemma DecidedOnPackets(bodies: seq<RuleBody>, given: seq<Option<int>>, d: Direction)
    requires |given| == |bodies|
    ensures PairsDecided(bodies, given, d)
            <==> forall q: Packet :: q.direction == d ==> Outcome(ALL, bodies, given, q) != Ambiguous
  {
    if PairsDecided(bodies, given, d) {
      forall q: Packet | q.direction == d
        ensures Outcome(ALL, bodies, given, q) != Ambiguous
      {
        if Outcome(ALL, bodies, given, q) == Ambiguous {
          PairLoses(bodies, given, q);
          assert false;
        }
      }
    }
  }

  lemma CopyOutcome<P>(t: Traffic<P>, bodies: seq<RuleBody>, given: seq<Option<int>>, p: P)
    requires |given| == |bodies| && t.WildcardsMatch(p)
    ensures Outcome(t, bodies, given, p) == Outcome(ALL, bodies, given, Copy(t, bodies, p))
    ensures Intended(t, bodies, p) == Intended(ALL, bodies, Copy(t, bodies, p))
  {
    CopyMatches(t, bodies, p);
    OutcomeIs(t, bodies, given, p);
    OutcomeOn(bodies, given, Copy(t, bodies, p));
  }

  /** Then the packets of any traffic do, too. */
  lemma PairsKeptMeaning<P>(t: Traffic<P>, bodies: seq<RuleBody>, given: seq<Option<int>>, p: P)
    requires |given| == |bodies| && t.WildcardsMatch(p)
    ensures PairsKept(bodies, given, t.direction(p)) ==> Outcome(t, bodies, given, p) == Intended(t, bodies, p)
    ensures PairsDecided(bodies, given, t.direction(p)) ==> Outcome(t, bodies, given, p) != Ambiguous
  {
    CopyOutcome(t, bodies, given, p);
    MeaningKeptOnPackets(bodies, given, t.direction(p));
    DecidedOnPackets(bodies, given, t.direction(p));
  }

  /** The test on numbers and actions alone is enough, but asks more than packets do. */
  lemma KeptPairs(bodies: seq<RuleBody>, given: seq<Option<int>>, d: Direction)
    requires |given| == |bodies| && Kept(bodies, given, d)
    ensures PairsKept(bodies, given, d)
  {
    forall q: Packet | q.direction == d
      ensures MeaningKept(bodies, given, q)
    {
      WildcardsHit(q);
      KeptMeaning(ALL, bodies, given, q);
    }
    MeaningKeptOnPackets(bodies, given, d);
  }

  /** A rule that matches everything shields a later one, whatever its number. */
  lemma KeptAsksMore(first: RuleBody, later: RuleBody)
    requires first == DEFAULT_DENY && later.direction == Inbound && later.action == Allow
    ensures var bodies, given := [first, later], [Some(101), Some(5000)];
            !Kept(bodies, given, Inbound) && PairsKept(bodies, given, Inbound)
  {
    var bodies, given := [first, later], [Some(101), Some(5000)];
    assert !Stands(bodies, given, Inbound, 1);
    forall q: Packet | q.direction == Inbound
      ensures MeaningKept(bodies, given, q)
    {
      ShieldedPacket(first, later, q);
    }
    MeaningKeptOnPackets(bodies, given, Inbound);
  }

  lemma ShieldedPacket(first: RuleBody, later: RuleBody, q: Packet)
    requires first == DEFAULT_DENY && q.direction == Inbound
    ensures MeaningKept([first, later], [Some(101), Some(5000)], q)
  {
    var bodies, given := [first, later], [Some(101), Some(5000)];
    var hits := Matching(ALL, bodies, q);
    OutcomeOn(bodies, given, q);
    MatchesIs(first, q);
    assert "*" in Texts(first.source) && "*" in Texts(first.destination);
    assert hits[0];
    var e, live := EmittedFor(bodies, given), [true] + hits;
    assert e[1].priority == 101 && e[2].priority == 5000;
    assert Decides(e, live, 1);
    EvaluateIs(e, live, 1);
  }

  /** An explicit number below that of an earlier rule overrules it on every packet both match. */
  lemma ExplicitMeaningLost<P>(t: Traffic<P>, a: RuleBody, b: RuleBody, m: int, n: int, p: P)
    requires t.WildcardsMatch(p) && Matches(t, a, p) && Matches(t, b, p) && a.action != b.action
    requires n < m && n < DENY_PRIORITY
    ensures Intended(t, [a, b], p) == Decided(a.action)
    ensures Outcome(t, [a, b], [Some(m), Some(n)], p) == Decided(b.action)
  {
    var bodies, given := [a, b], [Some(m), Some(n)];
    var e, live := EmittedFor(bodies, given), [t.direction(p) == Inbound] + Matching(t, bodies, p);
    EmittedLive(t, bodies, given, p);
    assert Matching(t, bodies, p)[0] && Matching(t, bodies, p)[1];
    assert e[1].priority == m && e[2].priority == n;
    assert Decides(e, live, 2);
    EvaluateIs(e, live, 2);
  }
}
