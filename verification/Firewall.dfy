/**
 Firewall policies: the rule and policy validators, and the loops that emit rules, collections
 and the chain of collection groups.
 */
module Firewall {
  import opened Wrappers
  import opened Ports
  import Ipv4
  import T = Text

  /** One address of a rule: a text or reference, or a parsed network. */
  datatype Address = Text(text: string) | Block(net: Ipv4.Network)

  /** An address field: absent, one address, or a list. */
  datatype Addresses = Absent | Single(address: Address) | Listed(items: seq<Address>)

  /** A port field: one port, or a list. */
  datatype PortField = OnePort(port: Port) | PortList(ports: seq<Port>)

  datatype Protocols = Any | These(protocols: seq<string>)

  datatype NetworkBody = NetworkBody(
    name: string,
    destinationAddresses: Addresses,
    destinationGroups: Option<seq<string>>,
    destinationTags: Option<seq<string>>,
    destinationFqdns: Option<seq<string>>,
    sourceAddresses: Addresses,
    sourceGroups: Option<seq<string>>,
    protocols: Option<Protocols>,
    description: Option<string>)

  datatype ApplicationBody = ApplicationBody(
    name: string,
    sourceAddresses: Addresses,
    sourceGroups: Option<seq<string>>,
    destinationFqdns: Option<seq<string>>,
    destinationTags: Option<seq<string>>,
    destinationUrls: Option<seq<string>>,
    destinationCategories: Option<seq<string>>,
    protocols: seq<(string, int)>,
    description: Option<string>)

  /** Checks made elsewhere: parsing of a network text, and the list of service tags. */
  datatype Checks = Checks(isNetwork: string -> bool, isServiceTag: string -> bool)

  // ---------------------------------------------------------------- the network rule validator

  function Count(b: bool): nat { if b then 1 else 0 }

  function Destinations(b: NetworkBody): nat {
    Count(b.destinationGroups.Some?) + Count(b.destinationAddresses != Absent)
    + Count(b.destinationTags.Some?) + Count(b.destinationFqdns.Some?)
  }

  /** A parsed network needs no check; a text must be a network or the wildcard. */
  predicate AddressOk(c: Checks, a: Address) { a.Text? ==> c.isNetwork(a.text) || a.text == "*" }

  predicate AddressesOk(c: Checks, a: Addresses) {
    match a
    case Absent => true
    case Single(address) => AddressOk(c, address)
    case Listed(items) => forall i :: 0 <= i < |items| ==> AddressOk(c, items[i])
  }

  /** Python truth of an address field. */
  predicate Present(a: Addresses) {
    match a
    case Absent => false
    case Single(address) => address.Text? ==> address.text != ""
    case Listed(items) => items != []
  }

  predicate PresentList(l: Option<seq<string>>) { l.GetOr([]) != [] }

  function AsList(p: PortField): seq<Port> { match p case OnePort(q) => [q] case PortList(ps) => ps }

  /** Exactly one of the four destination fields is given. */
  predicate OneDestination(b: NetworkBody) {
    var a, g, t, f := b.destinationAddresses != Absent, b.destinationGroups != None, b.destinationTags != None,
                      b.destinationFqdns != None;
    (a && !g && !t && !f) || (!a && g && !t && !f) || (!a && !g && t && !f) || (!a && !g && !t && f)
  }

  /** The source field gives something to check. */
  predicate GivesSource(a: Addresses) { a != Absent && a != Single(Text("")) && a != Listed([]) }

  /** What a network rule must satisfy. */
  ghost predicate Acceptable(c: Checks, b: NetworkBody, ports: seq<Port>) {
    && OneDestination(b)
    && AddressesOk(c, b.destinationAddresses)
    && (forall t :: t in b.destinationTags.GetOr([]) ==> c.isServiceTag(t))
    && (forall f :: f in b.destinationFqdns.GetOr([]) ==> f != "")
    && (forall p :: p in ports ==> exists named :: Names(p, named))
    && (if GivesSource(b.sourceAddresses) then AddressesOk(c, b.sourceAddresses)
        else b.sourceGroups != None && b.sourceGroups != Some([]))
  }

  datatype RuleError = DestinationCount | BadDestination | BadServiceTag | BadFqdn | BadPort | BadSource | NoSource

  /** The address check, run on the destination and on the source field. */
  method CheckAddresses(c: Checks, a: Addresses) returns (ok: bool)
    ensures ok <==> AddressesOk(c, a)
  {
    match a
    case Absent => return true;
    case Single(address) => return !address.Text? || c.isNetwork(address.text) || address.text == "*";
    case Listed(items) =>
      for i := 0 to |items|
        invariant forall k :: 0 <= k < i ==> AddressOk(c, items[k])
      {
        if items[i].Text? && !c.isNetwork(items[i].text) && items[i].text != "*" {
          return false;
        }
      }
      return true;
  }

  /** The loops over service tags and over names. */
  method CheckTags(c: Checks, tags: seq<string>) returns (ok: bool)
    ensures ok <==> forall t :: t in tags ==> c.isServiceTag(t)
  {
    for i := 0 to |tags|
      invariant forall k :: 0 <= k < i ==> c.isServiceTag(tags[k])
    {
      if !c.isServiceTag(tags[i]) {
        return false;
      }
    }
    return true;
  }

  method CheckFqdns(fqdns: seq<string>) returns (ok: bool)
    ensures ok <==> forall f :: f in fqdns ==> f != ""
  {
    for i := 0 to |fqdns|
      invariant forall k :: 0 <= k < i ==> fqdns[k] != ""
    {
      if fqdns[i] == "" {
        assert "" in fqdns;
        return false;
      }
    }
    return true;
  }

  method CheckPorts(ports: seq<Port>) returns (ok: bool)
    ensures ok <==> forall p :: p in ports ==> exists named :: Names(p, named)
  {
    for i := 0 to |ports|
      invariant forall k :: 0 <= k < i ==> IsPort(ports[k])
    {
      if !IsPort(ports[i]) {
        IsPortMeaning(ports[i]);
        assert ports[i] in ports;
        return false;
      }
    }
    forall k | 0 <= k < |ports|
      ensures exists named :: Names(ports[k], named)
    {
      IsPortMeaning(ports[k]);
    }
    return true;
  }

  /** A configured network rule; validation overwrites its port field with a list. */
  class NetworkRule {
    const body: NetworkBody
    var destinationPorts: PortField

    constructor (body: NetworkBody, ports: PortField)
      ensures this.body == body && destinationPorts == ports
    {
      this.body, this.destinationPorts := body, ports;
    }

    /** The rule as the emitting loop reads it. */
    function Value(): Rule
      reads this
    {
      Network(body, destinationPorts)
    }

    /**
     Accepts exactly the acceptable rules.  An accepted rule's ports are a list of the same ports,
     and what is emitted for it names these ports in the same order.
     */
    method Validate(c: Checks) returns (r: Result<(), RuleError>)
      modifies this
      ensures r.Ok? <==> Acceptable(c, body, AsList(old(destinationPorts)))
      ensures AsList(destinationPorts) == AsList(old(destinationPorts))
      ensures r.Ok? ==>
                destinationPorts == if old(destinationPorts).OnePort? then PortList([old(destinationPorts).port])
                                    else old(destinationPorts)
      ensures r.Ok? ==> SamePorts(AsList(old(destinationPorts)), ArgsOf(Value()).ports)
    {
      if Destinations(body) != 1 {
        return Err(DestinationCount);
      }
      var ok := CheckAddresses(c, body.destinationAddresses);
      if !ok {
        return Err(BadDestination);
      }
      ok := CheckTags(c, body.destinationTags.GetOr([]));
      if !ok {
        return Err(BadServiceTag);
      }
      ok := CheckFqdns(body.destinationFqdns.GetOr([]));
      if !ok {
        return Err(BadFqdn);
      }
      if destinationPorts.OnePort? {
        destinationPorts := PortList([destinationPorts.port]);
      }
      ok := CheckPorts(destinationPorts.ports);
      if !ok {
        return Err(BadPort);
      }
      if Present(body.sourceAddresses) {
        ok := CheckAddresses(c, body.sourceAddresses);
        if !ok {
          return Err(BadSource);
        }
      } else if !PresentList(body.sourceGroups) {
        return Err(NoSource);
      }
      AcceptedPorts(destinationPorts.ports);
      return Ok(());
    }
  }

  // ---------------------------------------------------------------- emitted rules

  /** A rule as it is after validation. */
  datatype Rule = Network(net: NetworkBody, ports: PortField) | Application(app: ApplicationBody)

  datatype RuleArgs =
    | NetworkArgs(name: string, description: Option<string>, protocols: seq<string>, ports: seq<string>,
                  sources: Option<seq<string>>, sourceGroups: Option<seq<string>>,
                  destinations: Option<seq<string>>, destinationGroups: Option<seq<string>>,
                  fqdns: Option<seq<string>>)
    | ApplicationArgs(name: string, description: Option<string>, endpoints: seq<(string, int)>,
                      sources: Option<seq<string>>, sourceGroups: Option<seq<string>>,
                      fqdns: Option<seq<string>>, urls: Option<seq<string>>,
                      categories: Option<seq<string>>, tags: Option<seq<string>>)

  function PrintPorts(ports: seq<Port>): seq<string>
  {
    seq(|ports|, i requires 0 <= i < |ports| => Printed(ports[i]))
  }

  /** `str` of an address. */
  function Dotted(a: nat): string {
    T.Decimal(a / 0x100_0000) + "." + T.Decimal(a / 0x1_0000 % 256) + "."
    + T.Decimal(a / 256 % 256) + "." + T.Decimal(a % 256)
  }

  function PrintAddress(a: Address): string {
    match a
    case Text(text) => text
    case Block(net) => Dotted(net.base) + "/" + T.Decimal(net.prefix)
  }

  /**
   `[str(addr) for addr in field] if field else None`: a text is taken apart into characters, and
   a network into its addresses.
   */
  function PrintAddresses(a: Addresses): Option<seq<string>> {
    if !Present(a) then None
    else
      match a
      case Absent => None
      case Single(Text(text)) => Some(seq(|text|, i requires 0 <= i < |text| => [text[i]]))
      case Single(Block(net)) => Some(EachAddress(net))
      case Listed(items) => Some(PrintAll(items))
  }

  /** The printed addresses of a network, in ascending order. */
  function EachAddress(net: Ipv4.Network): (r: seq<string>)
    ensures |r| == Ipv4.Size(net.prefix) && forall i :: 0 <= i < |r| ==> r[i] == Dotted(net.base + i)
  {
    seq(Ipv4.Size(net.prefix), i requires 0 <= i => Dotted(net.base + i))
  }

  function PrintAll(items: seq<Address>): (r: seq<string>)
    ensures |r| == |items| && forall i :: 0 <= i < |items| ==> r[i] == PrintAddress(items[i])
  {
    seq(|items|, i requires 0 <= i < |items| => PrintAddress(items[i]))
  }

  function OrNone(l: Option<seq<string>>): Option<seq<string>> { if PresentList(l) then l else None }

  function ProtocolNames(p: Option<Protocols>): seq<string> {
    match p
    case None => []
    case Some(Any) => ["ANY"]
    case Some(These(names)) => names
  }

  function ArgsOf(rule: Rule): RuleArgs {
    match rule
    case Network(b, ports) =>
      NetworkArgs(b.name, b.description, ProtocolNames(b.protocols), PrintPorts(AsList(ports)),
                  PrintAddresses(b.sourceAddresses), OrNone(b.sourceGroups),
                  PrintAddresses(b.destinationAddresses), OrNone(b.destinationGroups), OrNone(b.destinationFqdns))
    case Application(b) =>
      ApplicationArgs(b.name, b.description, b.protocols,
                      PrintAddresses(b.sourceAddresses), OrNone(b.sourceGroups),
                      OrNone(b.destinationFqdns), OrNone(b.destinationUrls),
                      OrNone(b.destinationCategories), OrNone(b.destinationTags))
  }

  /** `_rules`: one emitted rule per configured rule, in order; nothing for an empty list. */
  method Rules(rules: seq<Rule>) returns (r: Option<seq<RuleArgs>>)
    ensures r == None <==> rules == []
    ensures r.Some? ==> |r.value| == |rules|
    ensures r.Some? ==> forall i :: 0 <= i < |rules| ==> r.value[i] == ArgsOf(rules[i]) && Conveys(rules[i], r.value[i])
  {
    if rules == [] {
      return None;
    }
    var constructed := [];
    for i := 0 to |rules|
      invariant |constructed| == i && forall k :: 0 <= k < i ==> constructed[k] == ArgsOf(rules[k])
    {
      constructed := constructed + [ArgsOf(rules[i])];
    }
    forall k | 0 <= k < |rules|
      ensures Conveys(rules[k], ArgsOf(rules[k]))
    {
      ArgsConvey(rules[k]);
    }
    return Some(constructed);
  }

  /** Emitted port texts are accepted again and name the given ports, in the same order. */
  ghost predicate SamePorts(ports: seq<Port>, emitted: seq<string>) {
    && |emitted| == |ports|
    && forall i :: 0 <= i < |emitted| ==>
         IsPort(Label(emitted[i])) && forall named :: Names(Label(emitted[i]), named) <==> Names(ports[i], named)
  }

  predicate AllAccepted(ports: seq<Port>) { forall i :: 0 <= i < |ports| ==> IsPort(ports[i]) }

  lemma EmittedPorts(list: seq<Port>)
    requires AllAccepted(list)
    ensures SamePorts(list, PrintPorts(list))
  {
    forall i | 0 <= i < |list|
      ensures IsPort(Label(Printed(list[i])))
      ensures forall named :: Names(Label(Printed(list[i])), named) <==> Names(list[i], named)
    {
      IsPortMeaning(list[i]);
      var named :| Names(list[i], named);
      PrintedNamesSame(list[i], named);
      forall other | Names(Label(Printed(list[i])), other)
        ensures Names(list[i], other)
      {
        NamesOne(Label(Printed(list[i])), named, other);
      }
      forall other | Names(list[i], other)
        ensures Names(Label(Printed(list[i])), other)
      {
        NamesOne(list[i], named, other);
      }
    }
  }

  lemma AcceptedPorts(list: seq<Port>)
    requires forall p :: p in list ==> exists named :: Names(p, named)
    ensures SamePorts(list, PrintPorts(list))
  {
    forall i | 0 <= i < |list|
      ensures IsPort(list[i])
    {
      assert list[i] in list;
      IsPortMeaning(list[i]);
    }
    EmittedPorts(list);
  }

  // ---------------------------------------------------------------- emitted addresses

  lemma NoDots(n: nat)
    ensures T.FreeOf(T.Decimal(n), T.DOT)
  {
    T.DecimalDigits(n);
  }

  lemma SplitDotted(a: nat)
    ensures T.Split(Dotted(a), T.DOT)
            == [T.Decimal(a / 0x100_0000), T.Decimal(a / 0x1_0000 % 256), T.Decimal(a / 256 % 256), T.Decimal(a % 256)]
  {
    var p, q := T.Decimal(a / 0x100_0000), T.Decimal(a / 0x1_0000 % 256);
    var r, s := T.Decimal(a / 256 % 256), T.Decimal(a % 256);
    NoDots(a / 0x100_0000);
    NoDots(a / 0x1_0000 % 256);
    NoDots(a / 256 % 256);
    NoDots(a % 256);
    T.SplitConcat(p + "." + q + "." + r, '.', s, T.DOT);
    T.SplitConcat(p + "." + q, '.', r, T.DOT);
    T.SplitConcat(p, '.', q, T.DOT);
    T.SplitFree(p, T.DOT);
    T.SplitFree(q, T.DOT);
    T.SplitFree(r, T.DOT);
    T.SplitFree(s, T.DOT);
  }

  /** A number written with decimal digits. */
  predicate Writes(text: string, n: nat) { text != "" && T.AllDigits(text) && T.ParseNat(text) == n }

  /** Four octets with dots between them that make up an address. */
  predicate Quad(text: string, a: int) {
    var o := T.Split(text, T.DOT);
    && |o| == 4 && (forall i :: 0 <= i < 4 ==> T.AllDigits(o[i]) && o[i] != "" && T.ParseNat(o[i]) < 256)
    && a == T.ParseNat(o[0]) * 0x100_0000 + T.ParseNat(o[1]) * 0x1_0000 + T.ParseNat(o[2]) * 256 + T.ParseNat(o[3])
  }

  lemma DottedQuad(a: nat)
    requires Ipv4.IsAddress(a)
    ensures Quad(Dotted(a), a)
  {
    SplitDotted(a);
    T.ParseDecimal(a / 0x100_0000);
    T.ParseDecimal(a / 0x1_0000 % 256);
    T.ParseDecimal(a / 256 % 256);
    T.ParseDecimal(a % 256);
    T.DecimalDigits(a / 0x100_0000);
    T.DecimalDigits(a / 0x1_0000 % 256);
    T.DecimalDigits(a / 256 % 256);
    T.DecimalDigits(a % 256);
    Ipv4.AddressBound(a);
    FourParts(a);
  }

  lemma FourParts(a: nat)
    ensures a == a / 0x100_0000 * 0x100_0000 + a / 0x1_0000 % 256 * 0x1_0000 + a / 256 % 256 * 256 + a % 256
  {
    assert a / 0x1_0000 == a / 256 / 256 && a / 0x100_0000 == a / 256 / 256 / 256;
  }

  /** The text is a network's base address, a slash and its prefix length. */
  predicate ReadsAs(text: string, net: Ipv4.Network) {
    var parts := T.Split(text, T.SLASH);
    |parts| == 2 && Quad(parts[0], net.base) && Writes(parts[1], net.prefix)
  }

  /** The text stands for an address of a rule. */
  predicate PrintsAs(text: string, a: Address) {
    match a
    case Text(s) => text == s
    case Block(net) => ReadsAs(text, net)
  }

  lemma DottedSlashless(a: nat)
    ensures T.FreeOf(Dotted(a), T.SLASH)
  {
    var p, q := T.Decimal(a / 0x100_0000), T.Decimal(a / 0x1_0000 % 256);
    var r, s := T.Decimal(a / 256 % 256), T.Decimal(a % 256);
    T.DecimalDigits(a / 0x100_0000);
    T.DecimalDigits(a / 0x1_0000 % 256);
    T.DecimalDigits(a / 256 % 256);
    T.DecimalDigits(a % 256);
    T.FreeConcat(p + "." + q + "." + r + ".", s, T.SLASH);
    T.FreeConcat(p + "." + q + "." + r, ".", T.SLASH);
    T.FreeConcat(p + "." + q + ".", r, T.SLASH);
    T.FreeConcat(p + "." + q, ".", T.SLASH);
    T.FreeConcat(p + ".", q, T.SLASH);
    T.FreeConcat(p, ".", T.SLASH);
  }

  lemma AddressPrints(a: Address)
    ensures PrintsAs(PrintAddress(a), a)
  {
    if a.Block? {
      var net := a.net;
      T.DecimalDigits(net.prefix);
      T.ParseDecimal(net.prefix);
      DottedSlashless(net.base);
      assert T.FreeOf(T.Decimal(net.prefix), T.SLASH);
      T.SplitConcat(Dotted(net.base), '/', T.Decimal(net.prefix), T.SLASH);
      T.SplitFree(Dotted(net.base), T.SLASH);
      T.SplitFree(T.Decimal(net.prefix), T.SLASH);
      BaseIsAddress(net);
      DottedQuad(net.base);
    }
  }

  lemma BaseIsAddress(net: Ipv4.Network)
    ensures forall a: int :: net.base <= a < net.base + Ipv4.Size(net.prefix) ==> Ipv4.IsAddress(a)
    ensures Ipv4.IsAddress(net.base)
  {}

  /** The emitted texts are the given addresses, one by one. */
  predicate PrintedOneByOne(texts: seq<string>, items: seq<Address>) {
    |texts| == |items| && forall i :: 0 <= i < |items| ==> PrintsAs(texts[i], items[i])
  }

  lemma AllPrint(items: seq<Address>)
    ensures PrintedOneByOne(PrintAll(items), items)
  {
    forall i | 0 <= i < |items|
      ensures PrintsAs(PrintAddress(items[i]), items[i])
    {
      AddressPrints(items[i]);
    }
  }

  /** The one-character texts of a text. */
  predicate Characters(texts: seq<string>, text: string) {
    |texts| == |text| && forall i :: 0 <= i < |text| ==> texts[i] == [text[i]]
  }

  /** Some text of a list is the address. */
  ghost predicate ListsOne(texts: seq<string>, a: int) { exists i :: 0 <= i < |texts| && Quad(texts[i], a) }

  /** The texts of a list are exactly the addresses of a set. */
  ghost predicate Lists(texts: seq<string>, addresses: set<int>) {
    forall a :: ListsOne(texts, a) <==> a in addresses
  }

  /**
   Addresses given as a list are printed one by one.  A single network is emitted as the list of
   exactly its addresses.  A single text is emitted character by character, which is the
   configured address only for one-character texts such as `*`.
   */
  lemma EmittedAddresses(a: Addresses)
    requires Present(a)
    ensures PrintAddresses(a).Some?
    ensures match a
            case Absent => true
            case Listed(items) => PrintedOneByOne(PrintAddresses(a).value, items)
            case Single(Text(text)) =>
              && Characters(PrintAddresses(a).value, text)
              && (PrintAddresses(a) == Some([text]) <==> |text| == 1)
            case Single(Block(net)) =>
              |PrintAddresses(a).value| == |net.Addresses()| && Lists(PrintAddresses(a).value, net.Addresses())
  {
    match a
    case Absent =>
    case Listed(items) => AllPrint(items);
    case Single(Text(text)) =>
      if |text| == 1 {
        assert [text[0]] == text;
        assert PrintAddresses(a).value == [[text[0]]];
      }
    case Single(Block(net)) => NetworkListed(net);
  }

  lemma NetworkListed(net: Ipv4.Network)
    ensures |EachAddress(net)| == |net.Addresses()| && Lists(EachAddress(net), net.Addresses())
  {
    var texts := EachAddress(net);
    Ipv4.AddressCount(net);
    BaseIsAddress(net);
    forall a
      ensures ListsOne(texts, a) <==> a in net.Addresses()
    {
      RunListed(texts, net.base, a);
    }
  }

  lemma DottedIs(a: nat, b: int)
    requires Ipv4.IsAddress(a)
    ensures Quad(Dotted(a), b) <==> a == b
  {
    DottedQuad(a);
  }

  /** A run of printed addresses holds exactly the addresses of the run. */
  lemma RunListed(texts: seq<string>, base: nat, a: int)
    requires forall i :: 0 <= i < |texts| ==> texts[i] == Dotted(base + i)
    requires forall b: int :: base <= b < base + |texts| ==> Ipv4.IsAddress(b)
    ensures ListsOne(texts, a) <==> base <= a < base + |texts|
  {
    forall i | 0 <= i < |texts|
      ensures Quad(texts[i], a) <==> base + i == a
    {
      DottedIs(base + i, a);
    }
    if base <= a < base + |texts| {
      assert Quad(texts[a - base], a);
    }
  }

  // ---------------------------------------------------------------- what an emitted rule conveys

  /** An optional list is emitted as it is, an empty one as None. */
  predicate SameList(given: Option<seq<string>>, emitted: Option<seq<string>>) {
    emitted.GetOr([]) == given.GetOr([]) && emitted != Some([])
  }

  /** An address field is emitted one by one, an empty one as None. */
  ghost predicate SameAddresses(given: Addresses, emitted: Option<seq<string>>) {
    match given
    case Absent => emitted == None
    case Single(Text(text)) => if text == "" then emitted == None else emitted.Some? && Characters(emitted.value, text)
    case Single(Block(net)) => emitted.Some? && Lists(emitted.value, net.Addresses())
    case Listed(items) =>
      if items == [] then emitted == None else emitted.Some? && PrintedOneByOne(emitted.value, items)
  }

  /** An emitted rule says what the configured one says. */
  ghost predicate Conveys(rule: Rule, args: RuleArgs) {
    match rule
    case Network(b, ports) =>
      && args.NetworkArgs? && args.name == b.name && args.description == b.description
      && (AllAccepted(AsList(ports)) ==> SamePorts(AsList(ports), args.ports))
      && (if b.protocols == Some(Any) then args.protocols == ["ANY"]
          else b.protocols.GetOr(These([])) == These(args.protocols))
      && SameAddresses(b.sourceAddresses, args.sources) && SameList(b.sourceGroups, args.sourceGroups)
      && SameAddresses(b.destinationAddresses, args.destinations)
      && SameList(b.destinationGroups, args.destinationGroups) && SameList(b.destinationFqdns, args.fqdns)
    case Application(b) =>
      && args.ApplicationArgs? && args.name == b.name && args.description == b.description
      && args.endpoints == b.protocols
      && SameAddresses(b.sourceAddresses, args.sources) && SameList(b.sourceGroups, args.sourceGroups)
      && SameList(b.destinationFqdns, args.fqdns) && SameList(b.destinationUrls, args.urls)
      && SameList(b.destinationCategories, args.categories) && SameList(b.destinationTags, args.tags)
  }

  lemma AddressesConveyed(a: Addresses)
    ensures SameAddresses(a, PrintAddresses(a))
  {
    if Present(a) {
      EmittedAddresses(a);
    }
  }

  lemma ArgsConvey(rule: Rule)
    ensures Conveys(rule, ArgsOf(rule))
  {
    match rule
    case Network(b, ports) =>
      AddressesConveyed(b.sourceAddresses);
      AddressesConveyed(b.destinationAddresses);
      if AllAccepted(AsList(ports)) {
        EmittedPorts(AsList(ports));
      }
    case Application(b) =>
      AddressesConveyed(b.sourceAddresses);
  }

  // ---------------------------------------------------------------- emitted destinations

  function EmittedDestinations(r: RuleArgs): nat
    requires r.NetworkArgs?
  {
    Count(r.destinations.Some?) + Count(r.destinationGroups.Some?) + Count(r.fqdns.Some?)
  }

  /** A list of emitted addresses says what an address field says. */
  ghost predicate SaysAddresses(given: Addresses, emitted: Option<seq<string>>) {
    match given
    case Absent => emitted == None
    case Single(Text(text)) => emitted == Some([text])
    case Single(Block(net)) => emitted.Some? && Lists(emitted.value, net.Addresses())
    case Listed(items) => emitted.Some? && PrintedOneByOne(emitted.value, items)
  }

  /** The emitted fields say the configured destination; service tags belong among the addresses. */
  ghost predicate SaysDestination(b: NetworkBody, r: RuleArgs)
    requires r.NetworkArgs?
  {
    && (b.destinationAddresses != Absent ==> SaysAddresses(b.destinationAddresses, r.destinations))
    && (b.destinationTags.Some? ==> r.destinations == b.destinationTags)
    && (b.destinationGroups.Some? ==> r.destinationGroups == b.destinationGroups)
    && (b.destinationFqdns.Some? ==> r.fqdns == b.destinationFqdns)
  }

  /** A destination that survives: no tags, no empty list, no text longer or shorter than one character. */
  predicate Sayable(b: NetworkBody) {
    && b.destinationTags == None
    && b.destinationGroups != Some([]) && b.destinationFqdns != Some([])
    && match b.destinationAddresses
       case Absent => true
       case Single(Text(text)) => |text| == 1
       case Single(Block(_)) => true
       case Listed(items) => items != []
  }

  /**
   For an accepted rule, the emitted fields say its destination exactly when it is not given by
   service tags, by an empty list, or by a single text other than a one-character one such as `*`.
   At most one destination field is filled at all.
   */
  lemma DestinationEmitted(c: Checks, b: NetworkBody, ports: PortField)
    requires Acceptable(c, b, AsList(ports))
    ensures SaysDestination(b, ArgsOf(Network(b, ports))) <==> Sayable(b)
    ensures EmittedDestinations(ArgsOf(Network(b, ports))) <= 1
  {
    var a := b.destinationAddresses;
    if Present(a) {
      EmittedAddresses(a);
    }
  }

  /** A network given as one text is accepted, and emitted as ten addresses of one character each. */
  lemma TextDestinationLost(c: Checks, b: NetworkBody, ports: PortField)
    requires Acceptable(c, b, AsList(ports)) && b.destinationAddresses == Single(Text("10.0.0.0/8"))
    ensures !SaysDestination(b, ArgsOf(Network(b, ports)))
    ensures ArgsOf(Network(b, ports)).destinations.Some? && |ArgsOf(Network(b, ports)).destinations.value| == 10
  {}
}
