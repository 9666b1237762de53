/** Port texts of firewall rules: what `is_port` accepts and which ports an accepted text names. */
module Ports {
  import opened Text

  datatype Port = Number(n: int) | Label(s: string)

  /** `*`, or the ports from `lo` to `hi`, both included. */
  datatype PortSet = AllPorts | Span(lo: int, hi: int)

  const LAST_PORT := 65535
  const DASH: set<char> := {'-'}

  /** `str.isdigit`. */
  predicate IsDigits(s: string) { s != "" && AllDigits(s) }

  predicate InRange(a: int, b: int) { 1 <= a <= b <= LAST_PORT }

  /** `is_port`; false where it raises. */
  predicate IsPort(port: Port) {
    match port
    case Number(n) => 1 <= n <= LAST_PORT
    case Label(s) =>
      if s == "*" then true
      else if '-' in s then
        var parts := Split(s, DASH);
        && |parts| == 2 && IsDigits(parts[0]) && IsDigits(parts[1])
        && !(ParseNat(parts[0]) < 1 || ParseNat(parts[1]) > LAST_PORT || ParseNat(parts[0]) > ParseNat(parts[1]))
      else IsDigits(s) && !(ParseNat(s) < 1 || ParseNat(s) > LAST_PORT)
  }

  /** The ports a port number or text names: the grammar, apart from how it is checked. */
  ghost predicate Names(port: Port, ports: PortSet) {
    match port
    case Number(n) => ports == Span(n, n) && InRange(n, n)
    case Label(s) =>
      || (s == "*" && ports == AllPorts)
      || (IsDigits(s) && ports == Span(ParseNat(s), ParseNat(s)) && InRange(ports.lo, ports.hi))
      || exists a, b :: IsDigits(a) && IsDigits(b) && s == a + "-" + b
                        && ports == Span(ParseNat(a), ParseNat(b)) && InRange(ports.lo, ports.hi)
  }

  lemma DigitsDashless(s: string)
    ensures AllDigits(s) ==> FreeOf(s, DASH)
  {}

  lemma SplitRange(a: string, b: string)
    requires AllDigits(a) && AllDigits(b)
    ensures Split(a + "-" + b, DASH) == [a, b] && '-' in a + "-" + b
  {
    DigitsDashless(a);
    DigitsDashless(b);
    SplitConcat(a, '-', b, DASH);
    SplitFree(a, DASH);
    SplitFree(b, DASH);
    assert (a + "-" + b)[|a|] == '-';
  }

  /** Two dash-separated pieces are put together again by a dash. */
  lemma TwoPieces(s: string)
    requires |Split(s, DASH)| == 2
    ensures s == Split(s, DASH)[0] + "-" + Split(s, DASH)[1]
  {
    var p := Split(s, DASH);
    JoinSplit(s, '-');
    JoinCons(p[0], [p[1]], "-");
    assert p == [p[0]] + [p[1]];
  }

  /** `is_port` accepts exactly what names some ports. */
  lemma IsPortMeaning(port: Port)
    ensures IsPort(port) <==> exists ports :: Names(port, ports)
  {
    match port
    case Number(n) =>
      assert IsPort(port) ==> Names(port, Span(n, n));
    case Label(s) =>
      if s == "*" {
        assert Names(port, AllPorts);
      } else if '-' in s {
        var p := Split(s, DASH);
        if IsPort(port) {
          TwoPieces(s);
          assert Names(port, Span(ParseNat(p[0]), ParseNat(p[1])));
        }
        if ports :| Names(port, ports) {
          assert !IsDigits(s);
          var a, b :| IsDigits(a) && IsDigits(b) && s == a + "-" + b
                      && ports == Span(ParseNat(a), ParseNat(b)) && InRange(ports.lo, ports.hi);
          SplitRange(a, b);
        }
      } else {
        assert IsPort(port) ==> Names(port, Span(ParseNat(s), ParseNat(s)));
        if ports :| Names(port, ports) {
          NoRangeWithoutDash(s);
        }
      }
  }

  lemma NoRangeWithoutDash(s: string)
    ensures '-' !in s ==> !exists a, b :: IsDigits(a) && IsDigits(b) && s == a + "-" + b
  {}

  /** A text names at most one set of ports. */
  lemma NamesOne(port: Port, p: PortSet, q: PortSet)
    requires Names(port, p) && Names(port, q)
    ensures p == q
  {
    if port.Label? {
      var s := port.s;
      if '-' in s {
        assert s != "*" && !IsDigits(s);
        var a, b :| IsDigits(a) && IsDigits(b) && s == a + "-" + b && p == Span(ParseNat(a), ParseNat(b));
        var c, d :| IsDigits(c) && IsDigits(d) && s == c + "-" + d && q == Span(ParseNat(c), ParseNat(d));
        SplitRange(a, b);
        SplitRange(c, d);
        assert [a, b] == [c, d];
        assert [a, b][0] == a && [a, b][1] == b;
      } else {
        NoRangeWithoutDash(s);
      }
    }
  }

  /** `str(port)`, for the ports that are accepted. */
  function Printed(port: Port): string {
    match port
    case Number(n) => if n >= 0 then Decimal(n) else "-" + Decimal(-n)
    case Label(s) => s
  }

  /** Printing an accepted port gives a text that is accepted and names the same ports. */
  lemma PrintedNamesSame(port: Port, ports: PortSet)
    requires Names(port, ports)
    ensures Names(Label(Printed(port)), ports) && IsPort(Label(Printed(port)))
  {
    if port.Number? {
      DecimalDigits(port.n);
      ParseDecimal(port.n);
    }
    IsPortMeaning(Label(Printed(port)));
  }

  /** Exactly all ports and the ranges within 1..65535 can be named. */
  lemma Nameable(ports: PortSet)
    ensures (exists port :: Names(port, ports)) <==> ports == AllPorts || 1 <= ports.lo <= ports.hi <= 65535
  {
    if ports == AllPorts {
      assert Names(Label("*"), ports);
    } else if InRange(ports.lo, ports.hi) {
      DecimalDigits(ports.lo);
      DecimalDigits(ports.hi);
      ParseDecimal(ports.lo);
      ParseDecimal(ports.hi);
      assert Names(Label(Decimal(ports.lo) + "-" + Decimal(ports.hi)), ports);
    }
  }
}
