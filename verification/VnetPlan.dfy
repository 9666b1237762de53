/**
 The virtual network validator: which lists of address spaces and subnets it accepts, said in
 terms of sets of addresses, and how much room an accepted plan needs.
 */
module VnetPlan {
  import opened Wrappers
  import opened Counting
  import opened Ipv4

  /** A configured subnet; `details` stands for every field besides the name and the prefix. */
  datatype SubnetConfig<D> = SubnetConfig(name: string, addressPrefix: Network, details: D)

  datatype PlanError =
    | DuplicatePrefixes
    | DuplicateSpaces
    | NotWithinSpaces(subnet: nat)
    | OverlapsOther(subnet: nat)

  function Prefixes<D>(subnets: seq<SubnetConfig<D>>): seq<Network>
  {
    seq(|subnets|, i requires 0 <= i < |subnets| => subnets[i].addressPrefix)
  }

  // ---------------------------------------------------------------- what a legal plan is

  ghost predicate InsideOneSpace(n: Network, spaces: seq<Network>) {
    exists j :: 0 <= j < |spaces| && n.Addresses() <= spaces[j].Addresses()
  }

  ghost predicate ApartFromOthers(nets: seq<Network>, i: nat)
    requires i < |nets|
  {
    forall j :: 0 <= j < |nets| && j != i ==> nets[i].Addresses() !! nets[j].Addresses()
  }

  ghost predicate PairwiseDisjoint(nets: seq<Network>) {
    forall i, j :: 0 <= i < j < |nets| ==> nets[i].Addresses() !! nets[j].Addresses()
  }

  ghost predicate LegalPlan(spaces: seq<Network>, prefixes: seq<Network>) {
    && Distinct(spaces)
    && (forall i :: 0 <= i < |prefixes| ==> InsideOneSpace(prefixes[i], spaces))
    && PairwiseDisjoint(prefixes)
  }

  ghost predicate SubnetFine(spaces: seq<Network>, prefixes: seq<Network>, i: nat)
    requires i < |prefixes|
  {
    InsideOneSpace(prefixes[i], spaces) && ApartFromOthers(prefixes, i)
  }

  /** The first subnet at fault, when there is one. */
  ghost predicate FirstAtFault(spaces: seq<Network>, prefixes: seq<Network>, i: nat) {
    && i < |prefixes|
    && !SubnetFine(spaces, prefixes, i)
    && forall k :: 0 <= k < i ==> SubnetFine(spaces, prefixes, k)
  }

  // ---------------------------------------------------------------- the validator

  /**
   Accepts exactly the legal plans.  A rejection names the first failed check: the two
   uniqueness checks come first, then the subnets are examined in order, containment before
   overlap.
   */
  method ValidateSubnets<D(==)>(spaces: seq<Network>, subnets: seq<SubnetConfig<D>>)
    returns (r: Result<(), PlanError>)
    ensures r.Ok? <==> LegalPlan(spaces, Prefixes(subnets))
    ensures r == Err(DuplicatePrefixes) <==> !Distinct(Prefixes(subnets))
    ensures r == Err(DuplicateSpaces) <==> Distinct(Prefixes(subnets)) && !Distinct(spaces)
    ensures r.Err? && r.error.NotWithinSpaces? ==>
              && FirstAtFault(spaces, Prefixes(subnets), r.error.subnet)
              && !InsideOneSpace(Prefixes(subnets)[r.error.subnet], spaces)
    ensures r.Err? && r.error.OverlapsOther? ==>
              && FirstAtFault(spaces, Prefixes(subnets), r.error.subnet)
              && InsideOneSpace(Prefixes(subnets)[r.error.subnet], spaces)
  {
    ghost var prefixes := Prefixes(subnets);
    LegalNeeds(spaces, prefixes);
    var subnetAddressPrefixes := set s | s in subnets :: s.addressPrefix;
    assert |subnetAddressPrefixes| == |subnets| <==> Distinct(prefixes) by {
      PrefixSet(subnets);
      SetSize(prefixes);
    }
    if |subnetAddressPrefixes| != |subnets| {
      return Err(DuplicatePrefixes);
    }
    assert |Elements(spaces)| == |spaces| <==> Distinct(spaces) by {
      SetSize(spaces);
    }
    if |Elements(spaces)| != |spaces| {
      return Err(DuplicateSpaces);
    }
    for i := 0 to |subnets|
      invariant forall k :: 0 <= k < i ==> SubnetFine(spaces, prefixes, k)
    {
      var fault := CheckSubnet(spaces, subnets, i);
      if fault.Some? {
        return Err(fault.value);
      }
    }
    return Ok(());
  }

  /** The body of the validator's loop: containment first, then overlap with another subnet. */
  method CheckSubnet<D(==)>(spaces: seq<Network>, subnets: seq<SubnetConfig<D>>, i: nat)
    returns (fault: Option<PlanError>)
    requires i < |subnets| && Distinct(Prefixes(subnets))
    ensures fault == None <==> SubnetFine(spaces, Prefixes(subnets), i)
    ensures fault == Some(NotWithinSpaces(i)) <==> !InsideOneSpace(Prefixes(subnets)[i], spaces)
    ensures fault.Some? ==> fault.value == NotWithinSpaces(i) || fault.value == OverlapsOther(i)
  {
    var subnet := subnets[i];
    WithinTest(subnet.addressPrefix, spaces);
    OverlapTest(subnets, i);
    if !exists space :: space in spaces && subnet.addressPrefix.SubnetOf(space) {
      return Some(NotWithinSpaces(i));
    }
    if exists other :: other in subnets && other != subnet && subnet.addressPrefix.Overlaps(other.addressPrefix) {
      return Some(OverlapsOther(i));
    }
    return None;
  }

  /** A plan is legal exactly when both uniqueness checks pass and no subnet is at fault. */
  lemma LegalNeeds(spaces: seq<Network>, prefixes: seq<Network>)
    ensures LegalPlan(spaces, prefixes) <==>
              && Distinct(prefixes)
              && Distinct(spaces)
              && forall i :: 0 <= i < |prefixes| ==> SubnetFine(spaces, prefixes, i)
  {
    AllApart(prefixes);
    DisjointIsDistinct(prefixes);
    if forall i :: 0 <= i < |prefixes| ==> SubnetFine(spaces, prefixes, i) {
      forall i | 0 <= i < |prefixes|
        ensures InsideOneSpace(prefixes[i], spaces) && ApartFromOthers(prefixes, i)
      {
        assert SubnetFine(spaces, prefixes, i);
      }
    }
  }

  lemma PrefixSet<D>(subnets: seq<SubnetConfig<D>>)
    ensures (set s | s in subnets :: s.addressPrefix) == Elements(Prefixes(subnets))
  {
    forall i | 0 <= i < |subnets|
      ensures Prefixes(subnets)[i] in (set s | s in subnets :: s.addressPrefix)
    {
      assert subnets[i] in subnets;
    }
    forall s | s in subnets
      ensures s.addressPrefix in Elements(Prefixes(subnets))
    {
      var i :| 0 <= i < |subnets| && subnets[i] == s;
      assert Prefixes(subnets)[i] == s.addressPrefix;
    }
  }

  /** The `any(... subnet_of ...)` test is containment in one space. */
  lemma WithinTest(n: Network, spaces: seq<Network>)
    ensures (exists space :: space in spaces && n.SubnetOf(space)) <==> InsideOneSpace(n, spaces)
  {
    forall j | 0 <= j < |spaces|
      ensures n.SubnetOf(spaces[j]) <==> n.Addresses() <= spaces[j].Addresses()
    {
      SubnetMeaning(n, spaces[j]);
    }
  }

  /**
   Since the prefixes are distinct, leaving out the subnets that equal this one leaves out
   exactly this index, so the `any(... overlaps ...)` test looks at all the others.
   */
  lemma OverlapTest<D>(subnets: seq<SubnetConfig<D>>, i: nat)
    requires i < |subnets| && Distinct(Prefixes(subnets))
    ensures (exists other :: other in subnets && other != subnets[i]
                             && subnets[i].addressPrefix.Overlaps(other.addressPrefix))
            <==> !ApartFromOthers(Prefixes(subnets), i)
  {
    var prefixes := Prefixes(subnets);
    forall j | 0 <= j < |subnets|
      ensures prefixes[i].Overlaps(prefixes[j]) <==> !(prefixes[i].Addresses() !! prefixes[j].Addresses())
      ensures subnets[j] == subnets[i] <==> j == i
    {
      OverlapsMeaning(prefixes[i], prefixes[j]);
      assert subnets[j] == subnets[i] ==> prefixes[j] == prefixes[i];
    }
    if other :| other in subnets && other != subnets[i] && subnets[i].addressPrefix.Overlaps(other.addressPrefix) {
      var j :| 0 <= j < |subnets| && subnets[j] == other;
      assert prefixes[j] == other.addressPrefix;
    }
    if !ApartFromOthers(prefixes, i) {
      var j :| 0 <= j < |subnets| && j != i && !(prefixes[i].Addresses() !! prefixes[j].Addresses());
      assert subnets[j] in subnets;
    }
  }

  lemma AllApart(nets: seq<Network>)
    ensures PairwiseDisjoint(nets) <==> forall i :: 0 <= i < |nets| ==> ApartFromOthers(nets, i)
  {
    if forall i :: 0 <= i < |nets| ==> ApartFromOthers(nets, i) {
      forall i, j | 0 <= i < j < |nets|
        ensures nets[i].Addresses() !! nets[j].Addresses()
      {
        assert ApartFromOthers(nets, i);
      }
    }
  }

  lemma DisjointIsDistinct(nets: seq<Network>)
    ensures PairwiseDisjoint(nets) ==> Distinct(nets)
    ensures PairwiseDisjoint(nets) ==> forall i :: 0 <= i < |nets| ==> ApartFromOthers(nets, i)
  {
    AllApart(nets);
    if PairwiseDisjoint(nets) {
      forall i, j | 0 <= i < j < |nets|
        ensures nets[i] != nets[j]
      {
        assert nets[i].base in nets[i].Addresses();
      }
    }
  }

  // ---------------------------------------------------------------- capacity

  ghost function Union(nets: seq<Network>): set<int> {
    if nets == [] then {} else nets[0].Addresses() + Union(nets[1..])
  }

  function TotalSize(nets: seq<Network>): nat {
    if nets == [] then 0 else Size(nets[0].prefix) + TotalSize(nets[1..])
  }

  lemma {:induction false} InUnion(nets: seq<Network>, x: int)
    ensures x in Union(nets) <==> exists i :: 0 <= i < |nets| && x in nets[i].Addresses()
  {
    if nets != [] {
      InUnion(nets[1..], x);
      if x in nets[0].Addresses() {
      } else if x in Union(nets[1..]) {
        var i :| 0 <= i < |nets[1..]| && x in nets[1..][i].Addresses();
        assert x in nets[i + 1].Addresses();
      }
      if i :| 0 <= i < |nets| && x in nets[i].Addresses() {
        assert i > 0 ==> nets[1..][i - 1] == nets[i];
      }
    }
  }

  /** The union has at most the summed size, and exactly that when no two networks overlap. */
  lemma {:induction false} UnionSize(nets: seq<Network>)
    ensures |Union(nets)| <= TotalSize(nets)
    ensures |Union(nets)| == TotalSize(nets) <==> PairwiseDisjoint(nets)
  {
    if nets != [] {
      var first, rest := nets[0].Addresses(), Union(nets[1..]);
      UnionSize(nets[1..]);
      AddressCount(nets[0]);
      assert |first + rest| == |first| + |rest| - |first * rest|;
      assert first !! rest <==> forall j :: 1 <= j < |nets| ==> nets[0].Addresses() !! nets[j].Addresses() by {
        HeadApart(nets);
      }
      assert PairwiseDisjoint(nets) <==> first !! rest && PairwiseDisjoint(nets[1..]) by {
        assert forall j :: 1 <= j < |nets| ==> nets[j] == nets[1..][j - 1];
      }
    }
  }

  lemma HeadApart(nets: seq<Network>)
    requires nets != []
    ensures nets[0].Addresses() !! Union(nets[1..])
            <==> forall j :: 1 <= j < |nets| ==> nets[0].Addresses() !! nets[j].Addresses()
  {
    forall x
      ensures x in Union(nets[1..]) <==> exists j :: 1 <= j < |nets| && x in nets[j].Addresses()
    {
      InUnion(nets[1..], x);
      if i :| 0 <= i < |nets[1..]| && x in nets[1..][i].Addresses() {
        assert x in nets[i + 1].Addresses();
      }
      if j :| 1 <= j < |nets| && x in nets[j].Addresses() {
        assert nets[1..][j - 1] == nets[j];
      }
    }
  }

  /**
   Capacity of an accepted plan: the subnets together take no more addresses than the address
   spaces really hold, which is their summed size exactly when the spaces do not overlap (the
   validator lets distinct spaces overlap).
   */
  lemma Capacity(spaces: seq<Network>, prefixes: seq<Network>)
    requires LegalPlan(spaces, prefixes)
    ensures TotalSize(prefixes) == |Union(prefixes)| <= |Union(spaces)| <= TotalSize(spaces)
    ensures |Union(spaces)| == TotalSize(spaces) <==> PairwiseDisjoint(spaces)
  {
    UnionSize(prefixes);
    UnionSize(spaces);
    forall x | x in Union(prefixes)
      ensures x in Union(spaces)
    {
      InUnion(prefixes, x);
      var i :| 0 <= i < |prefixes| && x in prefixes[i].Addresses();
      assert InsideOneSpace(prefixes[i], spaces);
      InUnion(spaces, x);
    }
    SubsetSize(Union(prefixes), Union(spaces));
  }
}
