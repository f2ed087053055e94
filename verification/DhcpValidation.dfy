// pkg/ironic/validation.go: which DHCP configurations are accepted.
module DhcpValidation {
  import opened Options
  import opened Numbers
  import opened Netip

  datatype DHCPRange = DHCPRange(networkCIDR: string, rangeBegin: string, rangeEnd: string, gatewayAddress: string)

  // The main range has the fields of a DHCPRange; extra ranges follow it.
  datatype DHCP = DHCP(main: DHCPRange, dnsAddress: string, serveDNS: bool, extraRanges: seq<DHCPRange>)

  datatype Networking = Networking(ipAddress: string, interfaceName: string, macAddresses: seq<string>)

  /* ---- Single checks ---- */

  predicate ValidIP(ip: string, net: Reader) {
    ip == "" || net.addr(ip).Some?
  }

  predicate ValidIPInPrefix(ip: string, prefix: Network, net: Reader) {
    ip == "" || (net.addr(ip).Some? && prefix.Contains(net.addr(ip).value))
  }

  predicate ValidRangeOrder(begin: string, end: string, net: Reader) {
    net.addr(begin).Some? && net.addr(end).Some? ==> net.addr(begin).value.Compare(net.addr(end).value) <= 0
  }

  datatype RangeProblem =
    | NoCIDR | BadCIDR | ZeroBits | NoBeginOrEnd | BadBegin | BadEnd | BadOrder | V6Gateway | BadGateway

  function ValidateDHCPRange(r: DHCPRange, net: Reader): Option<RangeProblem> {
    if r.networkCIDR == "" then Some(NoCIDR)
    else
      match net.prefix(r.networkCIDR)
      case None => Some(BadCIDR)
      case Some(cidr) =>
        if cidr.bits == 0 then Some(ZeroBits)
        else if r.rangeBegin == "" || r.rangeEnd == "" then Some(NoBeginOrEnd)
        else if !ValidIPInPrefix(r.rangeBegin, cidr, net) then Some(BadBegin)
        else if !ValidIPInPrefix(r.rangeEnd, cidr, net) then Some(BadEnd)
        else if !ValidRangeOrder(r.rangeBegin, r.rangeEnd, net) then Some(BadOrder)
        else if r.gatewayAddress == "" then None
        else if cidr.family.V6? then Some(V6Gateway)
        else if !ValidIPInPrefix(r.gatewayAddress, cidr, net) then Some(BadGateway)
        else None
  }

  /* ---- What a configuration has to be ---- */

  // A range that makes sense: begin and end are addresses of the network.
  ghost predicate Served(r: DHCPRange, net: Reader) {
    && net.prefix(r.networkCIDR).Some? && net.addr(r.rangeBegin).Some? && net.addr(r.rangeEnd).Some?
    && var (cidr, begin, end) := (net.prefix(r.networkCIDR).value, net.addr(r.rangeBegin).value,
                                  net.addr(r.rangeEnd).value);
       cidr.Contains(begin) && cidr.Contains(end) && begin.value <= end.value
  }

  // The addresses handed out to clients of the range.
  ghost predicate Serves(r: DHCPRange, a: Address, net: Reader) {
    && net.addr(r.rangeBegin).Some? && net.addr(r.rangeEnd).Some?
    && var begin, end := net.addr(r.rangeBegin).value, net.addr(r.rangeEnd).value;
       a.family == begin.family && a.zone == "" && begin.value <= a.value <= end.value
  }

  ghost predicate ExtraAcceptable(r: DHCPRange, net: Reader) {
    && Served(r, net)
    && var cidr := net.prefix(r.networkCIDR).value;
    && cidr.bits > 0
    && (r.gatewayAddress != "" ==>
          cidr.family.V4? && net.addr(r.gatewayAddress).Some? && cidr.Contains(net.addr(r.gatewayAddress).value))
  }

  predicate HasMain(dhcp: DHCP) {
    dhcp.main.networkCIDR != "" && dhcp.main.rangeBegin != "" && dhcp.main.rangeEnd != ""
  }

  // All ranges that are configured, the main one first.
  function Ranges(dhcp: DHCP): seq<DHCPRange> {
    (if HasMain(dhcp) then [dhcp.main] else []) + dhcp.extraRanges
  }

  ghost predicate Apart(r: DHCPRange, q: DHCPRange, net: Reader) {
    forall a: Address :: !(Serves(r, a, net) && Serves(q, a, net))
  }

  // Everything but the comparison of the ranges with each other.
  ghost predicate EachAcceptable(dhcp: DHCP, networking: Networking, net: Reader) {
    && (networking.ipAddress != "" || networking.interfaceName != "" || |networking.macAddresses| > 0)
    && !(dhcp.serveDNS && dhcp.dnsAddress != "")
    && (dhcp.dnsAddress != "" ==> net.addr(dhcp.dnsAddress).Some?)
    && (dhcp.main.gatewayAddress != "" ==> net.addr(dhcp.main.gatewayAddress).Some?)
    && (HasMain(dhcp) || (dhcp.main.networkCIDR == dhcp.main.rangeBegin == dhcp.main.rangeEnd == ""))
    && |Ranges(dhcp)| > 0
    && (HasMain(dhcp) ==>
          && Served(dhcp.main, net)
          && (networking.ipAddress != "" ==>
                && net.addr(networking.ipAddress).Some?
                && net.prefix(dhcp.main.networkCIDR).value.Contains(net.addr(networking.ipAddress).value)))
    && (forall r | r in dhcp.extraRanges :: ExtraAcceptable(r, net))
  }

  ghost predicate Acceptable(dhcp: DHCP, networking: Networking, net: Reader) {
    && EachAcceptable(dhcp, networking, net)
    && forall i, j | 0 <= i < j < |Ranges(dhcp)| :: Apart(Ranges(dhcp)[i], Ranges(dhcp)[j], net)
  }

  lemma ExtraRangeCheckIsExact(r: DHCPRange, net: Reader)
    requires net.Lawful()
    ensures ValidateDHCPRange(r, net).None? <==> ExtraAcceptable(r, net)
  {
    hide Pow2, Addr.Valid, Prefix.Size;
  }

  /* ---- Overlapping pools ---- */

  datatype Pool = Pool(begin: Address, end: Address)

  predicate Overlap(p: Pool, q: Pool) {
    p.begin.Compare(q.end) <= 0 && q.begin.Compare(p.end) <= 0
  }

  // Ranges that cannot be read are passed over.
  function AddPool(pools: seq<Pool>, r: DHCPRange, net: Reader): seq<Pool> {
    if net.addr(r.rangeBegin).None? || net.addr(r.rangeEnd).None? then pools
    else pools + [Pool(net.addr(r.rangeBegin).value, net.addr(r.rangeEnd).value)]
  }

  function Pools(dhcp: DHCP, n: nat, net: Reader): seq<Pool>
    requires n <= |dhcp.extraRanges|
  {
    if n == 0 then AddPool([], dhcp.main, net)
    else AddPool(Pools(dhcp, n - 1, net), dhcp.extraRanges[n - 1], net)
  }

  function AllPools(dhcp: DHCP, net: Reader): seq<Pool> {
    Pools(dhcp, |dhcp.extraRanges|, net)
  }

  // The positions of two pools that overlap, if there are any.
  method ValidateNoPoolOverlap(dhcp: DHCP, net: Reader) returns (clash: Option<(nat, nat)>)
    ensures clash.None? <==> forall i, j | 0 <= j < i < |AllPools(dhcp, net)| ::
      !Overlap(AllPools(dhcp, net)[i], AllPools(dhcp, net)[j])
    ensures clash.Some? ==>
      && clash.value.0 < clash.value.1 < |AllPools(dhcp, net)|
      && Overlap(AllPools(dhcp, net)[clash.value.1], AllPools(dhcp, net)[clash.value.0])
  {
    var pools := AddPool([], dhcp.main, net);
    for i := 0 to |dhcp.extraRanges|
      invariant pools == Pools(dhcp, i, net)
    {
      pools := AddPool(pools, dhcp.extraRanges[i], net);
    }
    assert pools == AllPools(dhcp, net);
    var i := 1;
    while i < |pools|
      invariant 1 <= i
      invariant forall k, j | 0 <= j < k < i && k < |pools| :: !Overlap(pools[k], pools[j])
    {
      for j := 0 to i
        invariant forall l | 0 <= l < j :: !Overlap(pools[i], pools[l])
      {
        if Overlap(pools[i], pools[j]) {
          return Some((j, i));
        }
      }
      i := i + 1;
    }
    return None;
  }

  function PoolOf(r: DHCPRange, net: Reader): Pool
    requires net.addr(r.rangeBegin).Some? && net.addr(r.rangeEnd).Some?
  {
    Pool(net.addr(r.rangeBegin).value, net.addr(r.rangeEnd).value)
  }

  // For ranges that are valid on their own, overlapping pools are exactly
  // those that have an address in common.
  lemma OverlapMeansShared(r: DHCPRange, q: DHCPRange, net: Reader)
    requires Served(r, net) && Served(q, net)
    ensures Overlap(PoolOf(r, net), PoolOf(q, net)) <==> !Apart(r, q, net)
    ensures Overlap(PoolOf(r, net), PoolOf(q, net)) == Overlap(PoolOf(q, net), PoolOf(r, net))
  {
    hide Pow2, Prefix.Size;
    var p, o := PoolOf(r, net), PoolOf(q, net);
    if Overlap(p, o) {
      var a := if p.begin.value < o.begin.value then o.begin else p.begin;
      assert Serves(r, a, net) && Serves(q, a, net);
    }
  }

  lemma {:induction false} PoolsAreTheRanges(dhcp: DHCP, n: nat, net: Reader)
    requires n <= |dhcp.extraRanges| && net.Lawful()
    requires HasMain(dhcp) ==> Served(dhcp.main, net)
    requires !HasMain(dhcp) ==> dhcp.main.rangeBegin == ""
    requires forall r | r in dhcp.extraRanges :: Served(r, net)
    ensures var pools, ranges := Pools(dhcp, n, net), Ranges(dhcp);
      && |pools| == |ranges| - (|dhcp.extraRanges| - n)
      && forall k | 0 <= k < |pools| :: Served(ranges[k], net) && pools[k] == PoolOf(ranges[k], net)
  {
    if n > 0 {
      PoolsAreTheRanges(dhcp, n - 1, net);
      assert Served(dhcp.extraRanges[n - 1], net);
      assert Ranges(dhcp)[|Pools(dhcp, n - 1, net)|] == dhcp.extraRanges[n - 1];
    }
  }

  // Hence the whole check is exact for ranges that are valid on their own.
  lemma OverlapCheckIsExact(dhcp: DHCP, networking: Networking, net: Reader)
    requires net.Lawful() && EachAcceptable(dhcp, networking, net)
    ensures Acceptable(dhcp, networking, net) <==>
      forall i, j | 0 <= j < i < |AllPools(dhcp, net)| :: !Overlap(AllPools(dhcp, net)[i], AllPools(dhcp, net)[j])
  {
    var pools, ranges := AllPools(dhcp, net), Ranges(dhcp);
    PoolsAreTheRanges(dhcp, |dhcp.extraRanges|, net);
    forall i, j | 0 <= j < i < |pools|
      ensures Overlap(pools[i], pools[j]) <==> !Apart(ranges[j], ranges[i], net)
    {
      OverlapMeansShared(ranges[i], ranges[j], net);
    }
  }

  /* ---- The whole check ---- */

  datatype Problem =
    | NoNetworking | DNSTwice | BadDNS | BadMainGateway | Incomplete | NoRanges
    | MainProblem(problem: RangeProblem) | ProvisioningIPOutside
    | ExtraProblem(index: nat, problem: RangeProblem) | PoolsOverlap(first: nat, second: nat)

  method ValidateDHCP(dhcp: DHCP, networking: Networking, net: Reader) returns (problem: Option<Problem>)
    requires net.Lawful()
    ensures problem.None? <==> Acceptable(dhcp, networking, net)
    ensures problem.Some? && problem.value.PoolsOverlap? ==>
      EachAcceptable(dhcp, networking, net) && problem.value.first < problem.value.second < |Ranges(dhcp)|
      && !Apart(Ranges(dhcp)[problem.value.first], Ranges(dhcp)[problem.value.second], net)
    ensures problem.Some? && problem.value.ExtraProblem? ==>
      problem.value.index < |dhcp.extraRanges|
      && ValidateDHCPRange(dhcp.extraRanges[problem.value.index], net) == Some(problem.value.problem)
  {
    hide Pow2, Prefix.Size, Apart;
    var hasNetworking := networking.ipAddress != "" || networking.interfaceName != "" || |networking.macAddresses| > 0;
    if !hasNetworking {
      return Some(NoNetworking);
    }
    if dhcp.serveDNS && dhcp.dnsAddress != "" {
      return Some(DNSTwice);
    }
    if !ValidIP(dhcp.dnsAddress, net) {
      return Some(BadDNS);
    }
    if !ValidIP(dhcp.main.gatewayAddress, net) {
      return Some(BadMainGateway);
    }
    var mainFieldsSet := 0;
    var fields := [dhcp.main.networkCIDR, dhcp.main.rangeBegin, dhcp.main.rangeEnd];
    for i := 0 to 3
      invariant mainFieldsSet == FieldsSet(fields[..i])
    {
      if fields[i] != "" {
        mainFieldsSet := mainFieldsSet + 1;
      }
      assert fields[..i + 1] == fields[..i] + [fields[i]];
    }
    FieldsSetOfThree(fields);
    assert fields[..3] == fields;
    var hasMainRange := mainFieldsSet == 3;
    if mainFieldsSet != 0 && !hasMainRange {
      return Some(Incomplete);
    }
    if !hasMainRange && |dhcp.extraRanges| == 0 {
      return Some(NoRanges);
    }
    if hasMainRange {
      var problem := ValidateMain(dhcp.main, networking, net);
      if problem.Some? {
        return problem;
      }
    }
    for i := 0 to |dhcp.extraRanges|
      invariant forall k | 0 <= k < i :: ExtraAcceptable(dhcp.extraRanges[k], net)
    {
      ExtraRangeCheckIsExact(dhcp.extraRanges[i], net);
      var problem := ValidateDHCPRange(dhcp.extraRanges[i], net);
      if problem.Some? {
        return Some(ExtraProblem(i, problem.value));
      }
    }
    assert EachAcceptable(dhcp, networking, net);
    OverlapCheckIsExact(dhcp, networking, net);
    var clash := ValidateNoPoolOverlap(dhcp, net);
    if clash.Some? {
      PoolsAreTheRanges(dhcp, |dhcp.extraRanges|, net);
      OverlapMeansShared(Ranges(dhcp)[clash.value.1], Ranges(dhcp)[clash.value.0], net);
      ApartSymmetric(Ranges(dhcp)[clash.value.1], Ranges(dhcp)[clash.value.0], net);
      return Some(PoolsOverlap(clash.value.0, clash.value.1));
    }
    return None;
  }

  function FieldsSet(fields: seq<string>): nat {
    if |fields| == 0 then 0
    else FieldsSet(fields[..|fields| - 1]) + if fields[|fields| - 1] != "" then 1 else 0
  }

  lemma FieldsSetOfThree(fields: seq<string>)
    requires |fields| == 3
    ensures FieldsSet(fields) == 3 <==> fields[0] != "" && fields[1] != "" && fields[2] != ""
    ensures FieldsSet(fields) == 0 <==> fields[0] == fields[1] == fields[2] == ""
  {
    assert fields[..2][..1] == [fields[0]];
    assert FieldsSet([fields[0]]) == if fields[0] != "" then 1 else 0;
    assert FieldsSet(fields[..2]) == FieldsSet([fields[0]]) + if fields[1] != "" then 1 else 0;
  }

  lemma ApartSymmetric(r: DHCPRange, q: DHCPRange, net: Reader)
    ensures Apart(r, q, net) == Apart(q, r, net)
  {
  }

  // The checks of the main range: unlike extra ranges, it may have a prefix
  // of no bits, and it has to contain the provisioning address.
  function ValidateMain(r: DHCPRange, networking: Networking, net: Reader): Option<Problem> {
    match net.prefix(r.networkCIDR)
    case None => Some(MainProblem(BadCIDR))
    case Some(cidr) =>
      if !ValidIPInPrefix(r.rangeBegin, cidr, net) then Some(MainProblem(BadBegin))
      else if !ValidIPInPrefix(r.rangeEnd, cidr, net) then Some(MainProblem(BadEnd))
      else if !ValidRangeOrder(r.rangeBegin, r.rangeEnd, net) then Some(MainProblem(BadOrder))
      else if networking.ipAddress == "" then None
      else if net.addr(networking.ipAddress).None? || !cidr.Contains(net.addr(networking.ipAddress).value) then
        Some(ProvisioningIPOutside)
      else None
  }

  // What acceptance means for clients: no address can be leased twice, and
  // every address between begin and end is on the network of its range.
  lemma AcceptedPoolsAreSound(dhcp: DHCP, networking: Networking, net: Reader, i: nat, a: Address)
    requires net.Lawful() && Acceptable(dhcp, networking, net) && i < |Ranges(dhcp)|
    requires Served(Ranges(dhcp)[i], net) && Serves(Ranges(dhcp)[i], a, net)
    ensures net.prefix(Ranges(dhcp)[i].networkCIDR).value.Contains(a)
    ensures forall j | 0 <= j < |Ranges(dhcp)| && j != i ::
      Served(Ranges(dhcp)[j], net) && !Serves(Ranges(dhcp)[j], a, net)
  {
    var r := Ranges(dhcp)[i];
    ContainsInterval(net.prefix(r.networkCIDR).value, net.addr(r.rangeBegin).value, net.addr(r.rangeEnd).value, a);
    PoolsAreTheRanges(dhcp, |dhcp.extraRanges|, net);
    forall j | 0 <= j < |Ranges(dhcp)| && j != i ensures !Serves(Ranges(dhcp)[j], a, net) {
      assert if i < j then Apart(r, Ranges(dhcp)[j], net) else Apart(Ranges(dhcp)[j], r, net);
    }
  }
}
