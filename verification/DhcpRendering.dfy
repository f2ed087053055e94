// pkg/ironic/containers.go: the DHCP configuration as text for dnsmasq, and
// what dnsmasq makes of it.
module DhcpRendering {
  import opened Options
  import opened Text
  import opened Numbers
  import opened Netip
  import opened DhcpValidation

  function RangeTag(idx: nat): string {
    "range_" + Itoa(idx + 1)
  }

  /* ---- DHCP_RANGE ---- */

  // One dhcp-range directive; an extra range sets a tag on its clients.
  datatype Entry = Entry(tag: Option<string>, begin: string, end: string, prefix: Network) {
    function Render(): string {
      (if tag.Some? then "set:" + tag.value + "," else "") + begin + "," + end + "," + PrefixToNetmask(prefix)
    }
  }

  function Rendered(entries: seq<Entry>): (parts: seq<string>)
    ensures |parts| == |entries|
    ensures forall k | 0 <= k < |parts| :: parts[k] == entries[k].Render()
  {
    seq(|entries|, k requires 0 <= k < |entries| => entries[k].Render())
  }

  // The directives for the main range and the first n extra ranges; ranges
  // whose network cannot be read are left out.
  function Entries(dhcp: DHCP, n: nat, net: Reader): seq<Entry>
    requires n <= |dhcp.extraRanges|
  {
    if n == 0 then
      var prefix := net.prefix(dhcp.main.networkCIDR);
      if HasMain(dhcp) && prefix.Some? then
        [Entry(None, dhcp.main.rangeBegin, dhcp.main.rangeEnd, prefix.value)]
      else []
    else
      var r := dhcp.extraRanges[n - 1];
      match net.prefix(r.networkCIDR)
      case None => Entries(dhcp, n - 1, net)
      case Some(prefix) => Entries(dhcp, n - 1, net) + [Entry(Some(RangeTag(n - 1)), r.rangeBegin, r.rangeEnd, prefix)]
  }

  function DHCPRangeText(dhcp: DHCP, net: Reader): string {
    Join(Rendered(Entries(dhcp, |dhcp.extraRanges|, net)), ';')
  }

  method BuildDHCPRange(dhcp: DHCP, net: Reader) returns (text: string)
    ensures text == DHCPRangeText(dhcp, net)
  {
    hide PrefixToNetmask, RangeTag, Join;
    var parts: seq<string> := [];
    if HasMain(dhcp) {
      var prefix := net.prefix(dhcp.main.networkCIDR);
      if prefix.Some? {
        parts := parts + [dhcp.main.rangeBegin + "," + dhcp.main.rangeEnd + "," + PrefixToNetmask(prefix.value)];
        assert parts[0] == Entries(dhcp, 0, net)[0].Render();
      }
    }
    assert parts == Rendered(Entries(dhcp, 0, net));
    for i := 0 to |dhcp.extraRanges|
      invariant parts == Rendered(Entries(dhcp, i, net))
    {
      var r := dhcp.extraRanges[i];
      var prefix := net.prefix(r.networkCIDR);
      if prefix.None? {
        continue;
      }
      var part := "set:" + RangeTag(i) + "," + r.rangeBegin + "," + r.rangeEnd + "," + PrefixToNetmask(prefix.value);
      RenderTagged(RangeTag(i), r.rangeBegin, r.rangeEnd, prefix.value);
      parts := parts + [part];
    }
    return Join(parts, ';');
  }

  lemma RenderTagged(tag: string, begin: string, end: string, prefix: Network)
    ensures Entry(Some(tag), begin, end, prefix).Render()
         == "set:" + tag + "," + begin + "," + end + "," + PrefixToNetmask(prefix)
  {
  }

  /* ---- Reading DHCP_RANGE ---- */

  // What dnsmasq learns from a directive.
  datatype Directive = Directive(tag: Option<string>, begin: string, end: string, v4: bool, bits: nat)

  function ReadFields(fields: seq<string>, tag: Option<string>): Option<Directive>
    requires |fields| == 3
  {
    var bits :- ReadNetmask(fields[2]);
    Some(Directive(tag, fields[0], fields[1], '.' in fields[2], bits))
  }

  function ReadEntry(part: string): Option<Directive> {
    var fields := Split(part, ',');
    if |fields| == 3 then ReadFields(fields, None)
    else if |fields| == 4 && "set:" <= fields[0] then ReadFields(fields[1..], Some(fields[0][4..]))
    else None
  }

  // What was configured for the range at position k.
  function Configured(dhcp: DHCP, k: nat, net: Reader): Directive
    requires k < |Ranges(dhcp)| && net.prefix(Ranges(dhcp)[k].networkCIDR).Some?
  {
    var r := Ranges(dhcp)[k];
    var prefix := net.prefix(r.networkCIDR).value;
    var mains := |Ranges(dhcp)| - |dhcp.extraRanges|;
    Directive(if k < mains then None else Some(RangeTag(k - mains)), r.rangeBegin, r.rangeEnd, prefix.family.V4?,
              prefix.bits)
  }

  predicate Separable(text: string) {
    ',' !in text && ';' !in text
  }

  lemma AddressIsSeparable(text: string, net: Reader)
    requires net.Lawful() && net.addr(text).Some? && net.addr(text).value.zone == ""
    ensures Separable(text)
  {
  }

  lemma NetmaskIsSeparable(prefix: Network)
    ensures Separable(PrefixToNetmask(prefix))
  {
    hide Netmask, Octet, Digits, Pow2;
  }

  lemma JoinThree(a: string, b: string, c: string, sep: char)
    ensures Join([a, b, c], sep) == a + [sep] + b + [sep] + c
  {
    assert [a, b, c][1..] == [b, c];
    JoinTwo(b, c, sep);
    assert a + [sep] + (b + [sep] + c) == a + [sep] + b + [sep] + c;
  }

  lemma EntryRoundTrip(e: Entry)
    requires Separable(e.begin) && Separable(e.end)
    requires e.tag.Some? ==> Separable(e.tag.value)
    ensures ReadEntry(e.Render()) == Some(Directive(e.tag, e.begin, e.end, e.prefix.family.V4?, e.prefix.bits))
    ensures ';' !in e.Render()
  {
    hide PrefixToNetmask, ReadNetmask, Join, Split;
    var mask := PrefixToNetmask(e.prefix);
    NetmaskIsSeparable(e.prefix);
    NetmaskRoundTrip(e.prefix);
    var fields := [e.begin, e.end, mask];
    JoinThree(e.begin, e.end, mask, ',');
    if e.tag.None? {
      assert e.Render() == Join(fields, ',');
      SplitJoin(fields, ',');
    } else {
      var head := "set:" + e.tag.value;
      assert ([head] + fields)[1..] == fields;
      assert e.Render() == Join([head] + fields, ',') by {
        JoinMore(head, fields, ',');
      }
      SplitJoin([head] + fields, ',');
    }
  }

  lemma JoinMore(head: string, tail: seq<string>, sep: char)
    requires |tail| > 0
    ensures Join([head] + tail, sep) == head + [sep] + Join(tail, sep)
  {
    assert ([head] + tail)[1..] == tail;
  }

  lemma TagIsSeparable(idx: nat)
    ensures Separable(RangeTag(idx))
  {
    hide Digits;
  }

  // No two ranges share a tag.
  lemma TagsAreDistinct(i: nat, j: nat)
    requires RangeTag(i) == RangeTag(j)
    ensures i == j
  {
    hide Digits, ReadDigits;
    assert Digits(i + 1) == RangeTag(i)[6..] && Digits(j + 1) == RangeTag(j)[6..];
    ReadDigitsDigits(i + 1);
    ReadDigitsDigits(j + 1);
  }

  // A tag ends with the position of its range, counted from one.
  lemma TagsCountFromOne(idx: nat)
    ensures "range_" <= RangeTag(idx) && ReadDigits(RangeTag(idx)[6..]) == Some(idx + 1)
  {
    hide Digits, ReadDigits;
    assert RangeTag(idx)[6..] == Digits(idx + 1);
    ReadDigitsDigits(idx + 1);
  }

  lemma {:induction false} EntriesAreTheRanges(dhcp: DHCP, networking: Networking, n: nat, net: Reader)
    requires net.Lawful() && EachAcceptable(dhcp, networking, net) && n <= |dhcp.extraRanges|
    ensures var entries, ranges := Entries(dhcp, n, net), Ranges(dhcp);
      && |entries| == |ranges| - (|dhcp.extraRanges| - n)
      && forall k | 0 <= k < |entries| ::
           && net.prefix(ranges[k].networkCIDR).Some?
           && ReadEntry(entries[k].Render()) == Some(Configured(dhcp, k, net))
           && ';' !in entries[k].Render()
  {
    hide Entry.Render, ReadEntry, RangeTag, Addr.Valid, Prefix.Valid, Prefix.Size;
    var ranges := Ranges(dhcp);
    if n > 0 {
      EntriesAreTheRanges(dhcp, networking, n - 1, net);
      var k := |Entries(dhcp, n - 1, net)|;
      assert ranges[k] == dhcp.extraRanges[n - 1];
      assert ExtraAcceptable(dhcp.extraRanges[n - 1], net);
      ServedIsSeparable(ranges[k], net);
      TagIsSeparable(n - 1);
      EntryRoundTrip(Entries(dhcp, n, net)[k]);
    } else if HasMain(dhcp) {
      ServedIsSeparable(ranges[0], net);
      EntryRoundTrip(Entries(dhcp, 0, net)[0]);
    }
  }

  lemma ServedIsSeparable(r: DHCPRange, net: Reader)
    requires net.Lawful() && Served(r, net)
    ensures Separable(r.rangeBegin) && Separable(r.rangeEnd)
  {
    AddressIsSeparable(r.rangeBegin, net);
    AddressIsSeparable(r.rangeEnd, net);
  }

  // For an accepted configuration, the text says exactly what was configured:
  // every range in order, none skipped, with family, prefix length and tag.
  lemma RangesRoundTrip(dhcp: DHCP, networking: Networking, net: Reader)
    requires net.Lawful() && Acceptable(dhcp, networking, net)
    ensures var parts := Split(DHCPRangeText(dhcp, net), ';');
      && |parts| == |Ranges(dhcp)|
      && forall k | 0 <= k < |parts| ::
           && net.prefix(Ranges(dhcp)[k].networkCIDR).Some?
           && ReadEntry(parts[k]) == Some(Configured(dhcp, k, net))
  {
    hide Entries, Entry.Render, ReadEntry, Configured;
    EntriesAreTheRanges(dhcp, networking, |dhcp.extraRanges|, net);
    SplitJoin(Rendered(Entries(dhcp, |dhcp.extraRanges|, net)), ';');
  }

  /* ---- DHCP_OPTIONS ---- */

  // A router option for the clients with a tag; without a value, it keeps
  // them from getting any router (section 3.5 of RFC 2132 defines the option).
  datatype RouterOption = RouterOption(tag: string, value: Option<string>) {
    function Render(): string {
      "tag:" + tag + ",option:router" + (if value.Some? then "," + value.value else "")
    }
  }

  function RenderedOptions(options: seq<RouterOption>): (parts: seq<string>)
    ensures |parts| == |options|
    ensures forall k | 0 <= k < |parts| :: parts[k] == options[k].Render()
  {
    seq(|options|, k requires 0 <= k < |options| => options[k].Render())
  }

  // The option for extra range i, if it needs one.
  function RouterOf(dhcp: DHCP, i: nat, net: Reader): (r: Option<RouterOption>)
    requires i < |dhcp.extraRanges|
    ensures r.Some? ==> r.value.tag == RangeTag(i)
  {
    var r := dhcp.extraRanges[i];
    if r.gatewayAddress != "" then Some(RouterOption(RangeTag(i), Some(r.gatewayAddress)))
    else if dhcp.main.gatewayAddress == "" then None
    else if net.prefix(r.networkCIDR).Some? && net.prefix(r.networkCIDR).value.family.V6? then None
    else Some(RouterOption(RangeTag(i), None))
  }

  function Routers(dhcp: DHCP, n: nat, net: Reader): seq<RouterOption>
    requires n <= |dhcp.extraRanges|
  {
    if n == 0 then []
    else
      var option := RouterOf(dhcp, n - 1, net);
      Routers(dhcp, n - 1, net) + if option.Some? then [option.value] else []
  }

  function DHCPOptionsText(dhcp: DHCP, net: Reader): string {
    Join(RenderedOptions(Routers(dhcp, |dhcp.extraRanges|, net)), ';')
  }

  method BuildDHCPOptions(dhcp: DHCP, net: Reader) returns (text: string)
    ensures text == DHCPOptionsText(dhcp, net)
  {
    hide RangeTag, Join;
    var parts: seq<string> := [];
    for i := 0 to |dhcp.extraRanges|
      invariant parts == RenderedOptions(Routers(dhcp, i, net))
    {
      var r := dhcp.extraRanges[i];
      if r.gatewayAddress != "" {
        assert RouterOption(RangeTag(i), Some(r.gatewayAddress)).Render()
            == "tag:" + RangeTag(i) + ",option:router," + r.gatewayAddress;
        parts := parts + ["tag:" + RangeTag(i) + ",option:router," + r.gatewayAddress];
        continue;
      }
      if dhcp.main.gatewayAddress == "" {
        continue;
      }
      var prefix := net.prefix(r.networkCIDR);
      if prefix.Some? && prefix.value.family.V6? {
        continue;
      }
      assert RouterOption(RangeTag(i), None).Render() == "tag:" + RangeTag(i) + ",option:router";
      parts := parts + ["tag:" + RangeTag(i) + ",option:router"];
    }
    return Join(parts, ';');
  }

  /* ---- Reading DHCP_OPTIONS ---- */

  function ReadRouter(item: string): Option<RouterOption> {
    var fields := Split(item, ',');
    if 2 <= |fields| <= 3 && "tag:" <= fields[0] && fields[1] == "option:router" then
      Some(RouterOption(fields[0][4..], if |fields| == 3 then Some(fields[2]) else None))
    else None
  }

  // The items of the variable; it is not set at all when it would be empty.
  function Items(text: string): seq<string> {
    if text == "" then [] else Split(text, ';')
  }

  // The router that dnsmasq sends to an IPv4 client: the first option for the
  // tag of its range wins over the untagged one, which GATEWAY_IP stands for.
  function RouterFor(tag: Option<string>, items: seq<string>, gatewayIP: string): Option<string> {
    if |items| == 0 then if gatewayIP == "" then None else Some(gatewayIP)
    else
      var option := ReadRouter(items[0]);
      if option.Some? && tag == Some(option.value.tag) then option.value.value
      else RouterFor(tag, items[1..], gatewayIP)
  }

  lemma RouterRoundTrip(option: RouterOption)
    requires Separable(option.tag) && (option.value.Some? ==> Separable(option.value.value))
    ensures ReadRouter(option.Render()) == Some(option)
    ensures ';' !in option.Render() && option.Render() != ""
  {
    hide Split, Join;
    var head, router := "tag:" + option.tag, "option:router";
    if option.value.Some? {
      JoinThree(head, router, option.value.value, ',');
      assert option.Render() == Join([head, router, option.value.value], ',');
      SplitJoin([head, router, option.value.value], ',');
    } else {
      JoinTwo(head, router, ',');
      assert option.Render() == Join([head, router], ',');
      SplitJoin([head, router], ',');
    }
  }

  // Each option belongs to one extra range, and is readable.
  ghost predicate OptionsInOrder(options: seq<RouterOption>, dhcp: DHCP, n: nat, net: Reader)
    requires n <= |dhcp.extraRanges|
  {
    && (forall k | 0 <= k < |options| :: exists i | 0 <= i < n :: RouterOf(dhcp, i, net) == Some(options[k]))
    && (forall i | 0 <= i < n && RouterOf(dhcp, i, net).Some? :: RouterOf(dhcp, i, net).value in options)
    && (forall j, k | 0 <= j < k < |options| :: options[j].tag != options[k].tag)
  }

  lemma {:induction false} RoutersInOrder(dhcp: DHCP, n: nat, net: Reader)
    requires n <= |dhcp.extraRanges|
    ensures OptionsInOrder(Routers(dhcp, n, net), dhcp, n, net)
  {
    hide RouterOf, RangeTag;
    if n > 0 {
      RoutersInOrder(dhcp, n - 1, net);
      var before, options := Routers(dhcp, n - 1, net), Routers(dhcp, n, net);
      forall j, k | 0 <= j < k < |options| ensures options[j].tag != options[k].tag {
        if k == |before| {
          var i :| 0 <= i < n - 1 && RouterOf(dhcp, i, net) == Some(options[j]);
          if options[j].tag == options[k].tag {
            TagsAreDistinct(i, n - 1);
          }
        }
      }
      forall k | 0 <= k < |options| ensures exists i | 0 <= i < n :: RouterOf(dhcp, i, net) == Some(options[k]) {
        if k < |before| {
          var i :| 0 <= i < n - 1 && RouterOf(dhcp, i, net) == Some(before[k]);
        } else {
          assert RouterOf(dhcp, n - 1, net) == Some(options[k]);
        }
      }
    }
  }

  lemma RouterOfIsReadable(dhcp: DHCP, networking: Networking, i: nat, net: Reader)
    requires net.Lawful() && Acceptable(dhcp, networking, net) && i < |dhcp.extraRanges| && RouterOf(dhcp, i, net).Some?
    ensures var option := RouterOf(dhcp, i, net).value;
      ReadRouter(option.Render()) == Some(option) && ';' !in option.Render() && option.Render() != ""
  {
    hide Pow2, Prefix.Size, Split;
    var r := dhcp.extraRanges[i];
    assert ExtraAcceptable(r, net);
    TagIsSeparable(i);
    if r.gatewayAddress != "" {
      AddressIsSeparable(r.gatewayAddress, net);
    }
    RouterRoundTrip(RouterOf(dhcp, i, net).value);
  }

  // The text gives back exactly the options.
  lemma OptionsRoundTrip(dhcp: DHCP, networking: Networking, net: Reader)
    requires net.Lawful() && Acceptable(dhcp, networking, net)
    ensures var options := Routers(dhcp, |dhcp.extraRanges|, net);
      var items := Items(DHCPOptionsText(dhcp, net));
      && |items| == |options|
      && forall k | 0 <= k < |items| :: ReadRouter(items[k]) == Some(options[k])
  {
    hide ReadRouter, RouterOption.Render, RouterOf;
    var options := Routers(dhcp, |dhcp.extraRanges|, net);
    var parts := RenderedOptions(options);
    RoutersInOrder(dhcp, |dhcp.extraRanges|, net);
    forall k | 0 <= k < |parts|
      ensures ReadRouter(parts[k]) == Some(options[k]) && ';' !in parts[k] && parts[k] != ""
    {
      var i :| 0 <= i < |dhcp.extraRanges| && RouterOf(dhcp, i, net) == Some(options[k]);
      RouterOfIsReadable(dhcp, networking, i, net);
    }
    if |parts| > 0 {
      SplitJoin(parts, ';');
    }
  }

  lemma {:induction false} RouterForTag(tag: string, items: seq<string>, options: seq<RouterOption>, gatewayIP: string)
    requires |items| == |options|
    requires forall k | 0 <= k < |items| :: ReadRouter(items[k]) == Some(options[k])
    requires forall j, k | 0 <= j < k < |options| :: options[j].tag != options[k].tag
    ensures forall option | option in options && option.tag == tag ::
      RouterFor(Some(tag), items, gatewayIP) == option.value
    ensures (forall option | option in options :: option.tag != tag) ==>
      RouterFor(Some(tag), items, gatewayIP) == if gatewayIP == "" then None else Some(gatewayIP)
    ensures RouterFor(None, items, gatewayIP) == if gatewayIP == "" then None else Some(gatewayIP)
  {
    hide ReadRouter;
    if |items| > 0 {
      assert options == [options[0]] + options[1..];
      RouterForTag(tag, items[1..], options[1..], gatewayIP);
    }
  }

  // An IPv4 client of an extra range gets the gateway of that range or no
  // router at all, never the main gateway; other clients get the latter.
  lemma ClientsGetTheirRouter(dhcp: DHCP, networking: Networking, net: Reader, i: nat)
    requires net.Lawful() && Acceptable(dhcp, networking, net)
    requires i < |dhcp.extraRanges| && net.prefix(dhcp.extraRanges[i].networkCIDR).Some?
    requires net.prefix(dhcp.extraRanges[i].networkCIDR).value.family.V4?
    ensures var items, main := Items(DHCPOptionsText(dhcp, net)), dhcp.main.gatewayAddress;
      var own := dhcp.extraRanges[i].gatewayAddress;
      && RouterFor(Some(RangeTag(i)), items, main) == (if own == "" then None else Some(own))
      && RouterFor(None, items, main) == (if main == "" then None else Some(main))
  {
    hide Routers, RangeTag, DHCPOptionsText, RouterFor;
    var options, items := Routers(dhcp, |dhcp.extraRanges|, net), Items(DHCPOptionsText(dhcp, net));
    RoutersInOrder(dhcp, |dhcp.extraRanges|, net);
    OptionsRoundTrip(dhcp, networking, net);
    RouterForTag(RangeTag(i), items, options, dhcp.main.gatewayAddress);
    if RouterOf(dhcp, i, net).None? {
      forall option | option in options ensures option.tag != RangeTag(i) {
        var j :| 0 <= j < |dhcp.extraRanges| && RouterOf(dhcp, j, net) == Some(option);
        if RangeTag(j) == RangeTag(i) {
          TagsAreDistinct(i, j);
        }
      }
    }
  }

  ghost predicate OptionFor(item: string, tag: string) {
    ReadRouter(item).Some? && ReadRouter(item).value.tag == tag
  }

  // Only ranges that need one have an option: those with a gateway of their
  // own, and the IPv4 ranges that the main gateway has to be kept from.
  lemma OptionsWhereNeeded(dhcp: DHCP, networking: Networking, net: Reader, i: nat)
    requires net.Lawful() && Acceptable(dhcp, networking, net)
    requires i < |dhcp.extraRanges| && net.prefix(dhcp.extraRanges[i].networkCIDR).Some?
    ensures var items, r := Items(DHCPOptionsText(dhcp, net)), dhcp.extraRanges[i];
      (exists item | item in items :: OptionFor(item, RangeTag(i))) <==>
        || r.gatewayAddress != ""
        || (dhcp.main.gatewayAddress != "" && net.prefix(r.networkCIDR).value.family.V4?)
  {
    hide ReadRouter, RangeTag, DHCPOptionsText, Items, Routers;
    var options, items := Routers(dhcp, |dhcp.extraRanges|, net), Items(DHCPOptionsText(dhcp, net));
    RoutersInOrder(dhcp, |dhcp.extraRanges|, net);
    OptionsRoundTrip(dhcp, networking, net);
    if item :| item in items && OptionFor(item, RangeTag(i)) {
      var k :| 0 <= k < |items| && items[k] == item;
      var j :| 0 <= j < |dhcp.extraRanges| && RouterOf(dhcp, j, net) == Some(options[k]);
      TagsAreDistinct(i, j);
    }
    if RouterOf(dhcp, i, net).Some? {
      var k :| 0 <= k < |options| && options[k] == RouterOf(dhcp, i, net).value;
      assert items[k] in items && OptionFor(items[k], RangeTag(i));
    }
  }

  // Every tag of DHCP_OPTIONS appears once there, and is set by exactly one
  // range of DHCP_RANGE.
  lemma OptionTagsAreSet(dhcp: DHCP, networking: Networking, net: Reader)
    requires net.Lawful() && Acceptable(dhcp, networking, net)
    ensures var items, parts := Items(DHCPOptionsText(dhcp, net)), Split(DHCPRangeText(dhcp, net), ';');
      && (forall k | 0 <= k < |items| :: ReadRouter(items[k]).Some? && SetOnce(parts, ReadRouter(items[k]).value.tag))
      && (forall j, k | 0 <= j < k < |items| :: ReadRouter(items[j]).value.tag != ReadRouter(items[k]).value.tag)
  {
    hide ReadRouter, DHCPOptionsText, DHCPRangeText, Items, Split, SetOnce;
    RoutersInOrder(dhcp, |dhcp.extraRanges|, net);
    OptionsRoundTrip(dhcp, networking, net);
    var items, options := Items(DHCPOptionsText(dhcp, net)), Routers(dhcp, |dhcp.extraRanges|, net);
    forall k | 0 <= k < |items| ensures SetOnce(Split(DHCPRangeText(dhcp, net), ';'), options[k].tag) {
      OptionTagIsSet(dhcp, networking, net, k);
    }
  }

  // Exactly one range sets the tag.
  ghost predicate SetOnce(parts: seq<string>, tag: string) {
    exists p | 0 <= p < |parts| ::
      SetsTag(parts[p], tag) && forall q | 0 <= q < |parts| && q != p :: !SetsTag(parts[q], tag)
  }

  lemma OptionTagIsSet(dhcp: DHCP, networking: Networking, net: Reader, k: nat)
    requires net.Lawful() && Acceptable(dhcp, networking, net)
    requires k < |Routers(dhcp, |dhcp.extraRanges|, net)|
    ensures SetOnce(Split(DHCPRangeText(dhcp, net), ';'), Routers(dhcp, |dhcp.extraRanges|, net)[k].tag)
  {
    hide ReadRouter, ReadEntry, RangeTag, DHCPOptionsText, DHCPRangeText, Items, Split, Routers;
    var options := Routers(dhcp, |dhcp.extraRanges|, net);
    RoutersInOrder(dhcp, |dhcp.extraRanges|, net);
    RangesRoundTrip(dhcp, networking, net);
    var parts := Split(DHCPRangeText(dhcp, net), ';');
    var i :| 0 <= i < |dhcp.extraRanges| && RouterOf(dhcp, i, net) == Some(options[k]);
    var mains := |Ranges(dhcp)| - |dhcp.extraRanges|;
    assert SetsTag(parts[mains + i], RangeTag(i));
    forall q | 0 <= q < |parts| && q != mains + i ensures !SetsTag(parts[q], RangeTag(i)) {
      if q >= mains && RangeTag(q - mains) == RangeTag(i) {
        TagsAreDistinct(q - mains, i);
      }
    }
  }

  ghost predicate SetsTag(part: string, tag: string) {
    ReadEntry(part).Some? && ReadEntry(part).value.tag == Some(tag)
  }

  /* ---- Address families ---- */

  predicate IsV6(cidr: string, net: Reader) {
    net.prefix(cidr).Some? && net.prefix(cidr).value.family.V6?
  }

  function CIDRs(dhcp: DHCP): seq<string> {
    (if dhcp.main.networkCIDR != "" then [dhcp.main.networkCIDR] else [])
    + seq(|dhcp.extraRanges|, k requires 0 <= k < |dhcp.extraRanges| => dhcp.extraRanges[k].networkCIDR)
  }

  method DHCPFamilies(dhcp: DHCP, net: Reader) returns (hasV4: bool, hasV6: bool)
    ensures hasV4 <==> exists cidr | cidr in CIDRs(dhcp) :: !IsV6(cidr, net)
    ensures hasV6 <==> exists cidr | cidr in CIDRs(dhcp) :: IsV6(cidr, net)
  {
    var cidrs: seq<string> := [];
    if dhcp.main.networkCIDR != "" {
      cidrs := cidrs + [dhcp.main.networkCIDR];
    }
    ghost var mains := cidrs;
    for i := 0 to |dhcp.extraRanges|
      invariant cidrs == mains + seq(i, k requires 0 <= k < i => dhcp.extraRanges[k].networkCIDR)
    {
      cidrs := cidrs + [dhcp.extraRanges[i].networkCIDR];
    }
    hasV4, hasV6 := false, false;
    for i := 0 to |cidrs|
      invariant hasV4 <==> exists k | 0 <= k < i :: !IsV6(cidrs[k], net)
      invariant hasV6 <==> exists k | 0 <= k < i :: IsV6(cidrs[k], net)
    {
      if IsV6(cidrs[i], net) {
        hasV6 := true;
      } else {
        hasV4 := true;
      }
    }
    assert cidrs == CIDRs(dhcp);
  }

  ghost predicate RendersV4(part: string) {
    ReadEntry(part).Some? && ReadEntry(part).value.v4
  }

  ghost predicate RendersV6(part: string) {
    ReadEntry(part).Some? && !ReadEntry(part).value.v4
  }

  // The ports to listen on are those of exactly the families that the
  // directives are for.
  lemma FamiliesAreThoseRendered(dhcp: DHCP, networking: Networking, net: Reader)
    requires net.Lawful() && Acceptable(dhcp, networking, net)
    ensures var parts := Split(DHCPRangeText(dhcp, net), ';');
      && ((exists cidr | cidr in CIDRs(dhcp) :: !IsV6(cidr, net))
            <==> exists k | 0 <= k < |parts| :: RendersV4(parts[k]))
      && ((exists cidr | cidr in CIDRs(dhcp) :: IsV6(cidr, net))
            <==> exists k | 0 <= k < |parts| :: RendersV6(parts[k]))
  {
    hide ReadEntry, DHCPRangeText, Split;
    RangesRoundTrip(dhcp, networking, net);
    var parts, cidrs := Split(DHCPRangeText(dhcp, net), ';'), CIDRs(dhcp);
    assert |cidrs| == |parts|;
    forall k | 0 <= k < |parts|
      ensures RendersV6(parts[k]) <==> IsV6(cidrs[k], net)
      ensures RendersV4(parts[k]) <==> !IsV6(cidrs[k], net)
    {
      assert cidrs[k] == Ranges(dhcp)[k].networkCIDR;
    }
    if cidr :| cidr in cidrs && !IsV6(cidr, net) {
      var k :| 0 <= k < |cidrs| && cidrs[k] == cidr;
      assert RendersV4(parts[k]);
    }
    if cidr :| cidr in cidrs && IsV6(cidr, net) {
      var k :| 0 <= k < |cidrs| && cidrs[k] == cidr;
      assert RendersV6(parts[k]);
    }
  }
}
