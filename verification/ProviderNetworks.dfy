// pkg/ironic/validation.go and containers.go: the provider networks of the
// networking service, checked and written out for Ironic.
module ProviderNetworks {
  import opened Options
  import opened Text

  type Int32 = n: int | -0x8000_0000 <= n <= 0x7FFF_FFFF

  const ACCESS := "access"
  const TRUNK := "trunk"
  const HYBRID := "hybrid"

  datatype ProviderNetwork = ProviderNetwork(kind: string, mode: string, nativeVLAN: Int32,
                                             allowedVLANs: seq<string>, mtu: Int32)

  /* ---- VLAN IDs ---- */

  const MIN_VLAN := 1
  const MAX_VLAN := 4094

  // unicode.IsSpace
  predicate Space(c: char) {
    || '\t' <= c <= '\r' || c == ' ' || c == '\U{0085}' || c == '\U{00A0}' || c == '\U{1680}'
    || '\U{2000}' <= c <= '\U{200a}' || c == '\U{2028}' || c == '\U{2029}' || c == '\U{202f}' || c == '\U{205f}'
    || c == '\U{3000}'
  }

  // strings.TrimSpace
  function TrimSpace(s: string): (r: string)
    ensures forall c | c in s :: c in r || Space(c)
    ensures forall c | c in r :: c in s
  {
    if s == "" then ""
    else if Space(s[0]) then
      assert s == [s[0]] + s[1..];
      TrimSpace(s[1..])
    else if Space(s[|s| - 1]) then
      assert s == s[..|s| - 1] + [s[|s| - 1]];
      TrimSpace(s[..|s| - 1])
    else s
  }

  function ValidateVLANID(s: string): (r: Option<int>)
    ensures r.Some? ==> MIN_VLAN <= r.value <= MAX_VLAN
  {
    var v :- Atoi(s);
    if v < MIN_VLAN || v > MAX_VLAN then None else Some(v)
  }

  // The text before and after the first dash, as strings.SplitN cuts it.
  predicate ValidateAllowedVLANEntry(entry: string) {
    match Cut(entry, '-')
    case None => ValidateVLANID(TrimSpace(entry)).Some?
    case Some((first, last)) =>
      var start, end := ValidateVLANID(TrimSpace(first)), ValidateVLANID(TrimSpace(last));
      start.Some? && end.Some? && start.value < end.value
  }

  /* ---- What an entry means ---- */

  ghost predicate ReadsAs(text: string, n: int) {
    Atoi(TrimSpace(text)) == Some(n)
  }

  // The IDs that an entry stands for: one, or those of a range.
  ghost predicate Denotes(entry: string, id: int) {
    if '-' !in entry then ReadsAs(entry, id)
    else exists first, last, low, high ::
      && entry == first + ['-'] + last && '-' !in first
      && ReadsAs(first, low) && ReadsAs(last, high) && low <= id <= high
  }

  lemma RangeDenotes(entry: string, first: string, last: string, low: int, high: int, id: int)
    requires entry == first + ['-'] + last && '-' !in first && ReadsAs(first, low) && ReadsAs(last, high)
    ensures Denotes(entry, id) <==> low <= id <= high
  {
    assert '-' in entry;
    CutFirst(first, '-', last);
    if Denotes(entry, id) {
      var f, l, lo, hi :|
        && entry == f + ['-'] + l && '-' !in f
        && ReadsAs(f, lo) && ReadsAs(l, hi) && lo <= id <= hi;
      CutFirst(f, '-', l);
    }
  }

  // An entry is accepted exactly when it stands for IDs, all of them allowed;
  // except that a range has to have more than one.
  lemma AcceptedEntries(entry: string)
    ensures ValidateAllowedVLANEntry(entry) <==>
      && (exists id :: Denotes(entry, id))
      && (forall id | Denotes(entry, id) :: 1 <= id <= 4094)
      && ('-' in entry ==> exists id, other :: Denotes(entry, id) && Denotes(entry, other) && id != other)
  {
    hide Atoi, TrimSpace, Cut;
    if '-' !in entry {
      if ValidateAllowedVLANEntry(entry) {
        assert Denotes(entry, ValidateVLANID(TrimSpace(entry)).value);
      }
    } else {
      var (first, last) := Cut(entry, '-').value;
      var start, end := Atoi(TrimSpace(first)), Atoi(TrimSpace(last));
      if start.Some? && end.Some? {
        forall id ensures Denotes(entry, id) <==> start.value <= id <= end.value {
          RangeDenotes(entry, first, last, start.value, end.value, id);
        }
        if start.value <= end.value {
          assert Denotes(entry, start.value) && Denotes(entry, end.value);
        }
      } else {
        forall id ensures !Denotes(entry, id) {
          if Denotes(entry, id) {
            RangeIsUnique(entry, first, last, id);
          }
        }
      }
    }
  }

  lemma RangeIsUnique(entry: string, first: string, last: string, id: int)
    requires entry == first + ['-'] + last && '-' !in first && Denotes(entry, id)
    ensures Atoi(TrimSpace(first)).Some? && Atoi(TrimSpace(last)).Some?
  {
    hide Atoi, TrimSpace;
    assert '-' in entry;
    CutFirst(first, '-', last);
    var f, l, lo, hi :|
      && entry == f + ['-'] + l && '-' !in f
      && ReadsAs(f, lo) && ReadsAs(l, hi) && lo <= id <= hi;
    CutFirst(f, '-', l);
  }

  lemma NumberChars(text: string)
    requires Atoi(TrimSpace(text)).Some?
    ensures forall c | c in text :: IsDigit(c) || c == '+' || c == '-' || Space(c)
  {
    hide Atoi, TrimSpace;
  }

  lemma AcceptedEntryChars(entry: string)
    requires ValidateAllowedVLANEntry(entry)
    ensures ',' !in entry && '/' !in entry
  {
    hide Atoi, TrimSpace, Cut;
    if '-' !in entry {
      NumberChars(entry);
    } else {
      var (first, last) := Cut(entry, '-').value;
      NumberChars(first);
      NumberChars(last);
    }
  }

  /* ---- Provider networks ---- */

  predicate Valid(pn: ProviderNetwork) {
    && (pn.mode == ACCESS || pn.mode == TRUNK || pn.mode == HYBRID)
    && (pn.mode == ACCESS <==> pn.allowedVLANs == [])
    && (forall entry | entry in pn.allowedVLANs :: ValidateAllowedVLANEntry(entry))
  }

  method ValidateProviderNetwork(pn: ProviderNetwork) returns (ok: bool)
    ensures ok <==> Valid(pn)
  {
    hide ValidateAllowedVLANEntry;
    if pn.mode == ACCESS {
      if |pn.allowedVLANs| > 0 {
        return false;
      }
    } else if pn.mode == TRUNK || pn.mode == HYBRID {
      if |pn.allowedVLANs| == 0 {
        return false;
      }
    } else {
      return false;
    }
    for i := 0 to |pn.allowedVLANs|
      invariant forall k | 0 <= k < i :: ValidateAllowedVLANEntry(pn.allowedVLANs[k])
    {
      if !ValidateAllowedVLANEntry(pn.allowedVLANs[i]) {
        return false;
      }
    }
    return true;
  }

  // All networks are valid, and no kind is configured twice.
  method ValidateNetworkingService(networks: seq<ProviderNetwork>) returns (ok: bool)
    ensures ok <==> (forall i | 0 <= i < |networks| :: Valid(networks[i]))
                    && forall i, j | 0 <= i < j < |networks| :: networks[i].kind != networks[j].kind
  {
    var seenTypes: map<string, bool> := map[];
    for i := 0 to |networks|
      invariant forall k | 0 <= k < i :: Valid(networks[k])
      invariant forall j, k | 0 <= j < k < i :: networks[j].kind != networks[k].kind
      invariant forall kind :: kind in seenTypes <==> exists k | 0 <= k < i :: networks[k].kind == kind
    {
      if networks[i].kind in seenTypes {
        return false;
      }
      seenTypes := seenTypes[networks[i].kind := true];
      var valid := ValidateProviderNetwork(networks[i]);
      if !valid {
        return false;
      }
    }
    return true;
  }

  /* ---- Writing a provider network out ---- */

  method FormatProviderNetwork(pn: ProviderNetwork) returns (val: string)
    ensures val == Join(Fields(pn), '/')
  {
    hide Join, Itoa;
    val := pn.mode + "/native_vlan=" + Itoa(pn.nativeVLAN);
    ghost var fields := [pn.mode, "native_vlan=" + Itoa(pn.nativeVLAN)];
    JoinTwo(fields[0], fields[1], '/');
    assert val == Join(fields, '/');
    if (pn.mode == TRUNK || pn.mode == HYBRID) && |pn.allowedVLANs| > 0 {
      var vlans := Join(pn.allowedVLANs, ',');
      JoinAppend(fields, "allowed_vlans=" + vlans, '/');
      fields := fields + ["allowed_vlans=" + vlans];
      val := val + ("/allowed_vlans=" + vlans);
      assert val == Join(fields, '/');
    }
    if pn.mtu > 0 {
      JoinAppend(fields, "mtu=" + Itoa(pn.mtu), '/');
      fields := fields + ["mtu=" + Itoa(pn.mtu)];
      val := val + ("/mtu=" + Itoa(pn.mtu));
    }
    assert fields == Fields(pn);
  }

  function Fields(pn: ProviderNetwork): (fields: seq<string>) {
    [pn.mode, "native_vlan=" + Itoa(pn.nativeVLAN)]
    + (if (pn.mode == TRUNK || pn.mode == HYBRID) && |pn.allowedVLANs| > 0 then
         ["allowed_vlans=" + Join(pn.allowedVLANs, ',')]
       else [])
    + (if pn.mtu > 0 then ["mtu=" + Itoa(pn.mtu)] else [])
  }

  lemma {:induction false} JoinAppend(parts: seq<string>, last: string, sep: char)
    requires |parts| > 0
    ensures Join(parts + [last], sep) == Join(parts, sep) + [sep] + last
  {
    if |parts| > 1 {
      assert (parts + [last])[1..] == parts[1..] + [last];
      JoinAppend(parts[1..], last, sep);
    } else {
      assert (parts + [last])[1..] == [last];
    }
  }

  /* ---- Reading it back ---- */

  function After(prefix: string, text: string): Option<string> {
    if prefix <= text then Some(text[|prefix|..]) else None
  }

  datatype Port = Port(mode: string, nativeVLAN: int, allowedVLANs: seq<string>, mtu: int)

  function ReadMTU(fields: seq<string>): Option<int> {
    if |fields| == 0 then Some(0)
    else if |fields| > 1 then None
    else
      var text :- After("mtu=", fields[0]);
      Atoi(text)
  }

  function ReadPort(text: string): Option<Port> {
    var fields := Split(text, '/');
    if |fields| < 2 then None
    else
      var vlanText :- After("native_vlan=", fields[1]);
      var vlan :- Atoi(vlanText);
      if |fields| > 2 && After("allowed_vlans=", fields[2]).Some? then
        var mtu :- ReadMTU(fields[3..]);
        Some(Port(fields[0], vlan, Split(After("allowed_vlans=", fields[2]).value, ','), mtu))
      else
        var mtu :- ReadMTU(fields[2..]);
        Some(Port(fields[0], vlan, [], mtu))
  }

  lemma FieldsHaveNoSlash(pn: ProviderNetwork)
    requires Valid(pn)
    ensures forall field | field in Fields(pn) :: '/' !in field
  {
    hide Digits, ValidateAllowedVLANEntry;
    forall entry | entry in pn.allowedVLANs ensures '/' !in entry {
      AcceptedEntryChars(entry);
    }
    JoinChars(pn.allowedVLANs, ',', '/');
  }

  // Mode, native VLAN, the list of VLANs and the MTU can all be read back; a
  // negative MTU is written like none, so the text is faithful exactly for
  // the others.
  lemma PortRoundTrip(pn: ProviderNetwork)
    requires Valid(pn)
    ensures ReadPort(Join(Fields(pn), '/'))
         == Some(Port(pn.mode, pn.nativeVLAN, pn.allowedVLANs, if pn.mtu > 0 then pn.mtu else 0))
    ensures ReadPort(Join(Fields(pn), '/')) == Some(Port(pn.mode, pn.nativeVLAN, pn.allowedVLANs, pn.mtu))
       <==> pn.mtu >= 0
  {
    hide Join, Split, Atoi, Itoa, ValidateAllowedVLANEntry;
    var fields := Fields(pn);
    FieldsHaveNoSlash(pn);
    SplitJoin(fields, '/');
    AtoiItoa(pn.nativeVLAN);
    AtoiItoa(pn.mtu);
    assert After("native_vlan=", fields[1]) == Some(Itoa(pn.nativeVLAN));
    var mtu := "mtu=" + Itoa(pn.mtu);
    assert After("mtu=", mtu) == Some(Itoa(pn.mtu));
    assert mtu[0] != "allowed_vlans="[0];
    if pn.allowedVLANs != [] {
      forall entry | entry in pn.allowedVLANs ensures ',' !in entry {
        AcceptedEntryChars(entry);
      }
      SplitJoin(pn.allowedVLANs, ',');
      assert After("allowed_vlans=", fields[2]) == Some(Join(pn.allowedVLANs, ','));
      assert fields[3..] == if pn.mtu > 0 then [mtu] else [];
    } else {
      assert fields[2..] == if pn.mtu > 0 then [mtu] else [];
    }
  }

  // Two valid networks that are written alike agree in everything written.
  lemma FormatIsInjective(a: ProviderNetwork, b: ProviderNetwork)
    requires Valid(a) && Valid(b) && a.mtu >= 0 && b.mtu >= 0
    requires Join(Fields(a), '/') == Join(Fields(b), '/')
    ensures a == b.(kind := a.kind)
  {
    PortRoundTrip(a);
    PortRoundTrip(b);
  }
}
