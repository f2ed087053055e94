// IP addresses and prefixes as net/netip has them, and the netmask notation of
// pkg/ironic/utils.go. Reading address text is a parameter.
module Netip {
  import opened Options
  import opened Text
  import opened Numbers

  const TWO_32: nat := 0x1_0000_0000

  lemma Pow2Of32()
    ensures Pow2(32) == TWO_32
  {
    Pow2Values();
  }

  /* ---- Addresses and prefixes ---- */

  datatype Family = V4 | V6 {
    function Width(): nat {
      if V4? then 32 else 128
    }
  }

  datatype Addr = Addr(family: Family, value: nat, zone: string) {
    predicate Valid() {
      value < Pow2(family.Width()) && (family.V4? ==> zone == "")
    }

    // Shorter addresses first, then by value, then by zone.
    function Compare(other: Addr): int {
      if family != other.family then if family.V4? then -1 else 1
      else if value != other.value then if value < other.value then -1 else 1
      else if zone == other.zone then 0
      else if Before(zone, other.zone) then -1 else 1
    }
  }

  type Address = a: Addr | a.Valid() witness Addr(V4, 0, "")

  datatype Prefix = Prefix(family: Family, value: nat, bits: nat) {
    predicate Valid() {
      value < Pow2(family.Width()) && bits <= family.Width()
    }

    // How many addresses share the prefix.
    function Size(): (n: nat)
      requires Valid()
      ensures n > 0
    {
      Pow2(family.Width() - bits)
    }

    // The leading bits agree; an address with a zone is in no prefix.
    predicate Contains(a: Addr)
      requires Valid()
    {
      family == a.family && a.zone == "" && a.value / Size() == value / Size()
    }
  }

  type Network = p: Prefix | p.Valid() witness Prefix(V4, 0, 0)

  // netip.ParseAddr and netip.ParsePrefix.
  datatype Reader = Reader(addr: string -> Option<Address>, prefix: string -> Option<Network>) {
    // There is no empty address; without a zone the text has hexadecimal
    // digits, colons and dots only.
    ghost predicate Lawful() {
      && addr("").None? && prefix("").None?
      && forall text, c | addr(text).Some? && addr(text).value.zone == "" && c in text :: AddressChar(c)
    }
  }

  predicate AddressChar(c: char) {
    IsDigit(c) || 'a' <= c <= 'f' || 'A' <= c <= 'F' || c == ':' || c == '.'
  }

  /* ---- A prefix contains whole intervals ---- */

  lemma ContainsInterval(p: Network, low: Address, high: Address, a: Address)
    requires p.Contains(low) && p.Contains(high)
    requires a.family == p.family && a.zone == "" && low.value <= a.value <= high.value
    ensures p.Contains(a)
  {
    DivMonotone(low.value, a.value, p.Size());
    DivMonotone(a.value, high.value, p.Size());
  }

  /* ---- Netmasks ---- */

  // The mask as the code computes it: a shift on 32-bit words.
  function Netmask(bits: nat): (mask: nat)
    requires bits <= 32
    ensures mask < TWO_32
  {
    (0xFFFF_FFFF * Pow2(32 - bits)) % TWO_32
  }

  function Octet(mask: nat, shift: nat): (octet: nat)
    ensures octet < 256
  {
    (mask / Pow2(shift)) % 256
  }

  // mask>>24 needs no & 0xFF on a 32-bit word.
  function PrefixToNetmask(p: Network): string {
    if p.family.V6? then Itoa(p.bits)
    else DottedQuad(Netmask(p.bits))
  }

  function DottedQuad(mask: nat): string {
    Itoa(mask / Pow2(24)) + "." + Itoa(Octet(mask, 16)) + "." + Itoa(Octet(mask, 8)) + "." + Itoa(Octet(mask, 0))
  }

  // Section 3.1 of RFC 4632: as many leading ones as the prefix is long.
  lemma NetmaskValue(bits: nat)
    requires bits <= 32
    ensures Netmask(bits) == TWO_32 - Pow2(32 - bits)
  {
    var k := Pow2(32 - bits);
    Pow2Of32();
    if bits > 0 {
      Pow2Order(32 - bits, 32);
    }
    assert 0xFFFF_FFFF * k == TWO_32 * (k - 1) + (TWO_32 - k);
    assert (TWO_32 * (k - 1) + (TWO_32 - k)) % TWO_32 == TWO_32 - k by {
      ModOfSum(k - 1, TWO_32 - k, TWO_32);
    }
  }

  // Bitwise and of two words.
  function And(x: nat, y: nat): nat {
    if x == 0 then 0 else 2 * And(x / 2, y / 2) + (if x % 2 == 1 && y % 2 == 1 then 1 else 0)
  }

  // Of a word with w bits, the mask with k zeros at the end keeps the others.
  lemma {:induction false} AndMask(x: nat, w: nat, k: nat)
    requires k <= w && x < Pow2(w)
    ensures Pow2(k) <= Pow2(w) && And(x, Pow2(w) - Pow2(k)) == x - x % Pow2(k)
  {
    MaskIsNatural(w, k);
    if x == 0 {
      ZeroMod(Pow2(k));
    } else if k > 0 {
      var half := Pow2(w - 1) - Pow2(k - 1);
      assert Pow2(w) == 2 * Pow2(w - 1) && Pow2(k) == 2 * Pow2(k - 1);
      hide Pow2;
      AndEven(x, half);
      AndMask(x / 2, w - 1, k - 1);
      HalfMod(x, k);
    } else {
      assert w > 0;
      var half := Pow2(w - 1) - Pow2(0);
      assert Pow2(w) == 2 * Pow2(w - 1) && Pow2(k) == Pow2(0) == 1;
      hide Pow2;
      AndOdd(x, half);
      AndMask(x / 2, w - 1, 0);
    }
  }

  lemma MaskIsNatural(w: nat, k: nat)
    requires k <= w
    ensures Pow2(k) <= Pow2(w) && (0 < k ==> Pow2(k - 1) <= Pow2(w - 1)) && (0 < w ==> 1 <= Pow2(w - 1))
  {
    if k < w {
      Pow2Order(k, w);
      if k > 0 {
        Pow2Order(k - 1, w - 1);
      }
    }
  }

  lemma AndEven(x: nat, half: nat)
    requires x > 0
    ensures And(x, 2 * half) == 2 * And(x / 2, half)
  {
    assert 2 * half / 2 == half && 2 * half % 2 == 0;
  }

  lemma AndOdd(x: nat, half: nat)
    requires x > 0
    ensures And(x, 2 * half + 1) == 2 * And(x / 2, half) + x % 2
  {
    assert (2 * half + 1) / 2 == half && (2 * half + 1) % 2 == 1;
  }

  lemma ZeroMod(d: nat)
    requires d > 0
    ensures 0 % d == 0
  {
  }

  lemma HalfMod(x: nat, k: nat)
    requires k > 0
    ensures x % Pow2(k) == 2 * ((x / 2) % Pow2(k - 1)) + x % 2
  {
    var d := Pow2(k - 1);
    var q, r := (x / 2) / d, (x / 2) % d;
    assert x == 2 * (d * q + r) + x % 2;
    assert 2 * (d * q) == (2 * d) * q;
    ModOfSum(q, 2 * r + x % 2, 2 * d);
  }

  // The mask selects exactly the addresses of the prefix.
  lemma NetmaskSelectsPrefix(p: Network, a: Address)
    requires p.family.V4? && a.family.V4?
    ensures p.Contains(a) <==> And(a.value, Netmask(p.bits)) == And(p.value, Netmask(p.bits))
  {
    var d := p.Size();
    Pow2Of32();
    NetmaskValue(p.bits);
    AndMask(a.value, 32, 32 - p.bits);
    AndMask(p.value, 32, 32 - p.bits);
    SameQuotient(a.value, p.value, d);
  }

  /* ---- Reading a netmask back ---- */

  function Ones(n: nat): nat {
    if n == 0 then 0 else Ones(n / 2) + n % 2
  }

  lemma {:induction false} OnesOfMask(w: nat, k: nat)
    requires k <= w
    ensures Pow2(k) <= Pow2(w) && Ones(Pow2(w) - Pow2(k)) == w - k
  {
    if k < w {
      Pow2Order(k, w);
    }
    var mask := Pow2(w) - Pow2(k);
    if k == w {
      assert mask == 0;
    } else if k > 0 {
      OnesOfMask(w - 1, k - 1);
      assert mask / 2 == Pow2(w - 1) - Pow2(k - 1) && mask % 2 == 0;
    } else {
      OnesOfMask(w - 1, 0);
      assert mask / 2 == Pow2(w - 1) - Pow2(0) && mask % 2 == 1;
    }
  }

  // What dnsmasq makes of the notation: a dotted mask, whose ones come first,
  // or a plain length.
  function ReadNetmask(text: string): Option<nat> {
    if '.' !in text then Natural(text)
    else
      var mask :- ReadDottedQuad(text);
      var bits := Ones(mask);
      if bits <= 32 && mask + Pow2(32 - bits) == TWO_32 then Some(bits) else None
  }

  function ReadDottedQuad(text: string): Option<nat> {
    var parts := Split(text, '.');
    if |parts| != 4 then None
    else
      var a :- Natural(parts[0]);
      var b :- Natural(parts[1]);
      var c :- Natural(parts[2]);
      var d :- Natural(parts[3]);
      if a < 256 && b < 256 && c < 256 && d < 256 then Some(((a * 256 + b) * 256 + c) * 256 + d) else None
  }

  function Natural(text: string): Option<nat> {
    var n :- Atoi(text);
    if n < 0 then None else Some(n)
  }

  // The prefix length can be read back, in either family.
  lemma NetmaskRoundTrip(p: Network)
    ensures ReadNetmask(PrefixToNetmask(p)) == Some(p.bits)
    ensures p.family.V4? <==> '.' in PrefixToNetmask(p)
  {
    hide Netmask, Octet, ReadDigits, Digits, Split, Cut, Ones;
    if p.family.V6? {
      AtoiItoa(p.bits);
    } else {
      DottedQuadRoundTrip(Netmask(p.bits));
      NetmaskValue(p.bits);
      Pow2Of32();
      OnesOfMask(32, 32 - p.bits);
    }
  }

  lemma DottedQuadRoundTrip(mask: nat)
    requires mask < TWO_32
    ensures ReadDottedQuad(DottedQuad(mask)) == Some(mask)
    ensures '.' in DottedQuad(mask)
  {
    hide Octet, ReadDigits, Digits, Split, Cut, Ones, Atoi, Itoa, Join, Pow2;
    OctetsOf(mask);
    var octets := [mask / Pow2(24), Octet(mask, 16), Octet(mask, 8), Octet(mask, 0)];
    var parts := [Itoa(octets[0]), Itoa(octets[1]), Itoa(octets[2]), Itoa(octets[3])];
    JoinFour(parts);
    SplitJoin(parts, '.');
    AtoiItoa(octets[0]);
    AtoiItoa(octets[1]);
    AtoiItoa(octets[2]);
    AtoiItoa(octets[3]);
    assert DottedQuad(mask)[|parts[0]|] == '.';
  }

  lemma JoinFour(parts: seq<string>)
    requires |parts| == 4
    ensures Join(parts, '.') == parts[0] + "." + parts[1] + "." + parts[2] + "." + parts[3]
  {
    assert Join(parts[3..], '.') == parts[3];
    assert Join(parts[2..], '.') == parts[2] + "." + parts[3] by {
      assert parts[2..][1..] == parts[3..];
    }
    assert Join(parts[1..], '.') == parts[1] + "." + (parts[2] + "." + parts[3]) by {
      assert parts[1..][1..] == parts[2..];
    }
  }

  lemma OctetsOf(mask: nat)
    requires mask < TWO_32
    ensures mask / Pow2(24) < 256
    ensures mask == ((mask / Pow2(24) * 256 + Octet(mask, 16)) * 256 + Octet(mask, 8)) * 256 + Octet(mask, 0)
  {
    assert Pow2(0) == 1;
    Pow2Values();
    hide Pow2;
    assert mask / 0x1_0000 == mask / 0x100 / 0x100;
    assert mask / 0x100_0000 == mask / 0x100 / 0x100 / 0x100;
  }
}
