// pkg/ironic/secrets.go, secretVersionAnnotations: the annotation by which
// pods notice that a secret has changed.
module SecretHash {
  import opened Text
  import opened Numbers

  type Byte = n: nat | n < 256

  // A Go string, one character for each of its bytes.
  type Key = s: string | forall i | 0 <= i < |s| :: s[i] as int < 256

  type SecretData = map<Key, seq<Byte>>

  /* ---- hash/fnv, 64-bit FNV-1a ---- */

  const MODULUS: nat := 0x1_0000_0000_0000_0000
  const OFFSET: Hash := 0xcbf2_9ce4_8422_2325
  const PRIME: nat := 0x100_0000_01b3
  const INVERSE: nat := 0xce96_5057_aff6_957b

  type Hash = n: nat | n < 0x1_0000_0000_0000_0000

  // Exclusive or of the last n bits.
  function XorBits(x: nat, y: nat, n: nat): (r: nat)
    ensures r < Pow2(n)
  {
    if n == 0 then 0 else 2 * XorBits(x / 2, y / 2, n - 1) + if x % 2 == y % 2 then 0 else 1
  }

  function XorByte(x: Byte, b: Byte): Byte {
    XorBits(x, b, 8)
  }

  // A byte touches the last byte of the hash only.
  function Xor(h: Hash, b: Byte): Hash {
    h - h % 256 + XorByte(h % 256, b)
  }

  function Step(h: Hash, b: Byte): Hash {
    (Xor(h, b) * PRIME) % MODULUS
  }

  function Fnv(h: Hash, bytes: seq<Byte>): Hash {
    if |bytes| == 0 then h else Step(Fnv(h, bytes[..|bytes| - 1]), bytes[|bytes| - 1])
  }

  /* ---- Every step is a bijection ---- */

  lemma {:induction false} XorInvolution(x: nat, y: nat, n: nat)
    requires x < Pow2(n)
    ensures XorBits(XorBits(x, y, n), y, n) == x
    ensures XorBits(x, y, n) == XorBits(y, x, n)
  {
    if n > 0 {
      XorInvolution(x / 2, y / 2, n - 1);
    }
  }

  lemma TimesPrimeInjective(x: Hash, y: Hash)
    requires (x * PRIME) % MODULUS == (y * PRIME) % MODULUS
    ensures x == y
  {
    Undo(x);
    Undo(y);
  }

  // Multiplying by the inverse of the prime undoes the multiplication.
  lemma Undo(x: Hash)
    ensures ((x * PRIME) % MODULUS * INVERSE) % MODULUS == x
  {
    var q, r := x * PRIME / MODULUS, (x * PRIME) % MODULUS;
    assert x * PRIME == MODULUS * q + r;
    var t := (PRIME * INVERSE - 1) / MODULUS;
    assert PRIME * INVERSE == MODULUS * t + 1;
    var k := x * t - q * INVERSE;
    calc {
      r * INVERSE;
      (x * PRIME - MODULUS * q) * INVERSE;
      x * (PRIME * INVERSE) - MODULUS * (q * INVERSE);
      x * (MODULUS * t + 1) - MODULUS * (q * INVERSE);
      MODULUS * k + x;
    }
    Remainder(k, x);
  }

  lemma Remainder(k: int, x: Hash)
    ensures (MODULUS * k + x) % MODULUS == x
  {
  }

  lemma StepInjective(h: Hash, g: Hash, b: Byte, c: Byte)
    requires Step(h, b) == Step(g, c)
    ensures h == g <==> b == c
  {
    TimesPrimeInjective(Xor(h, b), Xor(g, c));
    hide XorByte;
    XorParts(h, b);
    XorParts(g, c);
    XorByteInvolution(h % 256, b);
    XorByteInvolution(g % 256, c);
  }

  lemma XorParts(h: Hash, b: Byte)
    ensures Xor(h, b) / 256 == h / 256 && Xor(h, b) % 256 == XorByte(h % 256, b)
    ensures h == 256 * (h / 256) + h % 256
  {
    hide XorByte;
  }

  lemma XorByteInvolution(x: Byte, b: Byte)
    ensures XorByte(XorByte(x, b), b) == x && XorByte(XorByte(x, b), x) == b
  {
    Pow2Values();
    hide Pow2;
    XorInvolution(x, b, 8);
    XorInvolution(b, x, 8);
  }

  lemma {:induction false} FnvInjectiveInState(h: Hash, g: Hash, bytes: seq<Byte>)
    requires h != g
    ensures Fnv(h, bytes) != Fnv(g, bytes)
  {
    if |bytes| > 0 {
      var n := |bytes| - 1;
      FnvInjectiveInState(h, g, bytes[..n]);
      if Step(Fnv(h, bytes[..n]), bytes[n]) == Step(Fnv(g, bytes[..n]), bytes[n]) {
        StepInjective(Fnv(h, bytes[..n]), Fnv(g, bytes[..n]), bytes[n], bytes[n]);
      }
    }
  }

  lemma {:induction false} FnvConcat(h: Hash, a: seq<Byte>, b: seq<Byte>)
    ensures Fnv(h, a + b) == Fnv(Fnv(h, a), b)
  {
    if |b| == 0 {
      assert a + b == a;
    } else {
      var n := |b| - 1;
      assert (a + b)[..|a + b| - 1] == a + b[..n];
      FnvConcat(h, a, b[..n]);
    }
  }

  // Replacing one byte anywhere always changes the hash.
  lemma OneByteMatters(h: Hash, bytes: seq<Byte>, i: nat, b: Byte)
    requires i < |bytes| && b != bytes[i]
    ensures Fnv(h, bytes[i := b]) != Fnv(h, bytes)
  {
    var before, after := bytes[..i], bytes[i + 1..];
    assert bytes == before + [bytes[i]] + after && bytes[i := b] == before + [b] + after;
    var s := Fnv(h, before);
    FnvConcat(h, before, [bytes[i]]);
    FnvConcat(h, before, [b]);
    FnvConcat(h, before + [bytes[i]], after);
    FnvConcat(h, before + [b], after);
    assert Fnv(s, [bytes[i]]) == Step(s, bytes[i]) && Fnv(s, [b]) == Step(s, b) by {
      assert [bytes[i]][..0] == [] && [b][..0] == [];
    }
    if Step(s, bytes[i]) == Step(s, b) {
      StepInjective(s, s, bytes[i], b);
    }
    FnvInjectiveInState(Step(s, bytes[i]), Step(s, b), after);
  }

  /* ---- Sorted keys ---- */

  ghost predicate Sorted(keys: seq<Key>) {
    forall i, j | 0 <= i < j < |keys| :: Before(keys[i], keys[j])
  }

  ghost predicate Lists(keys: seq<Key>, names: set<Key>) {
    forall k :: k in keys <==> k in names
  }

  // There is only one way to list a set in order.
  lemma {:induction false} SortedIsUnique(a: seq<Key>, b: seq<Key>, names: set<Key>)
    requires Sorted(a) && Sorted(b) && Lists(a, names) && Lists(b, names)
    ensures a == b
  {
    if names == {} {
      assert forall k :: k !in a && k !in b;
      FirstIsIn(a);
      FirstIsIn(b);
    } else {
      var some :| some in names;
      assert some in a && some in b;
      SameFirst(a, b, names);
      WithoutFirst(a, names);
      WithoutFirst(b, names);
      SortedIsUnique(a[1..], b[1..], names - {a[0]});
    }
  }

  lemma FirstIsIn(a: seq<Key>)
    ensures a == [] || a[0] in a
  {
  }

  lemma SameFirst(a: seq<Key>, b: seq<Key>, names: set<Key>)
    requires Sorted(a) && Sorted(b) && Lists(a, names) && Lists(b, names) && |a| > 0 && |b| > 0
    ensures a[0] == b[0]
  {
    assert a[0] in a && b[0] in b;
    var i :| 0 <= i < |a| && a[i] == b[0];
    var j :| 0 <= j < |b| && b[j] == a[0];
    if a[0] != b[0] {
      assert Before(a[0], b[0]) && Before(b[0], a[0]);
      BeforeTransitive(a[0], b[0], a[0]);
      BeforeIrreflexive(a[0]);
    }
  }

  lemma WithoutFirst(a: seq<Key>, names: set<Key>)
    requires Sorted(a) && Lists(a, names) && |a| > 0
    ensures Sorted(a[1..]) && Lists(a[1..], names - {a[0]})
  {
    if a[0] in a[1..] {
      var i :| 0 <= i < |a| - 1 && a[1..][i] == a[0];
      assert Before(a[0], a[i + 1]);
      BeforeIrreflexive(a[0]);
    }
    assert forall k :: k in a[1..] ==> k in a;
  }

  // Where a new key goes in a sorted list.
  method Insert(keys: seq<Key>, k: Key) returns (r: seq<Key>)
    requires Sorted(keys) && k !in keys
    ensures Sorted(r) && forall x :: x in r <==> x in keys || x == k
  {
    var i := 0;
    while i < |keys| && Before(keys[i], k)
      invariant 0 <= i <= |keys|
      invariant forall j | 0 <= j < i :: Before(keys[j], k)
    {
      i := i + 1;
    }
    r := keys[..i] + [k] + keys[i..];
    assert keys == keys[..i] + keys[i..];
    forall j | i <= j < |keys| ensures Before(k, keys[j]) {
      BeforeTotal(keys[i], k);
      if j > i {
        BeforeTransitive(k, keys[i], keys[j]);
      }
    }
    forall a, b | 0 <= a < b < |r| ensures Before(r[a], r[b]) {
      assert r[a] == if a < i then keys[a] else if a == i then k else keys[a - 1];
      assert r[b] == if b < i then keys[b] else if b == i then k else keys[b - 1];
    }
  }

  // slices.Sorted(maps.Keys(data)); the keys come in any order.
  method SortedKeys(data: SecretData) returns (keys: seq<Key>)
    ensures Sorted(keys) && Lists(keys, data.Keys)
  {
    keys := [];
    var rest := data.Keys;
    while rest != {}
      invariant rest <= data.Keys
      invariant Sorted(keys) && forall k :: k in keys <==> k in data && k !in rest
      decreases rest
    {
      var k :| k in rest;
      keys := Insert(keys, k);
      rest := rest - {k};
    }
  }

  /* ---- The annotation ---- */

  function Bytes(k: Key): seq<Byte> {
    seq(|k|, i requires 0 <= i < |k| => k[i] as int)
  }

  // Everything that is hashed: keys and values without separators.
  function Content(data: SecretData, keys: seq<Key>): seq<Byte>
    requires forall k | k in keys :: k in data
  {
    if |keys| == 0 then []
    else
      var n := |keys| - 1;
      Content(data, keys[..n]) + (Bytes(keys[n]) + data[keys[n]])
  }

  function HexDigit(n: nat): (c: char)
    requires n < 16
  {
    if n < 10 then '0' + n as char else 'a' + (n - 10) as char
  }

  // hex.EncodeToString of the sum, which has the most significant byte first:
  // two digits for each of the last n bytes.
  function Hex(h: nat, n: nat): string {
    if n == 0 then ""
    else Hex(h / 256, n - 1) + [HexDigit(h % 256 / 16), HexDigit(h % 16)]
  }

  function DigitValue(c: char): nat {
    if '0' <= c <= '9' then (c - '0') as nat else if 'a' <= c <= 'f' then 10 + (c - 'a') as nat else 16
  }

  // The number that a text of hexadecimal digits stands for.
  function ReadHex(text: string): nat {
    if text == "" then 0 else 16 * ReadHex(text[..|text| - 1]) + DigitValue(text[|text| - 1])
  }

  // The text of the hash is its value in hexadecimal.
  lemma {:induction false} HexReads(h: nat, n: nat)
    requires h < Pow2(8 * n)
    ensures ReadHex(Hex(h, n)) == h && |Hex(h, n)| == 2 * n
  {
    if n > 0 {
      var front, high, low := Hex(h / 256, n - 1), HexDigit(h % 256 / 16), HexDigit(h % 16);
      assert Pow2(8 * n) == 256 * Pow2(8 * (n - 1)) by {
        Pow2Values();
        Pow2Sum(8, 8 * (n - 1));
      }
      HexReads(h / 256, n - 1);
      HexDigitReads(h % 256 / 16);
      HexDigitReads(h % 16);
      hide HexDigit, DigitValue, ReadHex;
      TwoMoreDigits(front, high, low);
      LastNibble(h);
    }
  }

  lemma HexDigitReads(n: nat)
    requires n < 16
    ensures DigitValue(HexDigit(n)) == n
  {
  }

  lemma TwoMoreDigits(front: string, high: char, low: char)
    ensures ReadHex(front + [high, low]) == 256 * ReadHex(front) + 16 * DigitValue(high) + DigitValue(low)
  {
    var text := front + [high, low];
    assert text[..|text| - 1] == front + [high] && (front + [high])[..|front|] == front;
    hide DigitValue;
  }

  lemma LastNibble(a: nat)
    ensures a % 256 == 16 * (a % 256 / 16) + a % 16
  {
    var q, r := a / 256, a % 256;
    assert a == 16 * (16 * q + r / 16) + r % 16;
    ModOfSum(16 * q + r / 16, r % 16, 16);
  }

  lemma HexInjective(h: nat, g: nat, n: nat)
    requires h < Pow2(8 * n) && g < Pow2(8 * n) && Hex(h, n) == Hex(g, n)
    ensures h == g
  {
    HexReads(h, n);
    HexReads(g, n);
  }

  // The annotation of some data.
  ghost predicate IsAnnotation(text: string, data: SecretData) {
    exists keys | Sorted(keys) && Lists(keys, data.Keys) :: text == Hex(Fnv(OFFSET, Content(data, keys)), 8)
  }

  method Write(h: Hash, bytes: seq<Byte>) returns (r: Hash)
    ensures r == Fnv(h, bytes)
  {
    r := h;
    for i := 0 to |bytes|
      invariant r == Fnv(h, bytes[..i])
    {
      assert bytes[..i + 1][..i] == bytes[..i];
      r := Step(r, bytes[i]);
    }
    assert bytes[..|bytes|] == bytes;
  }

  method SecretVersionAnnotations(secretType: string, data: SecretData) returns (name: string, value: string)
    ensures name == "ironic.metal3.io/" + secretType + "-version"
    ensures IsAnnotation(value, data)
  {
    var h: Hash := OFFSET;
    var keys := SortedKeys(data);
    for i := 0 to |keys|
      invariant h == Fnv(OFFSET, Content(data, keys[..i]))
    {
      var k := keys[i];
      assert k in keys && keys[..i + 1][..i] == keys[..i];
      FnvConcat(OFFSET, Content(data, keys[..i]), Bytes(k) + data[k]);
      FnvConcat(h, Bytes(k), data[k]);
      h := Write(h, Bytes(k));
      h := Write(h, data[k]);
    }
    assert keys[..|keys|] == keys;
    return "ironic.metal3.io/" + secretType + "-version", Hex(h, 8);
  }

  // The annotation depends on the data only, whatever the order in which the
  // keys were visited.
  lemma AnnotationIsUnique(data: SecretData, a: string, b: string)
    ensures IsAnnotation(a, data) && IsAnnotation(b, data) ==> a == b
  {
    if IsAnnotation(a, data) && IsAnnotation(b, data) {
      SameAnnotation(data, a, b);
    }
  }

  lemma SameAnnotation(data: SecretData, a: string, b: string)
    requires IsAnnotation(a, data) && IsAnnotation(b, data)
    ensures a == b
  {
    var k :| Sorted(k) && Lists(k, data.Keys) && a == Hex(Fnv(OFFSET, Content(data, k)), 8);
    var l :| Sorted(l) && Lists(l, data.Keys) && b == Hex(Fnv(OFFSET, Content(data, l)), 8);
    SortedIsUnique(k, l, data.Keys);
  }

  function WithByte(data: SecretData, key: Key, i: nat, b: Byte): SecretData
    requires key in data && i < |data[key]|
  {
    var value: seq<Byte> := data[key][i := b];
    data[key := value]
  }

  // Replacing one byte of one value is one byte of the content.
  lemma {:induction false} ContentOfChange(data: SecretData, keys: seq<Key>, key: Key, i: nat, b: Byte)
    requires forall k | k in keys :: k in data
    requires forall j, k | 0 <= j < k < |keys| :: keys[j] != keys[k]
    requires key in keys && i < |data[key]|
    ensures exists p | 0 <= p < |Content(data, keys)| ::
      && Content(data, keys)[p] == data[key][i]
      && Content(WithByte(data, key, i, b), keys) == Content(data, keys)[p := b]
  {
    var n := |keys| - 1;
    var last, changed := keys[n], WithByte(data, key, i, b);
    var front := Content(data, keys[..n]);
    if last == key {
      ContentUntouched(data, keys[..n], key, changed[key]);
      var p := |front| + |Bytes(key)| + i;
      assert Content(data, keys)[p] == data[key][i];
      assert Content(changed, keys) == Content(data, keys)[p := b];
    } else {
      ContentOfChange(data, keys[..n], key, i, b);
      var p :| 0 <= p < |front| && front[p] == data[key][i] && Content(changed, keys[..n]) == front[p := b];
      assert Content(data, keys)[p] == data[key][i];
      assert Content(changed, keys) == Content(data, keys)[p := b];
    }
  }

  lemma {:induction false} ContentUntouched(data: SecretData, keys: seq<Key>, key: Key, value: seq<Byte>)
    requires key !in keys && forall k | k in keys :: k in data
    ensures Content(data[key := value], keys) == Content(data, keys)
  {
    if |keys| > 0 {
      ContentUntouched(data, keys[..|keys| - 1], key, value);
    }
  }

  // Replacing any single byte of one value always changes the annotation.
  lemma OneByteChangesTheAnnotation(data: SecretData, key: Key, i: nat, b: Byte, before: string, after: string)
    requires key in data && i < |data[key]| && b != data[key][i]
    ensures IsAnnotation(before, data) && IsAnnotation(after, WithByte(data, key, i, b)) ==> before != after
  {
    if IsAnnotation(before, data) && IsAnnotation(after, WithByte(data, key, i, b)) {
      OtherAnnotation(data, key, i, b, before, after);
    }
  }

  lemma OtherAnnotation(data: SecretData, key: Key, i: nat, b: Byte, before: string, after: string)
    requires key in data && i < |data[key]| && b != data[key][i]
    requires IsAnnotation(before, data) && IsAnnotation(after, WithByte(data, key, i, b))
    ensures before != after
  {
    var changed := WithByte(data, key, i, b);
    var keys :| Sorted(keys) && Lists(keys, data.Keys) && before == Hex(Fnv(OFFSET, Content(data, keys)), 8);
    var same :| Sorted(same) && Lists(same, changed.Keys) && after == Hex(Fnv(OFFSET, Content(changed, same)), 8);
    assert Lists(same, data.Keys);
    SortedIsUnique(keys, same, data.Keys);
    SortedIsDistinct(keys);
    ContentOfChange(data, keys, key, i, b);
    var content := Content(data, keys);
    var p :| 0 <= p < |content| && content[p] == data[key][i] && Content(changed, keys) == content[p := b];
    OneByteMatters(OFFSET, content, p, b);
    if before == after {
      assert Pow2(64) == MODULUS by {
        Pow2Is64();
      }
      HexInjective(Fnv(OFFSET, content), Fnv(OFFSET, content[p := b]), 8);
    }
  }

  lemma SortedIsDistinct(keys: seq<Key>)
    requires Sorted(keys)
    ensures forall j, k | 0 <= j < k < |keys| :: keys[j] != keys[k]
  {
    forall j, k | 0 <= j < k < |keys| ensures keys[j] != keys[k] {
      BeforeIrreflexive(keys[j]);
    }
  }

  lemma Pow2Is64()
    ensures Pow2(64) == MODULUS
  {
    Pow2Values();
  }

  /* ---- Keys count, too ---- */

  // The key with another byte at position i.
  function WithKeyByte(key: Key, i: nat, b: Byte): (r: Key)
    requires i < |key|
    ensures |r| == |key|
  {
    var r := key[i := b as char];
    assert forall j | 0 <= j < |r| :: r[j] == if j == i then b as char else key[j];
    r
  }

  function Renamed(data: SecretData, key: Key, other: Key): SecretData
    requires key in data
  {
    (data - {key})[other := data[key]]
  }

  // The other key takes the same place among the remaining ones.
  ghost predicate SamePlace(data: SecretData, key: Key, other: Key) {
    other !in data && forall k | k in data && k != key :: Before(k, key) <==> Before(k, other)
  }

  lemma RenamedOrder(data: SecretData, keys: seq<Key>, p: nat, other: Key)
    requires Sorted(keys) && Lists(keys, data.Keys) && p < |keys| && SamePlace(data, keys[p], other)
    ensures Sorted(keys[p := other]) && Lists(keys[p := other], Renamed(data, keys[p], other).Keys)
  {
    var after := keys[p := other];
    SortedIsDistinct(keys);
    forall i, j | 0 <= i < j < |after| ensures Before(after[i], after[j]) {
      assert Before(keys[i], keys[j]) && keys[i] in keys && keys[j] in keys;
      if i == p {
        BeforeTotal(other, keys[j]);
        if Before(keys[j], other) {
          BeforeTransitive(keys[i], keys[j], keys[i]);
          BeforeIrreflexive(keys[i]);
        }
      }
    }
    forall k ensures k in after <==> k in Renamed(data, keys[p], other) {
      if k in after {
        var i :| 0 <= i < |after| && after[i] == k;
        assert i != p ==> keys[i] in keys && keys[i] != keys[p];
      }
      if k in data && k != keys[p] {
        var i :| 0 <= i < |keys| && keys[i] == k;
        assert after[i] == k;
      }
      assert after[p] == other;
    }
  }

  lemma {:induction false} ContentOfRename(data: SecretData, keys: seq<Key>, p: nat, i: nat, b: Byte)
    requires forall k | k in keys :: k in data
    requires forall j, k | 0 <= j < k < |keys| :: keys[j] != keys[k]
    requires p < |keys| && i < |keys[p]| && WithKeyByte(keys[p], i, b) !in data
    ensures var other := WithKeyByte(keys[p], i, b);
      && (forall k | k in keys[p := other] :: k in Renamed(data, keys[p], other))
      && exists q | 0 <= q < |Content(data, keys)| ::
           && Content(data, keys)[q] == keys[p][i] as int
           && Content(Renamed(data, keys[p], other), keys[p := other]) == Content(data, keys)[q := b]
  {
    var n, other := |keys| - 1, WithKeyByte(keys[p], i, b);
    RenamedKeys(data, keys, p, other);
    if p == n {
      ContentOfLastRename(data, keys, i, b);
    } else {
      ContentOfRename(data, keys[..n], p, i, b);
      assert keys[n] in keys && keys[..n][p] == keys[p];
      ContentOfFrontRename(data, keys, p, i, b);
    }
  }

  lemma RenamedKeys(data: SecretData, keys: seq<Key>, p: nat, other: Key)
    requires forall k | k in keys :: k in data
    requires forall j, k | 0 <= j < k < |keys| :: keys[j] != keys[k]
    requires p < |keys|
    ensures forall k | k in keys[p := other] :: k in Renamed(data, keys[p], other)
  {
    var after := keys[p := other];
    forall k | k in after ensures k in Renamed(data, keys[p], other) {
      var j :| 0 <= j < |after| && after[j] == k;
      assert j != p ==> keys[j] in keys && keys[j] != keys[p];
    }
  }

  lemma ContentOfFrontRename(data: SecretData, keys: seq<Key>, p: nat, i: nat, b: Byte)
    requires forall k | k in keys :: k in data
    requires forall j, k | 0 <= j < k < |keys| :: keys[j] != keys[k]
    requires p < |keys| - 1 && i < |keys[p]| && WithKeyByte(keys[p], i, b) !in data
    requires var n, other := |keys| - 1, WithKeyByte(keys[p], i, b);
      && (forall k | k in keys[p := other] :: k in Renamed(data, keys[p], other))
      && (forall k | k in keys[..n][p := other] :: k in Renamed(data, keys[p], other))
      && exists q | 0 <= q < |Content(data, keys[..n])| ::
           && Content(data, keys[..n])[q] == keys[p][i] as int
           && Content(Renamed(data, keys[p], other), keys[..n][p := other]) == Content(data, keys[..n])[q := b]
    ensures exists q | 0 <= q < |Content(data, keys)| ::
      && Content(data, keys)[q] == keys[p][i] as int
      && Content(Renamed(data, keys[p], WithKeyByte(keys[p], i, b)), keys[p := WithKeyByte(keys[p], i, b)])
           == Content(data, keys)[q := b]
  {
    var n, other := |keys| - 1, WithKeyByte(keys[p], i, b);
    var renamed, after := Renamed(data, keys[p], other), keys[p := other];
    var front := Content(data, keys[..n]);
    var q :| 0 <= q < |front| && front[q] == keys[p][i] as int
             && Content(renamed, keys[..n][p := other]) == front[q := b];
    assert after[..n] == keys[..n][p := other] && after[n] == keys[n];
    assert keys[n] in keys && keys[n] != keys[p] && renamed[keys[n]] == data[keys[n]];
    var tail := Bytes(keys[n]) + data[keys[n]];
    assert Content(data, keys) == front + tail && Content(renamed, after) == front[q := b] + tail;
    hide Content, Bytes, WithKeyByte, Renamed;
    UpdatedFront(front, tail, q, b);
  }

  lemma UpdatedFront(front: seq<Byte>, tail: seq<Byte>, q: nat, b: Byte)
    requires q < |front|
    ensures (front + tail)[q] == front[q] && front[q := b] + tail == (front + tail)[q := b]
  {
  }

  lemma ContentOfLastRename(data: SecretData, keys: seq<Key>, i: nat, b: Byte)
    requires |keys| > 0 && forall k | k in keys :: k in data
    requires var n := |keys| - 1;
      && (forall j | 0 <= j < n :: keys[j] != keys[n])
      && i < |keys[n]| && WithKeyByte(keys[n], i, b) !in data
    ensures var n := |keys| - 1;
      var other := WithKeyByte(keys[n], i, b);
      && (forall k | k in keys[n := other] :: k in Renamed(data, keys[n], other))
      && exists q | 0 <= q < |Content(data, keys)| ::
           && Content(data, keys)[q] == keys[n][i] as int
           && Content(Renamed(data, keys[n], other), keys[n := other]) == Content(data, keys)[q := b]
  {
    var n := |keys| - 1;
    var key, other := keys[n], WithKeyByte(keys[n], i, b);
    var renamed, after := Renamed(data, key, other), keys[n := other];
    assert key in keys;
    assert after[..n] == keys[..n];
    assert forall k | k in keys[..n] :: k in keys && k != key;
    RenamedUntouched(data, keys[..n], key, other);
    var front, value := Content(data, keys[..n]), data[key];
    assert Bytes(other) == Bytes(key)[i := b];
    var before := front + (Bytes(key) + value);
    assert Content(data, keys) == before && Content(renamed, after) == front + (Bytes(other) + value);
    hide Content, Bytes;
    var q := |front| + i;
    assert before[q] == key[i] as int && front + (Bytes(other) + value) == before[q := b];
  }

  lemma {:induction false} RenamedUntouched(data: SecretData, keys: seq<Key>, key: Key, other: Key)
    requires key in data && key !in keys && other !in keys && forall k | k in keys :: k in data
    ensures (forall k | k in keys :: k in Renamed(data, key, other))
    ensures Content(Renamed(data, key, other), keys) == Content(data, keys)
  {
    if |keys| > 0 {
      var n := |keys| - 1;
      assert keys[n] in keys;
      RenamedUntouched(data, keys[..n], key, other);
    }
  }

  // Replacing one byte of a key that keeps its place changes the annotation.
  lemma OneKeyByteChangesTheAnnotation(data: SecretData, key: Key, i: nat, b: Byte, before: string, after: string)
    requires key in data && i < |key| && b != key[i] as int && SamePlace(data, key, WithKeyByte(key, i, b))
    ensures IsAnnotation(before, data) && IsAnnotation(after, Renamed(data, key, WithKeyByte(key, i, b))) ==>
      before != after
  {
    if IsAnnotation(before, data) && IsAnnotation(after, Renamed(data, key, WithKeyByte(key, i, b))) {
      OtherKeyAnnotation(data, key, i, b, before, after);
    }
  }

  lemma OtherKeyAnnotation(data: SecretData, key: Key, i: nat, b: Byte, before: string, after: string)
    requires key in data && i < |key| && b != key[i] as int && SamePlace(data, key, WithKeyByte(key, i, b))
    requires IsAnnotation(before, data) && IsAnnotation(after, Renamed(data, key, WithKeyByte(key, i, b)))
    ensures before != after
  {
    var other := WithKeyByte(key, i, b);
    var renamed := Renamed(data, key, other);
    var keys :| Sorted(keys) && Lists(keys, data.Keys) && before == Hex(Fnv(OFFSET, Content(data, keys)), 8);
    var same :| Sorted(same) && Lists(same, renamed.Keys) && after == Hex(Fnv(OFFSET, Content(renamed, same)), 8);
    assert key in keys;
    var p :| 0 <= p < |keys| && keys[p] == key;
    RenamedOrder(data, keys, p, other);
    SortedIsUnique(same, keys[p := other], renamed.Keys);
    SortedIsDistinct(keys);
    ContentOfRename(data, keys, p, i, b);
    var content := Content(data, keys);
    var q :| 0 <= q < |content| && content[q] == key[i] as int && Content(renamed, same) == content[q := b];
    DifferentHex(content, q, b);
  }

  lemma DifferentHex(content: seq<Byte>, p: nat, b: Byte)
    requires p < |content| && b != content[p]
    ensures Hex(Fnv(OFFSET, content[p := b]), 8) != Hex(Fnv(OFFSET, content), 8)
  {
    OneByteMatters(OFFSET, content, p, b);
    Pow2Is64();
    hide Hex, Fnv;
    if Hex(Fnv(OFFSET, content), 8) == Hex(Fnv(OFFSET, content[p := b]), 8) {
      HexInjective(Fnv(OFFSET, content), Fnv(OFFSET, content[p := b]), 8);
    }
  }

  // A known hash: that of the one-letter text "a".
  lemma HashOfA()
    ensures Fnv(OFFSET, Bytes("a")) == 0xaf63_dc4c_8601_ec8c
  {
    assert Bytes("a") == [97];
    FnvOfOne(OFFSET, 97);
    XorOffset();
    assert 0xcbf2_9ce4_8422_2344 * 0x100_0000_01b3 == 0x1_0000_0000_0000_0000 * 875948729822 + 0xaf63_dc4c_8601_ec8c;
    hide Xor, Fnv;
    StepValue(OFFSET, 97, 0xcbf2_9ce4_8422_2344, 875948729822, 0xaf63_dc4c_8601_ec8c);
  }

  lemma StepValue(h: Hash, b: Byte, x: nat, q: nat, r: nat)
    requires Xor(h, b) == x && x * PRIME == MODULUS * q + r && r < MODULUS
    ensures Step(h, b) == r
  {
    hide Xor;
    ModOfSum(q, r, MODULUS);
  }

  lemma XorOffset()
    ensures Xor(OFFSET, 97) == 0xcbf2_9ce4_8422_2344
  {
    XorOfA();
    hide XorByte;
    assert OFFSET % 256 == 0x25;
  }

  lemma FnvOfOne(h: Hash, b: Byte)
    ensures Fnv(h, [b]) == Step(h, b)
  {
    assert [b][..0] == [];
  }

  lemma XorOfA()
    ensures XorByte(0x25, 97) == 0x44
  {
    assert XorBits(0, 0, 1) == 0;
    assert XorBits(0, 1, 2) == 1;
    assert XorBits(1, 3, 3) == 2;
    assert XorBits(2, 6, 4) == 4;
    assert XorBits(4, 12, 5) == 8;
    assert XorBits(9, 24, 6) == 17;
    assert XorBits(18, 48, 7) == 34;
  }
}
