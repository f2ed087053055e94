// api/v1alpha1/version.go: Ironic versions, their text and their order.
module Versions {
  import opened Options
  import opened Text

  const LATEST: string := "latest"

  // cmp.Compare
  function Cmp(a: int, b: int): int {
    if a < b then -1 else if a == b then 0 else 1
  }

  datatype Version = Version(major: Int64, minor: Int64) {

    predicate IsLatest() {
      major == 0
    }

    function Compare(other: Version): int {
      if IsLatest() then
        if other.IsLatest() then 0 else 1
      else if major != other.major then Cmp(major, other.major)
      else Cmp(minor, other.minor)
    }

    function ToString(): string {
      if IsLatest() then LATEST else Itoa(major) + "." + Itoa(minor)
    }
  }

  const VERSION_LATEST := Version(0, 0)
  const VERSION_37_0 := Version(37, 0)

  function ParseVersion(text: string): (r: Option<Version>)
    ensures r.Some? ==> Parsed(r.value)
  {
    if text == LATEST then Some(VERSION_LATEST)
    else
      var parts :- Cut(text, '.');
      var major :- Atoi(parts.0);
      if major <= 0 then None
      else
        var minor :- Atoi(parts.1);
        Some(Version(major, minor))
  }

  // The versions that parsing can produce.
  predicate Parsed(v: Version) {
    v == VERSION_LATEST || v.major > 0
  }

  /* ---- The printer and the parser ---- */

  // Every parsed version survives printing; the minor part may be negative.
  lemma ParsePrint(v: Version)
    requires Parsed(v)
    ensures ParseVersion(v.ToString()) == Some(v)
  {
    if !v.IsLatest() {
      var major := Itoa(v.major);
      assert major[0] in major;
      assert v.ToString() == major + ['.'] + Itoa(v.minor);
      CutFirst(major, '.', Itoa(v.minor));
      AtoiItoa(v.major);
      AtoiItoa(v.minor);
      assert v.ToString()[0] != 'l';
    }
  }

  // The text is the two numbers in decimal.
  lemma PrintsDecimals()
    ensures VERSION_37_0.ToString() == "37.0" && ParseVersion("37.0") == Some(VERSION_37_0)
    ensures VERSION_LATEST.ToString() == "latest" && ParseVersion("latest") == Some(VERSION_LATEST)
  {
    assert Digits(37) == Digits(3) + [Digit(7)];
    ParsePrint(VERSION_37_0);
    ParsePrint(VERSION_LATEST);
  }

  // Printing what was parsed is a normal form, shared exactly by the texts
  // that mean the same version.
  lemma PrintIsNormalForm(a: string, b: string)
    requires ParseVersion(a).Some? && ParseVersion(b).Some?
    ensures ParseVersion(ParseVersion(a).value.ToString()) == ParseVersion(a)
    ensures ParseVersion(a) == ParseVersion(b)
       <==> ParseVersion(a).value.ToString() == ParseVersion(b).value.ToString()
  {
    ParsePrint(ParseVersion(a).value);
    ParsePrint(ParseVersion(b).value);
  }

  lemma PrintInjective(v: Version, w: Version)
    requires Parsed(v) && Parsed(w)
    requires v.ToString() == w.ToString()
    ensures v == w
  {
    ParsePrint(v);
    ParsePrint(w);
  }

  /* ---- The order ---- */

  // The intended order: by major, then minor, with latest above every number.
  predicate AtMost(v: Version, w: Version) {
    w.IsLatest() || (!v.IsLatest() && (v.major < w.major || (v.major == w.major && v.minor <= w.minor)))
  }

  lemma AtMostIsTotalOrder(u: Version, v: Version, w: Version)
    requires Parsed(u) && Parsed(v) && Parsed(w)
    ensures AtMost(u, v) || AtMost(v, u)
    ensures AtMost(u, v) && AtMost(v, u) ==> u == v
    ensures AtMost(u, v) && AtMost(v, w) ==> AtMost(u, w)
  {
  }

  // Compare is that order exactly when the right operand is a number or the
  // left one is latest. Both callers put a number on the right.
  lemma CompareIsTheOrder(v: Version, w: Version)
    requires Parsed(v) && Parsed(w)
    ensures ((v.Compare(w) <= 0 <==> AtMost(v, w)) && (v.Compare(w) >= 0 <==> AtMost(w, v)))
       <==> (!w.IsLatest() || v.IsLatest())
  {
  }

  // With latest on the right, each of two versions compares above the other.
  lemma CompareIsNotAntisymmetric()
    ensures var v, w := Version(30, 0), VERSION_LATEST; v.Compare(w) > 0 && w.Compare(v) > 0
  {
  }
}
