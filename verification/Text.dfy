// Text as the Go standard library handles it: strings.Cut, strings.Split and
// strings.Join on a one-character separator, fmt's %d and strconv.Atoi on
// 64-bit integers, and the order of Go strings.
module Text {
  import opened Options

  const MIN_INT64: int := -0x8000_0000_0000_0000
  const MAX_INT64: int := 0x7FFF_FFFF_FFFF_FFFF

  // Go's int on the platforms the operator is built for.
  type Int64 = n: int | MIN_INT64 <= n <= MAX_INT64

  /* ---- Cutting, splitting, joining ---- */

  // The text before and after the first separator; None when there is none.
  function Cut(s: string, sep: char): (r: Option<(string, string)>)
    ensures r.None? <==> sep !in s
    ensures r.Some? ==> s == r.value.0 + [sep] + r.value.1 && sep !in r.value.0
  {
    if s == "" then None
    else if s[0] == sep then Some(("", s[1..]))
    else
      var rest :- Cut(s[1..], sep);
      Some(([s[0]] + rest.0, rest.1))
  }

  function Split(s: string, sep: char): (parts: seq<string>)
    ensures |parts| > 0
    ensures forall p | p in parts :: sep !in p
    decreases |s|
  {
    match Cut(s, sep)
    case None => [s]
    case Some((before, after)) => [before] + Split(after, sep)
  }

  function Join(parts: seq<string>, sep: char): string {
    if |parts| == 0 then ""
    else if |parts| == 1 then parts[0]
    else parts[0] + [sep] + Join(parts[1..], sep)
  }

  lemma {:induction false} CutFirst(before: string, sep: char, after: string)
    requires sep !in before
    ensures Cut(before + [sep] + after, sep) == Some((before, after))
  {
    var s := before + [sep] + after;
    if before == "" {
      assert s[1..] == after;
    } else {
      assert s[1..] == before[1..] + [sep] + after;
      assert s[0] == before[0] && s[0] in before;
      CutFirst(before[1..], sep, after);
      assert before == [s[0]] + before[1..];
    }
  }

  // Splitting undoes joining, as long as no part contains the separator.
  lemma {:induction false} SplitJoin(parts: seq<string>, sep: char)
    requires |parts| > 0
    requires forall p | p in parts :: sep !in p
    ensures Split(Join(parts, sep), sep) == parts
  {
    if |parts| > 1 {
      assert parts[0] in parts;
      CutFirst(parts[0], sep, Join(parts[1..], sep));
      SplitJoin(parts[1..], sep);
    } else {
      assert parts == [parts[0]] && parts[0] in parts;
    }
  }

  lemma JoinTwo(a: string, b: string, sep: char)
    ensures Join([a, b], sep) == a + [sep] + b
  {
    assert [a, b][1..] == [b];
  }

  lemma {:induction false} JoinChars(parts: seq<string>, sep: char, c: char)
    requires c != sep
    requires forall p | p in parts :: c !in p
    ensures c !in Join(parts, sep)
  {
    if |parts| > 1 {
      assert parts[0] in parts;
      JoinChars(parts[1..], sep, c);
    } else if |parts| == 1 {
      assert parts[0] in parts;
    }
  }

  /* ---- Decimal numbers ---- */

  predicate IsDigit(c: char) {
    '0' <= c <= '9'
  }

  function Digit(n: nat): (c: char)
    requires n < 10
    ensures IsDigit(c)
  {
    '0' + n as char
  }

  function Digits(n: nat): (s: string)
    ensures s != ""
    ensures forall c | c in s :: IsDigit(c)
  {
    if n < 10 then [Digit(n)] else Digits(n / 10) + [Digit(n % 10)]
  }

  // fmt's %d and strconv.Itoa.
  function Itoa(n: int): (s: string)
    ensures s != ""
    ensures forall c | c in s :: IsDigit(c) || c == '-'
  {
    if n < 0 then "-" + Digits(-n) else Digits(n)
  }

  function ReadDigits(s: string): (r: Option<nat>)
    ensures r.Some? ==> s != "" && forall c | c in s :: IsDigit(c)
  {
    if s == "" then None
    else
      var last := s[|s| - 1];
      if !IsDigit(last) then None
      else if |s| == 1 then Some((last - '0') as nat)
      else
        var high :- ReadDigits(s[..|s| - 1]);
        Some(10 * high + (last - '0') as nat)
  }

  // strconv.Atoi: an optional sign, at least one digit, and no overflow.
  function Atoi(s: string): (r: Option<Int64>)
    ensures r.Some? ==> s != "" && forall c | c in s :: IsDigit(c) || c == '+' || c == '-'
  {
    var signed := s != "" && (s[0] == '-' || s[0] == '+');
    var magnitude :- ReadDigits(if signed then s[1..] else s);
    var n: int := if signed && s[0] == '-' then -(magnitude as int) else magnitude;
    assert forall c | c in s :: c == s[0] || c in s[1..];
    if MIN_INT64 <= n <= MAX_INT64 then Some(n) else None
  }

  lemma {:induction false} ReadDigitsDigits(n: nat)
    ensures ReadDigits(Digits(n)) == Some(n)
  {
    var s := Digits(n);
    if n >= 10 {
      assert s[..|s| - 1] == Digits(n / 10);
      ReadDigitsDigits(n / 10);
    }
  }

  lemma AtoiItoa(n: Int64)
    ensures Atoi(Itoa(n)) == Some(n)
  {
    if n < 0 {
      var magnitude: nat := -(n as int);
      ReadDigitsDigits(magnitude);
      assert Itoa(n)[1..] == Digits(magnitude);
    } else {
      ReadDigitsDigits(n);
      assert Itoa(n)[0] in Digits(n);
    }
  }

  /* ---- The order of Go strings ---- */

  predicate Before(a: string, b: string) {
    b != "" && (a == "" || a[0] < b[0] || (a[0] == b[0] && Before(a[1..], b[1..])))
  }

  lemma {:induction false} BeforeTotal(a: string, b: string)
    ensures a == b || Before(a, b) || Before(b, a)
  {
    if a != "" && b != "" && a[0] == b[0] {
      BeforeTotal(a[1..], b[1..]);
      assert a == [a[0]] + a[1..] && b == [b[0]] + b[1..];
    }
  }

  lemma {:induction false} BeforeTransitive(a: string, b: string, c: string)
    requires Before(a, b) && Before(b, c)
    ensures Before(a, c)
  {
    if a != "" && a[0] == b[0] == c[0] {
      BeforeTransitive(a[1..], b[1..], c[1..]);
    }
  }

  lemma {:induction false} BeforeIrreflexive(a: string)
    ensures !Before(a, a)
  {
    if a != "" {
      BeforeIrreflexive(a[1..]);
    }
  }

  // The first difference decides, and a prefix comes first.
  lemma {:induction false} BeforeMeans(a: string, b: string)
    ensures Before(a, b) <==>
      exists i: nat :: i <= |a| && i < |b| && a[..i] == b[..i] && (i == |a| || a[i] < b[i])
  {
    assert forall i: nat | 0 < i <= |a| && i < |b| :: a[..i] == b[..i] ==> a[..i][0] == b[..i][0];
    if a != "" && b != "" && a[0] == b[0] {
      BeforeMeans(a[1..], b[1..]);
      if Before(a, b) {
        var i: nat :| i <= |a| - 1 && i < |b| - 1 && a[1..][..i] == b[1..][..i]
                      && (i == |a| - 1 || a[1..][i] < b[1..][i]);
        assert a[..i + 1] == [a[0]] + a[1..][..i] && b[..i + 1] == [b[0]] + b[1..][..i];
      }
      if i: nat :| i <= |a| && i < |b| && a[..i] == b[..i] && (i == |a| || a[i] < b[i]) {
        assert i > 0;
        assert a[1..][..i - 1] == a[..i][1..] && b[1..][..i - 1] == b[..i][1..];
      }
    } else if Before(a, b) {
      assert a[..0] == b[..0];
    }
  }
}
