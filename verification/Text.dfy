/** Text operations of the host language's standard library that the modelled code relies on:
    decimal printing of unsigned integers, searching, splitting and joining. */
module Text {

  const CRLF := "\r\n"

  predicate IsDigit(c: char) { '0' <= c <= '9' }

  predicate AllDigits(s: string) { forall i | 0 <= i < |s| :: IsDigit(s[i]) }

  function DigitOf(d: nat): (c: char)
    requires d < 10
    ensures IsDigit(c)
  {
    '0' + d as char
  }

  /** Decimal text of a natural number, as the `%v` and `%d` verbs print an unsigned integer. */
  function Dec(n: nat): (s: string)
    ensures |s| >= 1 && AllDigits(s)
  {
    if n < 10 then [DigitOf(n)] else Dec(n / 10) + [DigitOf(n % 10)]
  }

  /** The number a run of digits stands for. */
  function Value(s: string): nat
    requires AllDigits(s)
  {
    if s == "" then 0 else 10 * Value(s[..|s| - 1]) + (s[|s| - 1] - '0') as nat
  }

  lemma {:induction false} DecValue(n: nat)
    ensures Value(Dec(n)) == n
  {
    if n < 10 {
      assert Dec(n)[..0] == "";
    } else {
      DecValue(n / 10);
      var s := Dec(n);
      assert s[..|s| - 1] == Dec(n / 10);
    }
  }

  /** Decimal digits, the most significant first. */
  lemma DecShifts(n: nat, d: nat)
    requires d < 10
    ensures Dec(d) == ["0123456789"[d]]
    ensures n > 0 ==> Dec(10 * n + d) == Dec(n) + Dec(d)
  {
    assert (10 * n + d) / 10 == n && (10 * n + d) % 10 == d;
    assert "0123456789"[d] == '0' + d as char;
  }

  lemma DecInjective(m: nat, n: nat)
    requires Dec(m) == Dec(n)
    ensures m == n
  {
    DecValue(m);
    DecValue(n);
  }

  /** A text splits in only one way at its last occurrence of a separator character. */
  lemma LastSeparator(a: string, x: string, b: string, y: string, c: char)
    requires a + [c] + x == b + [c] + y
    requires c !in x && c !in y
    ensures a == b && x == y
  {
    var s, t := a + [c] + x, b + [c] + y;
    assert t[|b|] == c && s[|a|] == c;
    assert s[|b|] == c && t[|a|] == c;
    assert |a| == |b|;
    assert a == s[..|a|] && b == t[..|b|];
    assert x == s[|a| + 1..] && y == t[|b| + 1..];
  }

  /** A text splits in only one way at its first occurrence of a separator character. */
  lemma FirstSeparator(a: string, x: string, b: string, y: string, c: char)
    requires a + [c] + x == b + [c] + y
    requires c !in a && c !in b
    ensures a == b && x == y
  {
    var s, t := a + [c] + x, b + [c] + y;
    assert t[|b|] == c && s[|a|] == c;
    assert s[|b|] == c && t[|a|] == c;
    assert |a| == |b|;
    assert a == s[..|a|] && b == t[..|b|];
    assert x == s[|a| + 1..] && y == t[|b| + 1..];
  }

  /** `sep` occurs in `s` at position `i`. */
  predicate OccursAt(s: string, sep: string, i: nat)
  {
    i + |sep| <= |s| && s[i..i + |sep|] == sep
  }

  /** Position of the first occurrence of `sep`, or the length of `s` when there is none. */
  function Index(s: string, sep: string): (i: nat)
    requires sep != ""
    ensures i <= |s| && (i < |s| ==> i + |sep| <= |s|)
  {
    IndexFrom(s, sep, 0)
  }

  function IndexFrom(s: string, sep: string, from: nat): (i: nat)
    requires sep != "" && from <= |s|
    ensures i <= |s| && (i < |s| ==> i + |sep| <= |s|)
    decreases |s| - from
  {
    if from == |s| || OccursAt(s, sep, from) then from else IndexFrom(s, sep, from + 1)
  }

  lemma {:induction false} IndexFromIsFirst(s: string, sep: string, from: nat)
    requires sep != "" && from <= |s|
    ensures var i := IndexFrom(s, sep, from);
            && from <= i
            && (i < |s| ==> OccursAt(s, sep, i))
            && forall j: nat | from <= j < i :: !OccursAt(s, sep, j)
    decreases |s| - from
  {
    if from < |s| && !OccursAt(s, sep, from) {
      IndexFromIsFirst(s, sep, from + 1);
    }
  }

  lemma IndexIsFirst(s: string, sep: string)
    requires sep != ""
    ensures var i := Index(s, sep);
            && (i < |s| ==> OccursAt(s, sep, i))
            && forall j: nat | j < i :: !OccursAt(s, sep, j)
  {
    IndexFromIsFirst(s, sep, 0);
  }

  lemma IndexIs(s: string, sep: string, i: nat)
    requires sep != "" && i <= |s| && (i < |s| ==> OccursAt(s, sep, i))
    requires forall j: nat | j < i :: !OccursAt(s, sep, j)
    ensures Index(s, sep) == i
  {
    IndexIsFirst(s, sep);
  }

  /** `strings.Split` for a non-empty separator. */
  function Split(s: string, sep: string): (parts: seq<string>)
    requires sep != ""
    ensures parts != []
    decreases |s|
  {
    var i := Index(s, sep);
    if i == |s| then [s] else [s[..i]] + Split(s[i + |sep|..], sep)
  }

  /** `strings.Join`. */
  function Join(parts: seq<string>, sep: string): string
  {
    if parts == [] then ""
    else if |parts| == 1 then parts[0]
    else parts[0] + sep + Join(parts[1..], sep)
  }

  /** The first separator of `p + sep` is the one that follows `p`. */
  predicate Separable(p: string, sep: string)
    requires sep != ""
  {
    Index(p + sep, sep) == |p|
  }

  lemma IndexHead(p: string, rest: string, sep: string)
    requires sep != "" && Separable(p, sep)
    ensures Index(p + sep + rest, sep) == |p|
  {
    var s := p + sep + rest;
    IndexIsFirst(p + sep, sep);
    assert s[|p|..|p| + |sep|] == sep;
    forall j: nat | j < |p| ensures !OccursAt(s, sep, j) {
      assert !OccursAt(p + sep, sep, j);
      assert s[j..j + |sep|] == (p + sep)[j..j + |sep|];
    }
    IndexIs(s, sep, |p|);
  }

  /** What comes before the first separator is separable. */
  lemma HeadSeparable(s: string, sep: string)
    requires sep != "" && Index(s, sep) < |s|
    ensures Separable(s[..Index(s, sep)], sep)
    ensures s == s[..Index(s, sep)] + sep + s[Index(s, sep) + |sep|..]
  {
    var k := Index(s, sep);
    IndexIsFirst(s, sep);
    var t := s[..k] + sep;
    assert s[k..k + |sep|] == sep && t == s[..k + |sep|];
    forall j: nat | j < k ensures !OccursAt(t, sep, j) {
      assert !OccursAt(s, sep, j);
      assert t[j..j + |sep|] == s[j..j + |sep|];
    }
    assert t[k..k + |sep|] == sep;
    IndexIs(t, sep, k);
  }

  /** A text up to its first separator, and the rest. */
  lemma SplitHead(p: string, rest: string, sep: string)
    requires sep != "" && Separable(p, sep)
    ensures Split(p + sep + rest, sep) == [p] + Split(rest, sep)
  {
    var s := p + sep + rest;
    IndexHead(p, rest, sep);
    assert s[..|p|] == p && s[|p| + |sep|..] == rest;
  }

  lemma SplitWhole(p: string, sep: string)
    requires sep != "" && Separable(p, sep)
    ensures Split(p, sep) == [p]
  {
    var i := Index(p, sep);
    IndexIsFirst(p, sep);
    IndexIsFirst(p + sep, sep);
    if i < |p| {
      assert p[i..i + |sep|] == (p + sep)[i..i + |sep|];
      assert OccursAt(p + sep, sep, i);
    }
  }

  /** Splitting undoes joining when no part produces a separator of its own. */
  lemma {:induction false} SplitJoin(parts: seq<string>, sep: string)
    requires sep != "" && parts != []
    requires forall p | p in parts :: Separable(p, sep)
    ensures Split(Join(parts, sep), sep) == parts
    decreases |parts|
  {
    if |parts| == 1 {
      SplitWhole(parts[0], sep);
    } else {
      SplitHead(parts[0], Join(parts[1..], sep), sep);
      SplitJoin(parts[1..], sep);
      assert parts == [parts[0]] + parts[1..];
    }
  }

  /** Joining undoes splitting, for every text. */
  lemma {:induction false} JoinSplit(s: string, sep: string)
    requires sep != ""
    ensures Join(Split(s, sep), sep) == s
    decreases |s|
  {
    var i := Index(s, sep);
    IndexIsFirst(s, sep);
    if i < |s| {
      var rest := s[i + |sep|..];
      JoinSplit(rest, sep);
      var parts := Split(s, sep);
      assert parts[1..] == Split(rest, sep);
      assert s == s[..i] + s[i..i + |sep|] + rest;
    }
  }

  /** A part without the separator's first character is separable. */
  lemma FreeOfFirst(p: string, sep: string)
    requires sep != "" && sep[0] !in p
    ensures Separable(p, sep)
  {
    var s := p + sep;
    assert s[|p|..|p| + |sep|] == sep;
    forall j: nat | j < |p| ensures !OccursAt(s, sep, j) {
      assert s[j] == p[j] != sep[0];
      assert s[j..j + |sep|][0] == s[j];
    }
    IndexIs(s, sep, |p|);
  }

  predicate Holds(s: string, sep: string)
    requires sep != ""
  {
    Index(s, sep) < |s|
  }

  lemma NotHeld(s: string, sep: string)
    requires sep != "" && forall j: nat | j < |s| :: !OccursAt(s, sep, j)
    ensures !Holds(s, sep)
  {
    IndexIs(s, sep, |s|);
  }

  lemma NeverOccurs(s: string, sep: string, j: nat)
    requires sep != "" && !Holds(s, sep)
    ensures !OccursAt(s, sep, j)
  {
    IndexIsFirst(s, sep);
  }

  /** A separator of two different characters cannot straddle the end of a text. */
  lemma TwoCharacters(s: string, sep: string)
    requires |sep| == 2 && sep[0] != sep[1] && !Holds(s, sep)
    ensures Separable(s, sep) && Split(s, sep) == [s]
  {
    var t := s + sep;
    forall j: nat | j < |s| ensures !OccursAt(t, sep, j) {
      NeverOccurs(s, sep, j);
      if j + 2 <= |s| {
        assert t[j..j + 2] == s[j..j + 2];
      } else {
        assert t[j..j + 2][1] == sep[0];
      }
    }
    assert t[|s|..|s| + 2] == sep;
    IndexIs(t, sep, |s|);
  }
}
