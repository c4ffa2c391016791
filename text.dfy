/** String operations the extension relies on: `Number.prototype.toString` on
    non-negative integer ids, `String.prototype.split` on one separator character,
    `String.prototype.startsWith`, and template-literal rendering of a value that
    may be `undefined`. */
module Text {
  import opened Types

  function DigitChar(d: nat): (c: char)
    requires d < 10
    ensures '0' <= c <= '9'
  {
    ['0', '1', '2', '3', '4', '5', '6', '7', '8', '9'][d]
  }

  /** Decimal rendering of a non-negative integer, without sign or leading zeros. */
  function NatToString(n: nat): (r: string)
    ensures |r| >= 1
    ensures forall c :: c in r ==> '0' <= c <= '9'
  {
    if n < 10 then [DigitChar(n)] else NatToString(n / 10) + [DigitChar(n % 10)]
  }

  /** A decimal rendering never holds the separator `-`. */
  lemma NatToStringHasNoDash(n: nat)
    ensures '-' !in NatToString(n)
  {
  }

  /** Different digits render as different characters. */
  lemma DigitCharInjective(d: nat, e: nat)
    requires d < 10 && e < 10 && DigitChar(d) == DigitChar(e)
    ensures d == e
  {
  }

  /** Different numbers render differently: the decimal rendering is injective. */
  lemma {:induction false} NatToStringInjective(m: nat, n: nat)
    requires NatToString(m) == NatToString(n)
    ensures m == n
  {
    var s := NatToString(m);
    // a one-digit number is exactly one whose rendering has length one
    assert (m < 10 <==> |s| == 1) && (n < 10 <==> |s| == 1);
    if m < 10 {
      DigitCharInjective(m, n);
    } else {
      assert s[|s| - 1] == DigitChar(m % 10) && s[|s| - 1] == DigitChar(n % 10);
      DigitCharInjective(m % 10, n % 10);
      assert s[..|s| - 1] == NatToString(m / 10) && s[..|s| - 1] == NatToString(n / 10);
      NatToStringInjective(m / 10, n / 10);
    }
  }

  /** The piece after the last separator is determined by the whole string. */
  lemma LastPieceDetermined(p1: string, d1: string, p2: string, d2: string, d: char)
    requires d !in d1 && d !in d2 && p1 + [d] + d1 == p2 + [d] + d2
    ensures d1 == d2
  {
    var s := p1 + [d] + d1;
    // the separator sits just before either tail, and never inside one
    assert s[|p1|] == d && s[|p2|] == d;
    assert forall i :: |p1| + 1 <= i < |s| ==> s[i] == d1[i - |p1| - 1];
    assert forall i :: |p2| + 1 <= i < |s| ==> s[i] == d2[i - |p2| - 1];
    assert d1 == s[|s| - |d1|..];
    assert d2 == s[|s| - |d2|..];
  }

  /** `s.split(d)`: the maximal pieces of `s` between occurrences of `d` (`"".split(d)` is `[""]`). */
  function Split(s: string, d: char): (r: seq<string>)
    ensures |r| >= 1
    ensures forall piece :: piece in r ==> d !in piece
  {
    if s == [] then [[]]
    else if s[0] == d then [[]] + Split(s[1..], d)
    else
      var rest := Split(s[1..], d);
      [[s[0]] + rest[0]] + rest[1..]
  }

  /** A string without the separator splits into itself. */
  lemma {:induction false} SplitNoSeparator(a: string, d: char)
    requires d !in a
    ensures Split(a, d) == [a]
  {
    if a != [] {
      SplitNoSeparator(a[1..], d);
      assert [a[0]] + a[1..] == a;
    }
  }

  /** Splitting `a + d + b`, when `a` has no separator, yields `a` followed by the pieces of `b`. */
  lemma {:induction false} SplitJoin(a: string, d: char, b: string)
    requires d !in a
    ensures Split(a + [d] + b, d) == [a] + Split(b, d)
  {
    var s := a + [d] + b;
    if a == [] {
      assert s == [d] + b;
      assert s[1..] == b;
    } else {
      assert s[0] == a[0];
      assert s[1..] == a[1..] + [d] + b;
      SplitJoin(a[1..], d, b);
      assert [a[0]] + a[1..] == a;
    }
  }

  predicate StartsWith(s: string, prefix: string)
  {
    |prefix| <= |s| && s[..|prefix|] == prefix
  }

  /** `${x}` for a value that is a string or `undefined`. */
  function Render(x: Option<string>): string
  {
    match x
    case Some(v) => v
    case None => "undefined"
  }

  /** `parts[k]`, which is `undefined` past the end. */
  function At(parts: seq<string>, k: nat): (r: Option<string>)
    ensures r.Some? <==> k < |parts|
    ensures k < |parts| ==> r == Some(parts[k])
  {
    if k < |parts| then Some(parts[k]) else None
  }
}
