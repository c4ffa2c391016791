/** Sequence operations shared by the model: JavaScript's `Array.prototype.filter`,
    the set-like list updates on stored id lists, and concatenation of chunks. */
module Seqs {

  /** `s.filter(p)`: the elements of `s` that satisfy `p`, in their original order. */
  function Filter<T>(p: T -> bool, s: seq<T>): (r: seq<T>)
    ensures |r| <= |s|
    ensures forall x :: x in r ==> x in s && p(x)
    ensures forall x :: x in s && p(x) ==> x in r
  {
    if s == [] then [] else (if p(s[0]) then [s[0]] else []) + Filter(p, s[1..])
  }

  /** Filtering distributes over concatenation: survivors keep their input order. */
  lemma {:induction false} FilterAppend<T>(p: T -> bool, a: seq<T>, b: seq<T>)
    ensures Filter(p, a + b) == Filter(p, a) + Filter(p, b)
  {
    if a == [] {
      assert a + b == b;
    } else {
      assert (a + b)[1..] == a[1..] + b;
      FilterAppend(p, a[1..], b);
    }
  }

  /** Filtering keeps every copy of an accepted element and no copy of a rejected one. */
  lemma {:induction false} FilterCount<T>(p: T -> bool, s: seq<T>, x: T)
    ensures multiset(Filter(p, s))[x] == if p(x) then multiset(s)[x] else 0
  {
    if s != [] {
      FilterCount(p, s[1..], x);
      assert s == [s[0]] + s[1..];
    }
  }

  /** A filter that accepts every element is the identity. */
  lemma {:induction false} FilterAll<T>(p: T -> bool, s: seq<T>)
    requires forall x :: x in s ==> p(x)
    ensures Filter(p, s) == s
  {
    if s != [] {
      FilterAll(p, s[1..]);
    }
  }

  /** Two predicates that agree on the elements of `s` filter it alike. */
  lemma {:induction false} FilterCongruent<T>(p: T -> bool, q: T -> bool, s: seq<T>)
    requires forall x :: x in s ==> p(x) == q(x)
    ensures Filter(p, s) == Filter(q, s)
  {
    if s != [] {
      FilterCongruent(p, q, s[1..]);
    }
  }

  /** Filtering twice is filtering once by the conjunction `r` of the two predicates. */
  lemma {:induction false} FilterFilter<T>(p: T -> bool, q: T -> bool, r: T -> bool, s: seq<T>)
    requires forall x :: x in s ==> r(x) == (p(x) && q(x))
    ensures Filter(q, Filter(p, s)) == Filter(r, s)
  {
    if s != [] {
      FilterFilter(p, q, r, s[1..]);
      var head := if p(s[0]) then [s[0]] else [];
      FilterAppend(q, head, Filter(p, s[1..]));
    }
  }

  /** A predicate and its complement split a list between them. */
  lemma {:induction false} FilterSplit<T>(p: T -> bool, q: T -> bool, s: seq<T>)
    requires forall x :: x in s ==> q(x) == !p(x)
    ensures |Filter(p, s)| + |Filter(q, s)| == |s|
  {
    if s != [] {
      FilterSplit(p, q, s[1..]);
    }
  }

  /** Membership in a filtered list, for an element of the list. */
  lemma FilterMember<T>(p: T -> bool, s: seq<T>, x: T)
    requires x in s
    ensures x in Filter(p, s) <==> p(x)
  {
  }

  /** A one-element list is kept or dropped whole. */
  lemma FilterSingleton<T>(p: T -> bool, x: T)
    ensures Filter(p, [x]) == if p(x) then [x] else []
  {
    assert [x][1..] == [];
  }

  /** `s.findIndex(p)`: the first position whose element satisfies `p`, or -1. */
  function FindIndex<T>(p: T -> bool, s: seq<T>): (r: int)
    ensures -1 <= r < |s|
    ensures r >= 0 ==> p(s[r]) && forall j :: 0 <= j < r ==> !p(s[j])
    ensures r < 0 ==> forall j :: 0 <= j < |s| ==> !p(s[j])
  {
    if s == [] then -1
    else if p(s[0]) then 0
    else
      var k := FindIndex(p, s[1..]);
      if k < 0 then -1 else k + 1
  }

  /** `findLastIndex`: the last position whose element satisfies `p`, or -1. */
  function FindLastIndex<T>(p: T -> bool, s: seq<T>): (r: int)
    ensures -1 <= r < |s|
    ensures r >= 0 ==> p(s[r]) && forall j :: r < j < |s| ==> !p(s[j])
    ensures r < 0 ==> forall j :: 0 <= j < |s| ==> !p(s[j])
  {
    if s == [] then -1
    else if p(s[|s| - 1]) then |s| - 1
    else FindLastIndex(p, s[..|s| - 1])
  }

  /** The first match in a concatenation is the first match in the front part, if it has one. */
  lemma {:induction false} FindIndexAppend<T>(p: T -> bool, a: seq<T>, b: seq<T>)
    ensures FindIndex(p, a + b) ==
      if FindIndex(p, a) >= 0 then FindIndex(p, a)
      else if FindIndex(p, b) >= 0 then |a| + FindIndex(p, b)
      else -1
  {
    if a == [] {
      assert a + b == b;
    } else if !p(a[0]) {
      assert (a + b)[1..] == a[1..] + b;
      FindIndexAppend(p, a[1..], b);
    }
  }

  /** No element occurs twice. */
  predicate NoDup<T(==)>(s: seq<T>)
  {
    forall i, j :: 0 <= i < j < |s| ==> s[i] != s[j]
  }

  /** `[...s, x]` unless `s.includes(x)`: the guarded push of `hideClass`/`hideAssignment`. */
  function AddIfAbsent<T(==)>(s: seq<T>, x: T): (r: seq<T>)
    ensures x in s ==> r == s
    ensures x !in s ==> r == s + [x]
  {
    if x in s then s else s + [x]
  }

  /** A guarded push keeps a duplicate-free list duplicate-free, and the element is then present. */
  lemma AddIfAbsentNoDup<T>(s: seq<T>, x: T)
    ensures x in AddIfAbsent(s, x)
    ensures NoDup(s) ==> NoDup(AddIfAbsent(s, x))
  {
    if x !in s && NoDup(s) {
      var r := s + [x];
      forall i, j | 0 <= i < j < |r| ensures r[i] != r[j] {
        if j == |s| {
          assert r[i] == s[i];
        }
      }
    }
  }

  /** `s.filter(y => y !== x)`. */
  function Without<T(==)>(s: seq<T>, x: T): (r: seq<T>)
    ensures x !in r
    ensures forall y :: y in r ==> y in s
    ensures forall y :: y in s && y != x ==> y in r
    ensures |r| <= |s|
  {
    if s == [] then [] else (if s[0] == x then [] else [s[0]]) + Without(s[1..], x)
  }

  /** Removal takes out every copy of `x` and leaves the count of every other element alone. */
  lemma {:induction false} WithoutCount<T>(s: seq<T>, x: T)
    ensures multiset(Without(s, x)) == multiset(s)[x := 0]
  {
    if s != [] {
      WithoutCount(s[1..], x);
      assert s == [s[0]] + s[1..];
    }
  }

  /** Removal keeps the relative order of what remains. */
  lemma {:induction false} WithoutAppend<T>(a: seq<T>, b: seq<T>, x: T)
    ensures Without(a + b, x) == Without(a, x) + Without(b, x)
  {
    if a == [] {
      assert a + b == b;
    } else {
      assert (a + b)[1..] == a[1..] + b;
      WithoutAppend(a[1..], b, x);
    }
  }

  /** Removing twice is removing once. */
  lemma {:induction false} WithoutIdempotent<T>(s: seq<T>, x: T)
    ensures Without(Without(s, x), x) == Without(s, x)
  {
    if s != [] {
      WithoutIdempotent(s[1..], x);
      var head := if s[0] == x then [] else [s[0]];
      WithoutAppend(head, Without(s[1..], x), x);
    }
  }

  /** A list that does not hold `x` is unchanged by removing `x`. */
  lemma {:induction false} WithoutAbsent<T>(s: seq<T>, x: T)
    requires x !in s
    ensures Without(s, x) == s
  {
    if s != [] {
      WithoutAbsent(s[1..], x);
    }
  }

  /** Adding `x` and then removing it is removing it: the round trip forgets whether `x`
      was there before. */
  lemma WithoutAddIfAbsent<T>(s: seq<T>, x: T)
    ensures Without(AddIfAbsent(s, x), x) == Without(s, x)
  {
    if x !in s {
      WithoutAppend(s, [x], x);
      assert [x][1..] == [];
    }
  }

  /** Concatenation of a list of chunks. */
  function Concat<T>(ws: seq<seq<T>>): (r: seq<T>)
  {
    if ws == [] then [] else ws[0] + Concat(ws[1..])
  }

  /** Appending a chunk appends its elements. */
  lemma {:induction false} ConcatSnoc<T>(ws: seq<seq<T>>, w: seq<T>)
    ensures Concat(ws + [w]) == Concat(ws) + w
  {
    if ws == [] {
      assert ws + [w] == [w];
    } else {
      assert (ws + [w])[1..] == ws[1..] + [w];
      ConcatSnoc(ws[1..], w);
    }
  }

  function Min(a: int, b: int): int { if a < b then a else b }
}
