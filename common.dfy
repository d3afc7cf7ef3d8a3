/** Small value types shared by every module of the model. */
module Common {

  datatype Option<+T> = None | Some(value: T)

  /** The outcome of an operation that the source may abandon with a thrown error. */
  datatype Result<+T> = Ok(value: T) | Err(error: string)

  /** The source's thrown errors, for operations that return nothing. */
  datatype Outcome = Pass | Fail(error: string)

  function Reverse<T>(s: seq<T>): (r: seq<T>)
    ensures |r| == |s|
    ensures forall i :: 0 <= i < |s| ==> r[i] == s[|s| - 1 - i]
  {
    if s == [] then [] else Reverse(s[1..]) + [s[0]]
  }

  lemma ReverseReverse<T>(s: seq<T>)
    ensures Reverse(Reverse(s)) == s
  {
    var r := Reverse(Reverse(s));
    assert |r| == |s|;
    forall i | 0 <= i < |s| ensures r[i] == s[i] {
    }
  }

  lemma ReverseMultiset<T>(s: seq<T>)
    ensures multiset(Reverse(s)) == multiset(s)
  {
    if s != [] {
      ReverseMultiset(s[1..]);
      assert s == [s[0]] + s[1..];
    }
  }

  lemma ReverseMembership<T>(s: seq<T>, x: T)
    ensures x in Reverse(s) <==> x in s
  {
    ReverseMultiset(s);
    assert x in Reverse(s) <==> x in multiset(Reverse(s));
  }

  /** No value occurs twice. */
  predicate NoDup<T(==)>(s: seq<T>) {
    forall i, j :: 0 <= i < j < |s| ==> s[i] != s[j]
  }

  /** The elements of s that satisfy f, in their original order. */
  function Filter<T>(s: seq<T>, f: T -> bool): (r: seq<T>)
    ensures |r| <= |s|
    ensures forall i :: 0 <= i < |r| ==> f(r[i]) && r[i] in s
    ensures forall i :: 0 <= i < |s| && f(s[i]) ==> s[i] in r
  {
    if s == [] then []
    else (if f(s[0]) then [s[0]] else []) + Filter(s[1..], f)
  }

  /** Filtering distributes over concatenation, so it keeps relative order. */
  lemma {:induction false} FilterConcat<T>(a: seq<T>, b: seq<T>, f: T -> bool)
    ensures Filter(a + b, f) == Filter(a, f) + Filter(b, f)
  {
    if a == [] {
      assert a + b == b;
    } else {
      assert (a + b)[1..] == a[1..] + b;
      FilterConcat(a[1..], b, f);
    }
  }

  /** Filtering a non-empty sequence: the filtered front, then the last element when it passes. */
  lemma FilterSnoc<T>(s: seq<T>, f: T -> bool)
    requires s != []
    ensures Filter(s, f) == Filter(s[..|s| - 1], f) + (if f(s[|s| - 1]) then [s[|s| - 1]] else [])
  {
    var init, last := s[..|s| - 1], s[|s| - 1];
    assert s == init + [last];
    FilterConcat(init, [last], f);
    assert [last][1..] == [];
  }

  /** Filtering a sequence none of whose elements fail the test yields the sequence itself. */
  lemma {:induction false} FilterAll<T>(s: seq<T>, f: T -> bool)
    requires forall i :: 0 <= i < |s| ==> f(s[i])
    ensures Filter(s, f) == s
  {
    if s != [] {
      FilterAll(s[1..], f);
    }
  }

  /** Filtering by f and then by g is filtering once by a test that asks both. */
  lemma {:induction false} FilterFilter<T>(s: seq<T>, f: T -> bool, g: T -> bool, h: T -> bool)
    requires forall x :: h(x) == (f(x) && g(x))
    ensures Filter(Filter(s, f), g) == Filter(s, h)
  {
    if s != [] {
      FilterFilter(s[1..], f, g, h);
      var front := if f(s[0]) then [s[0]] else [];
      FilterConcat(front, Filter(s[1..], f), g);
      if f(s[0]) {
        assert Filter(front, g) == (if g(s[0]) then [s[0]] else []) by { assert front[1..] == []; }
      }
    }
  }

  /** Filtering keeps the whole sequence exactly when every element passes the test. */
  lemma {:induction false} FilterKeepsAll<T>(s: seq<T>, f: T -> bool)
    ensures |Filter(s, f)| == |s| <==> forall i :: 0 <= i < |s| ==> f(s[i])
  {
    if s != [] {
      FilterKeepsAll(s[1..], f);
      if forall i :: 0 <= i < |s| ==> f(s[i]) {
        FilterAll(s, f);
      } else if f(s[0]) {
        var i :| 0 <= i < |s| && !f(s[i]);
        assert !f(s[1..][i - 1]);
      }
    }
  }

  /** The elements of a that do not occur in b, in a's order. */
  function Difference<T(==, !new)>(a: seq<T>, b: seq<T>): (r: seq<T>)
    ensures forall x :: x in r <==> x in a && x !in b
    ensures |r| <= |a|
  {
    Filter(a, x => x !in b)
  }

  /** The first occurrence of every value, in order of first occurrence (an ordered set). */
  function Dedup<T(==, !new)>(s: seq<T>): (r: seq<T>)
    ensures NoDup(r)
    ensures forall x :: x in r <==> x in s
    ensures |r| <= |s|
  {
    if s == [] then []
    else
      var d := Dedup(s[..|s| - 1]);
      assert forall x :: x in s <==> x in s[..|s| - 1] || x == s[|s| - 1] by {
        assert s == s[..|s| - 1] + [s[|s| - 1]];
      }
      if s[|s| - 1] in d then d else d + [s[|s| - 1]]
  }

  /** The largest value of a non-empty sequence. */
  function MaxOf(xs: seq<int>): (m: int)
    requires |xs| > 0
    ensures m in xs
    ensures forall i :: 0 <= i < |xs| ==> xs[i] <= m
  {
    if |xs| == 1 then xs[0]
    else
      var rest := MaxOf(xs[1..]);
      if xs[0] >= rest then xs[0] else rest
  }

  /** The values of a sequence, as a set. */
  function Elems<T(!new)>(s: seq<T>): (r: set<T>)
    ensures forall x :: x in r <==> x in s
  {
    set x | x in s
  }

  /** A sequence without repeats has as many distinct values as entries. */
  lemma {:induction false} NoDupCard<T(!new)>(s: seq<T>)
    requires NoDup(s)
    ensures |Elems(s)| == |s|
  {
    if s != [] {
      var t := s[..|s| - 1];
      assert NoDup(t);
      NoDupCard(t);
      assert Elems(s) == Elems(t) + {s[|s| - 1]};
      assert s[|s| - 1] !in Elems(t);
    }
  }

  /** Filtering keeps a sequence free of repeats. */
  lemma {:induction false} FilterNoDup<T>(s: seq<T>, f: T -> bool)
    requires NoDup(s)
    ensures NoDup(Filter(s, f))
  {
    if s != [] {
      assert NoDup(s[1..]);
      FilterNoDup(s[1..], f);
      assert s[0] !in s[1..];
    }
  }

  /** Taking out of a repeat-free sequence a repeat-free part of it leaves exactly the rest. */
  lemma DifferenceCard<T(!new)>(a: seq<T>, b: seq<T>)
    requires NoDup(a) && NoDup(b) && forall x :: x in b ==> x in a
    ensures NoDup(Difference(a, b))
    ensures |Difference(a, b)| + |b| == |a|
  {
    var d := Difference(a, b);
    FilterNoDup(a, x => x !in b);
    NoDupCard(a);
    NoDupCard(b);
    NoDupCard(d);
    assert Elems(a) == Elems(d) + Elems(b);
    assert Elems(d) * Elems(b) == {};
  }

  /** A subset is no larger than the set that holds it. */
  lemma SubsetCard<T>(a: set<T>, b: set<T>)
    requires a <= b
    ensures |a| <= |b|
  {
    assert b == a + (b - a);
    assert a * (b - a) == {};
  }

  /** Concatenation is associative. */
  lemma ConcatAssoc<T>(a: seq<T>, b: seq<T>, c: seq<T>)
    ensures a + (b + c) == (a + b) + c
  {
  }

  /** A concatenation with a non-empty head starts with the head's first element, followed by the rest. */
  lemma ConcatTail<T>(a: seq<T>, b: seq<T>)
    requires a != []
    ensures (a + b)[0] == a[0] && (a + b)[1..] == a[1..] + b
  {
  }

  /** Two adjacent slices make up the slice that spans both. */
  lemma SliceConcat<T>(s: seq<T>, a: nat, b: nat, c: nat)
    requires a <= b <= c <= |s|
    ensures s[a..b] + s[b..c] == s[a..c]
  {
  }

  /** A non-empty slice is its first element followed by the rest. */
  lemma SliceCons<T>(s: seq<T>, a: nat, c: nat)
    requires a < c <= |s|
    ensures s[a..c] == [s[a]] + s[a + 1..c]
  {
  }

  /** What a concatenation holds, one of its parts holds. */
  lemma InConcat<T>(x: T, a: seq<T>, b: seq<T>)
    ensures x in a + b <==> x in a || x in b
  {
  }

  /** Reversing a concatenation reverses the order of the parts. */
  lemma ReverseConcat<T>(a: seq<T>, b: seq<T>)
    ensures Reverse(a + b) == Reverse(b) + Reverse(a)
  {
    var l, r := Reverse(a + b), Reverse(b) + Reverse(a);
    forall i | 0 <= i < |l| ensures l[i] == r[i] {
      if i < |b| {
        assert l[i] == (a + b)[|a| + |b| - 1 - i];
      } else {
        assert r[i] == Reverse(a)[i - |b|];
      }
    }
  }

  /** Reversing, splicing a reversed run in at a cut and reversing back splices the run in at the mirrored cut. */
  lemma SpliceReversed<T>(xs: seq<T>, run: seq<T>, c: nat)
    requires c <= |xs|
    ensures Reverse(Reverse(xs)[..c] + Reverse(run) + Reverse(xs)[c..]) == xs[..|xs| - c] + run + xs[|xs| - c..]
  {
    var lo, hi := xs[..|xs| - c], xs[|xs| - c..];
    var a, b := Reverse(xs)[..c], Reverse(xs)[c..];
    ReverseSlices(xs, c);
    ReverseReverse(lo);
    ReverseReverse(hi);
    ReverseReverse(run);
    ReverseConcat(a + Reverse(run), b);
    ReverseConcat(a, Reverse(run));
    ConcatAssoc(lo, run, hi);
  }

  lemma ReverseSlices<T>(xs: seq<T>, c: nat)
    requires c <= |xs|
    ensures Reverse(xs)[..c] == Reverse(xs[|xs| - c..])
    ensures Reverse(xs)[c..] == Reverse(xs[..|xs| - c])
  {
    var lo, hi := xs[..|xs| - c], xs[|xs| - c..];
    SplitAt(xs, |xs| - c);
    ReverseConcat(lo, hi);
    var rl, rh := Reverse(lo), Reverse(hi);
    assert Reverse(xs) == rh + rl;
    ConcatParts(rh, rl);
  }

  /** A sequence is its prefix followed by the rest. */
  lemma SplitAt<T>(xs: seq<T>, k: nat)
    requires k <= |xs|
    ensures xs == xs[..k] + xs[k..]
  {
  }

  /** A concatenation cut where its parts meet gives back the parts. */
  lemma ConcatParts<T>(a: seq<T>, b: seq<T>)
    ensures (a + b)[..|a|] == a && (a + b)[|a|..] == b
  {
  }

  /** Two repeat-free sequences with no value in common concatenate to a repeat-free sequence. */
  lemma NoDupConcat<T>(a: seq<T>, b: seq<T>)
    requires NoDup(a) && NoDup(b) && forall x :: x in a ==> x !in b
    ensures NoDup(a + b)
  {
    var c := a + b;
    forall i, j | 0 <= i < j < |c| ensures c[i] != c[j] {
      if i < |a| && j >= |a| {
        assert c[i] in a && c[j] == b[j - |a|];
      }
    }
  }

  /** The decimal digits of a natural number, most significant first, as JavaScript's String() writes it. */
  function NatToString(n: nat): (r: string)
    ensures |r| > 0 && forall i :: 0 <= i < |r| ==> '0' <= r[i] <= '9'
    ensures |r| > 1 ==> r[0] != '0'
    decreases n
  {
    if n < 10 then [Digit(n)] else NatToString(n / 10) + [Digit(n % 10)]
  }

  function Digit(d: nat): (c: char)
    requires d < 10
    ensures '0' <= c <= '9' && c as int - '0' as int == d
  {
    ((d + '0' as int) as char)
  }

  /** The number a string of decimal digits denotes. */
  function DigitsValue(s: string): nat
    requires forall i :: 0 <= i < |s| ==> '0' <= s[i] <= '9'
  {
    if s == [] then 0 else DigitsValue(s[..|s| - 1]) * 10 + (s[|s| - 1] as int - '0' as int)
  }

  /** Reading back the digits gives the number. */
  lemma {:induction false} NatToStringValue(n: nat)
    ensures DigitsValue(NatToString(n)) == n
    decreases n
  {
    if n >= 10 {
      var s := NatToString(n);
      assert s[..|s| - 1] == NatToString(n / 10);
      NatToStringValue(n / 10);
    }
  }

  /** Two numbers with the same digits are the same number. */
  lemma NatToStringInjective(m: nat, n: nat)
    requires NatToString(m) == NatToString(n)
    ensures m == n
  {
    NatToStringValue(m);
    NatToStringValue(n);
  }

  /** An integer as String() writes it: a minus sign before the digits of a negative one. */
  function IntToString(i: int): (r: string)
    ensures i >= 0 ==> r == NatToString(i)
    ensures i < 0 ==> r == "-" + NatToString(-i)
  {
    if i >= 0 then NatToString(i) else "-" + NatToString(-i)
  }

  /** A string of decimal digits with no leading zero (the string "0" aside). */
  predicate Canonical(s: string) {
    && |s| > 0
    && (forall i :: 0 <= i < |s| ==> '0' <= s[i] <= '9')
    && (|s| > 1 ==> s[0] != '0')
  }

  /** A digit string that starts with a non-zero digit denotes a positive number. */
  lemma {:induction false} LeadingDigitPositive(s: string)
    requires |s| > 0 && (forall i :: 0 <= i < |s| ==> '0' <= s[i] <= '9') && s[0] != '0'
    ensures DigitsValue(s) >= 1
    decreases |s|
  {
    if |s| > 1 {
      LeadingDigitPositive(s[..|s| - 1]);
    }
  }

  /** Writing back the number a canonical digit string denotes gives the string. */
  lemma {:induction false} DigitsValueString(s: string)
    requires Canonical(s)
    ensures NatToString(DigitsValue(s)) == s
    decreases |s|
  {
    var n := DigitsValue(s);
    if |s| > 1 {
      var init := s[..|s| - 1];
      assert init[0] == s[0];
      LeadingDigitPositive(init);
      DigitsValueString(init);
      assert n / 10 == DigitsValue(init) && n % 10 == s[|s| - 1] as int - '0' as int;
      assert s == init + [s[|s| - 1]];
    } else {
      assert s == [s[0]];
    }
  }

  /** The strings NatToString writes are exactly the canonical digit strings. */
  lemma NatToStringCanonical(n: nat)
    ensures Canonical(NatToString(n))
  {
  }
}
