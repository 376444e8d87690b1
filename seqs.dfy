/** Sequence vocabulary shared by the components: duplicate freedom, ordered
    subsequences, `[...new Set(xs)]` and `xs.filter(x => x !== v)`. */
module Seqs {

  predicate NoDup<T(==,!new)>(s: seq<T>) {
    forall i, j :: 0 <= i < j < |s| ==> s[i] != s[j]
  }

  /** `r` is `s` with some elements left out and the rest in their order. */
  predicate IsSubseq<T(==,!new)>(r: seq<T>, s: seq<T>)
    decreases |s|
  {
    if r == [] then true
    else if s == [] then false
    else if r[0] == s[0] then IsSubseq(r[1..], s[1..])
    else IsSubseq(r, s[1..])
  }

  lemma {:induction false} SubseqBounds<T(!new)>(r: seq<T>, s: seq<T>)
    requires IsSubseq(r, s)
    ensures |r| <= |s|
    ensures forall x :: x in r ==> x in s
    decreases |s|
  {
    if r != [] {
      if r[0] == s[0] {
        SubseqBounds(r[1..], s[1..]);
        assert forall x :: x in r ==> x == r[0] || x in r[1..];
      } else {
        SubseqBounds(r, s[1..]);
      }
    }
  }

  lemma {:induction false} SubseqSkip<T(!new)>(r: seq<T>, x: T, s: seq<T>)
    requires IsSubseq(r, s)
    ensures IsSubseq(r, [x] + s)
    decreases |s|, 1
  {
    var xs := [x] + s;
    assert xs[1..] == s;
    if r != [] && r[0] == x {
      SubseqSuffix(r, s);
      SubseqSkip(r[1..], s[0], s[1..]);
      assert [s[0]] + s[1..] == s;
    }
  }

  /** A subsequence of `s` (after its first match) is a subsequence of the
      tail of `s` with the head dropped from `r`. */
  lemma {:induction false} SubseqSuffix<T(!new)>(r: seq<T>, s: seq<T>)
    requires r != [] && IsSubseq(r, s)
    ensures s != [] && IsSubseq(r[1..], s[1..])
    decreases |s|, 0
  {
    if r[0] != s[0] {
      assert IsSubseq(r, s[1..]);
      if |s| > 1 {
        SubseqSuffix(r, s[1..]);
        SubseqSkip(r[1..], s[1], s[2..]);
        assert [s[1]] + s[2..] == s[1..];
      } else {
        assert false;
      }
    }
  }

  /** `[...new Set(s)]`: every distinct element once, in the order of its
      first occurrence. */
  function Distinct<T(==,!new)>(s: seq<T>): (r: seq<T>)
    ensures NoDup(r)
    ensures forall x :: x in r <==> x in s
  {
    if s == [] then []
    else
      var prefix := s[..|s| - 1];
      var r := Distinct(prefix);
      assert s == prefix + [s[|s| - 1]];
      if s[|s| - 1] in r then r else r + [s[|s| - 1]]
  }

  /** `s.filter(y => y !== x)`. */
  function RemoveAll<T(==,!new)>(s: seq<T>, x: T): (r: seq<T>)
    ensures forall y :: y in r <==> y in s && y != x
    ensures forall y :: multiset(r)[y] == if y == x then 0 else multiset(s)[y]
    ensures IsSubseq(r, s)
  {
    if s == [] then []
    else if s[0] == x then
      var r := RemoveAll(s[1..], x);
      SubseqSkip(r, s[0], s[1..]);
      assert [s[0]] + s[1..] == s;
      r
    else
      var r := RemoveAll(s[1..], x);
      assert ([s[0]] + r)[1..] == r;
      assert [s[0]] + s[1..] == s;
      [s[0]] + r
  }

  /** Removing an absent element changes nothing; so removal is idempotent. */
  lemma {:induction false} RemoveAbsent<T(!new)>(s: seq<T>, x: T)
    requires x !in s
    ensures RemoveAll(s, x) == s
  {
    if s != [] {
      RemoveAbsent(s[1..], x);
      assert [s[0]] + s[1..] == s;
    }
  }

  lemma RemoveAllIdempotent<T(!new)>(s: seq<T>, x: T)
    ensures RemoveAll(RemoveAll(s, x), x) == RemoveAll(s, x)
  {
    RemoveAbsent(RemoveAll(s, x), x);
  }

  lemma {:induction false} RemoveAllKeepsNoDup<T(!new)>(s: seq<T>, x: T)
    requires NoDup(s)
    ensures NoDup(RemoveAll(s, x))
  {
    if s != [] {
      var t := s[1..];
      assert NoDup(t);
      RemoveAllKeepsNoDup(t, x);
      if s[0] != x {
        assert s[0] !in t;
      }
    }
  }

  /** The elements of `s` in the opposite order. */
  function Reverse<T>(s: seq<T>): (r: seq<T>)
    ensures |r| == |s|
    ensures forall i :: 0 <= i < |s| ==> r[i] == s[|s| - 1 - i]
  {
    if s == [] then [] else Reverse(s[1..]) + [s[0]]
  }

  lemma ReverseConcat<T>(a: seq<T>, b: seq<T>)
    ensures Reverse(a + b) == Reverse(b) + Reverse(a)
  {
    var l, r := Reverse(a + b), Reverse(b) + Reverse(a);
    forall i | 0 <= i < |l| ensures l[i] == r[i] {
      if i < |b| {
        assert l[i] == (a + b)[|a| + |b| - 1 - i] == b[|b| - 1 - i];
      } else {
        assert l[i] == (a + b)[|a| + |b| - 1 - i] == a[|a| - 1 - (i - |b|)];
      }
    }
  }

  /** Reversing reorders the elements and nothing else. */
  lemma {:induction false} ReversePermutes<T>(s: seq<T>)
    ensures multiset(Reverse(s)) == multiset(s)
    decreases |s|
  {
    if s != [] {
      ReversePermutes(s[1..]);
      assert s == [s[0]] + s[1..];
    }
  }

  /** A sequence of copies of one value is its own reverse. */
  lemma ReverseConstant<T>(s: seq<T>)
    requires forall i, j :: 0 <= i < |s| && 0 <= j < |s| ==> s[i] == s[j]
    ensures Reverse(s) == s
  {
  }
}
