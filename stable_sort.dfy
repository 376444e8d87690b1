/** A stable sort driven by a comparator, as `Array.prototype.toSorted` and
    `Array.prototype.sort` are: `leq(a, b)` stands for `compare(a, b) <= 0`,
    and an element is moved in front of an earlier one only when the
    comparator puts it strictly first.  For a consistent comparator (one
    whose `leq` is a total preorder) the stable sorted permutation is unique
    (`SortByUnique`), so this insertion sort describes the result of any
    stable engine sort. */
module StableSort {

  import opened Seqs

  ghost predicate Total<T(!new)>(leq: (T, T) -> bool) {
    forall a, b :: leq(a, b) || leq(b, a)
  }

  ghost predicate Transitive<T(!new)>(leq: (T, T) -> bool) {
    forall a, b, c :: leq(a, b) && leq(b, c) ==> leq(a, c)
  }

  ghost predicate TotalPreorder<T(!new)>(leq: (T, T) -> bool) {
    Total(leq) && Transitive(leq)
  }

  ghost predicate Sorted<T>(s: seq<T>, leq: (T, T) -> bool) {
    forall i, j :: 0 <= i < j < |s| ==> leq(s[i], s[j])
  }

  /** `a` and `b` compare as equal. */
  predicate Tied<T>(leq: (T, T) -> bool, a: T, b: T) {
    leq(a, b) && leq(b, a)
  }

  /** The elements of `s` that compare equal to `p`, in their order in `s`:
      stability says a sort keeps each of these runs as it was. */
  function TiedWith<T>(s: seq<T>, leq: (T, T) -> bool, p: T): seq<T>
  {
    if s == [] then []
    else TiedWith(s[..|s| - 1], leq, p) + if Tied(leq, s[|s| - 1], p) then [s[|s| - 1]] else []
  }

  /** Inserts `x`, which came after every element of `r` in the input, behind
      every element of `r` that it does not strictly precede. */
  function InsertLast<T>(r: seq<T>, x: T, leq: (T, T) -> bool): (res: seq<T>)
    ensures |res| == |r| + 1
  {
    if r == [] then [x]
    else if leq(r[|r| - 1], x) then r + [x]
    else InsertLast(r[..|r| - 1], x, leq) + [r[|r| - 1]]
  }

  /** The sorted copy of `s`: each element in turn inserted into the sorted
      prefix before it. */
  function SortBy<T>(s: seq<T>, leq: (T, T) -> bool): (res: seq<T>)
    ensures |res| == |s|
  {
    if s == [] then [] else InsertLast(SortBy(s[..|s| - 1], leq), s[|s| - 1], leq)
  }

  lemma {:induction false} InsertLastPermutes<T>(r: seq<T>, x: T, leq: (T, T) -> bool)
    ensures multiset(InsertLast(r, x, leq)) == multiset(r) + multiset{x}
    decreases |r|
  {
    if r != [] && !leq(r[|r| - 1], x) {
      InsertLastPermutes(r[..|r| - 1], x, leq);
      assert r == r[..|r| - 1] + [r[|r| - 1]];
    }
  }

  /** The result of `SortBy` is a permutation of its input. */
  lemma {:induction false} SortByPermutes<T>(s: seq<T>, leq: (T, T) -> bool)
    ensures multiset(SortBy(s, leq)) == multiset(s)
    decreases |s|
  {
    if s != [] {
      SortByPermutes(s[..|s| - 1], leq);
      InsertLastPermutes(SortBy(s[..|s| - 1], leq), s[|s| - 1], leq);
      assert s == s[..|s| - 1] + [s[|s| - 1]];
    }
  }

  lemma {:induction false} InsertLastSorted<T(!new)>(r: seq<T>, x: T, leq: (T, T) -> bool)
    requires TotalPreorder(leq) && Sorted(r, leq)
    ensures Sorted(InsertLast(r, x, leq), leq)
    decreases |r|
  {
    if r != [] {
      var last := r[|r| - 1];
      if leq(last, x) {
        var res := r + [x];
        forall i, j | 0 <= i < j < |res| ensures leq(res[i], res[j]) {
          if j == |r| && i < |r| - 1 {
            assert leq(r[i], last);
          }
        }
      } else {
        var front := r[..|r| - 1];
        assert Sorted(front, leq);
        InsertLastSorted(front, x, leq);
        var ins := InsertLast(front, x, leq);
        InsertLastPermutes(front, x, leq);
        assert leq(x, last);
        forall e | e in ins ensures leq(e, last) {
          assert e in multiset(ins);
          if e != x {
            assert e in multiset(front);
            var k :| 0 <= k < |front| && front[k] == e;
            assert leq(r[k], r[|r| - 1]);
          }
        }
        var res := ins + [last];
        forall i, j | 0 <= i < j < |res| ensures leq(res[i], res[j]) {
          if j == |ins| {
            assert res[i] == ins[i] && ins[i] in ins;
          }
        }
      }
    }
  }

  /** The result of `SortBy` is ordered by `leq`. */
  lemma {:induction false} SortBySorted<T(!new)>(s: seq<T>, leq: (T, T) -> bool)
    requires TotalPreorder(leq)
    ensures Sorted(SortBy(s, leq), leq)
    decreases |s|
  {
    if s != [] {
      SortBySorted(s[..|s| - 1], leq);
      InsertLastSorted(SortBy(s[..|s| - 1], leq), s[|s| - 1], leq);
    }
  }

  lemma {:induction false} TiedWithAppend<T>(s: seq<T>, x: T, leq: (T, T) -> bool, p: T)
    ensures TiedWith(s + [x], leq, p) == TiedWith(s, leq, p) + if Tied(leq, x, p) then [x] else []
  {
    assert (s + [x])[..|s|] == s;
  }

  lemma {:induction false} InsertLastTied<T(!new)>(r: seq<T>, x: T, leq: (T, T) -> bool, p: T)
    requires TotalPreorder(leq)
    ensures TiedWith(InsertLast(r, x, leq), leq, p) == TiedWith(r, leq, p) + if Tied(leq, x, p) then [x] else []
    decreases |r|
  {
    if r == [] {
      TiedWithAppend([], x, leq, p);
      assert [] + [x] == [x];
    } else {
      var last := r[|r| - 1];
      var front := r[..|r| - 1];
      assert r == front + [last];
      if leq(last, x) {
        TiedWithAppend(r, x, leq, p);
      } else {
        var ins := InsertLast(front, x, leq);
        assert InsertLast(r, x, leq) == ins + [last];
        InsertLastTied(front, x, leq, p);
        TiedWithAppend(ins, last, leq, p);
        TiedWithAppend(front, last, leq, p);
        var tf := TiedWith(front, leq, p);
        if Tied(leq, x, p) {
          // x and last cannot both tie with p, or leq(last, x) would follow
          assert !Tied(leq, last, p);
          assert TiedWith(ins, leq, p) == tf + [x];
          assert TiedWith(r, leq, p) == tf;
        } else {
          assert TiedWith(ins, leq, p) == tf;
        }
      }
    }
  }

  /** Stability: every run of mutually tied elements keeps its input order. */
  lemma {:induction false} SortByStable<T(!new)>(s: seq<T>, leq: (T, T) -> bool, p: T)
    requires TotalPreorder(leq)
    ensures TiedWith(SortBy(s, leq), leq, p) == TiedWith(s, leq, p)
    decreases |s|
  {
    if s != [] {
      var front := s[..|s| - 1];
      SortByStable(front, leq, p);
      InsertLastTied(SortBy(front, leq), s[|s| - 1], leq, p);
    }
  }

  /** A sequence that is already in order is left as it is; in particular
      sorting twice is sorting once, and a comparator that ties everything
      (the `return 0` fallback) leaves every sequence unchanged. */
  lemma {:induction false} SortBySortedIsIdentity<T>(s: seq<T>, leq: (T, T) -> bool)
    requires Sorted(s, leq)
    ensures SortBy(s, leq) == s
    decreases |s|
  {
    if s != [] {
      var front := s[..|s| - 1];
      assert Sorted(front, leq);
      SortBySortedIsIdentity(front, leq);
      if |front| > 0 {
        assert leq(front[|front| - 1], s[|s| - 1]);
      }
      assert front + [s[|s| - 1]] == s;
    }
  }

  lemma SortByIdempotent<T(!new)>(s: seq<T>, leq: (T, T) -> bool)
    requires TotalPreorder(leq)
    ensures SortBy(SortBy(s, leq), leq) == SortBy(s, leq)
  {
    SortBySorted(s, leq);
    SortBySortedIsIdentity(SortBy(s, leq), leq);
  }

  /** `InsertLast` puts `x` right after the last element of `r` that does not
      strictly follow it. */
  lemma {:induction false} InsertLastSplit<T>(r: seq<T>, k: nat, x: T, leq: (T, T) -> bool)
    requires k <= |r| && (k == 0 || leq(r[k - 1], x))
    requires forall j :: k <= j < |r| ==> !leq(r[j], x)
    ensures InsertLast(r, x, leq) == r[..k] + [x] + r[k..]
    decreases |r|
  {
    if k < |r| {
      var last := r[|r| - 1];
      var front := r[..|r| - 1];
      assert InsertLast(r, x, leq) == InsertLast(front, x, leq) + [last] by {
        assert !leq(last, x);
      }
      assert InsertLast(front, x, leq) == front[..k] + [x] + front[k..] by {
        assert k > 0 ==> front[k - 1] == r[k - 1];
        assert forall j :: k <= j < |front| ==> front[j] == r[j];
        InsertLastSplit(front, k, x, leq);
      }
      assert front[..k] + [x] + front[k..] + [last] == r[..k] + [x] + r[k..] by {
        assert front[..k] == r[..k];
        assert front[k..] + [last] == r[k..];
      }
    } else {
      assert r[..k] == r && r[k..] == [];
    }
  }

  /** One pass of insertion sort: `a[i]` is shifted left past the elements
      of the sorted prefix `a[..i]` that the comparator puts strictly after
      it. */
  method InsertAt<T>(a: array<T>, i: nat, leq: (T, T) -> bool)
    requires i < a.Length
    modifies a
    ensures a[..i + 1] == InsertLast(old(a[..i]), old(a[i]), leq)
    ensures a[i + 1..] == old(a[i + 1..])
  {
    var x := a[i];
    ghost var r := a[..i];
    var k := i;
    while k > 0 && !leq(a[k - 1], x)
      invariant 0 <= k <= i
      invariant forall j :: 0 <= j < k ==> a[j] == r[j]
      invariant forall j :: k < j <= i ==> a[j] == r[j - 1]
      invariant forall j :: i < j < a.Length ==> a[j] == old(a[j])
      invariant forall j :: k <= j < i ==> !leq(r[j], x)
    {
      a[k] := a[k - 1];
      k := k - 1;
    }
    InsertLastSplit(r, k, x, leq);
    a[k] := x;
    ShiftedInsert(a[..], r, k, x, i);
  }

  /** After the shift, the first `i + 1` cells hold `r` with `x` at `k`. */
  lemma ShiftedInsert<T>(b: seq<T>, r: seq<T>, k: nat, x: T, i: nat)
    requires |r| == i && k <= i < |b| && b[k] == x
    requires forall j :: 0 <= j < k ==> b[j] == r[j]
    requires forall j :: k < j <= i ==> b[j] == r[j - 1]
    ensures b[..i + 1] == r[..k] + [x] + r[k..]
  {
    var want := r[..k] + [x] + r[k..];
    forall j | 0 <= j <= i
      ensures b[j] == want[j]
    {
      if j < k {
        assert want[j] == r[j];
      } else if k < j {
        assert want[j] == r[k..][j - k - 1] == r[j - 1];
      }
    }
  }

  /** In-place insertion sort of an array, as `.sort` runs on the array it is
      called on. */
  method SortInPlace<T>(a: array<T>, leq: (T, T) -> bool)
    modifies a
    ensures a[..] == SortBy(old(a[..]), leq)
  {
    ghost var input := a[..];
    var i := 0;
    while i < a.Length
      invariant 0 <= i <= a.Length
      invariant a[..i] == SortBy(input[..i], leq)
      invariant a[i..] == input[i..]
    {
      ghost var before := a[..];
      assert before[..i] == SortBy(input[..i], leq);
      assert before[i] == before[i..][0] == input[i];
      assert before[i + 1..] == before[i..][1..];
      InsertAt(a, i, leq);
      assert input[..i + 1][..i] == input[..i];
      assert SortBy(input[..i + 1], leq) == InsertLast(SortBy(input[..i], leq), input[i], leq);
      assert a[i + 1..] == input[i + 1..];
      i := i + 1;
    }
    assert a[..] == a[..a.Length] && input == input[..a.Length];
  }

  lemma {:induction false} TiedWithConcat<T>(a: seq<T>, b: seq<T>, leq: (T, T) -> bool, p: T)
    ensures TiedWith(a + b, leq, p) == TiedWith(a, leq, p) + TiedWith(b, leq, p)
    decreases |b|
  {
    if b == [] {
      assert a + b == a;
    } else {
      var front, y := b[..|b| - 1], b[|b| - 1];
      assert a + b == (a + front) + [y];
      assert b == front + [y];
      TiedWithConcat(a, front, leq, p);
      TiedWithAppend(a + front, y, leq, p);
      TiedWithAppend(front, y, leq, p);
    }
  }

  /** Reversing a sequence reverses each of its runs of tied elements. */
  lemma {:induction false} TiedWithReverse<T>(s: seq<T>, leq: (T, T) -> bool, p: T)
    ensures TiedWith(Reverse(s), leq, p) == Reverse(TiedWith(s, leq, p))
    decreases |s|
  {
    if s != [] {
      var rest := s[1..];
      var t := if Tied(leq, s[0], p) then [s[0]] else [];
      TiedWithReverse(rest, leq, p);
      TiedWithAppend(Reverse(rest), s[0], leq, p);
      assert s == [s[0]] + rest;
      TiedWithConcat([s[0]], rest, leq, p);
      TiedWithAppend([], s[0], leq, p);
      assert [] + [s[0]] == [s[0]];
      ReverseConcat(t, TiedWith(rest, leq, p));
      assert Reverse(t) == t;
    }
  }

  lemma {:induction false} TiedWithElements<T>(s: seq<T>, leq: (T, T) -> bool, p: T)
    ensures forall x :: x in TiedWith(s, leq, p) ==> x in s && Tied(leq, x, p)
    decreases |s|
  {
    if s != [] {
      var front := s[..|s| - 1];
      TiedWithElements(front, leq, p);
      assert forall x :: x in front ==> x in s;
    }
  }

  /** `TiedWith` depends on a comparator only through what it ties with `p`. */
  lemma {:induction false} TiedWithSameTies<T>(s: seq<T>, leq1: (T, T) -> bool, leq2: (T, T) -> bool, p: T)
    requires forall x :: Tied(leq1, x, p) == Tied(leq2, x, p)
    ensures TiedWith(s, leq1, p) == TiedWith(s, leq2, p)
    decreases |s|
  {
    if s != [] {
      TiedWithSameTies(s[..|s| - 1], leq1, leq2, p);
    }
  }

  /** In a sorted sequence every element is at most the last one. */
  lemma AtMostLast<T(!new)>(a: seq<T>, y: T, leq: (T, T) -> bool)
    requires TotalPreorder(leq) && Sorted(a, leq) && y in a
    ensures leq(y, a[|a| - 1])
  {
    var k :| 0 <= k < |a| && a[k] == y;
    if k == |a| - 1 {
      assert leq(y, y) || leq(y, y);
    }
  }

  /** If two sequences end in elements tied with the last one of `a`, and
      their runs tied with it agree, they end in the same element. */
  lemma SameLastTied<T>(a: seq<T>, b: seq<T>, leq: (T, T) -> bool)
    requires a != [] && b != []
    requires Tied(leq, a[|a| - 1], a[|a| - 1]) && Tied(leq, b[|b| - 1], a[|a| - 1])
    requires TiedWith(a, leq, a[|a| - 1]) == TiedWith(b, leq, a[|a| - 1])
    ensures a[|a| - 1] == b[|b| - 1]
  {
    var t := TiedWith(a, leq, a[|a| - 1]);
    assert t[|t| - 1] == a[|a| - 1];
  }

  lemma MultisetDropLast<T>(a: seq<T>)
    requires a != []
    ensures multiset(a[..|a| - 1]) == multiset(a) - multiset{a[|a| - 1]}
  {
    assert a == a[..|a| - 1] + [a[|a| - 1]];
  }

  lemma TiedWithDropLast<T>(a: seq<T>, b: seq<T>, leq: (T, T) -> bool, p: T)
    requires a != [] && b != [] && a[|a| - 1] == b[|b| - 1]
    requires TiedWith(a, leq, p) == TiedWith(b, leq, p)
    ensures TiedWith(a[..|a| - 1], leq, p) == TiedWith(b[..|b| - 1], leq, p)
  {
    var ta, tb := TiedWith(a[..|a| - 1], leq, p), TiedWith(b[..|b| - 1], leq, p);
    var t := if Tied(leq, a[|a| - 1], p) then [a[|a| - 1]] else [];
    assert ta == (ta + t)[..|ta|] && tb == (tb + t)[..|tb|];
  }

  /** Two sequences that are permutations of each other, sorted by the
      same total preorder and with the same runs of tied elements, end with
      the same element, each being at least everything in the other. */
  lemma SameLast<T(!new)>(a: seq<T>, b: seq<T>, leq: (T, T) -> bool)
    requires TotalPreorder(leq)
    requires Sorted(a, leq) && Sorted(b, leq)
    requires a != [] && multiset(a) == multiset(b)
    requires forall p :: TiedWith(a, leq, p) == TiedWith(b, leq, p)
    ensures b != [] && a[|a| - 1] == b[|b| - 1]
  {
    var x := a[|a| - 1];
    assert x in multiset(b);
    var y := b[|b| - 1];
    assert y in multiset(a);
    AtMostLast(a, y, leq);
    AtMostLast(b, x, leq);
    assert leq(x, x) || leq(x, x);
    SameLastTied(a, b, leq);
  }

  /** Dropping that common last element keeps all four premises. */
  lemma DropLast<T(!new)>(a: seq<T>, b: seq<T>, leq: (T, T) -> bool) returns (fa: seq<T>, fb: seq<T>)
    requires Sorted(a, leq) && Sorted(b, leq)
    requires a != [] && b != [] && a[|a| - 1] == b[|b| - 1]
    requires multiset(a) == multiset(b)
    requires forall p :: TiedWith(a, leq, p) == TiedWith(b, leq, p)
    ensures fa == a[..|a| - 1] && fb == b[..|b| - 1]
    ensures Sorted(fa, leq) && Sorted(fb, leq)
    ensures multiset(fa) == multiset(fb)
    ensures forall p :: TiedWith(fa, leq, p) == TiedWith(fb, leq, p)
  {
    fa, fb := a[..|a| - 1], b[..|b| - 1];
    MultisetDropLast(a);
    MultisetDropLast(b);
    forall p
      ensures TiedWith(fa, leq, p) == TiedWith(fb, leq, p)
    {
      TiedWithDropLast(a, b, leq, p);
    }
  }

  /** There is only one stable sorted permutation: two sequences that are
      ordered by the same total preorder, hold the same elements and list
      every run of tied elements in the same order are equal. */
  lemma {:induction false} SortedPermutationUnique<T(!new)>(a: seq<T>, b: seq<T>, leq: (T, T) -> bool)
    requires TotalPreorder(leq)
    requires Sorted(a, leq) && Sorted(b, leq)
    requires multiset(a) == multiset(b)
    requires forall p :: TiedWith(a, leq, p) == TiedWith(b, leq, p)
    ensures a == b
    decreases |a|
  {
    assert |a| == |multiset(a)| == |multiset(b)| == |b|;
    if a != [] {
      SameLast(a, b, leq);
      var fa, fb := DropLast(a, b, leq);
      SortedPermutationUnique(fa, fb, leq);
      assert a == fa + [a[|a| - 1]];
      assert b == fb + [b[|b| - 1]];
    }
  }

  /** Any stable sort agrees with `SortBy`: a sequence that is ordered by a
      total preorder, a permutation of `s` and keeps each run of tied
      elements of `s` in order is `SortBy(s, leq)`. */
  lemma SortByUnique<T(!new)>(s: seq<T>, r: seq<T>, leq: (T, T) -> bool)
    requires TotalPreorder(leq)
    requires Sorted(r, leq) && multiset(r) == multiset(s)
    requires forall p :: TiedWith(r, leq, p) == TiedWith(s, leq, p)
    ensures r == SortBy(s, leq)
  {
    SortBySorted(s, leq);
    SortByPermutes(s, leq);
    forall p
      ensures TiedWith(r, leq, p) == TiedWith(SortBy(s, leq), leq, p)
    {
      SortByStable(s, leq, p);
    }
    SortedPermutationUnique(r, SortBy(s, leq), leq);
  }

  /** Sorting by the converse comparator gives the reverse order, provided
      no two different elements of `s` tie. */
  lemma SortByConverse<T(!new)>(s: seq<T>, leq: (T, T) -> bool, geq: (T, T) -> bool)
    requires TotalPreorder(leq)
    requires forall a, b :: geq(a, b) == leq(b, a)
    requires forall a, b :: a in s && b in s && Tied(leq, a, b) ==> a == b
    ensures SortBy(s, geq) == Reverse(SortBy(s, leq))
  {
    var n := SortBy(s, leq);
    var r := Reverse(n);
    assert TotalPreorder(geq);
    SortBySorted(s, leq);
    assert Sorted(r, geq) by {
      forall i, j | 0 <= i < j < |r| ensures geq(r[i], r[j]) {
        assert leq(n[|n| - 1 - j], n[|n| - 1 - i]);
      }
    }
    SortByPermutes(s, leq);
    ReversePermutes(n);
    forall p
      ensures TiedWith(r, geq, p) == TiedWith(s, geq, p)
    {
      assert forall x :: Tied(leq, x, p) == Tied(geq, x, p);
      TiedWithSameTies(r, leq, geq, p);
      TiedWithReverse(n, leq, p);
      SortByStable(s, leq, p);
      TiedWithSameTies(s, leq, geq, p);
      var t := TiedWith(s, leq, p);
      TiedWithElements(s, leq, p);
      assert forall i, j :: 0 <= i < |t| && 0 <= j < |t| ==> t[i] == t[j] by {
        forall i, j | 0 <= i < |t| && 0 <= j < |t| ensures t[i] == t[j] {
          assert t[i] in t && t[j] in t;
          assert Tied(leq, t[i], t[j]);
        }
      }
      ReverseConstant(t);
    }
    SortByUnique(s, r, geq);
  }
}
