/**
 * Sequence operations the Python code gets from its standard library:
 * first match (`rows.iloc[0]` after a filter), order-preserving de-duplication
 * (`dict.fromkeys`, `Series.unique()`, a seen-set loop) and `sorted(set(xs))`
 * on strings (code-point lexicographic order).
 */
module Seqs {
  import opened Wrappers

  /** No element occurs twice. */
  predicate NoDup<T(==)>(xs: seq<T>) {
    forall i, j :: 0 <= i < j < |xs| ==> xs[i] != xs[j]
  }

  /** The index of the first element satisfying `p`, if there is one. */
  function FindFirst<T>(xs: seq<T>, p: T -> bool): (r: Option<nat>)
    ensures r.Some? ==> r.value < |xs| && p(xs[r.value])
    ensures r.Some? ==> forall j :: 0 <= j < r.value ==> !p(xs[j])
    ensures r.None? <==> forall j :: 0 <= j < |xs| ==> !p(xs[j])
  {
    if |xs| == 0 then None
    else if p(xs[0]) then Some(0)
    else match FindFirst(xs[1..], p)
      case None => None
      case Some(k) => Some(k + 1)
  }

  /** The elements satisfying `p`, in order. */
  function Filter<T(!new)>(xs: seq<T>, p: T -> bool): (r: seq<T>)
    ensures |r| <= |xs|
    ensures forall x :: x in r <==> x in xs && p(x)
  {
    if |xs| == 0 then []
    else (if p(xs[0]) then [xs[0]] else []) + Filter(xs[1..], p)
  }

  /** The non-empty strings of `xs`, in order (`[x for x in xs if x]`). */
  function NonEmpty(xs: seq<string>): (r: seq<string>)
    ensures |r| <= |xs|
    ensures forall x :: x in r <==> x in xs && x != ""
  {
    if |xs| == 0 then []
    else (if xs[0] != "" then [xs[0]] else []) + NonEmpty(xs[1..])
  }

  /** A subset is no larger than its superset. */
  lemma {:induction false} SubsetCard<T>(a: set<T>, b: set<T>)
    requires a <= b
    ensures |a| <= |b|
    decreases |a|
  {
    if a != {} {
      var x :| x in a;
      SubsetCard(a - {x}, b - {x});
    }
  }

  lemma FilterAppend<T(!new)>(xs: seq<T>, ys: seq<T>, p: T -> bool)
    ensures Filter(xs + ys, p) == Filter(xs, p) + Filter(ys, p)
  {
    if |xs| > 0 {
      assert (xs + ys)[1..] == xs[1..] + ys;
    } else {
      assert xs + ys == ys;
    }
  }

  /** A list holding two different elements has at least two entries. */
  lemma TwoDistinct<T>(s: seq<T>, x: T, y: T)
    requires x in s && y in s && x != y
    ensures |s| >= 2
  {
    var i :| 0 <= i < |s| && s[i] == x;
    var j :| 0 <= j < |s| && s[j] == y;
    assert i != j;
  }

  /** Filtering twice with the same predicate is filtering once. */
  lemma {:induction false} FilterIdempotent<T(!new)>(xs: seq<T>, p: T -> bool)
    ensures Filter(Filter(xs, p), p) == Filter(xs, p)
  {
    if |xs| > 0 {
      FilterIdempotent(xs[1..], p);
      var h := if p(xs[0]) then [xs[0]] else [];
      FilterAppend(h, Filter(xs[1..], p), p);
      assert Filter(h, p) == h by {
        if p(xs[0]) {
          assert Filter(h, p) == [xs[0]] + Filter(h[1..], p);
        }
      }
    }
  }

  /** Filtering a list extended by one element extends the filtered list by it when it passes. */
  lemma FilterSnoc<T(!new)>(xs: seq<T>, x: T, p: T -> bool)
    ensures Filter(xs + [x], p) == Filter(xs, p) + (if p(x) then [x] else [])
  {
    FilterAppend(xs, [x], p);
    assert Filter([x], p) == (if p(x) then [x] else []) + Filter([], p);
  }

  /** The concatenation of all lists (`itertools.chain.from_iterable`). */
  function Flatten<T(!new)>(xss: seq<seq<T>>): (r: seq<T>)
    ensures forall x :: x in r <==> exists k :: 0 <= k < |xss| && x in xss[k]
  {
    if |xss| == 0 then [] else xss[0] + Flatten(xss[1..])
  }

  /** Two duplicate-free lists with no common element concatenate to a duplicate-free list. */
  lemma NoDupAppend<T>(a: seq<T>, b: seq<T>)
    requires NoDup(a) && NoDup(b)
    requires forall x :: x in a ==> x !in b
    ensures NoDup(a + b)
  {
    forall i, j | 0 <= i < j < |a + b| ensures (a + b)[i] != (a + b)[j] {
      if i < |a| && j >= |a| {
        assert (a + b)[i] in a && (a + b)[j] == b[j - |a|];
      }
    }
  }

  /** Duplicate-free lists that pairwise share no element flatten to a duplicate-free list. */
  lemma {:induction false} FlattenNoDup<T(!new)>(xss: seq<seq<T>>)
    requires forall k :: 0 <= k < |xss| ==> NoDup(xss[k])
    requires forall k1, k2, x :: 0 <= k1 < k2 < |xss| && x in xss[k1] ==> x !in xss[k2]
    ensures NoDup(Flatten(xss))
  {
    if |xss| > 0 {
      var rest := xss[1..];
      assert forall k :: 0 <= k < |rest| ==> rest[k] == xss[k + 1];
      FlattenNoDup(rest);
      forall x | x in xss[0] ensures x !in Flatten(rest) {
        forall k | 0 <= k < |rest| ensures x !in rest[k] {
          assert rest[k] == xss[k + 1];
        }
      }
      NoDupAppend(xss[0], Flatten(rest));
    }
  }

  /** Dropping the empty strings keeps a list duplicate-free. */
  lemma {:induction false} NonEmptyNoDup(xs: seq<string>)
    requires NoDup(xs)
    ensures NoDup(NonEmpty(xs))
  {
    if |xs| > 0 {
      var tail := xs[1..];
      assert forall k :: 0 <= k < |tail| ==> tail[k] == xs[k + 1];
      NonEmptyNoDup(tail);
      forall x | x in NonEmpty(tail) ensures x != xs[0] {
        var k :| 0 <= k < |tail| && tail[k] == x;
        assert xs[k + 1] == x;
      }
      NoDupAppend(if xs[0] != "" then [xs[0]] else [], NonEmpty(tail));
    }
  }

  /**
   * First-seen de-duplication: each element is kept at its first occurrence.
   * Written as the source's loop is: one element at a time, appended unless
   * already kept.
   */
  function Dedup<T(==)>(xs: seq<T>): (r: seq<T>)
  {
    if |xs| == 0 then []
    else
      var d := Dedup(xs[..|xs| - 1]);
      if xs[|xs| - 1] in d then d else d + [xs[|xs| - 1]]
  }

  /** `Dedup` keeps every element once and nothing else. */
  lemma {:induction false} DedupSpec<T(!new)>(xs: seq<T>)
    ensures NoDup(Dedup(xs))
    ensures forall x :: x in Dedup(xs) <==> x in xs
    ensures |Dedup(xs)| <= |xs|
  {
    if |xs| > 0 {
      var init := xs[..|xs| - 1];
      DedupSpec(init);
      assert xs == init + [xs[|xs| - 1]];
    }
  }

  /** The position of the first occurrence of `x` in `xs`. */
  function FirstIndexOf<T(==)>(xs: seq<T>, x: T): (k: nat)
    requires x in xs
    ensures k < |xs| && xs[k] == x && x !in xs[..k]
  {
    if xs[0] == x then 0 else 1 + FirstIndexOf(xs[1..], x)
  }

  /**
   * `Dedup` keeps first-seen order: an element kept earlier was first seen
   * earlier in the input.
   */
  lemma {:induction false} DedupOrder<T(!new)>(xs: seq<T>, i: nat, j: nat)
    requires i < j < |Dedup(xs)|
    ensures Dedup(xs)[i] in xs && Dedup(xs)[j] in xs
    ensures FirstIndexOf(xs, Dedup(xs)[i]) < FirstIndexOf(xs, Dedup(xs)[j])
  {
    var init := xs[..|xs| - 1];
    var last := xs[|xs| - 1];
    var d := Dedup(init);
    DedupSpec(init);
    DedupSpec(xs);
    assert xs == init + [last];
    assert Dedup(xs) == if last in d then d else d + [last];
    var a, b := Dedup(xs)[i], Dedup(xs)[j];
    assert i < |d| && a == d[i];
    assert a in d;
    assert a in init;
    FirstIndexPrefix(init, last, a);
    if j < |d| {
      DedupOrder(init, i, j);
      FirstIndexPrefix(init, last, b);
    } else {
      assert b == last && last !in d;
      assert b !in init;
      assert FirstIndexOf(xs, b) == |init| by {
        assert xs[..|init|] == init;
      }
    }
  }

  /** Appending an element does not move the first occurrence of an element already present. */
  lemma {:induction false} FirstIndexPrefix<T>(init: seq<T>, last: T, x: T)
    requires x in init
    ensures x in init + [last]
    ensures FirstIndexOf(init + [last], x) == FirstIndexOf(init, x)
  {
    if init[0] != x {
      assert (init + [last])[1..] == init[1..] + [last];
      FirstIndexPrefix(init[1..], last, x);
    }
  }

  /** Python's `a <= b` on strings: code-point lexicographic order. */
  predicate LessEq(a: string, b: string) {
    |a| == 0 || (|b| > 0 && (a[0] < b[0] || (a[0] == b[0] && LessEq(a[1..], b[1..]))))
  }

  lemma {:induction false} LessEqTotal(a: string, b: string)
    ensures LessEq(a, b) || LessEq(b, a)
  {
    if |a| > 0 && |b| > 0 && a[0] == b[0] {
      LessEqTotal(a[1..], b[1..]);
    }
  }

  lemma {:induction false} LessEqAntisym(a: string, b: string)
    requires LessEq(a, b) && LessEq(b, a)
    ensures a == b
  {
    if |a| > 0 && |b| > 0 {
      LessEqAntisym(a[1..], b[1..]);
      assert a == [a[0]] + a[1..] && b == [b[0]] + b[1..];
    }
  }

  lemma {:induction false} LessEqTrans(a: string, b: string, c: string)
    requires LessEq(a, b) && LessEq(b, c)
    ensures LessEq(a, c)
  {
    if |a| > 0 && |b| > 0 && |c| > 0 && a[0] == b[0] && b[0] == c[0] {
      LessEqTrans(a[1..], b[1..], c[1..]);
    }
  }

  /** Every element is `<=` every later one. */
  predicate Sorted(xs: seq<string>) {
    forall i, j :: 0 <= i < j < |xs| ==> LessEq(xs[i], xs[j])
  }

  /** Insert `x` before the first element it is `<=` to. */
  function Insert(x: string, xs: seq<string>): seq<string> {
    if |xs| == 0 then [x]
    else if LessEq(x, xs[0]) then [x] + xs
    else [xs[0]] + Insert(x, xs[1..])
  }

  lemma SortedCons(h: string, t: seq<string>)
    requires Sorted(t)
    requires forall j :: 0 <= j < |t| ==> LessEq(h, t[j])
    ensures Sorted([h] + t)
  {
    var s := [h] + t;
    forall i, j | 0 <= i < j < |s| ensures LessEq(s[i], s[j]) {
      if i > 0 {
        assert s[i] == t[i - 1] && s[j] == t[j - 1];
      }
    }
  }

  /** Inserting into a sorted list keeps it sorted and adds exactly `x`. */
  lemma InsertSpec(x: string, xs: seq<string>)
    requires Sorted(xs)
    ensures Sorted(Insert(x, xs))
    ensures multiset(Insert(x, xs)) == multiset(xs) + multiset{x}
  {
    InsertSorted(x, xs);
    InsertMultiset(x, xs);
  }

  lemma {:induction false} InsertMultiset(x: string, xs: seq<string>)
    ensures multiset(Insert(x, xs)) == multiset(xs) + multiset{x}
  {
    if |xs| > 0 && !LessEq(x, xs[0]) {
      InsertMultiset(x, xs[1..]);
      assert xs == [xs[0]] + xs[1..];
    }
  }

  lemma {:induction false} InsertSorted(x: string, xs: seq<string>)
    requires Sorted(xs)
    ensures Sorted(Insert(x, xs))
  {
    if |xs| == 0 {
    } else if LessEq(x, xs[0]) {
      forall j | 0 <= j < |xs| ensures LessEq(x, xs[j]) {
        if j > 0 { LessEqTrans(x, xs[0], xs[j]); }
      }
      SortedCons(x, xs);
    } else {
      LessEqTotal(x, xs[0]);
      var tail := xs[1..];
      assert Sorted(tail) by {
        forall i, j | 0 <= i < j < |tail| ensures LessEq(tail[i], tail[j]) {
          assert tail[i] == xs[i + 1] && tail[j] == xs[j + 1];
        }
      }
      InsertSorted(x, tail);
      var rest := Insert(x, tail);
      InsertMembers(x, tail);
      forall j | 0 <= j < |rest| ensures LessEq(xs[0], rest[j]) {
        assert rest[j] in rest;
        InsertHeadBound(xs, x, rest[j]);
      }
      SortedCons(xs[0], rest);
    }
  }

  lemma {:induction false} InsertMembers(x: string, xs: seq<string>)
    ensures forall y :: y in Insert(x, xs) <==> y == x || y in xs
  {
    if |xs| > 0 && !LessEq(x, xs[0]) {
      InsertMembers(x, xs[1..]);
      assert xs == [xs[0]] + xs[1..];
    }
  }

  lemma InsertHeadBound(xs: seq<string>, x: string, y: string)
    requires Sorted(xs) && |xs| > 0 && LessEq(xs[0], x)
    requires y == x || y in xs[1..]
    ensures LessEq(xs[0], y)
  {
    if y != x {
      var k :| 0 <= k < |xs[1..]| && xs[1..][k] == y;
      assert xs[k + 1] == y;
    }
  }

  /** Insertion sort (`sorted(xs)`). */
  function Sort(xs: seq<string>): seq<string> {
    if |xs| == 0 then [] else Insert(xs[0], Sort(xs[1..]))
  }

  /** `Sort` returns a sorted permutation of its input. */
  lemma {:induction false} SortSpec(xs: seq<string>)
    ensures Sorted(Sort(xs))
    ensures multiset(Sort(xs)) == multiset(xs)
  {
    if |xs| > 0 {
      SortSpec(xs[1..]);
      InsertSpec(xs[0], Sort(xs[1..]));
      assert xs == [xs[0]] + xs[1..];
    }
  }

  /** `sorted(set(xs))`. */
  function SortedUnique(xs: seq<string>): (r: seq<string>)
    ensures Sorted(r) && NoDup(r)
    ensures forall x :: x in r <==> x in xs
  {
    var d := Dedup(xs);
    DedupSpec(xs);
    var r := Sort(d);
    SortSpec(d);
    assert forall x :: x in r <==> x in multiset(d);
    PermutationNoDup(d, r);
    r
  }

  /** A permutation of a duplicate-free list is duplicate-free. */
  lemma PermutationNoDup<T>(d: seq<T>, r: seq<T>)
    requires NoDup(d) && multiset(r) == multiset(d)
    ensures NoDup(r)
  {
    forall i, j | 0 <= i < j < |r| ensures r[i] != r[j] {
      if r[i] == r[j] {
        CountTwo(r, i, j);
        NoDupCount(d, r[i]);
      }
    }
  }

  /** A value at two positions occurs at least twice. */
  lemma CountTwo<T>(xs: seq<T>, i: nat, j: nat)
    requires i < j < |xs| && xs[i] == xs[j]
    ensures multiset(xs)[xs[i]] >= 2
  {
    assert xs == xs[..j] + xs[j..];
    assert xs[i] in xs[..j];
    assert xs[j] in xs[j..];
    assert multiset(xs) == multiset(xs[..j]) + multiset(xs[j..]);
  }

  /** In a duplicate-free list, each value occurs at most once. */
  lemma {:induction false} NoDupCount<T>(xs: seq<T>, x: T)
    requires NoDup(xs)
    ensures multiset(xs)[x] <= 1
  {
    if |xs| > 0 {
      assert xs == [xs[0]] + xs[1..];
      NoDupCount(xs[1..], x);
      if xs[0] == x {
        assert x !in xs[1..];
      }
    }
  }

  /**
   * `sorted(set(xs))` is determined by the set alone: any strictly increasing
   * list with the same elements is that list.
   */
  lemma {:induction false} SortedUniqueCanonical(s: seq<string>, xs: seq<string>)
    requires Sorted(s) && NoDup(s)
    requires forall x :: x in s <==> x in xs
    ensures s == SortedUnique(xs)
  {
    SortedSetUnique(s, SortedUnique(xs));
  }

  lemma {:induction false} SortedSetUnique(a: seq<string>, b: seq<string>)
    requires Sorted(a) && NoDup(a) && Sorted(b) && NoDup(b)
    requires forall x :: x in a <==> x in b
    ensures a == b
  {
    assert |a| > 0 ==> a[0] in a;
    assert |b| > 0 ==> b[0] in b;
    if |a| > 0 && |b| > 0 {
      // both heads are the least element of the common set
      HeadLeast(b, a[0]);
      HeadLeast(a, b[0]);
      LessEqAntisym(a[0], b[0]);
      forall x ensures x in a[1..] <==> x in b[1..] {
        TailMembers(a, x);
        TailMembers(b, x);
      }
      SortedSetUnique(a[1..], b[1..]);
      assert a == [a[0]] + a[1..] && b == [b[0]] + b[1..];
    }
  }

  lemma {:induction false} LessEqRefl(a: string)
    ensures LessEq(a, a)
  {
    if |a| > 0 {
      LessEqRefl(a[1..]);
    }
  }

  /** The head of a sorted list is `<=` each of its elements. */
  lemma HeadLeast(s: seq<string>, x: string)
    requires Sorted(s) && x in s
    ensures LessEq(s[0], x)
  {
    var k :| 0 <= k < |s| && s[k] == x;
    if k == 0 {
      LessEqRefl(x);
    }
  }

  /** In a duplicate-free list, the tail holds exactly the elements other than the head. */
  lemma TailMembers<T>(s: seq<T>, x: T)
    requires NoDup(s) && |s| > 0
    ensures x in s[1..] <==> x in s && x != s[0]
  {
    assert s == [s[0]] + s[1..];
    if x in s[1..] {
      var k :| 0 <= k < |s[1..]| && s[1..][k] == x;
      assert s[k + 1] == x;
    }
  }
}
