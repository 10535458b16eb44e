/** The sequence algorithms the search server takes from the C++ standard library:
    `std::sort` (modelled by a deterministic insertion sort under the caller's comparator),
    `std::unique` (dropping adjacent repeats), byte-wise string order, and the ascending
    enumeration of a `std::set` or of the keys of a `std::map`. */
module Sorting {

  /** `x` inserted into `s`, passing from the back over every element that `x` must precede;
      this is the step of an insertion sort. */
  function Insert<T>(s: seq<T>, x: T, less: (T, T) -> bool): seq<T>
    decreases |s|
  {
    if |s| == 0 || !less(x, s[|s| - 1]) then s + [x]
    else Insert(s[..|s| - 1], x, less) + [s[|s| - 1]]
  }

  /** Insertion sort of `s`: every element in turn is inserted into the sorted prefix. */
  function InsertionSort<T>(s: seq<T>, less: (T, T) -> bool): seq<T>
    decreases |s|
  {
    if |s| == 0 then []
    else Insert(InsertionSort(s[..|s| - 1], less), s[|s| - 1], less)
  }

  /** Inserting adds exactly the one element. */
  lemma {:induction false} InsertPermutes<T>(s: seq<T>, x: T, less: (T, T) -> bool)
    ensures multiset(Insert(s, x, less)) == multiset(s) + multiset{x}
    ensures |Insert(s, x, less)| == |s| + 1
    decreases |s|
  {
    if s != [] && less(x, s[|s| - 1]) {
      InsertPermutes(s[..|s| - 1], x, less);
      assert s == s[..|s| - 1] + [s[|s| - 1]];
    }
  }

  /** The insertion sort permutes its input. */
  lemma {:induction false} SortPermutes<T>(s: seq<T>, less: (T, T) -> bool)
    ensures multiset(InsertionSort(s, less)) == multiset(s)
    ensures |InsertionSort(s, less)| == |s|
    decreases |s|
  {
    if s != [] {
      SortPermutes(s[..|s| - 1], less);
      InsertPermutes(InsertionSort(s[..|s| - 1], less), s[|s| - 1], less);
      assert s == s[..|s| - 1] + [s[|s| - 1]];
    }
  }

  /** `less(a, b)` and `less(b, a)` never hold together. */
  ghost predicate Asymmetric<T(!new)>(less: (T, T) -> bool)
  {
    forall a, b :: less(a, b) ==> !less(b, a)
  }

  /** `less` is irreflexive, transitive and total on distinct elements. */
  ghost predicate StrictTotalOrder<T(!new)>(less: (T, T) -> bool)
  {
    && (forall a :: !less(a, a))
    && (forall a, b, c :: less(a, b) && less(b, c) ==> less(a, c))
    && (forall a, b :: a != b ==> less(a, b) || less(b, a))
  }

  /** No element is directly followed by one that the comparator puts before it. */
  predicate NoAdjacentInversion<T>(s: seq<T>, less: (T, T) -> bool)
  {
    forall k :: 0 <= k < |s| - 1 ==> !less(s[k + 1], s[k])
  }

  /** No element is followed, anywhere later, by one the comparator puts before it. */
  predicate Sorted<T>(s: seq<T>, less: (T, T) -> bool)
  {
    forall i, j :: 0 <= i < j < |s| ==> !less(s[j], s[i])
  }

  /** Each element comes strictly before every later one. */
  predicate StrictlySorted<T>(s: seq<T>, less: (T, T) -> bool)
  {
    forall i, j :: 0 <= i < j < |s| ==> less(s[i], s[j])
  }

  lemma {:induction false} InsertNoAdjacentInversion<T(!new)>(s: seq<T>, x: T, less: (T, T) -> bool)
    requires Asymmetric(less) && NoAdjacentInversion(s, less)
    ensures NoAdjacentInversion(Insert(s, x, less), less)
    ensures |s| > 0 ==> var r := Insert(s, x, less); r[|r| - 1] == x || r[|r| - 1] == s[|s| - 1]
    decreases |s|
  {
    if s == [] || !less(x, s[|s| - 1]) {
    } else {
      var pre := s[..|s| - 1];
      var last := s[|s| - 1];
      InsertNoAdjacentInversion(pre, x, less);
      InsertPermutes(pre, x, less);
      var q := Insert(pre, x, less);
      var r := q + [last];
      if pre != [] && q[|q| - 1] != x {
        assert q[|q| - 1] == pre[|pre| - 1];
        assert !less(last, pre[|pre| - 1]) by {
          assert s[|s| - 1] == last && s[|s| - 2] == pre[|pre| - 1];
        }
      } else if pre == [] {
        assert q == [x];
      }
      forall k | 0 <= k < |r| - 1 ensures !less(r[k + 1], r[k]) {
        if k < |q| - 1 {
          assert r[k] == q[k] && r[k + 1] == q[k + 1];
        }
      }
    }
  }

  /** Under a merely asymmetric comparator (such as the epsilon comparator of the ranker)
      the insertion sort leaves no adjacent pair out of order. */
  lemma {:induction false} SortNoAdjacentInversion<T(!new)>(s: seq<T>, less: (T, T) -> bool)
    requires Asymmetric(less)
    ensures NoAdjacentInversion(InsertionSort(s, less), less)
    decreases |s|
  {
    if s != [] {
      SortNoAdjacentInversion(s[..|s| - 1], less);
      InsertNoAdjacentInversion(InsertionSort(s[..|s| - 1], less), s[|s| - 1], less);
    }
  }

  lemma {:induction false} InsertSorted<T(!new)>(s: seq<T>, x: T, less: (T, T) -> bool)
    requires StrictTotalOrder(less) && Sorted(s, less)
    ensures Sorted(Insert(s, x, less), less)
    decreases |s|
  {
    if s == [] {
    } else if !less(x, s[|s| - 1]) {
      var last := s[|s| - 1];
      forall i | 0 <= i < |s| ensures !less(x, s[i]) {
        if i < |s| - 1 {
          assert !less(last, s[i]);
        }
      }
      var r := s + [x];
      forall i, j | 0 <= i < j < |r| ensures !less(r[j], r[i]) {
        if j < |s| {
          assert r[i] == s[i] && r[j] == s[j];
        }
      }
    } else {
      var pre := s[..|s| - 1];
      var last := s[|s| - 1];
      InsertSorted(pre, x, less);
      InsertPermutes(pre, x, less);
      var q := Insert(pre, x, less);
      var r := q + [last];
      forall e | e in q ensures !less(last, e) {
        assert e in multiset(q);
        if e != x {
          assert e in multiset(pre);
          var i :| 0 <= i < |pre| && pre[i] == e;
          assert s[i] == e;
        }
      }
      forall i, j | 0 <= i < j < |r| ensures !less(r[j], r[i]) {
        if j < |q| {
          assert r[i] == q[i] && r[j] == q[j];
        } else {
          assert r[i] == q[i] && q[i] in q;
        }
      }
    }
  }

  /** Under a strict total order the insertion sort returns a sorted sequence. */
  lemma {:induction false} SortSorted<T(!new)>(s: seq<T>, less: (T, T) -> bool)
    requires StrictTotalOrder(less)
    ensures Sorted(InsertionSort(s, less), less)
    decreases |s|
  {
    if s != [] {
      SortSorted(s[..|s| - 1], less);
      InsertSorted(InsertionSort(s[..|s| - 1], less), s[|s| - 1], less);
    }
  }

  /** `std::unique`: of every run of equal adjacent elements only the first is kept. */
  function Dedup<T(==)>(s: seq<T>): (r: seq<T>)
    ensures |s| > 0 ==> |r| > 0 && r[|r| - 1] == s[|s| - 1]
    decreases |s|
  {
    if |s| <= 1 then s
    else if s[|s| - 1] == s[|s| - 2] then Dedup(s[..|s| - 1])
    else Dedup(s[..|s| - 1]) + [s[|s| - 1]]
  }

  /** `Dedup` keeps every element that occurs and adds none. */
  lemma {:induction false} DedupElements<T>(s: seq<T>)
    ensures forall i :: 0 <= i < |Dedup(s)| ==> Dedup(s)[i] in s
    ensures forall i :: 0 <= i < |s| ==> s[i] in Dedup(s)
    decreases |s|
  {
    if |s| > 1 {
      var pre := s[..|s| - 1];
      DedupElements(pre);
      assert s == pre + [s[|s| - 1]];
      if s[|s| - 1] == s[|s| - 2] {
        assert s[|s| - 1] in pre;
      }
    }
  }

  /** Dropping adjacent repeats from a sorted sequence leaves it strictly sorted. */
  lemma {:induction false} DedupStrictlySorted<T(!new)>(s: seq<T>, less: (T, T) -> bool)
    requires StrictTotalOrder(less) && Sorted(s, less)
    ensures StrictlySorted(Dedup(s), less)
    decreases |s|
  {
    if |s| > 1 {
      var pre := s[..|s| - 1];
      var last := s[|s| - 1];
      assert Sorted(pre, less) by {
        forall i, j | 0 <= i < j < |pre| ensures !less(pre[j], pre[i]) {
          assert pre[i] == s[i] && pre[j] == s[j];
        }
      }
      DedupStrictlySorted(pre, less);
      DedupElements(pre);
      if last != s[|s| - 2] {
        var q := Dedup(pre);
        forall e | e in q ensures less(e, last) {
          assert e in pre;
          var i :| 0 <= i < |pre| && pre[i] == e;
          assert s[i] == e;
          assert less(s[|s| - 2], last);
          if i < |s| - 2 {
            assert !less(s[|s| - 2], s[i]);
          }
        }
        var r := q + [last];
        forall i, j | 0 <= i < j < |r| ensures less(r[i], r[j]) {
          if j < |q| {
            assert r[i] == q[i] && r[j] == q[j];
          } else {
            assert r[i] == q[i] && q[i] in q;
          }
        }
      }
    }
  }

  /** The first element of a strictly sorted sequence comes before each other element. */
  lemma FirstIsLeast<T>(a: seq<T>, x: T, less: (T, T) -> bool)
    requires StrictlySorted(a, less) && x in a && x != a[0]
    ensures less(a[0], x)
  {
    var i :| 0 <= i < |a| && a[i] == x;
  }

  /** Two strictly sorted sequences with the same elements are equal. */
  lemma {:induction false} StrictlySortedUnique<T(!new)>(a: seq<T>, b: seq<T>, less: (T, T) -> bool)
    requires StrictTotalOrder(less)
    requires StrictlySorted(a, less) && StrictlySorted(b, less)
    requires forall x :: x in a <==> x in b
    ensures a == b
    decreases |a|
  {
    assert a != [] ==> a[0] in b;
    assert b != [] ==> b[0] in a;
    if a != [] {
      if a[0] != b[0] {
        FirstIsLeast(a, b[0], less);
        FirstIsLeast(b, a[0], less);
        assert false;
      }
      forall x ensures x in a[1..] <==> x in b[1..] {
        if x in a[1..] {
          var i :| 1 <= i < |a| && a[i] == x;
          assert less(a[0], a[i]);
          assert x in b;
          var j :| 0 <= j < |b| && b[j] == x;
          assert j != 0;
          assert b[1..][j - 1] == x;
        }
        if x in b[1..] {
          var j :| 1 <= j < |b| && b[j] == x;
          assert less(b[0], b[j]);
          assert x in a;
          var i :| 0 <= i < |a| && a[i] == x;
          assert i != 0;
          assert a[1..][i - 1] == x;
        }
      }
      assert StrictlySorted(a[1..], less) by {
        forall i, j | 0 <= i < j < |a[1..]| ensures less(a[1..][i], a[1..][j]) {
          assert a[1..][i] == a[i + 1] && a[1..][j] == a[j + 1];
        }
      }
      assert StrictlySorted(b[1..], less) by {
        forall i, j | 0 <= i < j < |b[1..]| ensures less(b[1..][i], b[1..][j]) {
          assert b[1..][i] == b[i + 1] && b[1..][j] == b[j + 1];
        }
      }
      StrictlySortedUnique(a[1..], b[1..], less);
      assert a == [a[0]] + a[1..] && b == [b[0]] + b[1..];
    }
  }

  /** `std::sort` on a vector in place: each element in turn is shifted left past the
      already-sorted elements it must precede. The result is the insertion sort of the
      original contents. */
  method SortInPlace<T>(a: array<T>, less: (T, T) -> bool)
    modifies a
    ensures a[..] == InsertionSort(old(a[..]), less)
  {
    ghost var orig := a[..];
    var i := 0;
    while i < a.Length
      invariant 0 <= i <= a.Length
      invariant a[..i] == InsertionSort(orig[..i], less)
      invariant a[i..] == orig[i..]
    {
      assert orig[..i + 1] == orig[..i] + [orig[i]];
      InsertAt(a, i, less);
      i := i + 1;
    }
    assert orig[..a.Length] == orig;
  }

  /** The inner loop of `SortInPlace`: `a[i]` is shifted left into the prefix `a[..i]`. */
  method InsertAt<T>(a: array<T>, i: nat, less: (T, T) -> bool)
    requires i < a.Length
    modifies a
    ensures a[..i + 1] == Insert(old(a[..i]), old(a[i]), less)
    ensures a[i + 1..] == old(a[i + 1..])
  {
    var x := a[i];
    ghost var sorted := a[..i];
    var j := ShiftGreater(a, i, x, less);
    a[j] := x;
    InsertAtEnd(sorted, j, x, less);
    ghost var inserted := sorted[..j] + [x] + sorted[j..];
    assert inserted == Insert(sorted, x, less);
    assert forall k :: 0 <= k <= i ==> a[k] == inserted[k];
    assert a[..i + 1] == inserted;
  }

  /** The shifting part of `InsertAt`: the elements of `a[..i]` that `x` must precede move one
      place right, leaving a gap at the returned position. */
  method ShiftGreater<T>(a: array<T>, i: nat, x: T, less: (T, T) -> bool) returns (j: nat)
    requires i < a.Length
    modifies a
    ensures j <= i
    ensures forall k :: 0 <= k < j ==> a[k] == old(a[k])
    ensures forall k :: j < k <= i ==> a[k] == old(a[k - 1])
    ensures forall k :: i < k < a.Length ==> a[k] == old(a[k])
    ensures j == 0 || !less(x, old(a[j - 1]))
    ensures Insert(old(a[..i]), x, less) == Insert(old(a[..i])[..j], x, less) + old(a[..i])[j..]
  {
    ghost var sorted := a[..i];
    j := i;
    assert sorted[..j] == sorted && sorted[j..] == [];
    while j > 0 && less(x, a[j - 1])
      invariant 0 <= j <= i
      invariant forall k :: 0 <= k < j ==> a[k] == sorted[k]
      invariant forall k :: j < k <= i ==> a[k] == sorted[k - 1]
      invariant forall k :: i < k < a.Length ==> a[k] == old(a[k])
      invariant Insert(sorted, x, less) == Insert(sorted[..j], x, less) + sorted[j..]
    {
      InsertShiftStep(sorted, j, x, less);
      a[j] := a[j - 1];
      j := j - 1;
    }
  }

  /** Where the inner loop of `SortInPlace` stops, `x` goes. */
  lemma InsertAtEnd<T>(sorted: seq<T>, j: nat, x: T, less: (T, T) -> bool)
    requires j <= |sorted|
    requires j == 0 || !less(x, sorted[j - 1])
    ensures Insert(sorted[..j], x, less) == sorted[..j] + [x]
  {
  }

  /** One shift of the inner loop of `SortInPlace`: `x` passes `sorted[j - 1]`. */
  lemma InsertShiftStep<T>(sorted: seq<T>, j: nat, x: T, less: (T, T) -> bool)
    requires 0 < j <= |sorted| && less(x, sorted[j - 1])
    ensures Insert(sorted[..j], x, less) + sorted[j..] == Insert(sorted[..j - 1], x, less) + sorted[j - 1..]
  {
    assert sorted[..j][..j - 1] == sorted[..j - 1];
    assert sorted[j - 1..] == [sorted[j - 1]] + sorted[j..];
  }

  /** `std::unique` on a vector in place, returning the new logical length: an element is
      kept when it differs from the last element kept. */
  method UniqueInPlace<T(==)>(a: array<T>) returns (len: nat)
    modifies a
    ensures len <= a.Length && a[..len] == Dedup(old(a[..]))
  {
    if a.Length == 0 {
      return 0;
    }
    ghost var orig := a[..];
    var w := 1;
    var r := 1;
    assert orig[..1] == [orig[0]];
    while r < a.Length
      invariant 1 <= w <= r <= a.Length
      invariant a[..w] == Dedup(orig[..r])
      invariant a[r..] == orig[r..]
    {
      assert orig[..r + 1][..r] == orig[..r];
      assert Dedup(orig[..r + 1]) == if orig[r] == orig[r - 1] then Dedup(orig[..r]) else Dedup(orig[..r]) + [orig[r]];
      if a[r] != a[w - 1] {
        a[w] := a[r];
        w := w + 1;
      }
      r := r + 1;
    }
    assert orig[..a.Length] == orig;
    return w;
  }

  /** Byte-wise lexicographic order of strings, the order of `std::set<std::string>` and of
      `std::sort` over strings: a proper prefix comes first. */
  predicate Less(a: string, b: string)
    decreases |a|
  {
    if a == [] then b != []
    else b != [] && (if a[0] == b[0] then Less(a[1..], b[1..]) else a[0] < b[0])
  }

  lemma {:induction false} LessIrreflexive(a: string)
    ensures !Less(a, a)
    decreases |a|
  {
    if a != [] {
      LessIrreflexive(a[1..]);
    }
  }

  lemma {:induction false} LessTransitive(a: string, b: string, c: string)
    requires Less(a, b) && Less(b, c)
    ensures Less(a, c)
    decreases |a|
  {
    if a != [] && a[0] == b[0] && b[0] == c[0] {
      LessTransitive(a[1..], b[1..], c[1..]);
    }
  }

  lemma {:induction false} LessTotal(a: string, b: string)
    requires a != b
    ensures Less(a, b) || Less(b, a)
    decreases |a|
  {
    if a != [] && b != [] && a[0] == b[0] {
      assert a[1..] != b[1..] by {
        assert a == [a[0]] + a[1..] && b == [b[0]] + b[1..];
      }
      LessTotal(a[1..], b[1..]);
    }
  }

  /** String order is a strict total order. */
  lemma LessIsStrictTotalOrder()
    ensures StrictTotalOrder(Less)
  {
    forall a ensures !Less(a, a) {
      LessIrreflexive(a);
    }
    forall a, b, c | Less(a, b) && Less(b, c) ensures Less(a, c) {
      LessTransitive(a, b, c);
    }
    forall a, b | a != b ensures Less(a, b) || Less(b, a) {
      LessTotal(a, b);
    }
  }

  /** The words of `s` as `std::sort` followed by `std::unique` and `erase` leave them. */
  function SortUnique(s: seq<string>): seq<string>
  {
    Dedup(InsertionSort(s, Less))
  }

  /** `SortUnique` yields the words of `s`, each once, in strictly ascending order. */
  lemma SortUniqueSpec(s: seq<string>)
    ensures StrictlySorted(SortUnique(s), Less)
    ensures forall w :: w in SortUnique(s) <==> w in s
  {
    LessIsStrictTotalOrder();
    SortSorted(s, Less);
    SortPermutes(s, Less);
    var t := InsertionSort(s, Less);
    DedupStrictlySorted(t, Less);
    DedupElements(t);
    forall w ensures w in SortUnique(s) <==> w in s {
      assert w in t <==> w in multiset(t);
      assert w in s <==> w in multiset(s);
      if w in t {
        var i :| 0 <= i < |t| && t[i] == w;
      }
    }
  }

  /** `SortUnique` depends only on which words occur, not on their order or repetition. */
  lemma SortUniqueCanonical(s: seq<string>, t: seq<string>)
    requires forall w :: w in s <==> w in t
    ensures SortUnique(s) == SortUnique(t)
  {
    SortUniqueSpec(s);
    SortUniqueSpec(t);
    LessIsStrictTotalOrder();
    StrictlySortedUnique(SortUnique(s), SortUnique(t), Less);
  }

  /** A strictly sorted sequence is its own `SortUnique`. */
  lemma SortUniqueOfStrictlySorted(s: seq<string>)
    requires StrictlySorted(s, Less)
    ensures SortUnique(s) == s
  {
    SortUniqueSpec(s);
    LessIsStrictTotalOrder();
    StrictlySortedUnique(SortUnique(s), s, Less);
  }

  /** `m` is in `s` and precedes every other element of `s`. */
  ghost predicate IsLeast<T>(m: T, s: set<T>, less: (T, T) -> bool)
  {
    m in s && forall y :: y in s && y != m ==> less(m, y)
  }

  /** Every non-empty finite set has a least element under a strict total order. */
  lemma {:induction false} LeastExists<T(!new)>(s: set<T>, less: (T, T) -> bool)
    requires s != {} && StrictTotalOrder(less)
    ensures exists m :: IsLeast(m, s, less)
    decreases |s|
  {
    var x :| x in s;
    var rest := s - {x};
    if rest == {} {
      assert s == {x};
      assert IsLeast(x, s, less);
    } else {
      LeastExists(rest, less);
      var m :| IsLeast(m, rest, less);
      if less(m, x) {
        forall y | y in s && y != m ensures less(m, y) {
          if y != x {
            assert y in rest;
          }
        }
        assert IsLeast(m, s, less);
      } else {
        assert less(x, m);
        forall y | y in s && y != x ensures less(x, y) {
          assert y in rest;
          if y != m {
            assert less(m, y);
          }
        }
        assert IsLeast(x, s, less);
      }
    }
  }

  /** The least element of `s`. */
  ghost function Least<T(!new)>(s: set<T>, less: (T, T) -> bool): (m: T)
    requires s != {} && StrictTotalOrder(less)
    ensures m in s && forall y :: y in s && y != m ==> less(m, y)
  {
    LeastExists(s, less);
    var m :| IsLeast(m, s, less); m
  }

  /** The elements of `s` in ascending order: the iteration order of a `std::set` or of the
      keys of a `std::map`. */
  ghost function Ascending<T(!new)>(s: set<T>, less: (T, T) -> bool): seq<T>
    requires StrictTotalOrder(less)
    decreases |s|
  {
    if s == {} then []
    else
      var m := Least(s, less);
      [m] + Ascending(s - {m}, less)
  }

  /** The ascending enumeration lists each element of `s` once, in strictly ascending order. */
  lemma {:induction false} AscendingSpec<T(!new)>(s: set<T>, less: (T, T) -> bool)
    requires StrictTotalOrder(less)
    ensures StrictlySorted(Ascending(s, less), less)
    ensures forall x :: x in Ascending(s, less) <==> x in s
    ensures |Ascending(s, less)| == |s|
    decreases |s|
  {
    if s != {} {
      var m := Least(s, less);
      var rest := Ascending(s - {m}, less);
      AscendingSpec(s - {m}, less);
      assert forall i :: 0 <= i < |rest| ==> less(m, rest[i]) by {
        forall i | 0 <= i < |rest| ensures less(m, rest[i]) {
          assert rest[i] in s - {m};
        }
      }
      var r := [m] + rest;
      forall i, j | 0 <= i < j < |r| ensures less(r[i], r[j]) {
        if i > 0 {
          assert r[i] == rest[i - 1] && r[j] == rest[j - 1];
        } else {
          assert r[j] == rest[j - 1];
        }
      }
    }
  }

  /** The ascending enumeration visits every element of `s` exactly once. */
  lemma AscendingEnumerates<T(!new)>(s: set<T>, less: (T, T) -> bool)
    requires StrictTotalOrder(less)
    ensures forall i, j :: 0 <= i < j < |Ascending(s, less)| ==> Ascending(s, less)[i] != Ascending(s, less)[j]
    ensures forall x :: x in Ascending(s, less) <==> x in s
  {
    AscendingSpec(s, less);
    var r := Ascending(s, less);
    forall i, j | 0 <= i < j < |r| ensures r[i] != r[j] {
      assert less(r[i], r[j]);
    }
  }

  /** The ascending enumeration starts with the least element. */
  lemma AscendingStep<T(!new)>(s: set<T>, m: T, less: (T, T) -> bool)
    requires StrictTotalOrder(less)
    requires m in s && forall y :: y in s && y != m ==> less(m, y)
    ensures Ascending(s, less) == [m] + Ascending(s - {m}, less)
  {
    assert m == Least(s, less);
  }

  /** Walking a set in ascending order, one least element at a time. */
  method EnumerateAscending<T(==, !new)>(s: set<T>, less: (T, T) -> bool) returns (r: seq<T>)
    requires StrictTotalOrder(less)
    ensures r == Ascending(s, less)
  {
    r := [];
    var rest := s;
    while rest != {}
      invariant r + Ascending(rest, less) == Ascending(s, less)
      decreases |rest|
    {
      LeastExists(rest, less);
      var m :| m in rest && forall y :: y in rest && y != m ==> less(m, y);
      AscendingStep(rest, m, less);
      r := r + [m];
      rest := rest - {m};
    }
  }

  /** `std::sort` followed by `std::unique` and `erase` on a vector of words. */
  method SortAndUnique(s: seq<string>) returns (r: seq<string>)
    ensures r == SortUnique(s)
  {
    var a := new string[|s|](i requires 0 <= i < |s| => s[i]);
    assert a[..] == s;
    SortInPlace(a, Less);
    var len := UniqueInPlace(a);
    r := a[..len];
  }

  /** Integer order, the order of `std::set<int>` and of `std::map<int, ...>` keys. */
  function IntLess(a: int, b: int): bool
  {
    a < b
  }

  lemma IntLessIsStrictTotalOrder()
    ensures StrictTotalOrder(IntLess)
  {
  }

  /** Iteration over a `std::set<int>` or the keys of a `std::map<int, ...>`: each element
      once, in increasing order. */
  method EnumerateInts(s: set<int>) returns (r: seq<int>)
    ensures forall i, j :: 0 <= i < j < |r| ==> r[i] < r[j]
    ensures forall x :: x in r <==> x in s
  {
    IntLessIsStrictTotalOrder();
    r := EnumerateAscending(s, IntLess);
    AscendingSpec(s, IntLess);
  }
}
