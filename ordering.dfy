/**
  Orders and sorting.

  Go's `sort.Sort(sort.Reverse(sort.StringSlice(xs)))` and
  `sort.Sort(sort.Reverse(sort.IntSlice(xs)))` put a slice in descending
  order in place. They are modelled by `SortDescending`, an in-place sort of
  an array under a total order `le`, proved against the functional
  specification `SortDesc`. Since a descending arrangement of a multiset is
  unique (`DescendingUnique`), the result depends only on the elements, never
  on the order in which they arrived.
*/
module Ordering {

  /** `le` is a total order: total, antisymmetric and transitive. */
  ghost predicate TotalOrder<T(!new)>(le: (T, T) -> bool)
  {
    && (forall x, y :: le(x, y) || le(y, x))
    && (forall x, y :: le(x, y) && le(y, x) ==> x == y)
    && (forall x, y, z :: le(x, y) && le(y, z) ==> le(x, z))
  }

  /** Every element is greater than or equal to every later one. */
  ghost predicate Descending<T>(s: seq<T>, le: (T, T) -> bool)
  {
    forall i, j :: 0 <= i < j < |s| ==> le(s[j], s[i])
  }

  /** No element occurs twice. */
  ghost predicate Distinct<T>(s: seq<T>)
  {
    forall i, j :: 0 <= i < j < |s| ==> s[i] != s[j]
  }

  // ---------------------------------------------------------------------
  // The two orders the resolver uses

  /** Integer order, as `sort.IntSlice` compares. */
  predicate IntLe(x: int, y: int)
  {
    x <= y
  }

  /**
    String order as Go's `<` on strings: byte-wise lexicographic. For UTF-8
    text, comparing bytes and comparing code points agree, so the comparison
    here is on characters. A proper prefix comes first.
  */
  predicate LexLe(a: string, b: string)
  {
    |a| == 0 || (|b| > 0 && (a[0] < b[0] || (a[0] == b[0] && LexLe(a[1..], b[1..]))))
  }

  lemma IntLeTotalOrder()
    ensures TotalOrder(IntLe)
  {
  }

  lemma {:induction false} LexLeTotal(a: string, b: string)
    ensures LexLe(a, b) || LexLe(b, a)
    decreases |a|
  {
    if |a| > 0 && |b| > 0 && a[0] == b[0] {
      LexLeTotal(a[1..], b[1..]);
    }
  }

  lemma {:induction false} LexLeAntisymmetric(a: string, b: string)
    requires LexLe(a, b) && LexLe(b, a)
    ensures a == b
    decreases |a|
  {
    if |a| > 0 {
      LexLeAntisymmetric(a[1..], b[1..]);
      assert a == [a[0]] + a[1..] && b == [b[0]] + b[1..];
    }
  }

  lemma {:induction false} LexLeTransitive(a: string, b: string, c: string)
    requires LexLe(a, b) && LexLe(b, c)
    ensures LexLe(a, c)
    decreases |a|
  {
    if |a| > 0 && a[0] == b[0] && b[0] == c[0] {
      LexLeTransitive(a[1..], b[1..], c[1..]);
    }
  }

  /** A common prefix does not affect the comparison. */
  lemma {:induction false} LexLeCommonPrefix(p: string, x: string, y: string)
    ensures LexLe(p + x, p + y) == LexLe(x, y)
    decreases |p|
  {
    if |p| > 0 {
      assert (p + x)[1..] == p[1..] + x && (p + y)[1..] == p[1..] + y;
      LexLeCommonPrefix(p[1..], x, y);
    } else {
      assert p + x == x && p + y == y;
    }
  }

  lemma LexLeTotalOrder()
    ensures TotalOrder(LexLe)
  {
    forall x, y ensures LexLe(x, y) || LexLe(y, x) {
      LexLeTotal(x, y);
    }
    forall x, y | LexLe(x, y) && LexLe(y, x) ensures x == y {
      LexLeAntisymmetric(x, y);
    }
    forall x, y, z | LexLe(x, y) && LexLe(y, z) ensures LexLe(x, z) {
      LexLeTransitive(x, y, z);
    }
  }

  // ---------------------------------------------------------------------
  // Functional specification of a descending sort

  /** Inserts `x` before the first element that is not greater than it. */
  function Insert<T>(x: T, s: seq<T>, le: (T, T) -> bool): (r: seq<T>)
    ensures multiset(r) == multiset(s) + multiset{x}
  {
    if s == [] || le(s[0], x) then [x] + s
    else
      assert s == [s[0]] + s[1..];
      [s[0]] + Insert(x, s[1..], le)
  }

  /** Insertion sort into descending order. */
  function SortDesc<T>(s: seq<T>, le: (T, T) -> bool): (r: seq<T>)
    ensures multiset(r) == multiset(s)
    ensures |r| == |s|
  {
    if s == [] then []
    else
      assert s == [s[0]] + s[1..];
      Insert(s[0], SortDesc(s[1..], le), le)
  }

  lemma {:induction false} InsertDescending<T(!new)>(x: T, s: seq<T>, le: (T, T) -> bool)
    requires TotalOrder(le) && Descending(s, le)
    ensures Descending(Insert(x, s, le), le)
  {
    if s == [] || le(s[0], x) {
    } else {
      var t := Insert(x, s[1..], le);
      InsertDescending(x, s[1..], le);
      forall j | 0 <= j < |t| ensures le(t[j], s[0]) {
        assert t[j] in multiset(t);
        assert t[j] == x || t[j] in multiset(s[1..]);
        if t[j] != x {
          var k :| 0 <= k < |s[1..]| && s[1..][k] == t[j];
          assert s[k + 1] == t[j];
        }
      }
    }
  }

  lemma {:induction false} SortDescDescending<T(!new)>(s: seq<T>, le: (T, T) -> bool)
    requires TotalOrder(le)
    ensures Descending(SortDesc(s, le), le)
  {
    if s != [] {
      SortDescDescending(s[1..], le);
      InsertDescending(s[0], SortDesc(s[1..], le), le);
    }
  }

  /** The greatest element of a non-empty descending sequence comes first. */
  lemma HeadIsGreatest<T(!new)>(s: seq<T>, le: (T, T) -> bool, x: T)
    requires TotalOrder(le) && Descending(s, le) && x in s
    ensures le(x, s[0])
  {
    var k :| 0 <= k < |s| && s[k] == x;
    assert le(x, x) || le(x, x);
  }

  /** Removing the head of a sequence removes one copy of it from its multiset. */
  lemma TailMultiset<T>(a: seq<T>)
    requires |a| > 0
    ensures multiset(a[1..]) == multiset(a) - multiset{a[0]}
  {
    assert a == [a[0]] + a[1..];
  }

  /**
    Two descending arrangements of the same elements are equal: a descending
    order is determined by its multiset alone.
  */
  lemma {:induction false} DescendingUnique<T(!new)>(a: seq<T>, b: seq<T>, le: (T, T) -> bool)
    requires TotalOrder(le)
    requires Descending(a, le) && Descending(b, le)
    requires multiset(a) == multiset(b)
    ensures a == b
    decreases |a|
  {
    assert |a| == |multiset(a)| == |b|;
    if a != [] {
      assert a[0] in multiset(b) && b[0] in multiset(a);
      HeadIsGreatest(b, le, a[0]);
      HeadIsGreatest(a, le, b[0]);
      TailMultiset(a);
      TailMultiset(b);
      DescendingUnique(a[1..], b[1..], le);
      assert a == [a[0]] + a[1..] && b == [b[0]] + b[1..];
    }
  }

  /** Sorting keeps exactly the elements it was given. */
  lemma SortDescSameElements<T>(s: seq<T>, le: (T, T) -> bool)
    ensures forall x :: x in SortDesc(s, le) <==> x in s
  {
    var r := SortDesc(s, le);
    forall x ensures x in r <==> x in s {
      assert x in r <==> x in multiset(r);
      assert x in s <==> x in multiset(s);
    }
  }

  /** The head of a descending arrangement of a non-empty `s` is the greatest element of `s`. */
  lemma ArrangementHead<T(!new)>(s: seq<T>, r: seq<T>, le: (T, T) -> bool)
    requires TotalOrder(le) && Descending(r, le) && multiset(r) == multiset(s) && |s| > 0
    ensures |r| == |s| && r[0] in s
    ensures forall x :: x in s ==> le(x, r[0])
  {
    assert |r| == |multiset(r)| == |s|;
    assert r[0] in multiset(s);
    forall x | x in s ensures le(x, r[0]) {
      assert x in multiset(r);
      HeadIsGreatest(r, le, x);
    }
  }

  /**
    The first two elements of the descending sort of `s` are the greatest
    element and the greatest of what remains once one copy of it is removed.
  */
  lemma SortDescTopTwo<T(!new)>(s: seq<T>, le: (T, T) -> bool)
    requires TotalOrder(le) && |s| > 1
    ensures var r := SortDesc(s, le);
      && r[0] in s
      && (forall x :: x in s ==> le(x, r[0]))
      && r[1] in multiset(s) - multiset{r[0]}
      && (forall x :: x in multiset(s) - multiset{r[0]} ==> le(x, r[1]))
      && le(r[1], r[0])
  {
    var r := SortDesc(s, le);
    SortDescDescending(s, le);
    ArrangementHead(s, r, le);
    TailMultiset(r);
    assert r[1..][0] == r[1];
    assert Descending(r[1..], le);
    forall x | x in multiset(s) - multiset{r[0]} ensures le(x, r[1]) {
      assert x in r[1..];
      HeadIsGreatest(r[1..], le, x);
    }
  }

  /**
    Removing the head of the descending sort of a repetition-free `s` removes
    exactly the greatest element and keeps the rest descending and
    repetition-free.
  */
  lemma SortDescDropHead<T(!new)>(s: seq<T>, le: (T, T) -> bool)
    requires TotalOrder(le) && Distinct(s) && |s| > 0
    ensures var r := SortDesc(s, le);
      && r[0] in s
      && (forall x :: x in s ==> le(x, r[0]))
      && (forall x :: x in r[1..] <==> x in s && x != r[0])
      && Descending(r[1..], le) && Distinct(r[1..])
  {
    var r := SortDesc(s, le);
    SortDescDescending(s, le);
    ArrangementHead(s, r, le);
    SortDescSameElements(s, le);
    DistinctPermutation(s, r);
    DistinctTail(r);
  }

  /** The tail of a repetition-free sequence holds every element but the head. */
  lemma DistinctTail<T>(r: seq<T>)
    requires Distinct(r) && |r| > 0
    ensures forall x :: x in r[1..] <==> x in r && x != r[0]
  {
    forall x ensures x in r[1..] <==> x in r && x != r[0] {
      if x in r[1..] {
        var j :| 0 <= j < |r[1..]| && r[1..][j] == x;
        assert r[j + 1] == x;
      }
      if x in r && x != r[0] {
        var j :| 0 <= j < |r| && r[j] == x;
        assert r[1..][j - 1] == x;
      }
    }
  }

  /** A sequence without repetitions keeps that property under permutation. */
  lemma DistinctPermutation<T>(a: seq<T>, b: seq<T>)
    requires Distinct(a) && multiset(a) == multiset(b)
    ensures Distinct(b)
  {
    forall i, j | 0 <= i < j < |b| ensures b[i] != b[j] {
      if b[i] == b[j] {
        TwiceCounted(b, i, j);
        OnceCounted(a, b[i]);
      }
    }
  }

  lemma TwiceCounted<T>(s: seq<T>, i: nat, j: nat)
    requires i < j < |s| && s[i] == s[j]
    ensures multiset(s)[s[i]] >= 2
  {
    assert s == s[..j] + [s[j]] + s[j + 1..];
    assert s[..j][i] == s[i];
    assert s[i] in multiset(s[..j]);
  }

  lemma {:induction false} OnceCounted<T>(s: seq<T>, x: T)
    requires Distinct(s)
    ensures multiset(s)[x] <= 1
  {
    if s != [] {
      assert s == [s[0]] + s[1..];
      OnceCounted(s[1..], x);
      if s[0] == x {
        assert x !in s[1..];
      }
    }
  }

  /** Two repetition-free enumerations of the same set hold the same elements. */
  lemma SameElementsSameMultiset<T>(a: seq<T>, b: seq<T>)
    requires Distinct(a) && Distinct(b)
    requires forall x :: x in a <==> x in b
    ensures multiset(a) == multiset(b)
  {
    forall x ensures multiset(a)[x] == multiset(b)[x] {
      OnceCounted(a, x);
      OnceCounted(b, x);
      assert x in a <==> x in b;
      assert x in multiset(a) <==> x in multiset(b);
    }
  }

  // ---------------------------------------------------------------------
  // The in-place sort

  /**
    The state of the inner loop of the insertion sort: `s[..i + 1]` is
    descending except for the element at `j`, which is being moved towards
    the front and is at least everything after it up to `i`.
  */
  ghost predicate Sifting<T>(s: seq<T>, i: int, j: int, le: (T, T) -> bool)
  {
    && 0 <= j <= i < |s|
    && (forall p, q :: 0 <= p < q <= i && p != j && q != j ==> le(s[q], s[p]))
    && (forall q :: j < q <= i ==> le(s[q], s[j]))
  }

  /** Swapping the moving element with a smaller predecessor keeps the loop state. */
  lemma SiftStep<T(!new)>(s: seq<T>, i: int, j: int, le: (T, T) -> bool)
    requires TotalOrder(le) && Sifting(s, i, j, le) && 0 < j && !le(s[j], s[j - 1])
    ensures Sifting(s[j - 1 := s[j]][j := s[j - 1]], i, j - 1, le)
  {
    var t := s[j - 1 := s[j]][j := s[j - 1]];
    assert le(s[j - 1], s[j]);
    forall p, q | 0 <= p < q <= i && p != j - 1 && q != j - 1 ensures le(t[q], t[p]) {
      if q == j {
        assert le(s[j - 1], s[p]);
      } else if p == j {
        assert le(s[q], s[j - 1]);
      }
    }
  }

  /** When the moving element has reached its place, `s[..i + 1]` is descending. */
  lemma SiftDone<T(!new)>(s: seq<T>, i: int, j: int, le: (T, T) -> bool)
    requires TotalOrder(le) && Sifting(s, i, j, le) && (j == 0 || le(s[j], s[j - 1]))
    ensures Descending(s[..i + 1], le)
  {
    forall p, q | 0 <= p < q <= i ensures le(s[q], s[p]) {
      if q == j && p < j - 1 {
        assert le(s[j - 1], s[p]);
      }
    }
  }

  /** Exchanging two elements keeps the multiset. */
  lemma SwapMultiset<T>(s: seq<T>, i: int, j: int)
    requires 0 <= i < |s| && 0 <= j < |s|
    ensures multiset(s[i := s[j]][j := s[i]]) == multiset(s)
  {
  }

  /**
    One pass of the insertion sort: moves `a[i]` towards the front past every
    smaller element, so that `a[..i + 1]` becomes descending.
  */
  method SiftInto<T(!new)>(a: array<T>, i: int, le: (T, T) -> bool)
    requires TotalOrder(le) && 0 <= i < a.Length && Descending(a[..i], le)
    modifies a
    ensures Descending(a[..i + 1], le)
    ensures multiset(a[..]) == multiset(old(a[..]))
  {
    var j := i;
    assert Sifting(a[..], i, j, le);
    while 0 < j && !le(a[j], a[j - 1])
      invariant Sifting(a[..], i, j, le)
      invariant multiset(a[..]) == multiset(old(a[..]))
    {
      ghost var s := a[..];
      SiftStep(s, i, j, le);
      SwapMultiset(s, j - 1, j);
      a[j - 1], a[j] := a[j], a[j - 1];
      assert a[..] == s[j - 1 := s[j]][j := s[j - 1]];
      j := j - 1;
    }
    SiftDone(a[..], i, j, le);
    assert a[..][..i + 1] == a[..i + 1];
  }

  /**
    Sorts `a` in place into descending order under `le` (insertion sort).
    The result is the unique descending permutation of the old contents.
  */
  method SortDescending<T(!new)>(a: array<T>, le: (T, T) -> bool)
    requires TotalOrder(le)
    modifies a
    ensures Descending(a[..], le)
    ensures multiset(a[..]) == multiset(old(a[..]))
    ensures a[..] == SortDesc(old(a[..]), le)
  {
    var i := 0;
    while i < a.Length
      invariant 0 <= i <= a.Length
      invariant Descending(a[..i], le)
      invariant multiset(a[..]) == multiset(old(a[..]))
    {
      SiftInto(a, i, le);
      i := i + 1;
    }
    assert a[..a.Length] == a[..];
    SortDescDescending(old(a[..]), le);
    DescendingUnique(a[..], SortDesc(old(a[..]), le), le);
  }
}
