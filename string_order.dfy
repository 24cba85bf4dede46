/**
  The order in which the menu lists its opening-hours and city choices.
  `Array.prototype.sort` without a comparator orders strings by their code
  units; here that is lexicographic order on `seq<char>`, and the sort is an
  insertion sort proved to return a sorted permutation of its input.
 */
module StringOrder {

  /** Lexicographic order: a proper prefix comes first, otherwise the first differing character decides. */
  predicate LessEq(a: string, b: string)
  {
    if a == [] then true
    else if b == [] then false
    else a[0] < b[0] || (a[0] == b[0] && LessEq(a[1..], b[1..]))
  }

  lemma {:induction false} LessEqTotal(a: string, b: string)
    ensures LessEq(a, b) || LessEq(b, a)
  {
    if a != [] && b != [] && a[0] == b[0] {
      LessEqTotal(a[1..], b[1..]);
    }
  }

  lemma {:induction false} LessEqAntisymmetric(a: string, b: string)
    requires LessEq(a, b) && LessEq(b, a)
    ensures a == b
  {
    if a != [] && b != [] {
      LessEqAntisymmetric(a[1..], b[1..]);
      assert a == [a[0]] + a[1..] && b == [b[0]] + b[1..];
    }
  }

  lemma {:induction false} LessEqTransitive(a: string, b: string, c: string)
    requires LessEq(a, b) && LessEq(b, c)
    ensures LessEq(a, c)
  {
    if a != [] && b != [] && c != [] && a[0] == b[0] && b[0] == c[0] {
      LessEqTransitive(a[1..], b[1..], c[1..]);
    }
  }

  /** Every earlier element is at most every later one. */
  ghost predicate Sorted(xs: seq<string>)
  {
    forall i, j :: 0 <= i < j < |xs| ==> LessEq(xs[i], xs[j])
  }

  ghost predicate NoDuplicates(xs: seq<string>)
  {
    forall i, j :: 0 <= i < j < |xs| ==> xs[i] != xs[j]
  }

  /** `b` is at most every element of `xs`. */
  ghost predicate Below(b: string, xs: seq<string>)
  {
    forall y :: y in xs ==> LessEq(b, y)
  }

  lemma SortedCons(b: string, xs: seq<string>)
    requires Sorted(xs) && Below(b, xs)
    ensures Sorted([b] + xs)
  {
    forall i, j | 0 <= i < j < |[b] + xs|
      ensures LessEq(([b] + xs)[i], ([b] + xs)[j])
    {
      if i > 0 {
        assert ([b] + xs)[i] == xs[i - 1] && ([b] + xs)[j] == xs[j - 1];
      } else {
        assert ([b] + xs)[j] == xs[j - 1] && xs[j - 1] in xs;
      }
    }
  }

  lemma NoDuplicatesCons(b: string, xs: seq<string>)
    requires NoDuplicates(xs) && b !in xs
    ensures NoDuplicates([b] + xs)
  {
    forall i, j | 0 <= i < j < |[b] + xs|
      ensures ([b] + xs)[i] != ([b] + xs)[j]
    {
      assert ([b] + xs)[j] == xs[j - 1];
      if i > 0 {
        assert ([b] + xs)[i] == xs[i - 1];
      }
    }
  }

  lemma NoDuplicatesTail(xs: seq<string>)
    requires xs != [] && NoDuplicates(xs)
    ensures xs[0] !in xs[1..] && NoDuplicates(xs[1..])
  {
    forall k | 0 <= k < |xs| - 1 ensures xs[1..][k] != xs[0] {
      assert xs[1..][k] == xs[k + 1];
    }
  }

  lemma SortedHead(xs: seq<string>)
    requires xs != [] && Sorted(xs)
    ensures Below(xs[0], xs[1..]) && Sorted(xs[1..])
  {
    forall y | y in xs[1..] ensures LessEq(xs[0], y) {
      var k :| 0 <= k < |xs[1..]| && xs[1..][k] == y;
      assert xs[k + 1] == y;
    }
  }

  lemma BelowSorted(x: string, xs: seq<string>)
    requires xs != [] && Sorted(xs) && LessEq(x, xs[0])
    ensures Below(x, xs)
  {
    forall y | y in xs ensures LessEq(x, y) {
      var k :| 0 <= k < |xs| && xs[k] == y;
      if k > 0 { LessEqTransitive(x, xs[0], y); }
    }
  }

  lemma BelowInsert(b: string, x: string, ys: seq<string>, zs: seq<string>)
    requires Below(b, ys) && LessEq(b, x)
    requires multiset(zs) == multiset(ys) + multiset{x}
    ensures Below(b, zs)
  {
    forall y | y in zs ensures LessEq(b, y) {
      assert y in multiset(zs);
      if y != x { assert y in multiset(ys); }
    }
  }

  /** Puts `x` into the sorted `xs` after every element smaller than it. */
  function Insert(x: string, xs: seq<string>): (r: seq<string>)
    requires Sorted(xs)
    ensures Sorted(r)
    ensures multiset(r) == multiset(xs) + multiset{x}
    ensures NoDuplicates(xs) && x !in xs ==> NoDuplicates(r)
  {
    if xs == [] then
      [x]
    else if LessEq(x, xs[0]) then
      BelowSorted(x, xs);
      SortedCons(x, xs);
      assert NoDuplicates(xs) && x !in xs ==> NoDuplicates([x] + xs) by {
        if NoDuplicates(xs) && x !in xs { NoDuplicatesCons(x, xs); }
      }
      [x] + xs
    else
      SortedHead(xs);
      var rest := Insert(x, xs[1..]);
      LessEqTotal(x, xs[0]);
      BelowInsert(xs[0], x, xs[1..], rest);
      SortedCons(xs[0], rest);
      assert xs == [xs[0]] + xs[1..];
      assert NoDuplicates(xs) && x !in xs ==> NoDuplicates([xs[0]] + rest) by {
        if NoDuplicates(xs) && x !in xs {
          NoDuplicatesTail(xs);
          assert xs[0] !in multiset(rest);
          NoDuplicatesCons(xs[0], rest);
        }
      }
      [xs[0]] + rest
  }

  /** The model of the catalog index's `sort()` call. */
  function Sort(xs: seq<string>): (r: seq<string>)
    ensures Sorted(r)
    ensures multiset(r) == multiset(xs)
    ensures NoDuplicates(xs) ==> NoDuplicates(r)
  {
    if xs == [] then
      []
    else
      assert xs == [xs[0]] + xs[1..];
      var rest := Sort(xs[1..]);
      assert NoDuplicates(xs) ==> NoDuplicates(xs[1..]) && xs[0] !in rest by {
        if NoDuplicates(xs) {
          NoDuplicatesTail(xs);
          assert xs[0] !in multiset(rest);
        }
      }
      Insert(xs[0], rest)
  }

  /**
    A sorted list without duplicates is determined by its elements: the three
    properties of the catalog index pin down the list exactly.
   */
  lemma {:induction false} SortedSetUnique(a: seq<string>, b: seq<string>)
    requires Sorted(a) && NoDuplicates(a)
    requires Sorted(b) && NoDuplicates(b)
    requires forall v :: v in a <==> v in b
    ensures a == b
  {
    if a != [] || b != [] {
      assert a != [] ==> a[0] in b;
      assert b != [] ==> b[0] in a;
      assert a != [] && b != [];
      var j :| 0 <= j < |b| && b[j] == a[0];
      var i :| 0 <= i < |a| && a[i] == b[0];
      if j > 0 { assert LessEq(b[0], b[j]); } else { LessEqTotal(b[0], a[0]); }
      if i > 0 { assert LessEq(a[0], a[i]); }
      if a[0] != b[0] {
        assert i > 0 && j > 0;
        LessEqAntisymmetric(a[0], b[0]);
      }
      forall v ensures v in a[1..] <==> v in b[1..] {
        if v in a[1..] {
          var k :| 0 <= k < |a[1..]| && a[1..][k] == v;
          assert a[k + 1] == v && v != a[0];
          assert v in b;
          var l :| 0 <= l < |b| && b[l] == v;
          assert l > 0;
          assert b[1..][l - 1] == v;
        }
        if v in b[1..] {
          var k :| 0 <= k < |b[1..]| && b[1..][k] == v;
          assert b[k + 1] == v && v != b[0];
          assert v in a;
          var l :| 0 <= l < |a| && a[l] == v;
          assert l > 0;
          assert a[1..][l - 1] == v;
        }
      }
      SortedSetUnique(a[1..], b[1..]);
      assert a == [a[0]] + a[1..] && b == [b[0]] + b[1..];
    }
  }
}
