/**
 * Nested Cartesian products of finite value lists, enumerated with the first
 * coordinate varying slowest (the order a nest of `for` loops, or
 * `itertools::iproduct!`, produces).
 */
module Tuples {
  /** Strict lexicographic order on tuples of equal length. */
  predicate LexLess(a: seq<int>, b: seq<int>)
    decreases |a|
  {
    |a| > 0 && |b| > 0 && (a[0] < b[0] || (a[0] == b[0] && LexLess(a[1..], b[1..])))
  }

  predicate Increasing(s: seq<int>) {
    forall i, j :: 0 <= i < j < |s| ==> s[i] < s[j]
  }

  predicate StrictlySorted(s: seq<seq<int>>) {
    forall i, j :: 0 <= i < j < |s| ==> LexLess(s[i], s[j])
  }

  predicate Distinct<T(==)>(s: seq<T>) {
    forall i, j :: 0 <= i < j < |s| ==> s[i] != s[j]
  }

  /** `t` takes each coordinate from the matching value list. */
  predicate Within(t: seq<int>, domains: seq<seq<int>>) {
    |t| == |domains| && forall i :: 0 <= i < |t| ==> t[i] in domains[i]
  }

  function Cons(d: int, rest: seq<seq<int>>): seq<seq<int>> {
    seq(|rest|, i requires 0 <= i < |rest| => [d] + rest[i])
  }

  /** Each value of `values` in turn, followed by every tuple of `rest`. */
  function Prepend(values: seq<int>, rest: seq<seq<int>>): seq<seq<int>>
    decreases |values|
  {
    if |values| == 0 then [] else Cons(values[0], rest) + Prepend(values[1..], rest)
  }

  function Product(domains: seq<seq<int>>): seq<seq<int>>
    decreases |domains|
  {
    if |domains| == 0 then [[]] else Prepend(domains[0], Product(domains[1..]))
  }

  function Size(domains: seq<seq<int>>): nat
    decreases |domains|
  {
    if |domains| == 0 then 1 else |domains[0]| * Size(domains[1..])
  }

  lemma {:induction false} LexLessIrreflexive(a: seq<int>)
    ensures !LexLess(a, a)
    decreases |a|
  {
    if |a| > 0 {
      LexLessIrreflexive(a[1..]);
    }
  }

  lemma LexLessCons(d: int, a: seq<int>, b: seq<int>)
    ensures LexLess([d] + a, [d] + b) <==> LexLess(a, b)
  {
    assert ([d] + a)[1..] == a;
    assert ([d] + b)[1..] == b;
  }

  lemma ConsMembers(d: int, rest: seq<seq<int>>, t: seq<int>)
    ensures t in Cons(d, rest) <==> |t| > 0 && t[0] == d && t[1..] in rest
  {
    if |t| > 0 && t[0] == d && t[1..] in rest {
      var i :| 0 <= i < |rest| && rest[i] == t[1..];
      assert Cons(d, rest)[i] == t;
    }
    if t in Cons(d, rest) {
      var i :| 0 <= i < |rest| && Cons(d, rest)[i] == t;
      assert t[1..] == rest[i];
    }
  }

  lemma {:induction false} PrependMembers(values: seq<int>, rest: seq<seq<int>>, t: seq<int>)
    ensures t in Prepend(values, rest) <==> |t| > 0 && t[0] in values && t[1..] in rest
    decreases |values|
  {
    if |values| > 0 {
      ConsMembers(values[0], rest, t);
      PrependMembers(values[1..], rest, t);
      assert values == [values[0]] + values[1..];
    }
  }

  lemma WithinCons(t: seq<int>, domains: seq<seq<int>>)
    requires |t| > 0 && |domains| > 0
    ensures Within(t, domains) <==> t[0] in domains[0] && Within(t[1..], domains[1..])
  {
    if t[0] in domains[0] && Within(t[1..], domains[1..]) {
      forall i | 0 <= i < |t|
        ensures t[i] in domains[i]
      {
        if i > 0 {
          assert t[1..][i - 1] in domains[1..][i - 1];
        }
      }
    }
    if Within(t, domains) {
      forall i | 0 <= i < |t| - 1
        ensures t[1..][i] in domains[1..][i]
      {
        assert t[i + 1] in domains[i + 1];
      }
    }
  }

  /** The product holds exactly the tuples that take each coordinate from its list. */
  lemma {:induction false} ProductMembers(domains: seq<seq<int>>, t: seq<int>)
    ensures t in Product(domains) <==> Within(t, domains)
    decreases |domains|
  {
    if |domains| > 0 {
      PrependMembers(domains[0], Product(domains[1..]), t);
      if |t| > 0 {
        ProductMembers(domains[1..], t[1..]);
        WithinCons(t, domains);
      }
    }
  }

  lemma {:induction false} PrependLength(values: seq<int>, rest: seq<seq<int>>)
    ensures |Prepend(values, rest)| == |values| * |rest|
    decreases |values|
  {
    if |values| > 0 {
      PrependLength(values[1..], rest);
    }
  }

  /** The product has one tuple per combination of values. */
  lemma {:induction false} ProductLength(domains: seq<seq<int>>)
    ensures |Product(domains)| == Size(domains)
    decreases |domains|
  {
    if |domains| > 0 {
      ProductLength(domains[1..]);
      PrependLength(domains[0], Product(domains[1..]));
    }
  }

  lemma ConsSorted(d: int, rest: seq<seq<int>>)
    requires StrictlySorted(rest)
    ensures StrictlySorted(Cons(d, rest))
  {
    forall i, j | 0 <= i < j < |rest|
      ensures LexLess(Cons(d, rest)[i], Cons(d, rest)[j])
    {
      LexLessCons(d, rest[i], rest[j]);
    }
  }

  lemma SortedAppend(a: seq<seq<int>>, b: seq<seq<int>>)
    requires StrictlySorted(a) && StrictlySorted(b)
    requires forall x, y :: x in a && y in b ==> LexLess(x, y)
    ensures StrictlySorted(a + b)
  {
    forall i, j | 0 <= i < j < |a + b|
      ensures LexLess((a + b)[i], (a + b)[j])
    {
      if j < |a| {
        assert (a + b)[i] == a[i] && (a + b)[j] == a[j];
      } else if i >= |a| {
        assert (a + b)[i] == b[i - |a|] && (a + b)[j] == b[j - |a|];
      } else {
        assert (a + b)[i] == a[i] && (a + b)[j] == b[j - |a|];
      }
    }
  }

  lemma {:induction false} PrependSorted(values: seq<int>, rest: seq<seq<int>>)
    requires Increasing(values) && StrictlySorted(rest)
    ensures StrictlySorted(Prepend(values, rest))
    decreases |values|
  {
    if |values| > 0 {
      ConsSorted(values[0], rest);
      assert Increasing(values[1..]) by {
        forall i, j | 0 <= i < j < |values[1..]|
          ensures values[1..][i] < values[1..][j]
        {
          assert values[1..][i] == values[i + 1] && values[1..][j] == values[j + 1];
        }
      }
      PrependSorted(values[1..], rest);
      forall x, y | x in Cons(values[0], rest) && y in Prepend(values[1..], rest)
        ensures LexLess(x, y)
      {
        ConsMembers(values[0], rest, x);
        PrependMembers(values[1..], rest, y);
        var k :| 0 <= k < |values[1..]| && values[1..][k] == y[0];
        assert values[k + 1] == y[0];
      }
      SortedAppend(Cons(values[0], rest), Prepend(values[1..], rest));
    }
  }

  /** Increasing value lists give a product in strictly increasing lexicographic order. */
  lemma {:induction false} ProductSorted(domains: seq<seq<int>>)
    requires forall i :: 0 <= i < |domains| ==> Increasing(domains[i])
    ensures StrictlySorted(Product(domains))
    decreases |domains|
  {
    if |domains| > 0 {
      assert forall i :: 0 <= i < |domains[1..]| ==> domains[1..][i] == domains[i + 1];
      ProductSorted(domains[1..]);
      PrependSorted(domains[0], Product(domains[1..]));
    }
  }

  lemma SortedDistinct(s: seq<seq<int>>)
    requires StrictlySorted(s)
    ensures Distinct(s)
  {
    forall i, j | 0 <= i < j < |s|
      ensures s[i] != s[j]
    {
      LexLessIrreflexive(s[i]);
    }
  }
}
