/** Sums over sequences, and that sorting does not change them. */
module Sums {
  import opened Sorting

  function SumOf<T>(s: seq<T>, f: T -> nat): nat {
    if s == [] then 0 else f(s[0]) + SumOf(s[1..], f)
  }

  lemma {:induction false} SumConcat<T>(a: seq<T>, b: seq<T>, f: T -> nat)
    ensures SumOf(a + b, f) == SumOf(a, f) + SumOf(b, f)
  {
    if a == [] {
      assert a + b == b;
    } else {
      assert (a + b)[1..] == a[1..] + b;
      SumConcat(a[1..], b, f);
    }
  }

  lemma SumExtend<T>(s: seq<T>, x: T, f: T -> nat)
    ensures SumOf(s + [x], f) == SumOf(s, f) + f(x)
  {
    SumConcat(s, [x], f);
    var one := [x];
    assert one[1..] == [] && SumOf(one, f) == f(x) + SumOf(one[1..], f);
  }

  lemma {:induction false} SumInsert<T>(x: T, s: seq<T>, less: (T, T) -> bool, f: T -> nat)
    ensures SumOf(Insert(x, s, less), f) == f(x) + SumOf(s, f)
  {
    if s == [] || !less(s[0], x) {
      assert ([x] + s)[1..] == s;
    } else {
      var rest := Insert(x, s[1..], less);
      assert ([s[0]] + rest)[1..] == rest;
      SumInsert(x, s[1..], less, f);
    }
  }

  lemma {:induction false} SumSorted<T>(s: seq<T>, less: (T, T) -> bool, f: T -> nat)
    ensures SumOf(Sort(s, less), f) == SumOf(s, f)
  {
    if s != [] {
      SumSorted(s[1..], less, f);
      SumInsert(s[0], Sort(s[1..], less), less, f);
    }
  }

  lemma {:induction false} SumAtLeast<T>(s: seq<T>, f: T -> nat, k: nat)
    requires k < |s|
    ensures f(s[k]) <= SumOf(s, f)
  {
    if k > 0 { SumAtLeast(s[1..], f, k - 1); }
  }

  lemma {:induction false} SumSame<T>(s: seq<T>, f: T -> nat, g: T -> nat)
    requires forall x :: x in s ==> f(x) == g(x)
    ensures SumOf(s, f) == SumOf(s, g)
  {
    if s != [] { SumSame(s[1..], f, g); }
  }
}
