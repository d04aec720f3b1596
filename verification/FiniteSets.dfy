/** Sizes of finite sets. */
module FiniteSets {

  lemma SubsetCard<T>(a: set<T>, b: set<T>)
    requires a <= b
    ensures |a| <= |b|
  {
    assert b == a + (b - a);
  }

  /** A subset as large as the set is the set. */
  lemma SameCard<T>(a: set<T>, b: set<T>)
    requires a <= b && |a| == |b|
    ensures a == b
  {
    assert b == a + (b - a);
  }

  ghost predicate Distinct<T>(s: seq<T>) {
    forall i, j | 0 <= i < j < |s| :: s[i] != s[j]
  }

  lemma {:induction false} DistinctCard<T>(s: seq<T>, all: set<T>)
    requires Distinct(s) && forall x | x in s :: x in all
    ensures |s| <= |all|
  {
    if s != [] {
      var last := s[|s| - 1];
      DistinctCard(s[..|s| - 1], all - {last});
    }
  }

  lemma {:induction false} ImageBound<T, U>(domain: set<T>, image: set<U>, f: T --> U)
    requires forall x | x in domain :: f.requires(x)
    requires image == set x | x in domain :: f(x)
    ensures |image| <= |domain|
  {
    if domain != {} {
      var x :| x in domain;
      var rest := set y | y in domain - {x} :: f(y);
      ImageBound(domain - {x}, rest, f);
      assert image == rest + {f(x)};
    } else {
      assert image == {};
    }
  }

  lemma {:induction false} RangeCard(n: nat, s: set<nat>)
    requires forall i :: i in s ==> i < n
    ensures |s| <= n
  {
    if n > 0 {
      RangeCard(n - 1, s - {n - 1});
      assert s <= (s - {n - 1}) + {n - 1};
    } else {
      assert s == {};
    }
  }

  lemma {:induction false} SeqCard<T>(s: seq<T>, all: set<T>)
    requires all == set x | x in s
    ensures |all| <= |s|
  {
    if s == [] {
      assert all == {};
    } else {
      var last, init := s[|s| - 1], s[..|s| - 1];
      var rest := set x | x in init;
      SeqCard(init, rest);
      assert all == rest + {last};
    }
  }
}
