/** The order in which the three-phase variant pairs off the first six fields: of all ways to split
    them three and three, one whose two product tables have the fewest cells together. */
module SplitOrder {
  import opened FiniteSets
  import opened Bitmaps
  import opened EqClasses

  const INT32: int := 0x1_0000_0000

  /** A sum or product of C ints: its low 32 bits, read as signed. */
  function Wrap(x: int): int {
    var low := x % INT32;
    if low >= INT32 / 2 then low - INT32 else low
  }

  /** The fields 0 to 5, each once. */
  ghost predicate Order(p: seq<nat>) {
    |p| == 6 && (forall i | 0 <= i < 6 :: p[i] < 6) && forall i, j | 0 <= i < j < 6 :: p[i] != p[j]
  }

  function Three(x: nat, y: nat, z: nat): nat {
    x * y * z
  }

  lemma AnyOrder(x: nat, y: nat, z: nat)
    ensures Three(x, y, z) == Three(y, x, z) == Three(x, z, y)
  {
    assert x * y == y * x;
    assert x * y * z == x * (y * z) == x * (z * y) == x * z * y;
  }

  /** The cells of the two product tables when the fields are taken in an order. */
  function Cells(n: seq<nat>, p: seq<nat>): nat
    requires |n| == 6 && |p| == 6 && forall i | 0 <= i < 6 :: p[i] < 6
  {
    Three(n[p[0]], n[p[1]], n[p[2]]) + Three(n[p[3]], n[p[4]], n[p[5]])
  }

  /** The number of cells as the code computes it. */
  function Cost(n: seq<nat>, p: seq<nat>): int
    requires |n| == 6 && |p| == 6 && forall i | 0 <= i < 6 :: p[i] < 6
  {
    Wrap(Cells(n, p))
  }

  /** The split that puts fields 0, a and b together, each half in order. */
  ghost predicate IsSplit(p: seq<nat>, a: nat, b: nat) {
    Order(p) && p[0] == 0 && p[1] == a && p[2] == b && a < b && p[3] < p[4] < p[5]
  }

  lemma SplitUnique(p: seq<nat>, q: seq<nat>, a: nat, b: nat)
    requires IsSplit(p, a, b) && IsSplit(q, a, b)
    ensures p == q
  {
    assert forall i | 3 <= i < 6 :: p[i] != 0 && p[i] != a && p[i] != b && q[i] != 0 && q[i] != a && q[i] != b;
  }

  function Swapped(p: seq<nat>, i: nat): (q: seq<nat>)
    requires i + 1 < |p|
    ensures |q| == |p| && forall k | 0 <= k < |p| :: q[k] == p[if k == i then i + 1 else if k == i + 1 then i else k]
  {
    p[i := p[i + 1]][i + 1 := p[i]]
  }

  lemma SwappedOrder(p: seq<nat>, i: nat)
    requires Order(p) && i < 5
    ensures Order(Swapped(p, i))
  {
    hide Swapped;
  }

  /** Swapping neighbours of one half, or the halves, keeps the number of cells. */
  lemma SwapNext(n: seq<nat>, p: seq<nat>, i: nat)
    requires |n| == 6 && Order(p) && i < 5 && i != 2
    ensures Order(Swapped(p, i)) && Cells(n, Swapped(p, i)) == Cells(n, p)
  {
    hide Three, Swapped;
    SwappedOrder(p, i);
    AnyOrder(n[p[0]], n[p[1]], n[p[2]]);
    AnyOrder(n[p[3]], n[p[4]], n[p[5]]);
    SwappedCells(n, p, i);
  }

  lemma SwappedCells(n: seq<nat>, p: seq<nat>, i: nat)
    requires |n| == 6 && |p| == 6 && (forall k | 0 <= k < 6 :: p[k] < 6) && i < 5 && i != 2
    ensures
      var q := Swapped(p, i);
      (forall k | 0 <= k < 6 :: q[k] < 6) &&
      if i < 3 then
        Three(n[q[3]], n[q[4]], n[q[5]]) == Three(n[p[3]], n[p[4]], n[p[5]]) &&
        Three(n[q[0]], n[q[1]], n[q[2]]) ==
          if i == 0 then Three(n[p[1]], n[p[0]], n[p[2]]) else Three(n[p[0]], n[p[2]], n[p[1]])
      else
        Three(n[q[0]], n[q[1]], n[q[2]]) == Three(n[p[0]], n[p[1]], n[p[2]]) &&
        Three(n[q[3]], n[q[4]], n[q[5]]) ==
          if i == 3 then Three(n[p[4]], n[p[3]], n[p[5]]) else Three(n[p[3]], n[p[5]], n[p[4]])
  {
    hide Three, Swapped;
  }

  lemma SwapHalves(n: seq<nat>, p: seq<nat>)
    requires |n| == 6 && Order(p)
    ensures Order([p[3], p[4], p[5], p[0], p[1], p[2]]) && Cells(n, [p[3], p[4], p[5], p[0], p[1], p[2]]) == Cells(n, p)
  {
  }

  lemma Settle(n: seq<nat>, p: seq<nat>, i: nat) returns (q: seq<nat>)
    requires |n| == 6 && Order(p) && i < 5 && i != 2
    ensures Order(q) && Cells(n, q) == Cells(n, p) && |q| == 6 && q[i] < q[i + 1]
    ensures q == p || q == Swapped(p, i)
  {
    hide Cells, Swapped;
    q := p;
    if p[i] > p[i + 1] {
      SwapNext(n, p, i);
      q := Swapped(p, i);
    }
  }

  /** Every order costs what one of the enumerated splits costs. */
  lemma Normalise(n: seq<nat>, p: seq<nat>) returns (q: seq<nat>)
    requires |n| == 6 && Order(p)
    ensures Order(q) && IsSplit(q, q[1], q[2]) && 1 <= q[1] < q[2] <= 5 && Cells(n, q) == Cells(n, p)
  {
    hide Cells, Order, IsSplit;
    OrderSays(p);
    Takes(p, 0);
    q := p;
    if p[3] == 0 || p[4] == 0 || p[5] == 0 {
      SwapHalves(n, p);
      q := [p[3], p[4], p[5], p[0], p[1], p[2]];
    }
    q := SortHalf(n, q, 0);
    q := SortHalf(n, q, 3);
    SortedSplit(q);
  }

  lemma SortedSplit(q: seq<nat>)
    requires |q| == 6 && Order(q) && 0 == q[0] < q[1] < q[2] && q[3] < q[4] < q[5]
    ensures IsSplit(q, q[1], q[2]) && q[2] <= 5
  {
  }

  /** Puts one half in order and leaves the other. */
  lemma SortHalf(n: seq<nat>, p: seq<nat>, h: nat) returns (q: seq<nat>)
    requires |n| == 6 && |p| == 6 && Order(p) && (h == 0 || h == 3)
    ensures Order(q) && Cells(n, q) == Cells(n, p) && |q| == 6 && q[h] < q[h + 1] < q[h + 2]
    ensures forall k | 0 <= k < 6 && !(h <= k < h + 3) :: q[k] == p[k]
    ensures p[h] == 0 || p[h + 1] == 0 || p[h + 2] == 0 ==> q[h] == 0
  {
    hide Cells, Swapped, Order;
    q := Settle(n, p, h);
    q := Settle(n, q, h + 1);
    q := Settle(n, q, h);
  }

  /** The smallest field not among those chosen. */
  method Unused(tid: seq<nat>) returns (t: nat)
    requires |tid| <= 5 && forall i | 0 <= i < |tid| :: tid[i] < 6
    ensures t < 6 && t !in tid && forall u: nat | u < t :: u in tid
  {
    t := 0;
    while t < 6
      invariant t <= 6 && forall u: nat | u < t :: u in tid
    {
      var flag := true;
      var j := 0;
      while j < |tid|
        invariant 0 <= j <= |tid| && (flag <==> forall k | 0 <= k < j :: tid[k] != t)
      {
        if tid[j] == t {
          flag := false;
        }
        j := j + 1;
      }
      if flag {
        return;
      }
      assert t in tid;
      t := t + 1;
    }
    TooMany(tid);
  }

  lemma TooMany(tid: seq<nat>)
    requires |tid| <= 5
    ensures exists u: nat :: u < 6 && u !in tid
  {
    if forall u: nat | u < 6 :: u in tid {
      var s := set k | 0 <= k < |tid| :: tid[k];
      SetOf(tid);
      forall u: nat | u < 6
        ensures u in s
      {
        assert u in tid;
      }
      assert {0, 1, 2, 3, 4, 5} <= s;
      SubsetCard({0, 1, 2, 3, 4, 5}, s);
    }
  }

  lemma {:induction false} SetOf(tid: seq<nat>)
    ensures |set k | 0 <= k < |tid| :: tid[k]| <= |tid|
  {
    if tid != [] {
      var n := |tid| - 1;
      SetOf(tid[..n]);
      var a, b := set k | 0 <= k < |tid| :: tid[k], set k | 0 <= k < n :: tid[..n][k];
      assert a == b + {tid[n]};
    }
  }

  /** The order kept is a permutation of the fields whose number of cells, as computed in 32 bits,
      no other order beats. */
  method FindOrder(n: seq<nat>) returns (dot: seq<nat>)
    requires |n| == 6
    ensures Order(dot) && forall p: seq<nat> | Order(p) :: Cost(n, dot) <= Cost(n, p)
  {
    hide Cost;
    dot := [0, 1, 2, 3, 4, 5];
    var t1 := 1;
    while t1 < 5
      invariant 1 <= t1 <= 5 && Order(dot)
      invariant forall q: seq<nat> | Order(q) && IsSplit(q, q[1], q[2]) && q[1] < t1 :: Cost(n, dot) <= Cost(n, q)
    {
      var t2 := t1 + 1;
      while t2 < 6
        invariant t1 < t2 <= 6 && Order(dot)
        invariant forall q: seq<nat> | Order(q) && IsSplit(q, q[1], q[2]) && (q[1] < t1 || (q[1] == t1 && q[2] < t2)) ::
          Cost(n, dot) <= Cost(n, q)
      {
        var tid := [0, t1, t2];
        var t := Unused(tid);
        tid := tid + [t];
        t := Unused(tid);
        tid := tid + [t];
        t := Unused(tid);
        tid := tid + [t];
        assert IsSplit(tid, t1, t2);
        if Cost(n, tid) < Cost(n, dot) {
          dot := tid;
        }
        forall q: seq<nat> | Order(q) && IsSplit(q, q[1], q[2]) && q[1] == t1 && q[2] == t2
          ensures q == tid
        {
          SplitUnique(q, tid, t1, t2);
        }
        t2 := t2 + 1;
      }
      t1 := t1 + 1;
    }
    forall p: seq<nat> | Order(p)
      ensures Cost(n, dot) <= Cost(n, p)
    {
      var q := Normalise(n, p);
      SameCost(n, p, q);
    }
  }

  lemma SameCost(n: seq<nat>, p: seq<nat>, q: seq<nat>)
    requires |n| == 6 && Order(p) && Order(q) && Cells(n, p) == Cells(n, q)
    ensures Cost(n, p) == Cost(n, q)
  {
  }

  /** When some order's cells are below 2^31, the order kept is one with the fewest cells exactly if
      its own are. */
  lemma FewestCells(n: seq<nat>, dot: seq<nat>, small: seq<nat>)
    requires |n| == 6 && Order(dot) && Order(small) && Cells(n, small) < INT32 / 2
    requires forall p: seq<nat> | Order(p) :: Cost(n, dot) <= Cost(n, p)
    ensures (forall p: seq<nat> | Order(p) :: Cells(n, dot) <= Cells(n, p)) <==> Cells(n, dot) < INT32 / 2
  {
    hide Cells, Cost;
    if Cells(n, dot) < INT32 / 2 {
      forall p: seq<nat> | Order(p)
        ensures Cells(n, dot) <= Cells(n, p)
      {
        CostAtMost(n, dot);
        CostAtMost(n, p);
      }
    }
  }

  lemma CostAtMost(n: seq<nat>, p: seq<nat>)
    requires |n| == 6 && Order(p)
    ensures Cost(n, p) <= Cells(n, p)
    ensures Cells(n, p) < INT32 / 2 ==> Cost(n, p) == Cells(n, p)
  {
    hide Cells, Order;
  }

  // Orders one of which fits its tables

  lemma Six(p: seq<nat>)
    requires Order(p)
    ensures |{p[0], p[1], p[2], p[3], p[4], p[5]}| == 6
  {
    assert |{p[0], p[1], p[2]}| == 3;
  }

  /** An order takes every field. */
  lemma Takes(dot: seq<nat>, c: nat)
    requires Order(dot) && c < 6
    ensures c == dot[0] || c == dot[1] || c == dot[2] || c == dot[3] || c == dot[4] || c == dot[5]
  {
    hide Order;
    OrderSays(dot);
    Six(dot);
    SixFields();
    var s := {dot[0], dot[1], dot[2], dot[3], dot[4], dot[5]};
    forall x | x in s
      ensures x in {0, 1, 2, 3, 4, 5}
    {
      assert 0 <= x < 6;
    }
    SameCard(s, {0, 1, 2, 3, 4, 5});
    assert c in s;
  }

  lemma SixFields()
    ensures |{0, 1, 2, 3, 4, 5}| == 6
  {
    assert |{0, 1, 2}| == 3;
  }

  /** The second order, in terms of the positions of the first. */
  lemma Relabel(p: seq<nat>, q: seq<nat>) returns (r: seq<nat>)
    requires Order(p) && Order(q)
    ensures Order(r) && forall i | 0 <= i < 6 :: p[r[i]] == q[i]
  {
    forall i | 0 <= i < 6
      ensures exists j: nat :: j < 6 && p[j] == q[i]
    {
      Takes(p, q[i]);
    }
    r := seq(6, i requires 0 <= i < 6 => var j: nat :| j < 6 && p[j] == q[i]; j);
  }

  lemma OrderSays(dot: seq<nat>)
    requires Order(dot)
    ensures |dot| == 6 && forall i | 0 <= i < 6 :: dot[i] < 6
  {
  }

  lemma RelabelledCells(n: seq<nat>, m: seq<nat>, p: seq<nat>, q: seq<nat>, r: seq<nat>)
    requires |n| == 6 && |m| == 6 && Order(p) && Order(q) && Order(r)
    requires forall i | 0 <= i < 6 :: m[i] == n[p[i]] && p[r[i]] == q[i]
    ensures Cells(n, q) == Cells(m, r)
  {
    hide Three;
    assert forall i | 0 <= i < 6 :: m[r[i]] == n[q[i]];
  }

  /** Class counts: a table has some class and at most MAX_FILTERS of them. */
  ghost predicate ClassCounts(n: seq<nat>) {
    |n| == 6 && forall i | 0 <= i < 6 :: 1 <= n[i] <= MAX_FILTERS
  }

  ghost predicate HalvesFit(n: seq<nat>, p: seq<nat>)
    requires |n| == 6
  {
    Order(p) && Three(n[p[0]], n[p[1]], n[p[2]]) <= ACL_MAX_CELL && Three(n[p[3]], n[p[4]], n[p[5]]) <= ACL_MAX_CELL
  }

  /** Two halves that fit, and one field of each exchanged. */
  lemma Exchanged(a: nat, b: nat, u: nat, v: nat, c: nat, d: nat)
    requires Three(a, b, u) <= ACL_MAX_CELL && Three(v, c, d) <= ACL_MAX_CELL
    requires 1 <= u <= MAX_FILTERS && 1 <= v <= MAX_FILTERS
    ensures Three(a, b, v) + Three(u, c, d) <= (MAX_FILTERS + 1) * ACL_MAX_CELL
  {
    AnyOrder(v, c, d);
    AnyOrder(c, v, d);
    AnyOrder(u, c, d);
    AnyOrder(c, u, d);
    Larger(a * b, u, v);
    Larger(c * d, v, u);
  }

  lemma Larger(x: nat, u: nat, v: nat)
    requires x * u <= ACL_MAX_CELL && 1 <= u && v <= MAX_FILTERS
    ensures x * v <= MAX_FILTERS * ACL_MAX_CELL
    ensures v <= u ==> x * v <= ACL_MAX_CELL
  {
    assert x <= x * u;
    assert x * v <= x * MAX_FILTERS;
    if v <= u {
      assert x * v <= x * u;
    }
  }

  lemma SplitAtMost(m: seq<nat>, q: seq<nat>)
    requires ClassCounts(m) && HalvesFit(m, [0, 1, 2, 3, 4, 5])
    requires Order(q) && IsSplit(q, q[1], q[2]) && 1 <= q[1] < q[2] <= 5
    ensures Cells(m, q) <= (MAX_FILTERS + 1) * ACL_MAX_CELL
  {
    hide Three;
    var a, b, c, x, y, z := m[0], m[1], m[2], m[3], m[4], m[5];
    AnyOrder(a, b, c);
    AnyOrder(b, a, c);
    AnyOrder(x, y, z);
    AnyOrder(x, z, y);
    if q[1] == 1 {
      SplitWithOne(m, q);
    } else if q[1] == 2 {
      if q[2] == 3 {
        Exchanged(a, c, b, x, y, z);
      } else if q[2] == 4 {
        Exchanged(a, c, b, y, x, z);
      } else {
        Exchanged(a, c, b, z, x, y);
      }
    } else if q[1] == 4 {
      Exchanged(b, c, a, x, y, z);
    } else if q[2] == 4 {
      Exchanged(b, c, a, z, x, y);
    } else {
      Exchanged(b, c, a, y, x, z);
    }
  }

  lemma SplitWithOne(m: seq<nat>, q: seq<nat>)
    requires ClassCounts(m) && HalvesFit(m, [0, 1, 2, 3, 4, 5])
    requires Order(q) && IsSplit(q, 1, q[2]) && q[2] <= 5
    ensures Cells(m, q) <= (MAX_FILTERS + 1) * ACL_MAX_CELL
  {
    hide Three;
    var a, b, c, x, y, z := m[0], m[1], m[2], m[3], m[4], m[5];
    AnyOrder(x, y, z);
    AnyOrder(x, z, y);
    if q[2] == 3 {
      Exchanged(a, b, c, x, y, z);
    } else if q[2] == 4 {
      Exchanged(a, b, c, y, x, z);
    } else if q[2] == 5 {
      Exchanged(a, b, c, z, x, y);
    }
  }

  lemma Relabelled(n: seq<nat>, p: seq<nat>) returns (m: seq<nat>)
    requires ClassCounts(n) && HalvesFit(n, p)
    ensures ClassCounts(m) && HalvesFit(m, [0, 1, 2, 3, 4, 5])
    ensures |n| == 6 && |m| == 6 && Order(p) && forall i | 0 <= i < 6 :: m[i] == n[p[i]]
  {
    hide Three, Order;
    OrderSays(p);
    Identity();
    m := seq(6, i requires 0 <= i < 6 => n[p[i]]);
  }

  lemma Identity()
    ensures Order([0, 1, 2, 3, 4, 5])
  {
  }

  /** When both halves of some order fit, no order has 2^31 cells. */
  lemma OneFits(n: seq<nat>, p: seq<nat>, q: seq<nat>)
    requires ClassCounts(n) && HalvesFit(n, p) && Order(q)
    ensures Cells(n, q) <= (MAX_FILTERS + 1) * ACL_MAX_CELL < INT32 / 2
  {
    hide Cells, IsSplit, ClassCounts, HalvesFit, Order;
    var m := Relabelled(n, p);
    var r := Relabel(p, q);
    RelabelledCells(n, m, p, q, r);
    var split := Normalise(m, r);
    SplitAtMost(m, split);
  }

  /** So when some order fits, the order kept has the fewest cells. */
  lemma KeepsFewest(n: seq<nat>, dot: seq<nat>, fits: seq<nat>, p: seq<nat>)
    requires ClassCounts(n) && HalvesFit(n, fits) && Order(dot) && Order(p) && Cost(n, dot) <= Cost(n, p)
    ensures Cells(n, dot) <= Cells(n, p)
  {
    hide Cells, Cost, Order, HalvesFit;
    OneFits(n, fits, dot);
    CostAtMost(n, dot);
    CostAtMost(n, p);
  }
}
