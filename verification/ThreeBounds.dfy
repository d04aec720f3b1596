/** The three-phase variant's order and cells on rules set by command: when the order kept is the one
    with the fewest cells, and rules for which it is not, or for which no order's tables fit. */
module ThreeBounds {
  import opened Bitmaps
  import opened EqClasses
  import opened Filters
  import opened Sweep
  import opened Classifier
  import opened RuleHistory
  import opened RuleTable
  import opened RuleBatch
  import opened ClassBounds
  import opened SplitOrder
  import opened ThreePhase
  import opened ThreePhaseAcl

  lemma SomeClass(s: Snapshot, com: nat)
    requires s.Valid() && com < 7
    ensures |Classes0(s, com)| >= 1
  {
    hide Classes0;
    ClassesDistinct(s, com);
  }

  /** The rows of the two joined tables are the products of their fields' classes. */
  lemma HalfCells(s: Snapshot, p: seq<nat>)
    requires s.Valid() && Order(p)
    ensures
      var n := Counts(s);
      |RowsA(s, p)| == Three(n[p[0]], n[p[1]], n[p[2]]) * |Classes0(s, 6)| &&
      |RowsB(s, p)| == Three(n[p[3]], n[p[4]], n[p[5]])
  {
    hide Classes0, Cross, Order;
    OrderSays(p);
    var a, b, c := Classes0(s, p[0]), Classes0(s, p[1]), Classes0(s, p[2]);
    Fold3(a, b, c, Classes0(s, 6));
    ThreeLong(a, b, c);
    CrossLength(Cross(Cross(a, b), c), Classes0(s, 6));
    var x, y, z := Classes0(s, p[3]), Classes0(s, p[4]), Classes0(s, p[5]);
    Fold2(x, y, z);
    ThreeLong(x, y, z);
  }

  lemma ThreeLong(a: seq<RuleSet>, b: seq<RuleSet>, c: seq<RuleSet>)
    ensures |Cross(Cross(a, b), c)| == Three(|a|, |b|, |c|)
  {
    hide Cross;
    CrossLength(a, b);
    CrossLength(Cross(a, b), c);
  }

  /** If the two joined tables of some order have room for their cells, the order kept has the fewest. */
  lemma KeptHasFewest(s: Snapshot, dot: seq<nat>, fits: seq<nat>, p: seq<nat>)
    requires s.Valid() && Phase0Status(s) == Done && Order(dot) && Order(fits) && Order(p)
    requires |RowsA(s, fits)| <= ACL_MAX_CELL && |RowsB(s, fits)| <= ACL_MAX_CELL
    requires Cost(Counts(s), dot) <= Cost(Counts(s), p)
    ensures Cells(Counts(s), dot) <= Cells(Counts(s), p)
  {
    hide Classes0, RowsA, RowsB, Order, Cost, Cells, Three;
    var n := Counts(s);
    forall c: nat | c < 7
      ensures |Classes0(s, c)| >= 1
    {
      SomeClass(s, c);
    }
    HalfCells(s, fits);
    OrderSays(fits);
    AtLeast(Three(n[fits[0]], n[fits[1]], n[fits[2]]), |Classes0(s, 6)|);
    KeepsFewest(n, dot, fits, p);
  }

  lemma AtLeast(x: nat, y: nat)
    requires y >= 1
    ensures x <= x * y
  {
  }

  lemma ThreeBound(x: nat, y: nat, z: nat, w: nat)
    requires x <= w && y <= w && z <= w
    ensures Three(x, y, z) <= Three(w, w, w)
  {
    ProductBound(x, w, y, w);
    ProductBound(x * y, w * w, z, w);
  }

  /** Rules with at most k values for each address and each port fit both joined tables in any order. */
  lemma FewValuesFit(s: Snapshot, m: map<int, Policy>, dot: seq<nat>, k: nat)
    requires s.Valid() && Holds(s.slots[..s.num], m) && Order(dot)
    requires forall f: nat | f < PROTO :: |Values(m, f)| <= k
    requires Three(k + 1, k + 1, k + 1) * (|Values(m, PROTO)| + 2) <= MAX_FILTERS
    ensures Phase0Status(s) == Done && TableStatus(RowsA(s, dot)) == TableStatus(RowsB(s, dot)) == Done
    ensures |RowsA(s, dot)| <= Three(k + 1, k + 1, k + 1) * (|Values(m, PROTO)| + 2)
    ensures |RowsB(s, dot)| <= Three(k + 1, k + 1, k + 1)
  {
    hide Holds, Classes0, RowsA, RowsB, Order, Values, Three, Uniq;
    OrderSays(dot);
    Cube(k, |Values(m, PROTO)| + 2);
    forall com: nat | com < 7
      ensures |Classes0(s, com)| <= if com < 6 then k + 1 else |Values(m, PROTO)| + 2
    {
      FieldBound(s, m, com);
    }
    HalfCells(s, dot);
    var n := Counts(s);
    ThreeBound(n[dot[0]], n[dot[1]], n[dot[2]], k + 1);
    ThreeBound(n[dot[3]], n[dot[4]], n[dot[5]], k + 1);
    ProductBound(Three(n[dot[0]], n[dot[1]], n[dot[2]]), Three(k + 1, k + 1, k + 1),
                 |Classes0(s, 6)|, |Values(m, PROTO)| + 2);
    UniqSound(RowsA(s, dot));
    UniqSound(RowsB(s, dot));
  }

  /** And compile, when the last table has room for their pairs of classes. */
  lemma FewValuesCompile(s: Snapshot, m: map<int, Policy>, dot: seq<nat>, k: nat)
    requires s.Valid() && Holds(s.slots[..s.num], m) && Order(dot)
    requires forall f: nat | f < PROTO :: |Values(m, f)| <= k
    requires Three(k + 1, k + 1, k + 1) * (|Values(m, PROTO)| + 2) <= MAX_FILTERS
    requires Three(k + 1, k + 1, k + 1) * (|Values(m, PROTO)| + 2) * Three(k + 1, k + 1, k + 1) <= ACL_MAX_CELL
    ensures ThreeStatus(s, dot) == Done
  {
    hide Holds, Classes0, RowsA, RowsB, Order, Values, Three, Uniq, Cross, Phase0Status, TableStatus;
    FewValuesFit(s, m, dot, k);
    UniqSound(RowsA(s, dot));
    UniqSound(RowsB(s, dot));
    CrossLength(Uniq(RowsA(s, dot)), Uniq(RowsB(s, dot)));
    ProductBound(|Uniq(RowsA(s, dot))|, Three(k + 1, k + 1, k + 1) * (|Values(m, PROTO)| + 2),
                 |Uniq(RowsB(s, dot))|, Three(k + 1, k + 1, k + 1));
  }

  lemma Cube(k: nat, e: nat)
    requires e >= 2
    ensures k + 1 <= Three(k + 1, k + 1, k + 1) <= Three(k + 1, k + 1, k + 1) * e
    ensures e <= Three(k + 1, k + 1, k + 1) * e
  {
    var w := k + 1;
    AtLeast(w, w);
    AtLeast(w * w, w);
    AtLeast(w * w * w, e);
    AtLeast(e, w * w * w);
  }

  // Rules for which the order kept is the one with the most cells

  const WRAP_RULES: nat := 1300

  const SOURCES := Fields4(true, false, true, false)

  /** 1300 rules, each on a source address and a source port. */
  ghost function SourceBatch(): (s: Snapshot)
    ensures s.Valid()
  {
    Batch(Diagonal(SOURCES), WRAP_RULES)
  }

  lemma SourceCounts()
    ensures Counts(SourceBatch()) == [1301, 1301, 1, 1, 1301, 1]
  {
    hide Classes0, Batch, Diagonal;
    UsedClasses(SOURCES, WRAP_RULES, 0);
    UsedClasses(SOURCES, WRAP_RULES, 1);
    UnusedClass(SOURCES, WRAP_RULES, 2);
    UnusedClass(SOURCES, WRAP_RULES, 3);
    UsedClasses(SOURCES, WRAP_RULES, 4);
    UnusedClass(SOURCES, WRAP_RULES, 5);
  }

  lemma SourceSplit(n: seq<nat>, q: seq<nat>)
    requires n == [1301, 1301, 1, 1, 1301, 1] && Order(q) && IsSplit(q, q[1], q[2]) && 1 <= q[1] < q[2] <= 5
    ensures Cells(n, q) == if q[1] == 1 && q[2] == 4 then 2202073902 else 1693902
  {
    Takes(q, 1);
    Takes(q, 4);
    if q[1] == 1 {
      assert q[2] == 4 ==> q[3] == 2 && q[4] == 3 && q[5] == 5;
    }
  }

  /** With these rules every order that FindOrder may keep has 2202073902 cells, where the fields in
      their own order have 1693902. */
  lemma WrapsToTheWorst(dot: seq<nat>)
    requires Order(dot) && forall p: seq<nat> | Order(p) :: Cost(Counts(SourceBatch()), dot) <= Cost(Counts(SourceBatch()), p)
    ensures Holds(SourceBatch().slots[..SourceBatch().num], Policies(BatchHistory(Diagonal(SOURCES), WRAP_RULES)))
    ensures Cells(Counts(SourceBatch()), dot) == 2202073902 && Cells(Counts(SourceBatch()), [0, 1, 2, 3, 4, 5]) == 1693902
  {
    hide Counts, SourceBatch, Cells, Cost, Three, IsSplit;
    SourceHeld();
    SourceCounts();
    var n := Counts(SourceBatch());
    var q := Normalise(n, dot);
    SourceWorst(n);
    SourceSplit(n, q);
    assert Cost(n, dot) <= Cost(n, [0, 1, 4, 2, 3, 5]);
    if Cells(n, dot) == 1693902 {
      SmallCost(n, dot);
    }
  }

  lemma SourceHeld()
    ensures Holds(SourceBatch().slots[..SourceBatch().num], Policies(BatchHistory(Diagonal(SOURCES), WRAP_RULES)))
  {
    hide Batch, Holds;
    BatchHeld(Diagonal(SOURCES), WRAP_RULES);
  }

  lemma SourceWorst(n: seq<nat>)
    requires n == [1301, 1301, 1, 1, 1301, 1]
    ensures Order([0, 1, 4, 2, 3, 5]) && Cost(n, [0, 1, 4, 2, 3, 5]) < 0
    ensures Order([0, 1, 2, 3, 4, 5]) && Cells(n, [0, 1, 2, 3, 4, 5]) == 1693902
  {
  }

  lemma SmallCost(n: seq<nat>, dot: seq<nat>)
    requires |n| == 6 && Order(dot) && Cells(n, dot) < INT32 / 2
    ensures Cost(n, dot) >= 0
  {
    hide Cells;
  }

  // Rules for which no order's tables fit

  const ALL_FOUR := Fields4(true, true, true, true)

  /** A hundred rules, each on both addresses and both ports. */
  ghost function FullBatch(): (s: Snapshot)
    ensures s.Valid()
  {
    Batch(Diagonal(ALL_FOUR), 100)
  }

  lemma FullCount(com: nat)
    requires com < 6
    ensures |Classes0(FullBatch(), com)| == 101
  {
    hide Classes0, Batch, Diagonal;
    UsedClasses(ALL_FOUR, 100, com);
  }

  /** Whatever the order, the first joined table is written past its cells. */
  lemma NoOrderFits(dot: seq<nat>)
    requires Order(dot)
    ensures Holds(FullBatch().slots[..FullBatch().num], Policies(BatchHistory(Diagonal(ALL_FOUR), 100)))
    ensures Phase0Status(FullBatch()) == Done && |RowsA(FullBatch(), dot)| > ACL_MAX_CELL
    ensures ThreeStatus(FullBatch(), dot) == CellError
  {
    hide FullBatch, Classes0, RowsA, RowsB, RowsC, Order, Holds, Uniq;
    var s := FullBatch();
    FullHeld();
    OrderSays(dot);
    forall com: nat | com < 6
      ensures |Classes0(s, com)| == 101
    {
      FullCount(com);
    }
    HalfCells(s, dot);
    SomeClass(s, 6);
    AtLeast(101 * 101 * 101, |Classes0(s, 6)|);
  }

  lemma FullHeld()
    ensures Holds(FullBatch().slots[..FullBatch().num], Policies(BatchHistory(Diagonal(ALL_FOUR), 100)))
    ensures Phase0Status(FullBatch()) == Done
  {
    hide Batch, Holds, Classes0;
    BatchHeld(Diagonal(ALL_FOUR), 100);
    forall com: nat | com < 7
      ensures |Classes0(FullBatch(), com)| <= MAX_FILTERS
    {
      PhaseZeroFits(FullBatch(), Policies(BatchHistory(Diagonal(ALL_FOUR), 100)), com);
    }
  }
}
