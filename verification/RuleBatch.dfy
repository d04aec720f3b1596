/** Batches of rules set one after another: the history of commands, the filter array that it leaves,
    and what the sweep sees of it. */
module RuleBatch {
  import opened Bitmaps
  import opened EqClasses
  import opened Filters
  import opened Sweep
  import opened Classifier
  import opened RuleHistory
  import opened RuleTable
  import opened FiniteSets

  const NO_INFO := RuleInfo(0, 0, 0, 0)

  /** The key of the rule with each tag. */
  type Keys = nat -> RuleKey

  const MOST: nat := MAX_FILTERS

  /** Rules 1 to n, set in order. */
  ghost function BatchHistory(keys: Keys, n: nat): (h: seq<Op>)
    requires n <= MOST
    ensures |h| == n && (n <= MAX_FILTERS - 2 ==> TagsSetInRange(h))
  {
    seq(n, i requires 0 <= i < n => Set(i + 1, keys(i + 1), NO_INFO))
  }

  ghost function BatchRules(keys: Keys, n: nat): (s: seq<Filter>)
    requires n <= MOST
    ensures |s| == n
  {
    seq(n, i requires 0 <= i < n => FilterOf(i + 1, keys(i + 1), NO_INFO))
  }

  ghost function Batch(keys: Keys, n: nat): (s: Snapshot)
    requires n <= MOST
    ensures s.Valid() && s.num == n
  {
    Snapshot(BatchRules(keys, n) + seq(MAX_FILTERS - n, _ => BLANK), n)
  }

  lemma EmptyHeld()
    ensures Holds([], Policies([]))
  {
  }

  /** The array after the commands has exactly these rules. */
  lemma {:induction false} BatchRulesHeld(keys: Keys, n: nat)
    requires n <= MOST
    ensures Holds(BatchRules(keys, n), Policies(BatchHistory(keys, n)))
  {
    hide Holds, Policies, DimsOf;
    if n == 0 {
      EmptyHeld();
      assert BatchRules(keys, 0) == [] && BatchHistory(keys, 0) == [];
    } else {
      BatchRulesHeld(keys, n - 1);
      var op := Set(n, keys(n), NO_INFO);
      assert BatchHistory(keys, n) == BatchHistory(keys, n - 1) + [op];
      PoliciesStep(BatchHistory(keys, n - 1), op);
      var s, f := BatchRules(keys, n - 1), FilterOf(n, keys(n), NO_INFO);
      HoldsAfterSet(s, Policies(BatchHistory(keys, n - 1)), n, keys(n), NO_INFO);
      forall j | 0 <= j < n - 1
        ensures s[j].cost < f.cost
      {
        FilterTag(j + 1, keys(j + 1), NO_INFO);
        FilterTag(n, keys(n), NO_INFO);
      }
      InsertAt(s, f, n - 1);
      assert BatchRules(keys, n) == s[..n - 1] + [f] + s[n - 1..];
    }
  }

  lemma BatchHeld(keys: Keys, n: nat)
    requires n <= MOST
    ensures Holds(Batch(keys, n).slots[..n], Policies(BatchHistory(keys, n))) && |Policies(BatchHistory(keys, n))| == n
  {
    hide Holds;
    BatchRulesHeld(keys, n);
    assert Batch(keys, n).slots[..n] == BatchRules(keys, n);
    HeldCount(BatchRules(keys, n), Policies(BatchHistory(keys, n)));
  }

  /** The rules in force are the ones set, all enabled. */
  lemma {:induction false} BatchPolicies(keys: Keys, n: nat)
    requires n <= MOST
    ensures
      var m := Policies(BatchHistory(keys, n));
      (forall tag :: tag in m <==> 1 <= tag <= n) &&
      forall tag: nat | 1 <= tag <= n :: m[tag] == Policy(keys(tag), NO_INFO, ACL_ENABLE)
  {
    if n > 0 {
      BatchPolicies(keys, n - 1);
      var op := Set(n, keys(n), NO_INFO);
      assert BatchHistory(keys, n) == BatchHistory(keys, n - 1) + [op];
      PoliciesStep(BatchHistory(keys, n - 1), op);
    } else {
      assert BatchHistory(keys, 0) == [];
    }
  }

  /** The rules open at a value are those whose range has it. */
  lemma BatchRow(keys: Keys, n: nat, com: nat, v: nat, i: nat)
    requires n <= MOST && com < 7 && v < POINTS
    ensures i in SweepSet(Batch(keys, n), com, v) <==> i < n && Contains(DimsOf(keys(i + 1))[com], v)
  {
    var s := Batch(keys, n);
    if i < n {
      assert s.slots[i] == FilterOf(i + 1, keys(i + 1), NO_INFO);
      SweepBitClosedForm(s.slots[i].dim[com], v);
    }
  }

  lemma RowInClasses(s: Snapshot, com: nat, n: nat)
    requires s.Valid() && com < 7 && n < POINTS
    ensures SweepSet(s, com, n) in Classes0(s, com)
  {
    hide Uniq, SweepSet;
    assert SweepRows(s, com, POINTS)[n] == SweepSet(s, com, n);
    UniqSound(SweepRows(s, com, POINTS));
  }

  /** And every class is the rules open at some value. */
  lemma ClassHasRow(s: Snapshot, com: nat, x: RuleSet) returns (n: nat)
    requires s.Valid() && com < 7 && x in Classes0(s, com)
    ensures n < POINTS && x == SweepSet(s, com, n)
  {
    hide Uniq, SweepSet;
    UniqSound(SweepRows(s, com, POINTS));
    n :| n < |SweepRows(s, com, POINTS)| && SweepRows(s, com, POINTS)[n] == x;
  }

  lemma ClassesDistinct(s: Snapshot, com: nat)
    requires s.Valid() && com < 7
    ensures Distinct(Classes0(s, com)) && Classes0(s, com) != []
  {
    hide Uniq, SweepSet, SweepRows;
    UniqSound(SweepRows(s, com, POINTS));
    RowInClasses(s, com, 0);
  }

  /** A field whose rows are all the same has one class. */
  lemma OneClass(s: Snapshot, com: nat)
    requires s.Valid() && com < 7
    requires forall v: nat, i: nat | v < POINTS :: i in SweepSet(s, com, v) <==> i in SweepSet(s, com, 0)
    ensures |Classes0(s, com)| == 1
  {
    hide Classes0, SweepSet;
    var classes, x := Classes0(s, com), SweepSet(s, com, 0);
    ClassesDistinct(s, com);
    forall y | y in classes
      ensures y == x
    {
      var v := ClassHasRow(s, com, y);
      assert forall i: nat :: i in y <==> i in x;
    }
    DistinctCard(classes, {x});
  }

  // Diagonal rules: in each field used, rule k has the value k

  /** Which of the four fields the rules use. */
  datatype Fields4 = Fields4(sip: bool, dip: bool, sp: bool, dp: bool)
  {
    /** Whether the sweep's field is one of them. */
    predicate Uses(com: nat) {
      if com < 2 then sip else if com < 4 then dip else if com == 4 then sp else com == 5 && dp
    }
  }

  /** An address with k in both halves; a port k. */
  function Diagonal(use: Fields4): Keys {
    (k: nat) =>
      if k > MOST then RuleKey(0, 0, 0, 0, 0)
      else RuleKey(if use.sip then k * 0x1_0001 else 0, if use.dip then k * 0x1_0001 else 0,
                   if use.sp then k else 0, if use.dp then k else 0, 0)
  }

  lemma DiagonalRange(use: Fields4, k: nat, com: nat, v: nat)
    requires 1 <= k <= MOST && com < 6 && v < POINTS
    ensures Contains(DimsOf(Diagonal(use)(k))[com], v) <==> !use.Uses(com) || v == k
  {
    assert k * 0x1_0001 / 0x1_0000 == k && k * 0x1_0001 % 0x1_0000 == k;
  }

  /** The rules open at a value of a used field: the one with that value, if there is one. */
  lemma DiagonalRow(use: Fields4, n: nat, com: nat, v: nat)
    requires n <= MOST && com < 6 && v < POINTS && use.Uses(com)
    ensures SweepSet(Batch(Diagonal(use), n), com, v) == if 1 <= v <= n then {v - 1} else {}
  {
    hide SweepSet, DimsOf, Batch;
    var x := SweepSet(Batch(Diagonal(use), n), com, v);
    forall i: nat
      ensures i in x <==> 1 <= v <= n && i == v - 1
    {
      BatchRow(Diagonal(use), n, com, v, i);
      if i < n {
        DiagonalRange(use, i + 1, com, v);
      }
    }
  }

  /** A used field has a class for each rule and one for none of them. */
  lemma UsedClasses(use: Fields4, n: nat, com: nat)
    requires n <= MOST && com < 6 && use.Uses(com)
    ensures |Classes0(Batch(Diagonal(use), n), com)| == n + 1
  {
    hide SweepSet, Batch, Classes0, Diagonal;
    var s := Batch(Diagonal(use), n);
    var classes, rows := Classes0(s, com), seq(n + 1, v requires 0 <= v <= n => if v == 0 then {} else {v - 1 as nat});
    ClassesDistinct(s, com);
    forall x | x in classes
      ensures x in rows
    {
      var v := ClassHasRow(s, com, x);
      DiagonalRow(use, n, com, v);
      assert rows[if v <= n then v else 0] == x;
    }
    forall x | x in rows
      ensures x in classes
    {
      var v :| 0 <= v <= n && rows[v] == x;
      DiagonalRow(use, n, com, v);
      RowInClasses(s, com, v);
    }
    var inRows, inClasses := set x | x in rows, set x | x in classes;
    SeqCard(rows, inRows);
    SeqCard(classes, inClasses);
    DistinctCard(classes, inRows);
    DistinctCard(rows, inClasses);
  }

  /** A field that no rule uses has one class. */
  lemma UnusedClass(use: Fields4, n: nat, com: nat)
    requires n <= MOST && com < 6 && !use.Uses(com)
    ensures |Classes0(Batch(Diagonal(use), n), com)| == 1
  {
    hide SweepSet, Batch, DimsOf, Diagonal;
    var s := Batch(Diagonal(use), n);
    forall v: nat, i: nat | v < POINTS
      ensures i in SweepSet(s, com, v) <==> i < n
    {
      BatchRow(Diagonal(use), n, com, v, i);
      if i < n {
        DiagonalRange(use, i + 1, com, v);
      }
    }
    OneClass(s, com);
  }
}
