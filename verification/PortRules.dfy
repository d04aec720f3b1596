/** Rules that no class list holds: some on a source port each, the others on a destination port each. */
module PortRules {
  import opened Bitmaps
  import opened EqClasses
  import opened Filters
  import opened Sweep
  import opened Classifier
  import opened RuleHistory
  import opened RuleTable
  import opened RuleBatch
  import opened ClassBounds
  import opened FiniteSets

  /** Rules 1 to c on the source ports 1 to c, then d more on the destination ports 1 to d. */
  function PortKey(c: nat, d: nat): Keys
    requires c + d < MOST
  {
    (tag: nat) =>
      if tag <= c then RuleKey(0, 0, tag, 0, 0)
      else RuleKey(0, 0, 0, if tag <= c + d then tag - c else 0, 0)
  }

  ghost function PortBatch(c: nat, d: nat): (s: Snapshot)
    requires c + d < MOST
    ensures s.Valid() && s.num == c + d
  {
    Batch(PortKey(c, d), c + d)
  }

  ghost function PortPolicies(c: nat, d: nat): map<int, Policy>
    requires c + d < MOST
  {
    Policies(BatchHistory(PortKey(c, d), c + d))
  }

  lemma PortRulesHeld(c: nat, d: nat)
    requires c + d < MOST
    ensures Holds(PortBatch(c, d).slots[..PortBatch(c, d).num], PortPolicies(c, d))
  {
    hide Batch, Holds;
    BatchHeld(PortKey(c, d), c + d);
  }

  lemma PortRow(c: nat, d: nat, com: nat, v: nat, i: nat)
    requires c + d < MOST && com < 7 && v < POINTS
    ensures i in SweepSet(PortBatch(c, d), com, v) <==> i < c + d && Contains(DimsOf(PortKey(c, d)(i + 1))[com], v)
  {
    BatchRow(PortKey(c, d), c + d, com, v, i);
  }

  /** The rules of source port u and of destination port v, zero standing for any other port. */
  ghost function PairAt(c: nat, u: nat, v: nat): RuleSet {
    (if u == 0 then {} else {(u - 1) as nat}) + (if v == 0 then {} else {(c + v - 1) as nat})
  }

  lemma PairsDiffer(c: nat, u: nat, v: nat, x: nat, y: nat)
    requires u <= c && x <= c && PairAt(c, u, v) == PairAt(c, x, y)
    ensures u == x && v == y
  {
    assert u > 0 ==> u - 1 in PairAt(c, u, v);
    assert x > 0 ==> x - 1 in PairAt(c, x, y);
    assert v > 0 ==> c + v - 1 in PairAt(c, u, v);
    assert y > 0 ==> c + y - 1 in PairAt(c, x, y);
  }

  lemma PortPair(c: nat, d: nat, u: nat, v: nat)
    requires c + d < MOST && u <= c && v <= d
    ensures SweepSet(PortBatch(c, d), 4, u) * SweepSet(PortBatch(c, d), 5, v) == PairAt(c, u, v)
  {
    hide SweepSet, PortBatch;
    var both, pair := SweepSet(PortBatch(c, d), 4, u) * SweepSet(PortBatch(c, d), 5, v), PairAt(c, u, v);
    forall i: nat
      ensures i in both <==> i in pair
    {
      PortRow(c, d, 4, u, i);
      PortRow(c, d, 5, v, i);
    }
  }

  lemma PairInRows1(s: Snapshot, a: RuleSet, b: RuleSet)
    requires s.Valid() && a in Classes0(s, 4) && b in Classes0(s, 5)
    ensures a * b in Uniq(Rows1(s, 2))
  {
    hide Uniq, Cross;
    var aa, bs := Classes0(s, 4), Classes0(s, 5);
    var i: nat :| i < |aa| && aa[i] == a;
    var j: nat :| j < |bs| && bs[j] == b;
    CrossAt(aa, bs, i, j);
    UniqSound(Rows1(s, 2));
    assert Cross(aa, bs)[i * |bs| + j] in Rows1(s, 2);
  }

  lemma PairIsClass(c: nat, d: nat, u: nat, v: nat)
    requires c + d < MOST && u <= c && v <= d
    ensures PairAt(c, u, v) in Uniq(Rows1(PortBatch(c, d), 2))
  {
    hide Uniq, Rows1, SweepSet, PortBatch;
    PortPair(c, d, u, v);
    RowInClasses(PortBatch(c, d), 4, u);
    RowInClasses(PortBatch(c, d), 5, v);
    PairInRows1(PortBatch(c, d), SweepSet(PortBatch(c, d), 4, u), SweepSet(PortBatch(c, d), 5, v));
  }

  /** The k-th pair. */
  ghost function PairNo(c: nat, d: nat, k: nat): RuleSet {
    PairAt(c, k / (d + 1), k % (d + 1))
  }

  lemma PairNosDiffer(c: nat, d: nat, j: nat, k: nat)
    requires j < k < (c + 1) * (d + 1)
    ensures PairNo(c, d, j) != PairNo(c, d, k)
  {
    hide PairAt;
    RowOf(c, d, j);
    RowOf(c, d, k);
    if PairNo(c, d, j) == PairNo(c, d, k) {
      PairsDiffer(c, j / (d + 1), j % (d + 1), k / (d + 1), k % (d + 1));
    }
  }

  lemma RowOf(c: nat, d: nat, k: nat)
    requires k < (c + 1) * (d + 1)
    ensures k / (d + 1) <= c
  {
    if k / (d + 1) > c {
      Times(c + 1, k / (d + 1), d + 1);
    }
  }

  lemma Times(x: nat, y: nat, z: nat)
    requires x <= y
    ensures x * z <= y * z
  {
  }

  /** One class for each pair of ports, at least. */
  lemma ManyPortClasses(c: nat, d: nat)
    requires c + d < MOST
    ensures |Uniq(Rows1(PortBatch(c, d), 2))| >= (c + 1) * (d + 1)
  {
    hide Uniq, Rows1, PortBatch, PairNo;
    var classes := Uniq(Rows1(PortBatch(c, d), 2));
    var n: nat := (c + 1) * (d + 1);
    var pairs := seq(n, k requires 0 <= k < n => PairNo(c, d, k));
    forall j, k | 0 <= j < k < n
      ensures pairs[j] != pairs[k]
    {
      PairNosDiffer(c, d, j, k);
    }
    forall x | x in pairs
      ensures x in classes
    {
      var k: nat :| k < n && pairs[k] == x;
      PairNoIsClass(c, d, k);
    }
    var all := set x | x in classes;
    DistinctCard(pairs, all);
    SeqCard(classes, all);
  }

  lemma PairNoIsClass(c: nat, d: nat, k: nat)
    requires c + d < MOST && k < (c + 1) * (d + 1)
    ensures PairNo(c, d, k) in Uniq(Rows1(PortBatch(c, d), 2))
  {
    hide Uniq, Rows1, PortBatch, PairAt;
    RowOf(c, d, k);
    PairIsClass(c, d, k / (d + 1), k % (d + 1));
  }

  lemma NamedBy(c: nat, d: nat, f: nat, x: nat) returns (tag: nat)
    requires c + d < MOST && x in Values(PortPolicies(c, d), f)
    ensures x != 0 && 1 <= tag <= c + d && KeyField(PortKey(c, d)(tag), f) == x
  {
    BatchPolicies(PortKey(c, d), c + d);
    var m := PortPolicies(c, d);
    var t: int :| t in Active(m) && KeyField(m[t].key, f) == x;
    tag := t;
  }

  /** A field has no more values than rules that name it. */
  lemma PortValues(c: nat, d: nat)
    requires c + d < MOST
    ensures |Values(PortPolicies(c, d), 2)| <= c && |Values(PortPolicies(c, d), 3)| <= d
    ensures forall f | f in {SIP, DIP, PROTO} :: Values(PortPolicies(c, d), f) == {}
  {
    hide PortPolicies, Values;
    var m := PortPolicies(c, d);
    forall f: nat, x: nat | x in Values(m, f)
      ensures x != 0 && ((f == 2 && x <= c) || (f == 3 && x <= d))
    {
      var tag := NamedBy(c, d, f, x);
    }
    RangeCard(c + 1, Values(m, 2) + {0});
    RangeCard(d + 1, Values(m, 3) + {0});
    assert 0 !in Values(m, 2) && 0 !in Values(m, 3);
    forall f | f in {SIP, DIP, PROTO}
      ensures Values(m, f) == {}
    {
      assert forall x :: x !in Values(m, f);
    }
  }

  lemma FewClasses(c: nat, d: nat)
    requires c + d < MOST
    ensures Addresses(PortPolicies(c, d)) == 1 && Transports(PortPolicies(c, d)) <= (c + 1) * (d + 1)
    ensures |Rows1(PortBatch(c, d), 2)| <= (c + 1) * (d + 1)
  {
    hide Values, Holds, Rows1, PortBatch, PortPolicies;
    var m := PortPolicies(c, d);
    PortValues(c, d);
    ProductBound(|Values(m, 2)| + 1, c + 1, |Values(m, 3)| + 1, d + 1);
    PortRulesHeld(c, d);
    PortsBound(PortBatch(c, d), m);
  }

  lemma OtherTablesFit(c: nat, d: nat)
    requires c + d < MOST
    ensures TableStatus(Rows1(PortBatch(c, d), 0)) == TableStatus(Rows1(PortBatch(c, d), 1)) == Done
    ensures Phase0Status(PortBatch(c, d)) == Done
  {
    hide Values, Holds, Classes0, PortBatch, PortPolicies, Cross, Uniq;
    var s, m := PortBatch(c, d), PortPolicies(c, d);
    PortValues(c, d);
    PortRulesHeld(c, d);
    forall com: nat | com < 7
      ensures |Classes0(s, com)| <= if com < 4 then 1 else MAX_FILTERS
    {
      FieldBound(s, m, com);
    }
    RowsCount(Classes0(s, 0), Classes0(s, 1), 1, 1);
    RowsCount(Classes0(s, 2), Classes0(s, 3), 1, 1);
  }

  /** The protocol of these rules is never looked at: joining it brings no new class. */
  lemma ProtocolAddsNone(c: nat, d: nat)
    requires c + d < MOST
    ensures |Uniq(Rows2(PortBatch(c, d), 1))| <= |Uniq(Rows1(PortBatch(c, d), 2))|
  {
    hide Uniq, Rows1, PortBatch, Classes0, Cross;
    var s := PortBatch(c, d);
    var ports := set x | x in Uniq(Rows1(s, 2));
    UniqSound(Rows2(s, 1));
    forall z | z in Uniq(Rows2(s, 1))
      ensures z in ports
    {
      var a, b := CrossMember(Uniq(Rows1(s, 2)), Classes0(s, 6), z);
      WithProtocol(c, d, a, b);
    }
    SeqCard(Uniq(Rows1(s, 2)), ports);
    DistinctCard(Uniq(Rows2(s, 1)), ports);
  }

  lemma WithProtocol(c: nat, d: nat, a: RuleSet, b: RuleSet)
    requires c + d < MOST && a in Uniq(Rows1(PortBatch(c, d), 2)) && b in Classes0(PortBatch(c, d), 6)
    ensures a * b in Uniq(Rows1(PortBatch(c, d), 2))
  {
    hide Uniq, PortBatch, Classes0, Cross, SweepSet;
    var s := PortBatch(c, d);
    UniqSound(Rows1(s, 2));
    var p, q := CrossMember(Classes0(s, 4), Classes0(s, 5), a);
    var u := ClassHasRow(s, 4, p);
    var v := ClassHasRow(s, 6, b);
    forall i: nat
      ensures i in b <==> i < c + d && v <= 255
      ensures i in a ==> i < c + d
    {
      PortRow(c, d, 6, v, i);
      PortRow(c, d, 4, u, i);
    }
    if v <= 255 {
      assert a * b == a;
    } else {
      assert a * b == {} == PairAt(c, 0, 0);
      PairIsClass(c, d, 0, 0);
    }
  }

  /** Such rules overrun a class list exactly when there are more pairs than it has room for and no more
      than a table has cells. */
  lemma PortRulesOverrun(c: nat, d: nat)
    requires c + d < MOST
    ensures Holds(PortBatch(c, d).slots[..PortBatch(c, d).num], PortPolicies(c, d))
    ensures BuildStatus(PortBatch(c, d)) == ListOverrun <==> MAX_FILTERS < (c + 1) * (d + 1) <= ACL_MAX_CELL
  {
    hide Values, Holds, Rows1, Uniq, Cross, PortBatch, PortPolicies, Addresses, Transports, Phase0Status;
    var s, m := PortBatch(c, d), PortPolicies(c, d);
    PortRulesHeld(c, d);
    FewClasses(c, d);
    OtherTablesFit(c, d);
    ManyPortClasses(c, d);
    UniqSound(Rows1(s, 2));
    ProtocolAddsNone(c, d);
    AddressBound(s, m, 0);
    AddressBound(s, m, 1);
    PortValues(c, d);
    RowsCount(Uniq(Rows1(s, 0)), Uniq(Rows1(s, 1)), 1, 1);
  }

  /** A hundred of them do, half on each port. */
  lemma HundredPortRules()
    ensures BuildStatus(PortBatch(50, 50)) == ListOverrun
  {
    hide BuildStatus, PortBatch;
    PortRulesOverrun(50, 50);
  }

  /** A full array can overrun already in phase 0: 2048 rules, each on a source port. */
  lemma FullArrayOverruns()
    ensures
      var s := Batch(Diagonal(Fields4(false, false, true, false)), MAX_FILTERS);
      Holds(s.slots[..s.num], Policies(BatchHistory(Diagonal(Fields4(false, false, true, false)), MAX_FILTERS))) &&
      BuildStatus(s) == ListOverrun
  {
    hide Classes0, Holds, Batch;
    var ports := Fields4(false, false, true, false);
    BatchHeld(Diagonal(ports), MAX_FILTERS);
    UsedClasses(ports, MAX_FILTERS, 4);
  }
}
