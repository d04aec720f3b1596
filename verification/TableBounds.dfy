/** How many classes the sweep needs, whatever the ranges. */
module TableBounds {
  import opened Bitmaps
  import opened EqClasses
  import opened Filters
  import opened Sweep
  import opened Classifier
  import opened FiniteSets

  // The sweep in general: a class can only be new where a range starts or ends

  ghost function Enabled(s: Snapshot): set<nat>
    requires s.Valid()
    ensures forall i | i in Enabled(s) :: i < s.num
  {
    set i: nat | i < s.num && s.slots[i].state == ACL_ENABLE
  }

  ghost function Start(s: Snapshot, com: nat, i: nat): int
    requires s.Valid() && com < 7 && i < s.num
  {
    s.slots[i].dim[com].lo
  }

  ghost function End(s: Snapshot, com: nat, i: nat): int
    requires s.Valid() && com < 7 && i < s.num
  {
    (s.slots[i].dim[com].hi + 1) % 0x1_0000_0000
  }

  ghost function Events(s: Snapshot, com: nat): set<int>
    requires s.Valid() && com < 7
  {
    (set i | i in Enabled(s) :: Start(s, com, i)) + (set i | i in Enabled(s) :: End(s, com, i))
  }

  lemma EventsBound(s: Snapshot, com: nat)
    requires s.Valid() && com < 7
    ensures |Events(s, com)| <= 2 * |Enabled(s)|
  {
    var f := (i: nat) requires i in Enabled(s) => Start(s, com, i);
    var g := (i: nat) requires i in Enabled(s) => End(s, com, i);
    var starts, ends := set i | i in Enabled(s) :: Start(s, com, i), set i | i in Enabled(s) :: End(s, com, i);
    ImageBound(Enabled(s), starts, f);
    ImageBound(Enabled(s), ends, g);
  }

  lemma QuietValue(s: Snapshot, com: nat, n: nat)
    requires s.Valid() && com < 7 && n > 0 && n !in Events(s, com)
    ensures SweepSet(s, com, n) == SweepSet(s, com, n - 1)
  {
    forall i: nat | i < s.num && s.slots[i].state == ACL_ENABLE
      ensures SweepBit(s.slots[i].dim[com], n) == SweepBit(s.slots[i].dim[com], n - 1)
    {
      assert i in Enabled(s);
      assert Start(s, com, i) in Events(s, com) && End(s, com, i) in Events(s, com);
    }
  }

  /** Where no range starts or ends, the row is an old one. */
  lemma QuietRow(s: Snapshot, com: nat, n: nat)
    requires s.Valid() && com < 7 && n > 0 && n !in Events(s, com)
    ensures SweepSet(s, com, n) in Uniq(SweepRows(s, com, n))
  {
    hide Uniq, Events;
    QuietValue(s, com, n);
    assert SweepRows(s, com, n)[n - 1] == SweepSet(s, com, n - 1);
    UniqSound(SweepRows(s, com, n));
  }

  lemma {:induction false} ClassesUpTo(s: Snapshot, com: nat, n: nat, seen: set<int>)
    requires s.Valid() && com < 7 && n > 0 && seen == set x | x in Events(s, com) && x < n
    ensures |Uniq(SweepRows(s, com, n))| <= 1 + |seen|
  {
    hide Uniq, SweepRows, SweepSet, Events;
    SweepRowsStep(s, com, n - 1);
    UniqStep(SweepRows(s, com, n - 1), SweepSet(s, com, n - 1));
    if n == 1 {
      UniqSound(SweepRows(s, com, n));
    } else {
      var before := set x | x in Events(s, com) && x < n - 1;
      ClassesUpTo(s, com, n - 1, before);
      if n - 1 in Events(s, com) {
        assert seen == before + {n - 1};
      } else {
        assert seen == before;
        QuietRow(s, com, n - 1);
      }
    }
  }

  /** A field has at most two classes per enabled rule, and one more. */
  lemma SweepClassBound(s: Snapshot, com: nat)
    requires s.Valid() && com < 7
    ensures |Classes0(s, com)| <= 2 * |Enabled(s)| + 1
  {
    var seen := set x | x in Events(s, com) && x < POINTS;
    ClassesUpTo(s, com, POINTS, seen);
    SubsetCard(seen, Events(s, com));
    EventsBound(s, com);
  }
}
