/** Phase 0 of the classifier: for each of the seven fields, a sweep over all 16-bit
    values with a running bitmap of the rules whose range is open. */
module Sweep {
  import opened Bitmaps
  import opened EqClasses
  import opened Filters

  const POINTS: nat := 0x1_0000

  /** The filter array at one moment: all its slots, and how many are in use. */
  datatype Snapshot = Snapshot(slots: seq<Filter>, num: nat) {
    ghost predicate Valid() {
      |slots| == MAX_FILTERS && num <= MAX_FILTERS
    }
  }

  /** The bit of a range after the sweep has processed value n: set on the start value,
      cleared on the value after the end (computed in 32 bits), otherwise kept. */
  ghost predicate SweepBit(r: Range, n: nat) {
    (r.hi + 1) % 0x1_0000_0000 != n && (r.lo == n || (n > 0 && SweepBit(r, n - 1)))
  }

  /** The ranges the sweep treats as the interval they denote. */
  predicate Sweepable(r: Range) {
    (r.lo <= r.hi + 1 || r.lo >= POINTS) && !(r.lo == 0 && r.hi == 0xffff_ffff)
  }

  lemma {:induction false} SweepBitClosedForm(r: Range, n: nat)
    requires Sweepable(r) && n < POINTS
    ensures SweepBit(r, n) <==> Contains(r, n)
  {
    if n > 0 {
      SweepBitClosedForm(r, n - 1);
    }
  }

  lemma {:induction false} StuckBit(r: Range, n: nat)
    requires r.hi + 1 < r.lo <= n < POINTS
    ensures SweepBit(r, n)
  {
    if n > r.lo {
      StuckBit(r, n - 1);
    }
  }

  /** Exactly when the sweep's bit is interval membership at every value. */
  lemma SweepExact(r: Range)
    ensures (forall n: nat | n < POINTS :: SweepBit(r, n) <==> Contains(r, n)) <==> Sweepable(r)
  {
    if Sweepable(r) {
      forall n: nat | n < POINTS
        ensures SweepBit(r, n) <==> Contains(r, n)
      {
        SweepBitClosedForm(r, n);
      }
    } else if r.lo == 0 && r.hi == 0xffff_ffff {
      assert !SweepBit(r, 0) && Contains(r, 0);
    } else {
      StuckBit(r, r.lo);
      assert SweepBit(r, r.lo) && !Contains(r, r.lo);
    }
  }

  /** The enabled rules whose bit is set after value n in field com. */
  ghost function SweepSet(s: Snapshot, com: nat, n: nat): RuleSet
    requires s.Valid() && com < 7
  {
    set i: nat | i < s.num && s.slots[i].state == ACL_ENABLE && SweepBit(s.slots[i].dim[com], n)
  }

  ghost function SweepRows(s: Snapshot, com: nat, n: nat): (rows: seq<RuleSet>)
    requires s.Valid() && com < 7
    ensures |rows| == n
  {
    seq(n, k requires 0 <= k < n => SweepSet(s, com, k))
  }

  lemma SweepRowsStep(s: Snapshot, com: nat, n: nat)
    requires s.Valid() && com < 7
    ensures SweepRows(s, com, n + 1) == SweepRows(s, com, n) + [SweepSet(s, com, n)]
  {
  }

  ghost function Image(filtset: FiltSet): Snapshot
    reads filtset, filtset.filtArr
  {
    Snapshot(filtset.filtArr[..], filtset.numFilters)
  }

  /** The state of the running bitmap before value n. */
  ghost function Before(s: Snapshot, com: nat, n: nat): RuleSet
    requires s.Valid() && com < 7
  {
    if n == 0 then {} else SweepSet(s, com, n - 1)
  }

  /** The rules below i as of value n, those from i on as of the value before. */
  ghost predicate MidSweep(rules: RuleSet, s: Snapshot, com: nat, n: nat, i: nat)
    requires s.Valid() && com < 7 && i <= s.num
  {
    forall k: nat :: k in rules <==> k in (if k < i then SweepSet(s, com, n) else Before(s, com, n))
  }

  lemma MidSweepStep(was: RuleSet, now: RuleSet, s: Snapshot, com: nat, n: nat, i: nat)
    requires s.Valid() && com < 7 && i < s.num && MidSweep(was, s, com, n, i)
    requires
      var r := s.slots[i].dim[com];
      var starts := s.slots[i].state == ACL_ENABLE && r.lo == n;
      var ends := s.slots[i].state == ACL_ENABLE && (r.hi + 1) % 0x1_0000_0000 == n;
      now == (if starts then was + {i} else was) - (if ends then {i} else {})
    ensures MidSweep(now, s, com, n, i + 1)
  {
  }

  /** Opens and closes the ranges that start or end at value n. */
  method UpdateBmp(bmp: array<Word>, filtset: FiltSet, com: nat, n: nat)
    requires bmp.Length == SIZE && Image(filtset).Valid() && com < 7 && n < POINTS
    requires Rules(bmp[..]) == Before(Image(filtset), com, n)
    modifies bmp
    ensures Rules(bmp[..]) == SweepSet(Image(filtset), com, n)
  {
    hide Rules, SweepBit;
    ghost var s := Image(filtset);
    var i := 0;
    while i < filtset.numFilters
      invariant 0 <= i <= filtset.numFilters
      invariant Image(filtset) == s
      invariant MidSweep(Rules(bmp[..]), s, com, n, i)
    {
      hide MidSweep, SweepSet, Before;
      ghost var was := Rules(bmp[..]);
      if filtset.filtArr[i].state == ACL_ENABLE {
        var tempstart, tempend: int := filtset.filtArr[i].dim[com].lo, filtset.filtArr[i].dim[com].hi;
        if tempstart == n {
          SetBmpBit(bmp, i, true);
        }
        if (tempend + 1) % 0x1_0000_0000 == n {
          SetBmpBit(bmp, i, false);
        }
      }
      MidSweepStep(was, Rules(bmp[..]), s, com, n, i);
      i := i + 1;
    }
  }

  /** One field's table: every value gets the class of the rules open there. */
  method SweepField(node: Node, filtset: FiltSet, com: nat) returns (status: Status)
    requires node.Valid() && node.cell.Length == POINTS && Image(filtset).Valid() && com < 7
    modifies node, node.ces, node.cell
    ensures node.Valid()
    ensures status == if |Uniq(SweepRows(Image(filtset), com, POINTS))| > MAX_FILTERS then ListOverrun else Done
    ensures status == Done ==> node.Encodes(SweepRows(Image(filtset), com, POINTS))
  {
    hide Rules, SweepSet, Uniq;
    ghost var s := Image(filtset);
    var bmp := new Word[SIZE](_ => ZERO);
    BlankBitmap(bmp[..]);
    node.InitListEqs();
    var n := 0;
    while n < POINTS
      invariant 0 <= n <= POINTS && Image(filtset) == s
      invariant Rules(bmp[..]) == Before(s, com, n)
      invariant node.Encodes(SweepRows(s, com, n))
    {
      UpdateBmp(bmp, filtset, com, n);
      SweepRowsStep(s, com, n);
      var ok := node.Record(bmp, SweepRows(s, com, n), n);
      if !ok {
        UniqMonotone(SweepRows(s, com, n + 1), SweepRows(s, com, POINTS));
        return ListOverrun;
      }
      n := n + 1;
    }
    UniqFits(node, SweepRows(s, com, POINTS));
    return Done;
  }

  lemma BlankBitmap(b: Bitmap)
    requires forall k | 0 <= k < SIZE :: b[k] == ZERO
    ensures Rules(b) == {}
  {
  }
}
