/** The four-phase classifier: equivalence-class tables compiled from the filter array,
    and the chain of table reads that classifies a packet (the RFC4 variant). */
module Classifier {
  import opened Bitmaps
  import opened EqClasses
  import opened Filters
  import opened Sweep

  // The tables as functions of the filter array

  ghost function Classes0(s: Snapshot, com: nat): seq<RuleSet>
    requires s.Valid() && com < 7
  {
    Uniq(SweepRows(s, com, POINTS))
  }

  /** Phase 1 pairs the source halves, the destination halves and the ports. */
  ghost function Rows1(s: Snapshot, com: nat): seq<RuleSet>
    requires s.Valid() && com < 3
  {
    Cross(Classes0(s, 2 * com), Classes0(s, 2 * com + 1))
  }

  /** Phase 2 joins the addresses, and the ports with the protocol. */
  ghost function Rows2(s: Snapshot, com: nat): seq<RuleSet>
    requires s.Valid() && com < 2
  {
    if com == 0 then Cross(Uniq(Rows1(s, 0)), Uniq(Rows1(s, 1)))
    else Cross(Uniq(Rows1(s, 2)), Classes0(s, 6))
  }

  ghost function Rows3(s: Snapshot): seq<RuleSet>
    requires s.Valid()
  {
    Cross(Uniq(Rows2(s, 0)), Uniq(Rows2(s, 1)))
  }

  ghost function Phase0Status(s: Snapshot): Status
    requires s.Valid()
  {
    if forall com: nat | com < 7 :: |Classes0(s, com)| <= MAX_FILTERS then Done else ListOverrun
  }

  ghost function Then(a: Status, b: Status): Status {
    if a == Done then b else a
  }

  ghost function Phase1Status(s: Snapshot): Status
    requires s.Valid()
  {
    Then(TableStatus(Rows1(s, 0)), Then(TableStatus(Rows1(s, 1)), TableStatus(Rows1(s, 2))))
  }

  ghost function Phase2Status(s: Snapshot): Status
    requires s.Valid()
  {
    Then(TableStatus(Rows2(s, 0)), TableStatus(Rows2(s, 1)))
  }

  /** How compiling the filter array ends. */
  ghost function BuildStatus(s: Snapshot): Status
    requires s.Valid()
  {
    Then(Phase0Status(s), Then(Phase1Status(s), Then(Phase2Status(s),
      if |Rows3(s)| > ACL_MAX_CELL then CellError else Done)))
  }

  /** The tag of a slot, as a 16-bit result. */
  ghost function TagAt(s: Snapshot, cost: nat): nat
    requires s.Valid() && cost < MAX_FILTERS
  {
    s.slots[cost].cost % 0x1_0000
  }

  /** The reference: scan the filters in order for the first enabled one all of whose ranges
      contain the packet's fields; the last slot stands for none. */
  ghost function FirstMatch(s: Snapshot, t: Tuple, i: nat): (r: nat)
    requires s.Valid() && i <= s.num
    ensures r < MAX_FILTERS
    decreases s.num - i
  {
    if i == s.num then MAX_FILTERS - 1
    else if FilterMatches(s.slots[i], t) then i
    else FirstMatch(s, t, i + 1)
  }

  /** Every enabled range is one the sweep handles. */
  ghost predicate AllSweepable(s: Snapshot)
    requires s.Valid()
  {
    forall i, com | 0 <= i < s.num && 0 <= com < 7 && s.slots[i].state == ACL_ENABLE :: Sweepable(s.slots[i].dim[com])
  }

  /** The rules open in all seven fields of a packet. */
  ghost function Candidates(s: Snapshot, t: Tuple): RuleSet
    requires s.Valid()
  {
    var f := Fields(t);
    ((SweepSet(s, 0, f[0]) * SweepSet(s, 1, f[1])) * (SweepSet(s, 2, f[2]) * SweepSet(s, 3, f[3]))) *
    ((SweepSet(s, 4, f[4]) * SweepSet(s, 5, f[5])) * SweepSet(s, 6, f[6]))
  }

  lemma CandidatesMatch(s: Snapshot, t: Tuple, i: nat)
    requires s.Valid() && AllSweepable(s)
    ensures i in Candidates(s, t) <==> i < s.num && FilterMatches(s.slots[i], t)
  {
    if i < s.num && s.slots[i].state == ACL_ENABLE {
      forall com: nat | com < 7
        ensures i in SweepSet(s, com, Fields(t)[com]) <==> Contains(s.slots[i].dim[com], Fields(t)[com])
      {
        SweepBitClosedForm(s.slots[i].dim[com], Fields(t)[com]);
      }
    }
  }

  lemma {:induction false} FirstMatchIsCost(s: Snapshot, t: Tuple, i: nat)
    requires s.Valid() && AllSweepable(s) && i <= s.num
    requires forall j | 0 <= j < i :: !FilterMatches(s.slots[j], t)
    ensures IsCost(Candidates(s, t), FirstMatch(s, t, i))
    decreases s.num - i
  {
    hide Candidates, FilterMatches;
    forall j: nat
      ensures j in Candidates(s, t) <==> j < s.num && FilterMatches(s.slots[j], t)
    {
      CandidatesMatch(s, t, j);
    }
    if i < s.num {
      if FilterMatches(s.slots[i], t) {
        assert i in Candidates(s, t);
      } else {
        FirstMatchIsCost(s, t, i + 1);
      }
    }
  }

  lemma CostUnique(rules: RuleSet, a: nat, b: nat)
    requires IsCost(rules, a) && IsCost(rules, b)
    ensures a == b
  {
  }

  // Building and reading the tables

  const PHASE1: nat := 7
  const PHASE2: nat := 10
  const PHASE3: nat := 12

  /** The tables in order: seven of phase 0, three of phase 1, two of phase 2, one of phase 3,
      no two of them sharing storage. */
  ghost predicate Tables(nodes: seq<Node>)
    reads nodes
  {
    |nodes| == 13 &&
    (forall i | 0 <= i < 13 :: nodes[i].Valid() && nodes[i].cell.Length == if i < PHASE1 then POINTS else ACL_MAX_CELL) &&
    forall i, j | 0 <= i < 13 && 0 <= j < 13 && i != j :: nodes[i].Apart(nodes[j])
  }

  /** What the cells of each table before the last stand for. */
  ghost function RowsOf(s: Snapshot, k: nat): seq<RuleSet>
    requires s.Valid() && k < PHASE3
  {
    if k < PHASE1 then SweepRows(s, k, POINTS)
    else if k < PHASE2 then Rows1(s, k - PHASE1)
    else Rows2(s, k - PHASE2)
  }

  /** The last table holds tags: each cell the tag of its row's highest-priority rule. */
  ghost predicate EncodesTags(node: Node, s: Snapshot, rows: seq<RuleSet>)
    requires s.Valid()
    reads node, node.cell
  {
    |rows| <= node.cell.Length &&
    forall k: nat, cost: nat | k < |rows| && cost < MAX_FILTERS && IsCost(rows[k], cost) :: node.cell[k] == TagAt(s, cost)
  }

  /** Marks which filters the compiled tables include. */
  method SetFiltSync(filtset: FiltSet)
    requires filtset.numFilters <= filtset.filtArr.Length
    modifies filtset.filtArr
    ensures forall i | 0 <= i < filtset.filtArr.Length ::
      filtset.filtArr[i] ==
        if i >= filtset.numFilters then old(filtset.filtArr[i])
        else old(filtset.filtArr[i]).(sync := if old(filtset.filtArr[i].state) == ACL_ENABLE then ACL_SYNC else ACL_NOSYNC)
  {
    var i := 0;
    while i < filtset.numFilters
      invariant 0 <= i <= filtset.numFilters
      invariant forall k | 0 <= k < filtset.filtArr.Length ::
        filtset.filtArr[k] ==
          if k >= i then old(filtset.filtArr[k])
          else old(filtset.filtArr[k]).(sync := if old(filtset.filtArr[k].state) == ACL_ENABLE then ACL_SYNC else ACL_NOSYNC)
    {
      if filtset.filtArr[i].state != ACL_ENABLE {
        filtset.filtArr[i] := filtset.filtArr[i].(sync := ACL_NOSYNC);
      } else {
        filtset.filtArr[i] := filtset.filtArr[i].(sync := ACL_SYNC);
      }
      i := i + 1;
    }
  }

  /** The same filters, apart from their sync marks. */
  ghost predicate SameButSync(a: Snapshot, b: Snapshot) {
    a.num == b.num && |a.slots| == |b.slots| &&
    forall i | 0 <= i < |a.slots| ::
      a.slots[i] == b.slots[i] || (i < a.num && a.slots[i] == b.slots[i].(sync := a.slots[i].sync))
  }

  lemma SyncIrrelevant(a: Snapshot, b: Snapshot)
    requires a.Valid() && SameButSync(a, b)
    ensures b.Valid()
    ensures forall com: nat | com < 7 :: SweepRows(a, com, POINTS) == SweepRows(b, com, POINTS)
    ensures forall k: nat | k < PHASE3 :: RowsOf(a, k) == RowsOf(b, k)
    ensures Rows3(a) == Rows3(b)
    ensures forall cost: nat | cost < MAX_FILTERS :: TagAt(a, cost) == TagAt(b, cost)
  {
    forall com: nat, n: nat | com < 7
      ensures SweepSet(a, com, n) == SweepSet(b, com, n)
    {
    }
    forall com: nat | com < 7
      ensures SweepRows(a, com, POINTS) == SweepRows(b, com, POINTS)
    {
    }
  }

  /** Nor do they change what a scan finds. */
  lemma {:induction false} SyncKeepsMatch(a: Snapshot, b: Snapshot, t: Tuple, i: nat)
    requires a.Valid() && b.Valid() && SameButSync(a, b) && i <= a.num
    ensures FirstMatch(a, t, i) == FirstMatch(b, t, i)
    decreases a.num - i
  {
    if i < a.num {
      SyncKeepsMatch(a, b, t, i + 1);
    }
  }

  method SetPhase0Cell(nodes: seq<Node>, filtset: FiltSet) returns (status: Status)
    requires Tables(nodes) && Image(filtset).Valid()
    modifies nodes[..PHASE1], set i | 0 <= i < PHASE1 :: nodes[i].ces, set i | 0 <= i < PHASE1 :: nodes[i].cell
    ensures Tables(nodes)
    ensures status == Phase0Status(Image(filtset))
    ensures status == Done ==> forall k: nat | k < PHASE1 :: nodes[k].Encodes(RowsOf(Image(filtset), k))
  {
    hide SweepRows, Uniq, Node.Encodes;
    ghost var s := Image(filtset);
    var com := 0;
    while com < 7
      invariant 0 <= com <= 7 && Image(filtset) == s && Tables(nodes)
      invariant forall c: nat | c < com :: |Classes0(s, c)| <= MAX_FILTERS && nodes[c].Encodes(SweepRows(s, c, POINTS))
    {
      status := SweepField(nodes[com], filtset, com);
      if status != Done {
        assert |Classes0(s, com)| > MAX_FILTERS;
        return;
      }
      com := com + 1;
    }
    return Done;
  }

  /** One product table from two earlier ones, which stay as they are. */
  method PairInto(nodes: seq<Node>, a: nat, b: nat, out: nat, ghost s: Snapshot) returns (status: Status)
    requires Tables(nodes) && s.Valid() && a < out && b < out && PHASE1 <= out < PHASE3
    requires forall k: nat | k < out :: nodes[k].Encodes(RowsOf(s, k))
    modifies nodes[out], nodes[out].ces, nodes[out].cell
    ensures Tables(nodes) && forall k: nat | k < out :: nodes[k].Encodes(RowsOf(s, k))
    ensures status == TableStatus(Cross(Uniq(RowsOf(s, a)), Uniq(RowsOf(s, b))))
    ensures status == Done ==> nodes[out].Encodes(Cross(Uniq(RowsOf(s, a)), Uniq(RowsOf(s, b))))
  {
    hide RowsOf, Uniq, Node.Encodes, Node.Classes, Cross, TableStatus;
    EncodedClasses(nodes[a], RowsOf(s, a));
    EncodedClasses(nodes[b], RowsOf(s, b));
    status := IntersectTables(nodes[a], nodes[b], nodes[out]);
  }

  method SetPhase1Cell(nodes: seq<Node>, ghost s: Snapshot) returns (status: Status)
    requires Tables(nodes) && s.Valid()
    requires forall k: nat | k < PHASE1 :: nodes[k].Encodes(RowsOf(s, k))
    modifies set i | PHASE1 <= i < PHASE2 :: nodes[i]
    modifies set i | PHASE1 <= i < PHASE2 :: nodes[i].ces
    modifies set i | PHASE1 <= i < PHASE2 :: nodes[i].cell
    ensures Tables(nodes)
    ensures status == Phase1Status(s)
    ensures status == Done ==> forall k: nat | k < PHASE2 :: nodes[k].Encodes(RowsOf(s, k))
  {
    hide SweepRows, Uniq, Node.Encodes, Node.Classes, Cross, TableStatus;
    var com := 0;
    while com < 3
      invariant 0 <= com <= 3 && Tables(nodes)
      invariant forall k: nat | k < PHASE1 + com :: nodes[k].Encodes(RowsOf(s, k))
      invariant forall c: nat | c < com :: TableStatus(Rows1(s, c)) == Done
    {
      status := PairInto(nodes, 2 * com, 2 * com + 1, PHASE1 + com, s);
      if status != Done {
        return;
      }
      com := com + 1;
    }
    return Done;
  }

  method SetPhase2Cell(nodes: seq<Node>, ghost s: Snapshot) returns (status: Status)
    requires Tables(nodes) && s.Valid()
    requires forall k: nat | k < PHASE2 :: nodes[k].Encodes(RowsOf(s, k))
    modifies set i | PHASE2 <= i < PHASE3 :: nodes[i]
    modifies set i | PHASE2 <= i < PHASE3 :: nodes[i].ces
    modifies set i | PHASE2 <= i < PHASE3 :: nodes[i].cell
    ensures Tables(nodes)
    ensures status == Phase2Status(s)
    ensures status == Done ==> forall k: nat | k < PHASE3 :: nodes[k].Encodes(RowsOf(s, k))
  {
    hide SweepRows, Uniq, Node.Encodes, Node.Classes, Rows1, Cross, TableStatus;
    var com := 0;
    while com < 2
      invariant 0 <= com <= 2 && Tables(nodes)
      invariant forall k: nat | k < PHASE2 + com :: nodes[k].Encodes(RowsOf(s, k))
      invariant forall c: nat | c < com :: TableStatus(Rows2(s, c)) == Done
    {
      var a, b := if com == 0 then PHASE1 else PHASE1 + 2, if com == 0 then PHASE1 + 1 else 6;
      status := PairInto(nodes, a, b, PHASE2 + com, s);
      if status != Done {
        return;
      }
      com := com + 1;
    }
    return Done;
  }

  lemma EncodedClasses(node: Node, rows: seq<RuleSet>)
    requires node.Encodes(rows)
    ensures node.Valid() && node.Classes() == Uniq(rows)
  {
  }

  /** The tag of the rule in one slot. */
  method AclGetTagidByRuleid(filtset: FiltSet, ruleid: nat) returns (tag: nat)
    requires Image(filtset).Valid() && ruleid < MAX_FILTERS
    ensures tag == TagAt(Image(filtset), ruleid)
  {
    tag := filtset.filtArr[ruleid].cost % 0x1_0000;
  }

  /** One row of the last table: each cell the tag of the best rule left. */
  method SetTagRow(a: Bitmap, tnode2: Node, node: Node, filtset: FiltSet, bmp: array<Word>,
                   ghost done: seq<RuleSet>, indx: nat)
    requires tnode2.Valid() && node.Apart(tnode2) && bmp.Length == SIZE && Image(filtset).Valid()
    requires EncodesTags(node, Image(filtset), done) && indx == |done| && indx + tnode2.nCES <= node.cell.Length
    modifies node.cell, bmp
    ensures EncodesTags(node, Image(filtset), done + CrossRow(Rules(a), tnode2.Classes()))
  {
    hide Rules, IsCost, CrossRow;
    ghost var s, row := Image(filtset), CrossRow(Rules(a), tnode2.Classes());
    assert done + row[..0] == done;
    var j := 0;
    while j < tnode2.nCES
      invariant 0 <= j <= tnode2.nCES && Image(filtset) == s
      invariant EncodesTags(node, s, done + row[..j])
    {
      RowAt(Rules(a), tnode2.Classes(), j);
      Intersect(a, tnode2.ces[j], bmp);
      var cost := GetRuleCost(bmp);
      assert IsCost(row[j], cost);
      var tag := AclGetTagidByRuleid(filtset, cost);
      node.cell[indx + j] := tag;
      forall other: nat | other < MAX_FILTERS && IsCost(row[j], other)
        ensures tag == TagAt(s, other)
      {
        CostUnique(row[j], cost, other);
      }
      assert done + row[..j] + [row[j]] == done + row[..j + 1];
      j := j + 1;
    }
    assert row[..j] == row;
  }

  method SetPhase3Cell(nodes: seq<Node>, filtset: FiltSet) returns (status: Status)
    requires Tables(nodes) && Image(filtset).Valid()
    requires forall k: nat | k < PHASE3 :: nodes[k].Encodes(RowsOf(Image(filtset), k))
    modifies nodes[PHASE3], nodes[PHASE3].cell
    ensures Tables(nodes)
    ensures status == if |Rows3(Image(filtset))| > ACL_MAX_CELL then CellError else Done
    ensures forall k: nat | k < PHASE3 :: nodes[k].Encodes(RowsOf(Image(filtset), k))
    ensures status == Done ==>
      EncodesTags(nodes[PHASE3], Image(filtset), Rows3(Image(filtset))) &&
      nodes[PHASE3].ncells == |Rows3(Image(filtset))|
  {
    hide Rules, Uniq, Node.Encodes, Cross, CrossRow, IsCost, SweepRows;
    ghost var s := Image(filtset);
    var tnode1, tnode2, node := nodes[PHASE2], nodes[PHASE2 + 1], nodes[PHASE3];
    EncodedClasses(tnode1, RowsOf(s, PHASE2));
    EncodedClasses(tnode2, RowsOf(s, PHASE2 + 1));
    ghost var aa, bs := tnode1.Classes(), tnode2.Classes();
    CrossLength(aa, bs);
    CrossNil(aa, bs);
    var indx := 0;
    node.InitListEqs();
    var cellNum := tnode1.nCES * tnode2.nCES;
    assert cellNum == |Rows3(s)|;
    if cellNum > ACL_MAX_CELL {
      return CellError;
    }
    node.ncells := cellNum;
    var endBmp := new Word[SIZE](_ => ZERO);
    var i := 0;
    while i < tnode1.nCES
      invariant 0 <= i <= tnode1.nCES && Tables(nodes) && Image(filtset) == s
      invariant forall k: nat | k < PHASE3 :: nodes[k].Encodes(RowsOf(s, k))
      invariant tnode1.Classes() == aa && tnode2.Classes() == bs
      invariant indx == |Cross(aa[..i], bs)| && EncodesTags(node, s, Cross(aa[..i], bs))
      invariant node.ncells == cellNum
    {
      CrossStep(aa, bs, i);
      SetTagRow(tnode1.ces[i], tnode2, node, filtset, endBmp, Cross(aa[..i], bs), indx);
      indx := indx + tnode2.nCES;
      i := i + 1;
    }
    assert aa[..i] == aa;
    return Done;
  }

  /** The tables classify packets by the given filters. */
  ghost predicate Compiled(nodes: seq<Node>, s: Snapshot)
    reads nodes, set n | n in nodes :: n.ces, set n | n in nodes :: n.cell
  {
    s.Valid() && Tables(nodes) && BuildStatus(s) == Done &&
    (forall k: nat | k < PHASE3 :: nodes[k].Encodes(RowsOf(s, k))) &&
    EncodesTags(nodes[PHASE3], s, Rows3(s))
  }

  /** Phases 1 to 3, once phase 0 has filled the field tables. */
  method ReduceTables(nodes: seq<Node>, filtset: FiltSet, ghost s: Snapshot) returns (status: Status)
    requires Tables(nodes) && s.Valid() && SameButSync(s, Image(filtset))
    requires forall k: nat | k < PHASE1 :: nodes[k].Encodes(RowsOf(s, k))
    requires Phase0Status(s) == Done
    modifies nodes, set n | n in nodes :: n.ces, set n | n in nodes :: n.cell
    ensures Tables(nodes)
    ensures status == BuildStatus(s)
    ensures status == Done ==> Compiled(nodes, s)
  {
    hide Node.Encodes, SweepRows, Rows1, Rows2, Rows3, Phase0Status, Phase1Status, Phase2Status;
    status := SetPhase1Cell(nodes, s);
    if status != Done {
      return;
    }
    status := SetPhase2Cell(nodes, s);
    if status != Done {
      return;
    }
    SyncIrrelevant(s, Image(filtset));
    status := SetPhase3Cell(nodes, filtset);
  }

  /** Tables of both sizes, no two sharing storage. */
  method NewTables(count: nat) returns (nodes: seq<Node>)
    ensures |nodes| == count && fresh(nodes)
    ensures forall n | n in nodes :: fresh(n.cell) && fresh(n.ces)
    ensures forall i | 0 <= i < count ::
      nodes[i].Valid() && nodes[i].cell.Length == if i < PHASE1 then POINTS else ACL_MAX_CELL
    ensures forall i, j | 0 <= i < count && 0 <= j < count && i != j :: nodes[i].Apart(nodes[j])
  {
    nodes := [];
    var i := 0;
    while i < count
      invariant 0 <= i <= count && |nodes| == i && fresh(nodes)
      invariant forall k | 0 <= k < i :: fresh(nodes[k].cell) && fresh(nodes[k].ces) && nodes[k].Valid()
      invariant forall k | 0 <= k < i :: nodes[k].cell.Length == if k < PHASE1 then POINTS else ACL_MAX_CELL
      invariant forall j, k | 0 <= j < i && 0 <= k < i && j != k :: nodes[j].Apart(nodes[k])
    {
      var node := new Node(if i < PHASE1 then POINTS else ACL_MAX_CELL);
      nodes := nodes + [node];
      i := i + 1;
    }
  }

  class AclData {
    const filtset: FiltSet
    const nodes: seq<Node>

    constructor ()
      ensures Valid() && filtset.numFilters == 0
      ensures fresh(filtset) && fresh(filtset.filtArr)
    {
      filtset := new FiltSet();
      var tables := NewTables(13);
      nodes := tables;
    }

    ghost predicate Valid()
      reads this, filtset, filtset.filtArr, nodes
    {
      filtset.Valid() && Tables(nodes)
    }

    /** Compiles the filters into the tables. */
    method PreAclLookupByTuple() returns (status: Status)
      requires Valid()
      modifies nodes, set n | n in nodes :: n.ces, set n | n in nodes :: n.cell, filtset.filtArr
      ensures Valid()
      ensures status == BuildStatus(old(Image(filtset)))
      ensures status == Done ==> Compiled(nodes, old(Image(filtset)))
      ensures SameButSync(old(Image(filtset)), Image(filtset))
    {
      hide Node.Encodes, SweepRows, Rows1, Rows2, Rows3, Phase0Status, Phase1Status, Phase2Status;
      ghost var s := Image(filtset);
      status := SetPhase0Cell(nodes, filtset);
      SetFiltSync(filtset);
      if status != Done {
        return;
      }
      status := ReduceTables(nodes, filtset, s);
    }
  }

  /** cid is a class number of the table, and names the given rule set. */
  ghost predicate Names(node: Node, cid: nat, rules: RuleSet)
    reads node, node.ces
  {
    node.Valid() && cid < node.nCES && node.Classes()[cid] == rules
  }

  /** Phase 0 read: a field value's cell names the rules open at that value. */
  function ReadField(node: Node, n: nat, ghost s: Snapshot, ghost com: nat): (cid: nat)
    requires s.Valid() && com < 7 && n < POINTS && node.Encodes(SweepRows(s, com, POINTS))
    reads node, node.ces, node.cell
    ensures Names(node, cid, SweepSet(s, com, n))
  {
    hide Uniq, SweepSet;
    assert SweepRows(s, com, POINTS)[n] == SweepSet(s, com, n);
    node.cell[n]
  }

  /** Later read: two class numbers address the cell of their intersection, inside the table. */
  function ReadPair(tnode1: Node, tnode2: Node, out: Node, i: nat, j: nat,
                    ghost a: RuleSet, ghost b: RuleSet, ghost c: RuleSet): (cid: nat)
    requires Names(tnode1, i, a) && Names(tnode2, j, b) && c == a * b
    requires out.Encodes(Cross(tnode1.Classes(), tnode2.Classes()))
    reads tnode1, tnode1.ces, tnode2, tnode2.ces, out, out.ces, out.cell
    ensures Names(out, cid, c)
  {
    hide Uniq, Cross;
    CrossAt(tnode1.Classes(), tnode2.Classes(), i, j);
    out.cell[i * tnode2.nCES + j]
  }

  function ReadTag(tnode1: Node, tnode2: Node, out: Node, i: nat, j: nat,
                   ghost a: RuleSet, ghost b: RuleSet, ghost c: RuleSet, ghost s: Snapshot): (tag: nat)
    requires Names(tnode1, i, a) && Names(tnode2, j, b) && c == a * b && s.Valid()
    requires EncodesTags(out, s, Cross(tnode1.Classes(), tnode2.Classes()))
    reads tnode1, tnode1.ces, tnode2, tnode2.ces, out, out.cell
    ensures forall cost: nat | cost < MAX_FILTERS && IsCost(c, cost) :: tag == TagAt(s, cost)
  {
    hide Cross, IsCost;
    CrossAt(tnode1.Classes(), tnode2.Classes(), i, j);
    out.cell[i * tnode2.nCES + j]
  }

  /** The class numbers of the seven fields. */
  method ReadFields(nodes: seq<Node>, f: seq<nat>, ghost s: Snapshot) returns (cid: seq<nat>)
    requires s.Valid() && |nodes| == 13 && |f| == 7
    requires forall com: nat | com < 7 :: f[com] < POINTS && nodes[com].Encodes(SweepRows(s, com, POINTS))
    ensures |cid| == 7 && forall com: nat | com < 7 :: Names(nodes[com], cid[com], SweepSet(s, com, f[com]))
  {
    hide SweepSet, SweepRows, Node.Encodes, Names;
    cid := [ReadField(nodes[0], f[0], s, 0), ReadField(nodes[1], f[1], s, 1), ReadField(nodes[2], f[2], s, 2),
            ReadField(nodes[3], f[3], s, 3), ReadField(nodes[4], f[4], s, 4), ReadField(nodes[5], f[5], s, 5),
            ReadField(nodes[6], f[6], s, 6)];
  }

  /** The chain of table reads gives the tag of the highest-priority candidate. */
  method LookupChain(nodes: seq<Node>, t: Tuple, ghost s: Snapshot) returns (tag: nat)
    requires Compiled(nodes, s)
    ensures forall cost: nat | cost < MAX_FILTERS && IsCost(Candidates(s, t), cost) :: tag == TagAt(s, cost)
  {
    hide Node.Encodes, Node.Classes, Node.Valid, Node.Apart, Names, EncodesTags, Compiled, Tables, BuildStatus;
    hide SweepRows, SweepSet, Candidates, IsCost, Cross, Uniq, Fields, TagAt, RowsOf, Rows1, Rows2, Rows3;
    hide ReadPair, ReadTag;
    EncodedAll(nodes, s);
    var f := Fields(t);
    var cid := ReadFields(nodes, f, s);
    EncodedAll(nodes, s);
    ghost var r0, r1, r2 := SweepSet(s, 0, f[0]), SweepSet(s, 1, f[1]), SweepSet(s, 2, f[2]);
    ghost var r3, r4, r5 := SweepSet(s, 3, f[3]), SweepSet(s, 4, f[4]), SweepSet(s, 5, f[5]);
    ghost var r6 := SweepSet(s, 6, f[6]);
    ghost var r7, r8, r9 := r0 * r1, r2 * r3, r4 * r5;
    ghost var r10, r11 := r7 * r8, r9 * r6;
    var cid7 := ReadPair(nodes[0], nodes[1], nodes[7], cid[0], cid[1], r0, r1, r7);
    var cid8 := ReadPair(nodes[2], nodes[3], nodes[8], cid[2], cid[3], r2, r3, r8);
    var cid9 := ReadPair(nodes[4], nodes[5], nodes[9], cid[4], cid[5], r4, r5, r9);
    var cid10 := ReadPair(nodes[7], nodes[8], nodes[10], cid7, cid8, r7, r8, r10);
    var cid11 := ReadPair(nodes[9], nodes[6], nodes[11], cid9, cid[6], r9, r6, r11);
    assert Candidates(s, t) == r10 * r11 by {
      CandidatesAre(s, t, [r0, r1, r2, r3, r4, r5, r6]);
    }
    tag := ReadTag(nodes[10], nodes[11], nodes[12], cid10, cid11, r10, r11, Candidates(s, t), s);
  }

  lemma CandidatesAre(s: Snapshot, t: Tuple, r: seq<RuleSet>)
    requires s.Valid() && |r| == 7 && forall com: nat | com < 7 :: r[com] == SweepSet(s, com, Fields(t)[com])
    ensures Candidates(s, t) == ((r[0] * r[1]) * (r[2] * r[3])) * ((r[4] * r[5]) * r[6])
  {
  }

  lemma EncodedAll(nodes: seq<Node>, s: Snapshot)
    requires Compiled(nodes, s)
    ensures s.Valid() && |nodes| == 13
    ensures forall k: nat | k < PHASE3 :: nodes[k].Valid() && nodes[k].Classes() == Uniq(RowsOf(s, k))
    ensures forall com: nat | com < PHASE1 :: nodes[com].Encodes(SweepRows(s, com, POINTS))
    ensures EncodesTags(nodes[12], s, Cross(nodes[10].Classes(), nodes[11].Classes()))
    ensures nodes[7].Encodes(Cross(nodes[0].Classes(), nodes[1].Classes()))
    ensures nodes[8].Encodes(Cross(nodes[2].Classes(), nodes[3].Classes()))
    ensures nodes[9].Encodes(Cross(nodes[4].Classes(), nodes[5].Classes()))
    ensures nodes[10].Encodes(Cross(nodes[7].Classes(), nodes[8].Classes()))
    ensures nodes[11].Encodes(Cross(nodes[9].Classes(), nodes[6].Classes()))
    ensures Rows3(s) == Cross(nodes[10].Classes(), nodes[11].Classes())
  {
    hide Uniq, Cross, BuildStatus, SweepRows, Node.Encodes;
    forall k: nat | k < PHASE3
      ensures nodes[k].Valid() && nodes[k].Classes() == Uniq(RowsOf(s, k))
    {
      EncodedClasses(nodes[k], RowsOf(s, k));
    }
  }

  /** The table chain answers as a linear first-match scan of the compiled filters would. */
  method AclLookupByTuple(nodes: seq<Node>, t: Tuple, ghost s: Snapshot) returns (tag: nat)
    requires Compiled(nodes, s) && AllSweepable(s)
    ensures tag == TagAt(s, FirstMatch(s, t, 0))
  {
    FirstMatchIsCost(s, t, 0);
    tag := LookupChain(nodes, t, s);
  }
}