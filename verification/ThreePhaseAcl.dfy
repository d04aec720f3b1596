/** Compiling and looking up with the three-phase variant, and its agreement with the four-phase one. */
module ThreePhaseAcl {
  import opened Bitmaps
  import opened EqClasses
  import opened Filters
  import opened Sweep
  import opened Classifier
  import opened SplitOrder
  import opened ThreePhase
  import opened FiniteSets

  const FIELDS: nat := 7
  const TABLES: nat := 10

  /** Seven field tables, two of phase 1 and one of phase 2, no two sharing storage. */
  ghost predicate ThreeTables(nodes: seq<Node>)
    reads nodes
  {
    |nodes| == TABLES &&
    (forall i | 0 <= i < TABLES :: nodes[i].Valid() && nodes[i].cell.Length == if i < FIELDS then POINTS else ACL_MAX_CELL) &&
    forall i, j | 0 <= i < TABLES && 0 <= j < TABLES && i != j :: nodes[i].Apart(nodes[j])
  }

  method NewThreeTables() returns (nodes: seq<Node>)
    ensures ThreeTables(nodes) && fresh(nodes)
  {
    nodes := NewTables(TABLES);
  }

  /** The first table of phase 1 joins three fields and the protocol, the second the other three. */
  ghost function RowsA(s: Snapshot, dot: seq<nat>): seq<RuleSet>
    requires s.Valid() && Order(dot)
  {
    Fold(Classes0(s, dot[0]), [Classes0(s, dot[1]), Classes0(s, dot[2]), Classes0(s, 6)])
  }

  ghost function RowsB(s: Snapshot, dot: seq<nat>): seq<RuleSet>
    requires s.Valid() && Order(dot)
  {
    Fold(Classes0(s, dot[3]), [Classes0(s, dot[4]), Classes0(s, dot[5])])
  }

  ghost function RowsC(s: Snapshot, dot: seq<nat>): seq<RuleSet>
    requires s.Valid() && Order(dot)
  {
    Cross(Uniq(RowsA(s, dot)), Uniq(RowsB(s, dot)))
  }

  ghost predicate FieldsDone(nodes: seq<Node>, s: Snapshot)
    requires s.Valid() && |nodes| == TABLES
    reads nodes, set n | n in nodes :: n.ces, set n | n in nodes :: n.cell
  {
    forall com: nat | com < FIELDS :: nodes[com].Encodes(SweepRows(s, com, POINTS))
  }

  /** Each cell of the last table is the highest-priority rule of its row. */
  ghost predicate EncodesCosts(node: Node, rows: seq<RuleSet>)
    reads node, node.cell
  {
    |rows| <= node.cell.Length && forall k | 0 <= k < |rows| :: IsCost(rows[k], node.cell[k])
  }

  /** One row of the last table. */
  method SetCostRow(a: Bitmap, tnode2: Node, node: Node, bmp: array<Word>, ghost done: seq<RuleSet>, indx: nat)
    requires tnode2.Valid() && node.Apart(tnode2) && bmp.Length == SIZE
    requires EncodesCosts(node, done) && indx == |done| && indx + tnode2.nCES <= node.cell.Length
    modifies node.cell, bmp
    ensures EncodesCosts(node, done + CrossRow(Rules(a), tnode2.Classes()))
  {
    hide Rules, IsCost, CrossRow;
    ghost var row := CrossRow(Rules(a), tnode2.Classes());
    assert done + row[..0] == done;
    var j := 0;
    while j < tnode2.nCES
      invariant 0 <= j <= tnode2.nCES
      invariant EncodesCosts(node, done + row[..j])
    {
      RowAt(Rules(a), tnode2.Classes(), j);
      Intersect(a, tnode2.ces[j], bmp);
      var cost := GetRuleCost(bmp);
      assert IsCost(row[j], cost);
      node.cell[indx + j] := cost;
      assert done + row[..j] + [row[j]] == done + row[..j + 1];
      j := j + 1;
    }
    assert row[..j] == row;
  }

  /** The last table: the best rule for each pair of classes of two tables. */
  method SetCosts(tnode1: Node, tnode2: Node, node: Node) returns (status: Status)
    requires tnode1.Valid() && tnode2.Valid() && node.Valid() && node.Apart(tnode1) && node.Apart(tnode2)
    requires node.cell.Length == ACL_MAX_CELL
    modifies node, node.cell
    ensures node.Valid()
    ensures status == if |Cross(tnode1.Classes(), tnode2.Classes())| > ACL_MAX_CELL then CellError else Done
    ensures status == Done ==> EncodesCosts(node, Cross(tnode1.Classes(), tnode2.Classes()))
  {
    hide Rules, Uniq, Cross, CrossRow, IsCost;
    ghost var aa, bs := tnode1.Classes(), tnode2.Classes();
    CrossLength(aa, bs);
    CrossNil(aa, bs);
    var indx := 0;
    node.InitListEqs();
    var cellNum := tnode1.nCES * tnode2.nCES;
    assert cellNum == |Cross(aa, bs)|;
    if cellNum > ACL_MAX_CELL {
      return CellError;
    }
    node.ncells := cellNum;
    var endBmp := new Word[SIZE](_ => ZERO);
    var i := 0;
    while i < tnode1.nCES
      invariant 0 <= i <= tnode1.nCES && node.Valid() && tnode1.Valid() && tnode2.Valid()
      invariant tnode1.Classes() == aa && tnode2.Classes() == bs
      invariant indx == |Cross(aa[..i], bs)| && EncodesCosts(node, Cross(aa[..i], bs))
    {
      CrossStep(aa, bs, i);
      SetCostRow(tnode1.ces[i], tnode2, node, endBmp, Cross(aa[..i], bs), indx);
      indx := indx + tnode2.nCES;
      i := i + 1;
    }
    assert aa[..i] == aa;
    return Done;
  }

  /** How many classes each of the first six field tables has. */
  ghost function Counts(s: Snapshot): (n: seq<nat>)
    requires s.Valid()
    ensures |n| == 6
  {
    seq(6, c requires 0 <= c < 6 => |Classes0(s, c)|)
  }

  lemma CountAt(s: Snapshot, c: nat)
    requires s.Valid() && c < 6
    ensures Counts(s)[c] == |Classes0(s, c)|
  {
  }

  lemma FieldClasses(nodes: seq<Node>, s: Snapshot, c: nat)
    requires s.Valid() && |nodes| == TABLES && FieldsDone(nodes, s) && c < FIELDS
    ensures nodes[c].Valid() && nodes[c].Classes() == Classes0(s, c) && nodes[c].nCES == |Classes0(s, c)|
  {
    hide SweepRows, Uniq;
  }

  lemma Lists3(a: Node, b: Node, c: Node)
    requires a.Valid() && b.Valid() && c.Valid()
    ensures ClassLists([a, b, c]) == [a.Classes(), b.Classes(), c.Classes()]
  {
    hide Node.Classes;
    assert [a, b, c][1..] == [b, c];
    Lists2(b, c);
  }

  lemma Lists2(a: Node, b: Node)
    requires a.Valid() && b.Valid()
    ensures ClassLists([a, b]) == [a.Classes(), b.Classes()]
  {
    hide Node.Classes;
    assert [a, b][1..] == [b] && [b][1..] == [];
  }

  /** Phase 0 is the same as for four phases: a table for each field. */
  method SetFields(nodes: seq<Node>, filtset: FiltSet) returns (status: Status)
    requires ThreeTables(nodes) && Image(filtset).Valid()
    modifies nodes[..FIELDS], set i | 0 <= i < FIELDS :: nodes[i].ces, set i | 0 <= i < FIELDS :: nodes[i].cell
    ensures ThreeTables(nodes) && status == Phase0Status(Image(filtset))
    ensures status == Done ==> FieldsDone(nodes, Image(filtset))
  {
    hide SweepRows, Uniq, Node.Encodes;
    ghost var s := Image(filtset);
    var com := 0;
    while com < FIELDS
      invariant 0 <= com <= FIELDS && Image(filtset) == s && ThreeTables(nodes)
      invariant forall c: nat | c < com :: |Classes0(s, c)| <= MAX_FILTERS && nodes[c].Encodes(SweepRows(s, c, POINTS))
    {
      status := SweepField(nodes[com], filtset, com);
      if status != Done {
        assert |Classes0(s, com)| > MAX_FILTERS;
        return;
      }
      com := com + 1;
    }
    return Done;
  }

  /** The six class counts and the order picked for them. */
  method PickOrder(nodes: seq<Node>, ghost s: Snapshot) returns (dot: seq<nat>)
    requires ThreeTables(nodes) && s.Valid() && FieldsDone(nodes, s)
    ensures Order(dot) && forall p: seq<nat> | Order(p) :: Cost(Counts(s), dot) <= Cost(Counts(s), p)
  {
    hide SweepRows, Uniq, Node.Encodes, Cost;
    var n: seq<nat> := [nodes[0].nCES, nodes[1].nCES, nodes[2].nCES, nodes[3].nCES, nodes[4].nCES, nodes[5].nCES];
    forall c: nat | c < 6
      ensures n[c] == Counts(s)[c]
    {
      FieldClasses(nodes, s, c);
      CountAt(s, c);
    }
    assert n == Counts(s);
    dot := FindOrder(n);
  }

  /** The first table of phase 1: three fields and the protocol. */
  method JoinFour(nodes: seq<Node>, dot: seq<nat>, ghost s: Snapshot) returns (status: Status)
    requires ThreeTables(nodes) && s.Valid() && FieldsDone(nodes, s) && Order(dot)
    modifies nodes[7], nodes[7].ces, nodes[7].cell
    ensures ThreeTables(nodes) && status == TableStatus(RowsA(s, dot))
    ensures status == Done ==> nodes[7].Encodes(RowsA(s, dot))
  {
    hide SweepRows, Uniq, Node.Encodes, Node.Classes, Fold, ClassLists, TableStatus, Order, FieldsDone;
    OrderSays(dot);
    FieldClasses(nodes, s, dot[0]);
    FieldClasses(nodes, s, dot[1]);
    FieldClasses(nodes, s, dot[2]);
    FieldClasses(nodes, s, 6);
    Lists3(nodes[dot[1]], nodes[dot[2]], nodes[6]);
    status := Product(nodes[dot[0]], [nodes[dot[1]], nodes[dot[2]], nodes[6]], nodes[7]);
  }

  /** The second: the other three fields. */
  method JoinThree(nodes: seq<Node>, dot: seq<nat>, ghost s: Snapshot) returns (status: Status)
    requires ThreeTables(nodes) && s.Valid() && FieldsDone(nodes, s) && Order(dot)
    modifies nodes[8], nodes[8].ces, nodes[8].cell
    ensures ThreeTables(nodes) && status == TableStatus(RowsB(s, dot))
    ensures status == Done ==> nodes[8].Encodes(RowsB(s, dot))
  {
    hide SweepRows, Uniq, Node.Encodes, Node.Classes, Fold, ClassLists, TableStatus, Order, FieldsDone;
    OrderSays(dot);
    FieldClasses(nodes, s, dot[3]);
    FieldClasses(nodes, s, dot[4]);
    FieldClasses(nodes, s, dot[5]);
    Lists2(nodes[dot[4]], nodes[dot[5]]);
    status := Product(nodes[dot[3]], [nodes[dot[4]], nodes[dot[5]]], nodes[8]);
  }

  /** Phase 1: two joined tables, in an order no other beats. */
  method SetPhase1(nodes: seq<Node>, ghost s: Snapshot) returns (status: Status, dot: seq<nat>)
    requires ThreeTables(nodes) && s.Valid() && FieldsDone(nodes, s)
    modifies nodes[7], nodes[7].ces, nodes[7].cell, nodes[8], nodes[8].ces, nodes[8].cell
    ensures ThreeTables(nodes) && FieldsDone(nodes, s)
    ensures Order(dot) && forall p: seq<nat> | Order(p) :: Cost(Counts(s), dot) <= Cost(Counts(s), p)
    ensures status == Then(TableStatus(RowsA(s, dot)), TableStatus(RowsB(s, dot)))
    ensures status == Done ==> nodes[7].Encodes(RowsA(s, dot)) && nodes[8].Encodes(RowsB(s, dot))
  {
    hide SweepRows, Uniq, Node.Encodes, Cost, RowsA, RowsB, TableStatus, Order;
    dot := PickOrder(nodes, s);
    status := JoinFour(nodes, dot, s);
    if status == Done {
      status := JoinThree(nodes, dot, s);
    }
  }

  /** How compiling ends; a table that would be overrun stands for what the code does not check. */
  ghost function ThreeStatus(s: Snapshot, dot: seq<nat>): Status
    requires s.Valid() && Order(dot)
  {
    Then(Phase0Status(s), Then(Then(TableStatus(RowsA(s, dot)), TableStatus(RowsB(s, dot))),
      if |RowsC(s, dot)| > ACL_MAX_CELL then CellError else Done))
  }

  ghost predicate Reduced(a: Node, b: Node, c: Node, dot: seq<nat>, s: Snapshot)
    requires s.Valid() && Order(dot)
    reads a, a.ces, a.cell, b, b.ces, b.cell, c, c.cell
  {
    a.Encodes(RowsA(s, dot)) && b.Encodes(RowsB(s, dot)) && EncodesCosts(c, RowsC(s, dot))
  }

  /** The tables classify packets by the given filters. */
  ghost predicate ThreeCompiled(nodes: seq<Node>, dot: seq<nat>, s: Snapshot)
    reads nodes, set n | n in nodes :: n.ces, set n | n in nodes :: n.cell
  {
    s.Valid() && ThreeTables(nodes) && Order(dot) && FieldsDone(nodes, s) && Reduced(nodes[7], nodes[8], nodes[9], dot, s)
  }

  /** Phases 1 and 2, once phase 0 has filled the field tables. */
  method Reduce(nodes: seq<Node>, ghost s: Snapshot) returns (status: Status, dot: seq<nat>)
    requires ThreeTables(nodes) && s.Valid() && FieldsDone(nodes, s)
    modifies nodes[7], nodes[7].ces, nodes[7].cell, nodes[8], nodes[8].ces, nodes[8].cell, nodes[9], nodes[9].cell
    ensures ThreeTables(nodes) && FieldsDone(nodes, s)
    ensures Order(dot) && forall p: seq<nat> | Order(p) :: Cost(Counts(s), dot) <= Cost(Counts(s), p)
    ensures status == Then(Then(TableStatus(RowsA(s, dot)), TableStatus(RowsB(s, dot))),
      if |RowsC(s, dot)| > ACL_MAX_CELL then CellError else Done)
    ensures status == Done ==> Reduced(nodes[7], nodes[8], nodes[9], dot, s)
  {
    hide SweepRows, Uniq, Node.Encodes, Cost, RowsA, RowsB, TableStatus, Order, Cross;
    status, dot := SetPhase1(nodes, s);
    if status != Done {
      return;
    }
    EncodedClasses(nodes[7], RowsA(s, dot));
    EncodedClasses(nodes[8], RowsB(s, dot));
    status := SetCosts(nodes[7], nodes[8], nodes[9]);
  }

  /** Compiles the filters: three phases, with an order of the fields no other beats. */
  method PreAclLookupByTuple(nodes: seq<Node>, filtset: FiltSet) returns (status: Status, dot: seq<nat>)
    requires ThreeTables(nodes) && Image(filtset).Valid()
    modifies nodes, set n | n in nodes :: n.ces, set n | n in nodes :: n.cell, filtset.filtArr
    ensures ThreeTables(nodes) && SameButSync(old(Image(filtset)), Image(filtset))
    ensures Order(dot) && status == ThreeStatus(old(Image(filtset)), dot)
    ensures Phase0Status(old(Image(filtset))) == Done ==>
      forall p: seq<nat> | Order(p) :: Cost(Counts(old(Image(filtset))), dot) <= Cost(Counts(old(Image(filtset))), p)
    ensures status == Done ==> ThreeCompiled(nodes, dot, old(Image(filtset)))
  {
    hide SweepRows, Uniq, Node.Encodes, Cost, RowsA, RowsB, RowsC, TableStatus, Order, Phase0Status, Counts, Reduced;
    ghost var s := Image(filtset);
    dot := [0, 1, 2, 3, 4, 5];
    Identity();
    status := SetFields(nodes, filtset);
    SetFiltSync(filtset);
    if status != Done {
      return;
    }
    status, dot := Reduce(nodes, s);
  }

  // Lookup

  /** The class numbers of the seven fields, each read inside its table. */
  method ReadAll(nodes: seq<Node>, f: seq<nat>, ghost s: Snapshot) returns (cid: seq<nat>)
    requires s.Valid() && ThreeTables(nodes) && FieldsDone(nodes, s)
    requires |f| == FIELDS && forall c | 0 <= c < FIELDS :: f[c] < POINTS
    ensures |cid| == FIELDS && forall c: nat | c < FIELDS :: Names(nodes[c], cid[c], SweepSet(s, c, f[c]))
  {
    hide SweepSet, SweepRows, Node.Encodes, Names;
    cid := [];
    var com := 0;
    while com < FIELDS
      invariant 0 <= com <= FIELDS && |cid| == com
      invariant forall c: nat | c < com :: Names(nodes[c], cid[c], SweepSet(s, c, f[c]))
    {
      cid := cid + [ReadField(nodes[com], f[com], s, com)];
      com := com + 1;
    }
  }

  lemma NamedClass(node: Node, cid: nat, rules: RuleSet)
    requires Names(node, cid, rules)
    ensures node.Valid() && cid < |node.Classes()| == node.nCES && node.Classes()[cid] == rules
  {
  }

  /** Reading one cell of a table that encodes its rows. */
  lemma CellNames(node: Node, rows: seq<RuleSet>, at: nat)
    requires node.Encodes(rows) && at < |rows|
    ensures at < node.cell.Length && Names(node, node.cell[at], rows[at])
  {
    hide Uniq;
  }

  /** Four class numbers lead to the cell of a table that joins four. */
  method ReadFour(t0: Node, t1: Node, t2: Node, t3: Node, out: Node, c0: nat, c1: nat, c2: nat, c3: nat,
                  ghost r0: RuleSet, ghost r1: RuleSet, ghost r2: RuleSet, ghost r3: RuleSet) returns (c: nat)
    requires Names(t0, c0, r0) && Names(t1, c1, r1) && Names(t2, c2, r2) && Names(t3, c3, r3)
    requires out.Encodes(Fold(t0.Classes(), [t1.Classes(), t2.Classes(), t3.Classes()]))
    ensures Names(out, c, r0 * r1 * r2 * r3)
  {
    hide Node.Encodes, Node.Classes, Names, Fold;
    NamedClass(t0, c0, r0);
    NamedClass(t1, c1, r1);
    NamedClass(t2, c2, r2);
    NamedClass(t3, c3, r3);
    var indx0a := t1.nCES * t2.nCES * t3.nCES;
    var indx0b := t2.nCES * t3.nCES;
    var indx := c0 * indx0a + c1 * indx0b + c2 * t3.nCES + c3;
    ghost var aa, bs, cs, ds := t0.Classes(), t1.Classes(), t2.Classes(), t3.Classes();
    assert indx == Index4(c0, c1, c2, c3, t1.nCES, t2.nCES, t3.nCES);
    FourAt(aa, bs, cs, ds, c0, c1, c2, c3);
    CellNames(out, Fold(aa, [bs, cs, ds]), indx);
    c := out.cell[indx];
  }

  /** Three class numbers lead to the cell of a table that joins three. */
  method ReadThree(t0: Node, t1: Node, t2: Node, out: Node, c0: nat, c1: nat, c2: nat,
                   ghost r0: RuleSet, ghost r1: RuleSet, ghost r2: RuleSet) returns (c: nat)
    requires Names(t0, c0, r0) && Names(t1, c1, r1) && Names(t2, c2, r2)
    requires out.Encodes(Fold(t0.Classes(), [t1.Classes(), t2.Classes()]))
    ensures Names(out, c, r0 * r1 * r2)
  {
    hide Node.Encodes, Node.Classes, Names, Fold;
    NamedClass(t0, c0, r0);
    NamedClass(t1, c1, r1);
    NamedClass(t2, c2, r2);
    var index1a := t1.nCES * t2.nCES;
    var indx := c0 * index1a + c1 * t2.nCES + c2;
    ghost var aa, bs, cs := t0.Classes(), t1.Classes(), t2.Classes();
    assert indx == Index3(c0, c1, c2, t1.nCES, t2.nCES);
    ThreeAt(aa, bs, cs, c0, c1, c2);
    CellNames(out, Fold(aa, [bs, cs]), indx);
    c := out.cell[indx];
  }

  /** Two class numbers lead to the rule in the last table. */
  method ReadCost(a: Node, b: Node, out: Node, i: nat, j: nat, ghost ra: RuleSet, ghost rb: RuleSet) returns (cost: nat)
    requires Names(a, i, ra) && Names(b, j, rb) && EncodesCosts(out, Cross(a.Classes(), b.Classes()))
    ensures IsCost(ra * rb, cost)
  {
    hide Node.Classes, Names, Cross, IsCost;
    NamedClass(a, i, ra);
    NamedClass(b, j, rb);
    CrossAt(a.Classes(), b.Classes(), i, j);
    cost := out.cell[i * b.nCES + j];
  }

  /** The rules open in one field of a packet. */
  ghost function Open(s: Snapshot, t: Tuple, c: nat): RuleSet
    requires s.Valid() && c < FIELDS
  {
    SweepSet(s, c, Fields(t)[c])
  }

  lemma CandidatesOpen(s: Snapshot, t: Tuple)
    requires s.Valid()
    ensures Candidates(s, t) == ((Open(s, t, 0) * Open(s, t, 1)) * (Open(s, t, 2) * Open(s, t, 3))) *
      ((Open(s, t, 4) * Open(s, t, 5)) * Open(s, t, 6))
  {
    hide SweepSet, Fields;
  }

  lemma TakesEach(dot: seq<nat>, s: Snapshot, t: Tuple, x: nat)
    requires s.Valid() && Order(dot)
    requires x in Open(s, t, dot[0]) && x in Open(s, t, dot[1]) && x in Open(s, t, dot[2])
    requires x in Open(s, t, dot[3]) && x in Open(s, t, dot[4]) && x in Open(s, t, dot[5])
    ensures x in Open(s, t, 0) && x in Open(s, t, 1) && x in Open(s, t, 2)
    ensures x in Open(s, t, 3) && x in Open(s, t, 4) && x in Open(s, t, 5)
  {
    hide Open, Order;
    Takes(dot, 0);
    Takes(dot, 1);
    Takes(dot, 2);
    Takes(dot, 3);
    Takes(dot, 4);
    Takes(dot, 5);
  }

  lemma TakenByEach(dot: seq<nat>, s: Snapshot, t: Tuple, x: nat, i: nat)
    requires s.Valid() && Order(dot) && i < 6
    requires x in Open(s, t, 0) && x in Open(s, t, 1) && x in Open(s, t, 2)
    requires x in Open(s, t, 3) && x in Open(s, t, 4) && x in Open(s, t, 5)
    ensures x in Open(s, t, dot[i])
  {
    hide Open;
    assert dot[i] == 0 || dot[i] == 1 || dot[i] == 2 || dot[i] == 3 || dot[i] == 4 || dot[i] == 5;
  }

  /** The two joined tables keep exactly the rules open in every field. */
  lemma SameCandidates(s: Snapshot, t: Tuple, dot: seq<nat>)
    requires s.Valid() && Order(dot)
    ensures
      (Open(s, t, dot[0]) * Open(s, t, dot[1]) * Open(s, t, dot[2]) * Open(s, t, 6)) *
      (Open(s, t, dot[3]) * Open(s, t, dot[4]) * Open(s, t, dot[5])) == Candidates(s, t)
  {
    hide Open, Candidates, Order;
    OrderSays(dot);
    CandidatesOpen(s, t);
    var joined := (Open(s, t, dot[0]) * Open(s, t, dot[1]) * Open(s, t, dot[2]) * Open(s, t, 6)) *
      (Open(s, t, dot[3]) * Open(s, t, dot[4]) * Open(s, t, dot[5]));
    forall x | x in joined
      ensures x in Candidates(s, t)
    {
      TakesEach(dot, s, t, x);
    }
    forall x | x in Candidates(s, t)
      ensures x in joined
    {
      TakenByEach(dot, s, t, x, 0);
      TakenByEach(dot, s, t, x, 1);
      TakenByEach(dot, s, t, x, 2);
      TakenByEach(dot, s, t, x, 3);
      TakenByEach(dot, s, t, x, 4);
      TakenByEach(dot, s, t, x, 5);
    }
  }

  /** What the compiled tables offer the chain. */
  lemma ChainTables(nodes: seq<Node>, dot: seq<nat>, s: Snapshot)
    requires ThreeCompiled(nodes, dot, s)
    ensures s.Valid() && |nodes| == TABLES && |dot| == 6 && (forall i | 0 <= i < 6 :: dot[i] < 6)
    ensures forall c: nat | c < FIELDS :: nodes[c].Valid()
    ensures nodes[7].Encodes(Fold(nodes[dot[0]].Classes(), [nodes[dot[1]].Classes(), nodes[dot[2]].Classes(), nodes[6].Classes()]))
    ensures nodes[8].Encodes(Fold(nodes[dot[3]].Classes(), [nodes[dot[4]].Classes(), nodes[dot[5]].Classes()]))
    ensures nodes[7].Valid() && nodes[8].Valid() && EncodesCosts(nodes[9], Cross(nodes[7].Classes(), nodes[8].Classes()))
  {
    hide Node.Encodes, Node.Classes, SweepRows, Uniq, Cross, Fold;
    forall c: nat | c < FIELDS
      ensures nodes[c].Valid() && nodes[c].Classes() == Classes0(s, c)
    {
      FieldClasses(nodes, s, c);
    }
    EncodedClasses(nodes[7], RowsA(s, dot));
    EncodedClasses(nodes[8], RowsB(s, dot));
  }

  /** The three-phase chain gives the index of the rule a linear scan finds. */
  method AclLookupByTuple(nodes: seq<Node>, dot: seq<nat>, t: Tuple, ghost s: Snapshot) returns (cost: nat)
    requires s.Valid() && ThreeCompiled(nodes, dot, s) && AllSweepable(s)
    ensures cost == FirstMatch(s, t, 0)
  {
    hide SweepSet, Node.Encodes, Node.Classes, Names, Fields, Candidates, IsCost, Cross, Fold, ThreeTables, FieldsDone, Reduced;
    hide FirstMatch, AllSweepable, Order, EncodesCosts;
    ChainTables(nodes, dot, s);
    var f := Fields(t);
    var cid := ReadAll(nodes, f, s);
    var cid7 := ReadFour(nodes[dot[0]], nodes[dot[1]], nodes[dot[2]], nodes[6], nodes[7],
                         cid[dot[0]], cid[dot[1]], cid[dot[2]], cid[6],
                         Open(s, t, dot[0]), Open(s, t, dot[1]), Open(s, t, dot[2]), Open(s, t, 6));
    var cid8 := ReadThree(nodes[dot[3]], nodes[dot[4]], nodes[dot[5]], nodes[8], cid[dot[3]], cid[dot[4]], cid[dot[5]],
                          Open(s, t, dot[3]), Open(s, t, dot[4]), Open(s, t, dot[5]));
    cost := ReadCost(nodes[7], nodes[8], nodes[9], cid7, cid8,
                     Open(s, t, dot[0]) * Open(s, t, dot[1]) * Open(s, t, dot[2]) * Open(s, t, 6),
                     Open(s, t, dot[3]) * Open(s, t, dot[4]) * Open(s, t, dot[5]));
    SameCandidates(s, t, dot);
    FirstMatchIsCost(s, t, 0);
    CostUnique(Candidates(s, t), cost, FirstMatch(s, t, 0));
  }

  /** The two reduction trees agree: compiled one after the other from the same filters, whose marks
      the first changes, the four-phase chain answers with the tag of the very rule that the
      three-phase chain finds. */
  method TreesAgree(four: seq<Node>, three: seq<Node>, dot: seq<nat>, t: Tuple, ghost s: Snapshot, ghost r: Snapshot)
    returns (tag: nat, cost: nat)
    requires s.Valid() && r.Valid() && SameButSync(s, r) && AllSweepable(s)
    requires Compiled(four, s)
    requires ThreeCompiled(three, dot, r)
    ensures cost < MAX_FILTERS && tag == TagAt(s, cost) == TagAt(r, cost)
  {
    hide Compiled, ThreeCompiled, FirstMatch, SameButSync, AllSweepable, TagAt;
    SyncAgrees(s, r, t);
    tag := Classifier.AclLookupByTuple(four, t, s);
    cost := AclLookupByTuple(three, dot, t, r);
  }

  lemma SyncAgrees(s: Snapshot, r: Snapshot, t: Tuple)
    requires s.Valid() && r.Valid() && SameButSync(s, r) && AllSweepable(s)
    ensures FirstMatch(s, t, 0) == FirstMatch(r, t, 0) && AllSweepable(r)
    ensures forall cost: nat | cost < MAX_FILTERS :: TagAt(s, cost) == TagAt(r, cost)
  {
    hide FirstMatch;
    SyncKeepsMatch(s, r, t, 0);
  }
}
