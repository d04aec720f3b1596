/** Equivalence-class tables: a list of distinct rule bitmaps and a cell array whose
    entries are positions in that list (Pnode, Pnoder and LISTEqS of frcore_rfc.h). */
module EqClasses {
  import opened Bitmaps

  type RuleSet = set<nat>

  const ACL_MAX_CELL: nat := 1000000

  /** The distinct members of a sequence, in the order they first appear. */
  ghost function Uniq<T>(rows: seq<T>): seq<T> {
    if rows == [] then []
    else
      var u := Uniq(rows[..|rows| - 1]);
      var last := rows[|rows| - 1];
      if last in u then u else u + [last]
  }

  lemma {:induction false} UniqSound<T>(rows: seq<T>)
    ensures forall x :: x in Uniq(rows) <==> x in rows
    ensures forall i, j | 0 <= i < j < |Uniq(rows)| :: Uniq(rows)[i] != Uniq(rows)[j]
    ensures |Uniq(rows)| <= |rows|
  {
    if rows != [] {
      UniqSound(rows[..|rows| - 1]);
      assert rows == rows[..|rows| - 1] + [rows[|rows| - 1]];
    }
  }

  lemma UniqStep<T>(rows: seq<T>, x: T)
    ensures Uniq(rows + [x]) == if x in Uniq(rows) then Uniq(rows) else Uniq(rows) + [x]
  {
    assert (rows + [x])[..|rows|] == rows;
  }

  lemma {:induction false} UniqMonotone<T>(a: seq<T>, b: seq<T>)
    requires a <= b
    ensures |Uniq(a)| <= |Uniq(b)|
  {
    if |a| < |b| {
      UniqMonotone(a, b[..|b| - 1]);
    } else {
      assert a == b;
    }
  }

  /** One row of a product table: a against each class of bs in turn. */
  ghost function CrossRow(a: RuleSet, bs: seq<RuleSet>): (r: seq<RuleSet>)
    ensures |r| == |bs|
  {
    seq(|bs|, j requires 0 <= j < |bs| => a * bs[j])
  }

  lemma RowAt(a: RuleSet, bs: seq<RuleSet>, j: nat)
    requires j < |bs|
    ensures |CrossRow(a, bs)| == |bs| && CrossRow(a, bs)[j] == a * bs[j]
  {
  }

  /** The product table of two class lists, row after row. */
  ghost function Cross(aa: seq<RuleSet>, bs: seq<RuleSet>): seq<RuleSet> {
    if aa == [] then [] else Cross(aa[..|aa| - 1], bs) + CrossRow(aa[|aa| - 1], bs)
  }

  lemma {:induction false} CrossLength(aa: seq<RuleSet>, bs: seq<RuleSet>)
    ensures |Cross(aa, bs)| == |aa| * |bs|
  {
    if aa != [] {
      CrossLength(aa[..|aa| - 1], bs);
      assert (|aa| - 1) * |bs| + |bs| == |aa| * |bs|;
    }
  }

  lemma RowIndex(i: nat, j: nat, rows: nat, cols: nat)
    requires i < rows && j < cols
    ensures 0 <= i * cols + j < rows * cols
  {
    assert i * cols + cols == (i + 1) * cols <= rows * cols;
  }

  /** Mixed-radix addressing: cell i * |bs| + j of the product table is aa[i] * bs[j]. */
  lemma {:induction false} CrossAt(aa: seq<RuleSet>, bs: seq<RuleSet>, i: nat, j: nat)
    requires i < |aa| && j < |bs|
    ensures 0 <= i * |bs| + j < |aa| * |bs| == |Cross(aa, bs)|
    ensures Cross(aa, bs)[i * |bs| + j] == aa[i] * bs[j]
  {
    CrossLength(aa, bs);
    RowIndex(i, j, |aa|, |bs|);
    var init := aa[..|aa| - 1];
    CrossLength(init, bs);
    if i == |aa| - 1 {
      assert Cross(aa, bs)[|init| * |bs| + j] == CrossRow(aa[i], bs)[j];
    } else {
      CrossAt(init, bs, i, j);
    }
  }

  lemma {:induction false} CrossPrefix(aa: seq<RuleSet>, bs: seq<RuleSet>, i: nat)
    requires i <= |aa|
    ensures Cross(aa[..i], bs) <= Cross(aa, bs)
  {
    if i == |aa| {
      assert aa[..i] == aa;
    } else {
      CrossPrefix(aa[..|aa| - 1], bs, i);
      assert aa[..|aa| - 1][..i] == aa[..i];
    }
  }

  lemma CrossNil(aa: seq<RuleSet>, bs: seq<RuleSet>)
    ensures Cross(aa[..0], bs) == []
  {
  }

  lemma CrossStep(aa: seq<RuleSet>, bs: seq<RuleSet>, i: nat)
    requires i < |aa|
    ensures Cross(aa[..i + 1], bs) == Cross(aa[..i], bs) + CrossRow(aa[i], bs)
    ensures Cross(aa[..i], bs) + CrossRow(aa[i], bs) <= Cross(aa, bs)
  {
    assert aa[..i + 1][..i] == aa[..i];
    CrossPrefix(aa, bs, i + 1);
  }

  datatype Status = Done | CellError | ListOverrun

  /** Whether a product table fits: its cells into cell[], its distinct rule sets into ces[]. */
  ghost function TableStatus(rows: seq<RuleSet>): Status {
    if |rows| > ACL_MAX_CELL then CellError
    else if |Uniq(rows)| > MAX_FILTERS then ListOverrun
    else Done
  }

  /** A phase table. ListOverrun stands for the entry the C code would write past ces[]. */
  class Node {
    const cell: array<nat>
    const ces: array<Bitmap>
    var ncells: nat
    var nCES: nat

    constructor (cells: nat)
      ensures Valid() && fresh(cell) && fresh(ces) && cell.Length == cells
      ensures nCES == 0
    {
      cell := new nat[cells];
      ces := new Bitmap[MAX_FILTERS];
      ncells, nCES := 0, 0;
    }

    ghost predicate Valid()
      reads this
    {
      ces.Length == MAX_FILTERS && nCES <= MAX_FILTERS
    }

    /** No storage in common with another table. */
    ghost predicate Apart(other: Node) {
      this != other && cell != other.cell && ces != other.ces
    }

    ghost function Classes(): seq<RuleSet>
      requires Valid()
      reads this, ces
    {
      seq(nCES, i requires 0 <= i < nCES && Valid() reads this, ces => Rules(ces[i]))
    }

    /** The table holds one cell per row, each naming that row's rule set in a list without repeats. */
    ghost predicate Encodes(rows: seq<RuleSet>)
      reads this, ces, cell
    {
      Valid() && |rows| <= cell.Length && Classes() == Uniq(rows) &&
      forall k | 0 <= k < |rows| :: cell[k] < nCES && Classes()[cell[k]] == rows[k]
    }

    method InitListEqs()
      requires Valid()
      modifies this`nCES
      ensures Valid() && Encodes([])
    {
      nCES := 0;
    }

    method SearchBmp(bmp: array<Word>) returns (eqID: int)
      requires Valid() && bmp.Length == SIZE
      ensures eqID == -1 ==> Rules(bmp[..]) !in Classes()
      ensures eqID != -1 ==> 0 <= eqID < nCES && Classes()[eqID] == Rules(bmp[..])
    {
      var i := 0;
      while i < nCES
        invariant 0 <= i <= nCES
        invariant forall j | 0 <= j < i :: Classes()[j] != Rules(bmp[..])
      {
        var same := CompareBmp(ces[i], bmp);
        if same {
          return i;
        }
        i := i + 1;
      }
      return -1;
    }

    method AddListEqsCES(bmp: array<Word>) returns (eqID: nat)
      requires Valid() && bmp.Length == SIZE && nCES < MAX_FILTERS
      modifies this`nCES, ces
      ensures Valid() && eqID == old(nCES)
      ensures Classes() == old(Classes()) + [Rules(bmp[..])]
    {
      ces[nCES] := bmp[..];
      nCES := nCES + 1;
      return nCES - 1;
    }

    /** Gives the next cell the class of bmp, adding the class if it is new. */
    method Record(bmp: array<Word>, ghost rows: seq<RuleSet>, n: nat) returns (ok: bool)
      requires Encodes(rows) && n == |rows| < cell.Length && bmp.Length == SIZE
      modifies this`nCES, ces, cell
      ensures Valid()
      ensures ok <==> |Uniq(rows + [Rules(bmp[..])])| <= MAX_FILTERS
      ensures ok ==> Encodes(rows + [Rules(bmp[..])])
    {
      hide Rules, Uniq;
      UniqStep(rows, Rules(bmp[..]));
      var tempeqID := SearchBmp(bmp);
      if tempeqID == -1 {
        if nCES == MAX_FILTERS {
          return false;
        }
        tempeqID := AddListEqsCES(bmp);
      }
      cell[n] := tempeqID;
      return true;
    }

    /** One step of a product table: the intersection of two bitmaps goes into the next cell. */
    method RecordPair(a: Bitmap, b: Bitmap, bmp: array<Word>, ghost rows: seq<RuleSet>, n: nat) returns (ok: bool)
      requires Encodes(rows) && n == |rows| < cell.Length && bmp.Length == SIZE
      modifies this`nCES, ces, cell, bmp
      ensures Valid()
      ensures ok <==> |Uniq(rows + [Rules(a) * Rules(b)])| <= MAX_FILTERS
      ensures ok ==> Encodes(rows + [Rules(a) * Rules(b)])
    {
      hide Rules, Uniq;
      Intersect(a, b, bmp);
      ok := Record(bmp, rows, n);
    }
  }

  /** The inner loop: one bitmap against every class of a table, into consecutive cells. */
  method IntersectRow(a: Bitmap, tnode2: Node, out: Node, bmp: array<Word>, ghost done: seq<RuleSet>, indx: nat)
    returns (ok: bool)
    requires tnode2.Valid() && out.Apart(tnode2) && bmp.Length == SIZE
    requires out.Encodes(done) && indx == |done| && indx + tnode2.nCES <= out.cell.Length
    modifies out`nCES, out.ces, out.cell, bmp
    ensures out.Valid()
    ensures ok <==> |Uniq(done + CrossRow(Rules(a), tnode2.Classes()))| <= MAX_FILTERS
    ensures ok ==> out.Encodes(done + CrossRow(Rules(a), tnode2.Classes()))
  {
    hide Rules, Uniq, CrossRow;
    ghost var bs := tnode2.Classes();
    ghost var row := CrossRow(Rules(a), bs);
    assert done + row[..0] == done;
    var j := 0;
    while j < tnode2.nCES
      invariant 0 <= j <= tnode2.nCES && tnode2.Valid() && tnode2.Classes() == bs
      invariant out.Encodes(done + row[..j])
    {
      RowAt(Rules(a), bs, j);
      assert done + row[..j] + [row[j]] == done + row[..j + 1];
      ok := out.RecordPair(a, tnode2.ces[j], bmp, done + row[..j], indx + j);
      if !ok {
        UniqMonotone(done + row[..j + 1], done + row);
        return;
      }
      j := j + 1;
    }
    assert row[..j] == row;
    UniqFits(out, done + row);
    return true;
  }

  /** Fills out with the pairwise intersections of the classes of two tables. */
  method IntersectTables(tnode1: Node, tnode2: Node, out: Node) returns (status: Status)
    requires tnode1.Valid() && tnode2.Valid() && out.Valid() && out.cell.Length == ACL_MAX_CELL
    requires out.Apart(tnode1) && out.Apart(tnode2)
    modifies out, out.ces, out.cell
    ensures out.Valid()
    ensures status == TableStatus(Cross(tnode1.Classes(), tnode2.Classes()))
    ensures status == Done ==>
      out.Encodes(Cross(tnode1.Classes(), tnode2.Classes())) &&
      out.ncells == |Cross(tnode1.Classes(), tnode2.Classes())|
  {
    hide Rules, Uniq, Cross, CrossRow;
    ghost var aa, bs := tnode1.Classes(), tnode2.Classes();
    CrossLength(aa, bs);
    CrossNil(aa, bs);
    var indx := 0;
    out.InitListEqs();
    var cellNum := tnode1.nCES * tnode2.nCES;
    assert cellNum == |Cross(aa, bs)|;
    if cellNum > ACL_MAX_CELL {
      return CellError;
    }
    out.ncells := cellNum;
    var intersectedBmp := new Word[SIZE](_ => ZERO);
    var i := 0;
    while i < tnode1.nCES
      invariant 0 <= i <= tnode1.nCES
      invariant tnode1.Valid() && tnode2.Valid() && tnode1.Classes() == aa && tnode2.Classes() == bs
      invariant indx == |Cross(aa[..i], bs)| && out.Encodes(Cross(aa[..i], bs))
      invariant out.ncells == cellNum
    {
      CrossStep(aa, bs, i);
      var ok := IntersectRow(tnode1.ces[i], tnode2, out, intersectedBmp, Cross(aa[..i], bs), indx);
      if !ok {
        UniqMonotone(Cross(aa[..i], bs) + CrossRow(aa[i], bs), Cross(aa, bs));
        return ListOverrun;
      }
      indx := indx + tnode2.nCES;
      i := i + 1;
    }
    assert aa[..i] == aa;
    UniqFits(out, Cross(aa, bs));
    return Done;
  }

  lemma UniqFits(node: Node, rows: seq<RuleSet>)
    requires node.Encodes(rows)
    ensures |Uniq(rows)| <= MAX_FILTERS
  {
  }
}
