/** The three-phase variant of the classifier (RFC3): three and four tables at a time are joined,
    in the order that FindOrder picks, and the last table holds rule indexes. */
module ThreePhase {
  import opened Bitmaps
  import opened EqClasses
  import opened Filters
  import opened Sweep
  import Classifier
  import opened SplitOrder

  // Joining several class lists at once

  /** The product of rows with each class list in turn, the last one varying fastest. */
  ghost function Fold(rows: seq<RuleSet>, css: seq<seq<RuleSet>>): seq<RuleSet>
    decreases |css|
  {
    if css == [] then rows else Fold(Cross(rows, css[0]), css[1..])
  }

  lemma {:induction false} CrossConcat(a: seq<RuleSet>, b: seq<RuleSet>, cs: seq<RuleSet>)
    ensures Cross(a + b, cs) == Cross(a, cs) + Cross(b, cs)
  {
    if b == [] {
      assert a + b == a;
    } else {
      assert (a + b)[..|a + b| - 1] == a + b[..|b| - 1];
      CrossConcat(a, b[..|b| - 1], cs);
    }
  }

  lemma {:induction false} FoldConcat(a: seq<RuleSet>, b: seq<RuleSet>, css: seq<seq<RuleSet>>)
    ensures Fold(a + b, css) == Fold(a, css) + Fold(b, css)
    decreases |css|
  {
    if css != [] {
      CrossConcat(a, b, css[0]);
      FoldConcat(Cross(a, css[0]), Cross(b, css[0]), css[1..]);
    }
  }

  lemma {:induction false} FoldNone(css: seq<seq<RuleSet>>)
    ensures Fold([], css) == []
    decreases |css|
  {
    if css != [] {
      FoldNone(css[1..]);
    }
  }

  lemma CrossOne(p: RuleSet, bs: seq<RuleSet>)
    ensures Cross([p], bs) == CrossRow(p, bs)
  {
    assert [p][..0] == [];
    assert Cross([], bs) + CrossRow(p, bs) == CrossRow(p, bs);
  }

  lemma CrossRowStep(p: RuleSet, bs: seq<RuleSet>, j: nat)
    requires j < |bs|
    ensures CrossRow(p, bs[..j + 1]) == CrossRow(p, bs[..j]) + [p * bs[j]]
  {
  }

  ghost function ClassLists(tnodes: seq<Node>): (css: seq<seq<RuleSet>>)
    requires forall i | 0 <= i < |tnodes| :: tnodes[i].Valid()
    reads tnodes, set n | n in tnodes :: n.ces
    ensures |css| == |tnodes|
  {
    if tnodes == [] then [] else [tnodes[0].Classes()] + ClassLists(tnodes[1..])
  }

  ghost predicate Sources(tnodes: seq<Node>, out: Node)
    reads tnodes
  {
    forall i | 0 <= i < |tnodes| :: tnodes[i].Valid() && out.Apart(tnodes[i])
  }

  /** The loop nest: one bitmap against every combination of the classes of the tables, the last
      table innermost, into consecutive cells. */
  method Fill(p: Bitmap, tnodes: seq<Node>, out: Node, bmp: array<Word>, ghost done: seq<RuleSet>, indx: nat)
    returns (ok: bool, next: nat)
    requires tnodes != [] && Sources(tnodes, out) && bmp.Length == SIZE
    requires out.Encodes(done) && indx == |done|
    requires indx + |Fold([Rules(p)], ClassLists(tnodes))| <= out.cell.Length
    modifies out`nCES, out.ces, out.cell, bmp
    ensures out.Valid()
    ensures ok <==> |Uniq(done + Fold([Rules(p)], ClassLists(tnodes)))| <= MAX_FILTERS
    ensures ok ==> out.Encodes(done + Fold([Rules(p)], ClassLists(tnodes)))
    ensures ok ==> next == indx + |Fold([Rules(p)], ClassLists(tnodes))|
    decreases |tnodes|, 1
  {
    hide Rules, Uniq, CrossRow, Cross, Fold, ClassLists, Node.Encodes;
    ghost var bs, css := tnodes[0].Classes(), ClassLists(tnodes[1..]);
    FoldHead(Rules(p), tnodes);
    if |tnodes| == 1 {
      ok := IntersectRow(p, tnodes[0], out, bmp, done, indx);
      ClassCount(tnodes[0], Rules(p));
      return ok, indx + tnodes[0].nCES;
    }
    next := indx;
    var j := 0;
    FoldStart(Rules(p), bs, css, done);
    EncodesValid(out, done);
    assert Before(Rules(p), bs, css, done, 0) == done;
    while j < tnodes[0].nCES
      invariant 0 <= j <= tnodes[0].nCES && Sources(tnodes, out) && out.Valid()
      invariant tnodes[0].Classes() == bs && ClassLists(tnodes[1..]) == css
      invariant next == |Before(Rules(p), bs, css, done, j)| && out.Encodes(Before(Rules(p), bs, css, done, j))
    {
      ok, next := FillOne(p, tnodes, out, bmp, done, j, next);
      if !ok {
        return;
      }
      j := j + 1;
    }
    assert bs[..j] == bs;
    UniqFits(out, done + Fold(CrossRow(Rules(p), bs), css));
    ok := true;
  }

  /** The rows up to class j of the outermost table. */
  ghost function Before(p: RuleSet, bs: seq<RuleSet>, css: seq<seq<RuleSet>>, done: seq<RuleSet>, j: nat): seq<RuleSet>
    requires j <= |bs|
  {
    done + Fold(CrossRow(p, bs[..j]), css)
  }

  /** One turn of an outer loop: the bitmap with class j, against all that is left. */
  method FillOne(p: Bitmap, tnodes: seq<Node>, out: Node, bmp: array<Word>, ghost done: seq<RuleSet>, j: nat, indx: nat)
    returns (ok: bool, next: nat)
    requires |tnodes| > 1 && Sources(tnodes, out) && bmp.Length == SIZE && out.Valid() && j < tnodes[0].nCES
    requires
      var bs, css := tnodes[0].Classes(), ClassLists(tnodes[1..]);
      out.Encodes(Before(Rules(p), bs, css, done, j)) && indx == |Before(Rules(p), bs, css, done, j)| &&
      |done + Fold(CrossRow(Rules(p), bs), css)| <= out.cell.Length
    modifies out`nCES, out.ces, out.cell, bmp
    ensures out.Valid()
    ensures
      var bs, css := tnodes[0].Classes(), ClassLists(tnodes[1..]);
      ok ==> out.Encodes(Before(Rules(p), bs, css, done, j + 1)) && next == |Before(Rules(p), bs, css, done, j + 1)|
    ensures !ok ==>
      |Uniq(done + Fold(CrossRow(Rules(p), old(tnodes[0].Classes())), old(ClassLists(tnodes[1..]))))| > MAX_FILTERS
    decreases |tnodes|, 0
  {
    hide Rules, Uniq, CrossRow, Cross, Fold, ClassLists, Node.Encodes;
    ghost var bs, css := tnodes[0].Classes(), ClassLists(tnodes[1..]);
    FoldStep(Rules(p), bs, css, j);
    FoldFront(Rules(p), bs, css, j + 1);
    var q := new Word[SIZE](_ => ZERO);
    Intersect(p, tnodes[0].ces[j], q);
    ghost var rows, row := Before(Rules(p), bs, css, done, j), Fold([Rules(p) * bs[j]], css);
    assert rows + row == Before(Rules(p), bs, css, done, j + 1);
    ok, next := Fill(q[..], tnodes[1..], out, bmp, rows, indx);
    if !ok {
      UniqMonotone(rows + row, done + Fold(CrossRow(Rules(p), bs), css));
    }
  }

  lemma EncodesValid(node: Node, rows: seq<RuleSet>)
    requires node.Encodes(rows)
    ensures node.Valid()
  {
  }

  lemma ClassCount(node: Node, p: RuleSet)
    requires node.Valid()
    ensures |CrossRow(p, node.Classes())| == node.nCES
  {
  }

  lemma FoldHead(p: RuleSet, tnodes: seq<Node>)
    requires tnodes != [] && forall i | 0 <= i < |tnodes| :: tnodes[i].Valid()
    ensures Fold([p], ClassLists(tnodes)) == Fold(CrossRow(p, tnodes[0].Classes()), ClassLists(tnodes[1..]))
    ensures |tnodes| == 1 ==> Fold([p], ClassLists(tnodes)) == CrossRow(p, tnodes[0].Classes())
  {
    CrossOne(p, tnodes[0].Classes());
    assert ClassLists(tnodes)[1..] == ClassLists(tnodes[1..]);
  }

  lemma FoldStart(p: RuleSet, bs: seq<RuleSet>, css: seq<seq<RuleSet>>, done: seq<RuleSet>)
    ensures done + Fold(CrossRow(p, bs[..0]), css) == done
  {
    FoldNone(css);
    assert CrossRow(p, bs[..0]) == [];
  }

  lemma FoldStep(p: RuleSet, bs: seq<RuleSet>, css: seq<seq<RuleSet>>, j: nat)
    requires j < |bs|
    ensures Fold(CrossRow(p, bs[..j + 1]), css) == Fold(CrossRow(p, bs[..j]), css) + Fold([p * bs[j]], css)
  {
    CrossRowStep(p, bs, j);
    FoldConcat(CrossRow(p, bs[..j]), [p * bs[j]], css);
  }

  lemma FoldFront(p: RuleSet, bs: seq<RuleSet>, css: seq<seq<RuleSet>>, j: nat)
    requires j <= |bs|
    ensures Fold(CrossRow(p, bs[..j]), css) <= Fold(CrossRow(p, bs), css)
  {
    assert CrossRow(p, bs) == CrossRow(p, bs[..j]) + CrossRow(p, bs)[j..];
    FoldConcat(CrossRow(p, bs[..j]), CrossRow(p, bs)[j..], css);
  }

  /** Joins tables: the classes of the first against every combination of the others'. The code does
      not look whether the cells fit; CellError stands for writing past them. */
  method Product(tnode1: Node, tnodes: seq<Node>, out: Node) returns (status: Status)
    requires tnode1.Valid() && out.Apart(tnode1) && tnodes != [] && Sources(tnodes, out) && out.Valid()
    requires out.cell.Length == ACL_MAX_CELL
    modifies out, out.ces, out.cell
    ensures out.Valid()
    ensures status == TableStatus(Fold(tnode1.Classes(), ClassLists(tnodes)))
    ensures status == Done ==> out.Encodes(Fold(tnode1.Classes(), ClassLists(tnodes)))
  {
    hide Rules, Uniq, CrossRow, Cross, Fold, ClassLists, Node.Encodes;
    ghost var aa, css := tnode1.Classes(), ClassLists(tnodes);
    var cellNum := CellCount(tnode1, tnodes);
    if cellNum > ACL_MAX_CELL {
      return CellError;
    }
    out.ncells := cellNum;
    out.InitListEqs();
    var bmp := new Word[SIZE](_ => ZERO);
    var i, indx := 0, 0;
    FoldNone(css);
    assert aa[..0] == [];
    while i < tnode1.nCES
      invariant 0 <= i <= tnode1.nCES && tnode1.Valid() && Sources(tnodes, out) && out.Valid()
      invariant tnode1.Classes() == aa && ClassLists(tnodes) == css
      invariant indx == |Fold(aa[..i], css)| && out.Encodes(Fold(aa[..i], css))
    {
      ghost var rows := Fold(aa[..i], css);
      FoldNext(aa, css, i);
      var ok, next := Fill(tnode1.ces[i], tnodes, out, bmp, rows, indx);
      if !ok {
        UniqMonotone(Fold(aa[..i + 1], css), Fold(aa, css));
        return ListOverrun;
      }
      i, indx := i + 1, next;
    }
    assert aa[..i] == aa;
    UniqFits(out, Fold(aa, css));
    return Done;
  }

  lemma FoldNext(aa: seq<RuleSet>, css: seq<seq<RuleSet>>, i: nat)
    requires i < |aa|
    ensures Fold(aa[..i + 1], css) == Fold(aa[..i], css) + Fold([aa[i]], css)
    ensures Fold(aa[..i + 1], css) <= Fold(aa, css)
  {
    assert aa[..i + 1] == aa[..i] + [aa[i]] && aa == aa[..i + 1] + aa[i + 1..];
    FoldConcat(aa[..i], [aa[i]], css);
    FoldConcat(aa[..i + 1], aa[i + 1..], css);
  }

  /** The product of the class counts. */
  method CellCount(tnode1: Node, tnodes: seq<Node>) returns (cellNum: nat)
    requires tnode1.Valid() && forall i | 0 <= i < |tnodes| :: tnodes[i].Valid()
    ensures cellNum == |Fold(tnode1.Classes(), ClassLists(tnodes))|
  {
    hide Cross, Fold, ClassLists;
    cellNum := tnode1.nCES;
    ghost var rows := tnode1.Classes();
    var i := 0;
    assert tnodes[0..] == tnodes;
    while i < |tnodes|
      invariant 0 <= i <= |tnodes| && cellNum == |rows|
      invariant Fold(rows, ClassLists(tnodes[i..])) == Fold(tnode1.Classes(), ClassLists(tnodes))
    {
      CrossLength(rows, tnodes[i].Classes());
      FoldTail(rows, tnodes, i);
      rows := Cross(rows, tnodes[i].Classes());
      cellNum := cellNum * tnodes[i].nCES;
      i := i + 1;
    }
    assert tnodes[i..] == [];
    FoldEnd(rows);
  }

  lemma FoldTail(rows: seq<RuleSet>, tnodes: seq<Node>, i: nat)
    requires i < |tnodes| && forall k | 0 <= k < |tnodes| :: tnodes[k].Valid()
    ensures Fold(rows, ClassLists(tnodes[i..])) == Fold(Cross(rows, tnodes[i].Classes()), ClassLists(tnodes[i + 1..]))
  {
    assert tnodes[i..][0] == tnodes[i] && tnodes[i..][1..] == tnodes[i + 1..];
    assert ClassLists(tnodes[i..])[1..] == ClassLists(tnodes[i + 1..]);
  }

  lemma FoldEnd(rows: seq<RuleSet>)
    ensures Fold(rows, ClassLists([])) == rows
  {
  }

  // Addressing a joined table

  /** The cell for four class numbers, the last three tables having b, c and d classes. */
  function Index4(i: nat, j: nat, k: nat, l: nat, b: nat, c: nat, d: nat): nat {
    i * (b * c * d) + j * (c * d) + k * d + l
  }

  function Index3(i: nat, j: nat, k: nat, b: nat, c: nat): nat {
    i * (b * c) + j * c + k
  }

  /** Four class numbers address the cell of the four sets' intersection, inside the table. */
  lemma FourAt(aa: seq<RuleSet>, bs: seq<RuleSet>, cs: seq<RuleSet>, ds: seq<RuleSet>, i: nat, j: nat, k: nat, l: nat)
    requires i < |aa| && j < |bs| && k < |cs| && l < |ds|
    ensures
      var at := Index4(i, j, k, l, |bs|, |cs|, |ds|);
      at < |Fold(aa, [bs, cs, ds])| && Fold(aa, [bs, cs, ds])[at] == aa[i] * bs[j] * cs[k] * ds[l]
  {
    hide Cross, Fold, Index4;
    var ab := Cross(aa, bs);
    var abc := Cross(ab, cs);
    Fold3(aa, bs, cs, ds);
    CrossAt(aa, bs, i, j);
    CrossAt(ab, cs, i * |bs| + j, k);
    CrossAt(abc, ds, (i * |bs| + j) * |cs| + k, l);
    Radix(i, j, k, l, |bs|, |cs|, |ds|);
  }

  lemma Fold3(aa: seq<RuleSet>, bs: seq<RuleSet>, cs: seq<RuleSet>, ds: seq<RuleSet>)
    ensures Fold(aa, [bs, cs, ds]) == Cross(Cross(Cross(aa, bs), cs), ds)
  {
    hide Cross;
    assert [bs, cs, ds][1..] == [cs, ds];
    Fold2(Cross(aa, bs), cs, ds);
  }

  lemma Fold2(aa: seq<RuleSet>, bs: seq<RuleSet>, cs: seq<RuleSet>)
    ensures Fold(aa, [bs, cs]) == Cross(Cross(aa, bs), cs)
  {
    hide Cross;
    assert [bs, cs][1..] == [cs] && [cs][1..] == [];
    var all := Cross(Cross(aa, bs), cs);
    assert Fold(Cross(aa, bs), [cs]) == Fold(all, []) == all;
  }

  lemma ThreeAt(aa: seq<RuleSet>, bs: seq<RuleSet>, cs: seq<RuleSet>, i: nat, j: nat, k: nat)
    requires i < |aa| && j < |bs| && k < |cs|
    ensures
      var at := Index3(i, j, k, |bs|, |cs|);
      at < |Fold(aa, [bs, cs])| && Fold(aa, [bs, cs])[at] == aa[i] * bs[j] * cs[k]
  {
    hide Cross, Fold, Index3;
    Fold2(aa, bs, cs);
    CrossAt(aa, bs, i, j);
    CrossAt(Cross(aa, bs), cs, i * |bs| + j, k);
    Radix3(i, j, k, |bs|, |cs|);
  }

  lemma Radix3(i: nat, j: nat, k: nat, b: nat, c: nat)
    ensures Index3(i, j, k, b, c) == (i * b + j) * c + k
  {
    assert (i * b + j) * c == i * b * c + j * c && i * b * c == i * (b * c);
  }

  lemma Radix(i: nat, j: nat, k: nat, l: nat, b: nat, c: nat, d: nat)
    ensures Index4(i, j, k, l, b, c, d) == ((i * b + j) * c + k) * d + l
  {
    Radix3(i, j, 0, b, c * d);
    assert (i * b + j) * (c * d) == (i * b + j) * c * d;
    assert ((i * b + j) * c + k) * d == (i * b + j) * c * d + k * d;
    assert b * c * d == b * (c * d);
  }
}
