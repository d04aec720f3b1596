/** The doubly linked lists under the reassembly queues and the hash buckets: a head with the
    first cell, and in each cell the next one and where the pointer to this one is kept. Each
    list macro is proved to do to the pointers what its sequence operation does to the list. */
module BsdList {

  /** Where the pointer to a cell is kept: in a head, or in another cell's next field. */
  datatype Link<!T> = Nowhere | First(head: Head<T>) | Next(cell: Cell<T>)

  class Head<!T> {
    var first: Cell?<T>

    constructor ()
      ensures IsList(this, [])
    {
      first := null;
    }
  }

  class Cell<!T> {
    var value: T
    var next: Cell?<T>
    var prev: Link<T>

    constructor (value: T)
      ensures this.value == value
    {
      this.value, next, prev := value, null, Nowhere;
    }
  }

  function At<T>(s: seq<Cell<T>>, i: nat): Cell?<T> {
    if i < |s| then s[i] else null
  }

  ghost predicate Linked<T>(h: Head<T>, s: seq<Cell<T>>, i: nat)
    requires i < |s|
    reads s[i]
  {
    s[i].next == At(s, i + 1) && s[i].prev == (if i == 0 then First(h) else Next(s[i - 1]))
  }

  ghost predicate Distinct<T>(s: seq<Cell<T>>) {
    forall i, j | 0 <= i < j < |s| :: s[i] != s[j]
  }

  /** The cells reached from a head, in order, are exactly s, and every link back is right. */
  ghost predicate IsList<T>(h: Head<T>, s: seq<Cell<T>>)
    reads h, s
  {
    h.first == At(s, 0) && Distinct(s) && forall i | 0 <= i < |s| :: Linked(h, s, i)
  }

  /** A head has one list: its pointers determine the cells. */
  lemma {:induction false} ListUnique<T>(h: Head<T>, s: seq<Cell<T>>, r: seq<Cell<T>>, k: nat)
    requires IsList(h, s) && IsList(h, r) && k <= |s| && k <= |r| && s[..k] == r[..k]
    ensures s == r
    decreases |s| - k
  {
    hide Distinct;
    if k > 0 {
      assert s[k - 1] == s[..k][k - 1] && r[k - 1] == r[..k][k - 1];
      assert Linked(h, s, k - 1) && Linked(h, r, k - 1);
    }
    assert At(s, k) == At(r, k);
    if k < |s| {
      assert s[..k + 1] == s[..k] + [s[k]] && r[..k + 1] == r[..k] + [r[k]];
      ListUnique(h, s, r, k + 1);
    }
  }

  method InsertHead<T>(h: Head<T>, elm: Cell<T>, ghost s: seq<Cell<T>>)
    requires IsList(h, s) && elm !in s
    modifies h, elm`next, elm`prev, s`prev
    ensures IsList(h, [elm] + s)
  {
    elm.next := h.first;
    if h.first != null {
      h.first.prev := Next(elm);
    }
    h.first := elm;
    elm.prev := First(h);
    forall i | 0 <= i < |s| + 1
      ensures Linked(h, [elm] + s, i)
    {
      assert i > 0 ==> old(Linked(h, s, i - 1));
    }
  }

  method InsertAfter<T>(listelm: Cell<T>, elm: Cell<T>, ghost h: Head<T>, ghost s: seq<Cell<T>>, ghost k: nat)
    requires IsList(h, s) && elm !in s && k < |s| && s[k] == listelm
    modifies elm`next, elm`prev, s`next, s`prev
    ensures IsList(h, s[..k + 1] + [elm] + s[k + 1..])
  {
    assert Linked(h, s, k);
    elm.next := listelm.next;
    if listelm.next != null {
      listelm.next.prev := Next(elm);
    }
    listelm.next := elm;
    elm.prev := Next(listelm);
    ghost var r := s[..k + 1] + [elm] + s[k + 1..];
    forall i | 0 <= i < |r|
      ensures Linked(h, r, i)
    {
      assert i <= k ==> old(Linked(h, s, i));
      assert i > k + 1 ==> old(Linked(h, s, i - 1));
    }
  }

  /** Stores a pointer where a link says the pointer to a cell is kept. */
  method Store<T>(at: Link<T>, cell: Cell?<T>)
    requires !at.Nowhere?
    modifies if at.First? then {at.head} else {}
    modifies (if at.Next? then {at.cell} else {})`next
    ensures at.First? ==> at.head.first == cell
    ensures at.Next? ==> at.cell.next == cell
  {
    match at
    case First(head) => head.first := cell;
    case Next(c) => c.next := cell;
  }

  method InsertBefore<T>(listelm: Cell<T>, elm: Cell<T>, ghost h: Head<T>, ghost s: seq<Cell<T>>, ghost k: nat)
    requires IsList(h, s) && elm !in s && k < |s| && s[k] == listelm
    modifies h, elm`next, elm`prev, s`next, s`prev
    ensures IsList(h, s[..k] + [elm] + s[k..])
  {
    assert Linked(h, s, k) && (k > 0 ==> Linked(h, s, k - 1));
    elm.prev := listelm.prev;
    elm.next := listelm;
    Store(listelm.prev, elm);
    listelm.prev := Next(elm);
    ghost var r := s[..k] + [elm] + s[k..];
    forall i | 0 <= i < |r|
      ensures Linked(h, r, i)
    {
      assert i < k ==> old(Linked(h, s, i));
      assert i > k ==> old(Linked(h, s, i - 1));
    }
  }

  /** The cell is unlinked with no walk from the head, and its own links are spoilt. */
  method Remove<T>(elm: Cell<T>, ghost h: Head<T>, ghost s: seq<Cell<T>>, ghost k: nat)
    requires IsList(h, s) && k < |s| && s[k] == elm
    modifies h, s`next, s`prev
    ensures IsList(h, s[..k] + s[k + 1..]) && elm !in s[..k] + s[k + 1..]
    ensures elm.next == null && elm.prev == Nowhere
  {
    assert Linked(h, s, k) && (k > 0 ==> Linked(h, s, k - 1)) && (k + 1 < |s| ==> Linked(h, s, k + 1));
    if elm.next != null {
      elm.next.prev := elm.prev;
    }
    Store(elm.prev, elm.next);
    elm.next, elm.prev := null, Nowhere;
    ghost var r := s[..k] + s[k + 1..];
    forall i | 0 <= i < |r|
      ensures Linked(h, r, i)
    {
      assert i < k ==> old(Linked(h, s, i));
      assert i >= k ==> old(Linked(h, s, i + 1));
    }
  }

  method Swap<T>(head1: Head<T>, head2: Head<T>, ghost s1: seq<Cell<T>>, ghost s2: seq<Cell<T>>)
    requires head1 != head2 && IsList(head1, s1) && IsList(head2, s2)
    requires forall c | c in s1 :: c !in s2
    modifies head1, head2, s1`prev, s2`prev
    ensures IsList(head1, s2) && IsList(head2, s1)
  {
    head1.first, head2.first := head2.first, head1.first;
    if head1.first != null {
      head1.first.prev := First(head1);
    }
    if head2.first != null {
      head2.first.prev := First(head2);
    }
    forall i | 0 <= i < |s2|
      ensures Linked(head1, s2, i)
    {
      assert old(Linked(head2, s2, i)) && s2[i] in s2 && (s1 != [] ==> s1[0] in s1) && (i > 0 ==> s2[0] != s2[i]);
    }
    forall i | 0 <= i < |s1|
      ensures Linked(head2, s1, i)
    {
      assert old(Linked(head1, s1, i)) && s1[i] in s1 && (s2 != [] ==> s2[0] in s2) && (i > 0 ==> s1[0] != s1[i]);
    }
  }

  /** Walking a list meets its cells once each, in order, and ends. */
  method Walk<T>(h: Head<T>, ghost s: seq<Cell<T>>) returns (values: seq<T>)
    requires IsList(h, s)
    ensures |values| == |s| && forall i | 0 <= i < |s| :: values[i] == s[i].value
  {
    values := [];
    var q := h.first;
    ghost var k := 0;
    while q != null
      invariant k == |values| <= |s| && q == At(s, k)
      invariant forall i | 0 <= i < k :: values[i] == s[i].value
      decreases |s| - k
    {
      assert Linked(h, s, k);
      values := values + [q.value];
      q := q.next;
      k := k + 1;
    }
  }

  /** Walking to the end and inserting there appends, whether or not the list was empty. */
  method Append<T>(h: Head<T>, elm: Cell<T>, ghost s: seq<Cell<T>>)
    requires IsList(h, s) && elm !in s
    modifies h, elm`next, elm`prev, s`next, s`prev
    ensures IsList(h, s + [elm])
  {
    var p: Cell?<T> := null;
    var q := h.first;
    ghost var k := 0;
    while q != null
      invariant k <= |s| && q == At(s, k) && p == (if k == 0 then null else s[k - 1])
      decreases |s| - k
    {
      assert Linked(h, s, k);
      p := q;
      q := q.next;
      k := k + 1;
    }
    if p == null {
      InsertHead(h, elm, s);
      assert s + [elm] == [elm] + s;
    } else {
      InsertAfter(p, elm, h, s, k - 1);
      assert s + [elm] == s[..k - 1 + 1] + [elm] + s[k - 1 + 1..];
    }
  }
}
