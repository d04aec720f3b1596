/** The session table: buckets whose first cell is embedded and whose other cells are chained from
    a pool. Sessions are found by five-tuple from either end, made when missing, and purged. */
module SessionTable {
  import opened Filters
  import opened Tuples

  const SSN_TOTAL_NUM: int := 300000

  /** What a cell keeps of its session besides the key: where its numbers started, how long it has
      left and in all, and whether packets count. */
  datatype Record = Record(seqNum: nat, ackSeq: nat, ttl: int, age: int, good: bool)

  class Ssn {
    var key: Tuple
    var next: Ssn?
    /** Set while an embedded cell has no session; set for good in a chained one. */
    var empty: bool
    var good: bool
    var index: nat
    var ttl: int
    var age: int
    var seqNum: nat
    var ackSeq: nat
    /** The bucket that the cell was made for. */
    ghost const home: nat

    constructor (ghost home: nat)
      ensures this.home == home && next == null && empty && !good
    {
      key, next, empty, good, index := Tuple(0, 0, 0, 0, 0), null, true, false, 0;
      ttl, age, seqNum, ackSeq := 0, 0, 0, 0;
      this.home := home;
    }

    function Life(): Record
      reads this`seqNum, this`ackSeq, this`ttl, this`age, this`good
    {
      Record(seqNum, ackSeq, ttl, age, good)
    }
  }

  function At(s: seq<Ssn>, k: nat): Ssn? {
    if k < |s| then s[k] else null
  }

  /** Cell k of a chain has a session: every chained cell, and the embedded one when not empty. */
  predicate Live(s: seq<Ssn>, k: nat)
    requires k < |s|
    reads s`empty
  {
    k > 0 || !s[k].empty
  }

  ghost predicate Linked(s: seq<Ssn>, k: nat, i: nat)
    requires k < |s|
    reads s`next, s`empty, s`index
  {
    s[k].next == At(s, k + 1) && s[k].home == i && (Live(s, k) ==> s[k].index == i)
  }

  ghost predicate Distinct(s: seq<Ssn>) {
    forall j, k | 0 <= j < k < |s| :: s[j] != s[k]
  }

  /** The chain of bucket i: its cells one after another, all different, so the walk ends. */
  ghost predicate Chain(s: seq<Ssn>, head: Ssn, i: nat)
    reads s`next, s`empty, s`index
  {
    |s| > 0 && s[0] == head && Distinct(s) && forall k | 0 <= k < |s| :: Linked(s, k, i)
  }

  /** What a chain says of its sessions: for each cell whether it has one, and its key. */
  datatype Flow = Flow(live: bool, key: Tuple)

  ghost function Flows(s: seq<Ssn>): (r: seq<Flow>)
    reads s`key, s`empty
    ensures |r| == |s| && forall k | 0 <= k < |s| :: r[k] == Flow(Live(s, k), s[k].key)
  {
    if s == [] then []
    else
      var n := |s| - 1;
      assert forall c | c in s[..n] :: c in s;
      Flows(s[..n]) + [Flow(Live(s, n), s[n].key)]
  }

  /** No two sessions of a bucket are one flow, and all of them belong in it. */
  ghost predicate Keys(r: seq<Flow>, hash: Hash, n: nat, i: nat)
    requires n > 0
  {
    (forall k | 0 <= k < |r| && r[k].live :: IndexOf(hash, n, r[k].key) == i) &&
    forall j, k | 0 <= j < k < |r| && r[j].live && r[k].live :: !Matches(r[j].key, r[k].key)
  }

  lemma KeysShorter(r: seq<Flow>, k: nat, hash: Hash, n: nat, i: nat)
    requires n > 0 && k < |r| && Keys(r, hash, n, i)
    ensures Keys(r[..k] + r[k + 1..], hash, n, i)
  {
    hide Matches, IndexOf;
    var e := r[..k] + r[k + 1..];
    assert forall m | 0 <= m < |e| :: e[m] == r[if m < k then m else m + 1];
  }

  lemma ChainSays(s: seq<Ssn>, head: Ssn, i: nat, k: nat)
    requires Chain(s, head, i) && k < |s|
    ensures s[0] == head && s[k].home == i && s[k].next == At(s, k + 1) && (Live(s, k) ==> s[k].index == i)
    ensures k > 0 ==> s[k] != head
  {
    assert Linked(s, k, i);
  }

  /** A cell of one bucket is in no other bucket's chain. */
  lemma OthersClear(chains: seq<seq<Ssn>>, heads: seq<Ssn>, i: nat, c: Ssn)
    requires i < |chains| == |heads| && c.home == i
    requires forall b | 0 <= b < |chains| :: Chain(chains[b], heads[b], b)
    ensures forall b | 0 <= b < |chains| && b != i :: c !in chains[b]
  {
    forall b, k | 0 <= b < |chains| && b != i && 0 <= k < |chains[b]|
      ensures chains[b][k] != c
    {
      assert Chain(chains[b], heads[b], b) && Linked(chains[b], k, b);
    }
  }

  /** The cells of a chain that have a session. */
  ghost function LiveCells(s: seq<Ssn>): set<Ssn>
    requires s != []
    reads s`empty
  {
    (set c | c in s[1..]) + if s[0].empty then {} else {s[0]}
  }

  ghost predicate Vacant(s: seq<Ssn>)
    reads s`empty
  {
    s != [] && LiveCells(s) == {}
  }

  method EmptyHeads(n: nat) returns (cells: seq<Ssn>)
    ensures |cells| == n && fresh(cells)
    ensures forall i | 0 <= i < n :: cells[i].home == i && cells[i].empty && cells[i].next == null
  {
    cells := [];
    for i := 0 to n
      invariant |cells| == i && fresh(cells)
      invariant forall k | 0 <= k < i :: cells[k].home == k && cells[k].empty && cells[k].next == null
    {
      var c := new Ssn(i);
      cells := cells + [c];
    }
  }

  class SessionTable {
    const hash: Hash
    const heads: seq<Ssn>
    var activeNum: int
    ghost var chains: seq<seq<Ssn>>
    ghost var repr: set<Ssn>

    ghost predicate Valid()
      reads this`chains, this`repr, repr`key, repr`next, repr`empty, repr`index
    {
      0 < |heads| == |chains| &&
      (forall i, k | 0 <= i < |chains| && 0 <= k < |chains[i]| :: chains[i][k] in repr) &&
      forall i | 0 <= i < |chains| :: BucketOk(i)
    }

    /** A table of n embedded cells, every one empty. */
    constructor (hash: Hash, n: nat)
      requires n > 0
      ensures Valid() && |heads| == n && activeNum == 0 && this.hash == hash
      ensures forall i | 0 <= i < n :: Sessions(i) == {}
    {
      this.hash := hash;
      var cells := EmptyHeads(n);
      heads := cells;
      chains := seq(n, i requires 0 <= i < n => [cells[i]]);
      repr := set c | c in cells;
      activeNum := 0;
      new;
      forall i | 0 <= i < n
        ensures BucketOk(i) && Vacant(chains[i])
      {
        assert chains[i] == [cells[i]];
      }
    }

    ghost predicate BucketOk(i: nat)
      requires i < |heads| == |chains|
      requires forall k | 0 <= k < |chains[i]| :: chains[i][k] in repr
      reads this`chains, this`repr, repr`key, repr`next, repr`empty, repr`index
    {
      Chain(chains[i], heads[i], i) && Keys(Flows(chains[i]), hash, |heads|, i)
    }

    ghost function Sessions(i: nat): set<Ssn>
      requires Valid() && i < |heads|
      reads this`chains, this`repr, repr`key, repr`next, repr`empty, repr`index
    {
      ChainsOk(i);
      LiveCells(chains[i])
    }

    /** Walks a bucket for the session of a tuple, from either end; null when it has none. */
    method SsnLookupByTuple(i: nat, t: Tuple) returns (ssn: Ssn?)
      requires Valid() && i < |heads|
      ensures ssn == null ==> forall c | c in Sessions(i) :: !Matches(c.key, t)
      ensures ssn != null ==> ssn in Sessions(i) && Matches(ssn.key, t)
      ensures ssn != null ==> forall c | c in Sessions(i) && Matches(c.key, t) :: c == ssn
    {
      hide Matches;
      ghost var s := chains[i];
      assert BucketOk(i) && Linked(s, 0, i);
      var q := heads[i];
      if !q.empty && Matches(q.key, t) {
        OnlyMatch(s, t, 0, hash, |heads|, i);
        return q;
      }
      ssn := q.next;
      ghost var k := 1;
      while ssn != null
        invariant 1 <= k <= |s| && ssn == At(s, k)
        invariant forall j | 0 <= j < k && Live(s, j) :: !Matches(s[j].key, t)
        decreases |s| - k
      {
        assert Linked(s, k, i);
        if Matches(ssn.key, t) {
          OnlyMatch(s, t, k, hash, |heads|, i);
          return;
        }
        ssn := ssn.next;
        k := k + 1;
      }
    }

    /** The cell of a bucket that leads to a chained one. */
    method FindBefore(ssn: Ssn, ghost k: nat) returns (q: Ssn?)
      requires Valid() && ssn.index < |heads| && 0 < k < |chains[ssn.index]| && chains[ssn.index][k] == ssn
      ensures q == chains[ssn.index][k - 1]
    {
      hide Keys;
      ghost var i, s := ssn.index, chains[ssn.index];
      assert BucketOk(i);
      q := heads[ssn.index];
      ghost var j := 0;
      while q != null && q.next != ssn
        invariant 0 <= j < k && q == s[j]
        decreases k - j
      {
        assert Linked(s, j, i);
        q := q.next;
        j := j + 1;
      }
      assert Linked(s, j, i);
    }

    lemma ChainsOk(b: nat)
      requires Valid() && b < |heads|
      ensures Chain(chains[b], heads[b], b) && Keys(Flows(chains[b]), hash, |heads|, b)
      ensures forall c | 0 <= c < |heads| :: Chain(chains[c], heads[c], c)
    {
      assert BucketOk(b);
      forall c | 0 <= c < |heads|
        ensures Chain(chains[c], heads[c], c)
      {
        assert BucketOk(c);
      }
    }

    /** Takes a chained cell out of its bucket, and leaves every other bucket alone. */
    method Unlink(ssn: Ssn, ghost k: nat)
      requires Valid() && ssn.index < |heads| && 0 < k < |chains[ssn.index]| && chains[ssn.index][k] == ssn
      modifies this`chains, repr`next
      ensures Valid()
      ensures chains == old(chains[ssn.index := chains[ssn.index][..k] + chains[ssn.index][k + 1..]])
    {
      hide Keys, Flows, Chain, Linked, Distinct;
      ghost var i, s := ssn.index, chains[ssn.index];
      ChainsOk(i);
      ChainSays(s, heads[i], i, k - 1);
      OthersClear(chains, heads, i, s[k - 1]);
      KeysShorter(Flows(s), k, hash, |heads|, i);
      FlowsShorter(s, k);
      var q := FindBefore(ssn, k);
      if q != null {
        LeadPast(q, ssn, heads[i], s, i, k);
      }
      chains := chains[i := s[..k] + s[k + 1..]];
      forall b | 0 <= b < |chains|
        ensures BucketOk(b)
      {
        assert old(BucketOk(b));
      }
    }

    /** Where a session stands in its chain. */
    ghost predicate Stands(ssn: Ssn, k: nat)
      requires Valid()
      reads this`chains, this`repr, repr`key, repr`next, repr`empty, repr`index
    {
      ssn in repr && ssn.index < |heads| && k < |chains[ssn.index]| && chains[ssn.index][k] == ssn &&
      Live(chains[ssn.index], k)
    }

    /** The session goes: its chained cell is unlinked, or its embedded cell marked empty. Every other
        session of every bucket stays, and the count goes down by one. */
    method SsnPurgeSsn(ssn: Ssn, ghost k: nat)
      requires Valid() && Stands(ssn, k)
      modifies this`chains, this`activeNum, repr`next, ssn`empty, ssn`good
      ensures Valid() && activeNum == old(activeNum) - 1
      ensures Sessions(ssn.index) == old(Sessions(ssn.index)) - {ssn}
      ensures forall i | 0 <= i < |heads| && i != ssn.index :: Sessions(i) == old(Sessions(i))
    {
      hide Keys, Flows;
      ghost var i, s := ssn.index, chains[ssn.index];
      ChainsOk(i);
      ChainSays(s, heads[i], i, k);
      if ssn == heads[ssn.index] {
        OthersClear(chains, heads, i, ssn);
        KeysEmptied(Flows(s), hash, |heads|, i);
        MarkEmpty(ssn, s, i);
        ssn.good := false;
        activeNum := activeNum - 1;
        forall b | 0 <= b < |chains|
          ensures BucketOk(b)
        {
          assert old(BucketOk(b));
        }
        return;
      }
      LiveShorter(s, k);
      Unlink(ssn, k);
      activeNum := activeNum - 1;
    }

    /** The embedded cell of a bucket takes a session. */
    method UseHead(head: Ssn, i: nat, t: Tuple)
      requires Valid() && i < |heads| && head == heads[i] && head.empty && IndexOf(hash, |heads|, t) == i
      requires forall c | c in Sessions(i) :: !Matches(c.key, t)
      modifies head`empty, head`key, head`index
      ensures Valid() && !head.empty && head.key == t && head.index == i
      ensures Sessions(i) == old(Sessions(i)) + {head} && head !in old(Sessions(i))
      ensures forall j | 0 <= j < |heads| && j != i :: Sessions(j) == old(Sessions(j))
    {
      hide Keys, Flows;
      ghost var s := chains[i];
      ChainsOk(i);
      ChainSays(s, heads[i], i, 0);
      OthersClear(chains, heads, i, heads[i]);
      NoneMatches(s, t);
      KeysFilled(Flows(s), t, hash, |heads|, i);
      FillHead(head, s, i, t);
      forall b | 0 <= b < |chains|
        ensures BucketOk(b)
      {
        assert old(BucketOk(b));
      }
    }

    /** A cell from the pool takes a session, right after the embedded one. */
    method UseCell(head: Ssn, i: nat, t: Tuple) returns (ssn: Ssn)
      requires Valid() && i < |heads| && head == heads[i] && !head.empty && IndexOf(hash, |heads|, t) == i
      requires forall c | c in Sessions(i) :: !Matches(c.key, t)
      modifies this`chains, this`repr, head`next
      ensures Valid() && fresh(ssn) && repr == old(repr) + {ssn} && ssn.key == t && ssn.index == i
      ensures old(chains[i]) != [] && chains == old(chains)[i := [head, ssn] + old(chains[i])[1..]]
    {
      hide Keys, Flows, Chain, LiveCells, Matches, IndexOf;
      ghost var s := chains[i];
      ChainsOk(i);
      ChainSays(s, heads[i], i, 0);
      OthersClear(chains, heads, i, heads[i]);
      NoneMatches(s, t);
      KeysInserted(Flows(s), t, hash, |heads|, i);
      ssn := new Ssn(i);
      InsertSecond(head, ssn, s, i, t);
      repr := repr + {ssn};
      chains := chains[i := [s[0], ssn] + s[1..]];
      forall b | 0 <= b < |chains|
        ensures BucketOk(b)
      {
        assert old(BucketOk(b));
      }
    }

    /** Undoes a session whose timer could not be started; the count is left as it is. */
    method SsnPurgeSsnNolock(ssn: Ssn, ghost k: nat)
      requires Valid() && Stands(ssn, k)
      modifies this`chains, repr`next, ssn`empty
      ensures Valid()
      ensures Sessions(ssn.index) == old(Sessions(ssn.index)) - {ssn}
      ensures forall i | 0 <= i < |heads| && i != ssn.index :: Sessions(i) == old(Sessions(i))
    {
      hide Keys, Flows;
      ghost var i, s := ssn.index, chains[ssn.index];
      ChainsOk(i);
      ChainSays(s, heads[i], i, k);
      if ssn == heads[ssn.index] {
        OthersClear(chains, heads, i, ssn);
        KeysEmptied(Flows(s), hash, |heads|, i);
        MarkEmpty(ssn, s, i);
        forall b | 0 <= b < |chains|
          ensures BucketOk(b)
        {
          assert old(BucketOk(b));
        }
        return;
      }
      LiveShorter(s, k);
      Unlink(ssn, k);
    }

    /** A cell for a new session: the embedded one if it has none, else one from the pool. */
    method FindCell(i: nat, t: Tuple, pool: Pool) returns (ssn: Ssn?, ghost k: nat)
      requires Valid() && i < |heads| && IndexOf(hash, |heads|, t) == i
      requires forall c | c in Sessions(i) :: !Matches(c.key, t)
      modifies this`chains, this`repr, this`activeNum, repr`key, repr`next, repr`empty, repr`index
      ensures Valid() && old(repr) <= repr && fresh(repr - old(repr))
      ensures ssn != null <==> old(heads[i].empty) || pool == Cell
      ensures ssn == null ==> Sessions(i) == old(Sessions(i))
      ensures ssn != null ==>
        Stands(ssn, k) && Sessions(i) == old(Sessions(i)) + {ssn} && ssn !in old(Sessions(i)) &&
        ssn.key == t && ssn.index == i && if old(heads[i].empty) then ssn == heads[i] else fresh(ssn)
      ensures activeNum == old(activeNum) - if !old(heads[i].empty) && pool == NoCell then 1 else 0
      ensures forall j | 0 <= j < |heads| && j != i :: Sessions(j) == old(Sessions(j))
      ensures forall c | c in old(repr) && c != ssn :: c.key == old(c.key)
    {
      hide Keys, Flows, Matches, IndexOf;
      var head := heads[i];
      HeadKnown(i);
      k := 0;
      if head.empty {
        UseHead(head, i, t);
        return head, 0;
      }
      if pool == NoCell {
        activeNum := activeNum - 1;
        return null, 0;
      }
      if pool == Stray {
        return null, 0;
      }
      LiveKnown(i);
      ghost var s := chains[i];
      ssn := UseCell(head, i, t);
      LiveLonger(s, head, ssn);
      k := 1;
    }

    /** Makes a session for a tuple that has none. A flow that starts with FIN or RST, a full table,
        an empty pool and a timer that will not start each leave the sessions as they are. */
    method SsnPrepare(i: nat, t: Tuple, finOrRst: bool, seqNum: nat, ackSeq: nat, ssnAge: int, pool: Pool, timerOk: bool)
      returns (ssn: Ssn?)
      requires Valid() && i < |heads| && IndexOf(hash, |heads|, t) == i
      requires forall c | c in Sessions(i) :: !Matches(c.key, t)
      modifies this`chains, this`repr, this`activeNum, repr
      ensures Valid() && old(repr) <= repr && fresh(repr - old(repr))
      ensures ssn != null <==>
        !finOrRst && old(activeNum) < SSN_TOTAL_NUM && (old(heads[i].empty) || pool == Cell) && timerOk
      ensures ssn == null ==> Sessions(i) == old(Sessions(i))
      ensures ssn != null ==>
        Sessions(i) == old(Sessions(i)) + {ssn} && ssn !in old(Sessions(i)) && ssn.key == t && ssn.index == i &&
        ssn.seqNum == seqNum && ssn.ackSeq == ackSeq && ssn.ttl == ssn.age == ssnAge - 1
      ensures activeNum == old(activeNum) +
        if finOrRst || old(activeNum) >= SSN_TOTAL_NUM || (!old(heads[i].empty) && pool == NoCell) then 0 else 1
      ensures forall j | 0 <= j < |heads| && j != i :: Sessions(j) == old(Sessions(j))
      ensures forall c | c in old(repr) && c in old(Sessions(i)) :: c.key == old(c.key)
      ensures forall c | c in old(repr) && (c != heads[i] || !old(c.empty)) :: c.Life() == old(c.Life())
    {
      hide Keys, Flows, Matches, IndexOf, BucketOk, LiveCells, Chain, Linked, Valid;
      if finOrRst {
        return null;
      }
      if activeNum >= SSN_TOTAL_NUM {
        return null;
      }
      activeNum := activeNum + 1;
      ghost var k;
      ssn, k := FindCell(i, t, pool);
      if ssn == null {
        return;
      }
      SetUp(ssn, seqNum, ackSeq, ssnAge);
      if !timerOk {
        SsnPurgeSsnNolock(ssn, k);
        ssn := null;
      }
    }

    method SetUp(ssn: Ssn, seqNum: nat, ackSeq: nat, ssnAge: int)
      requires Valid()
      modifies ssn`seqNum, ssn`ackSeq, ssn`ttl, ssn`age
      ensures Valid() && ssn.seqNum == seqNum && ssn.ackSeq == ackSeq && ssn.ttl == ssn.age == ssnAge - 1
    {
      hide Keys, Flows;
      ssn.seqNum, ssn.ackSeq := seqNum, ackSeq;
      ssn.ttl, ssn.age := ssnAge - 1, ssnAge - 1;
      forall b | 0 <= b < |chains|
        ensures BucketOk(b)
      {
        assert old(BucketOk(b));
        assert Flows(chains[b]) == old(Flows(chains[b])) by {
          FlowsSay(chains[b]);
        }
      }
    }

    lemma LiveKnown(i: nat)
      requires Valid() && i < |heads|
      ensures forall c | c in Sessions(i) :: c in repr
    {
      ChainsOk(i);
      forall c | c in Sessions(i)
        ensures c in repr
      {
        LiveAre(chains[i], c);
      }
    }

    /** The bucket of a tuple has a session of its flow. */
    ghost predicate Known(t: Tuple)
      requires Valid()
      reads this`chains, this`repr, repr`key, repr`next, repr`empty, repr`index
    {
      exists c :: c in repr && c in Sessions(IndexOf(hash, |heads|, t)) && Matches(c.key, t)
    }

    /** A packet of a flow: the flow's session, found from either end or made, and which end the
        packet is from. None is made twice: a session that matches is the one returned. */
    method FrcoreTcpProcess(t: Tuple, finOrRst: bool, seqNum: nat, ackSeq: nat, ssnAge: int, pool: Pool, timerOk: bool)
      returns (ssn: Ssn?, positive: bool)
      requires Valid()
      modifies this`chains, this`repr, this`activeNum, repr
      ensures Valid() && old(repr) <= repr && fresh(repr - old(repr))
      ensures forall j | 0 <= j < |heads| && j != IndexOf(hash, |heads|, t) :: Sessions(j) == old(Sessions(j))
      ensures
        var i := IndexOf(hash, |heads|, t);
        var was := old(Sessions(IndexOf(hash, |heads|, t)));
        if ssn == null then
          Sessions(i) == was && forall c | c in old(repr) && c in was :: !old(Matches(c.key, t))
        else
          ssn in Sessions(i) && Matches(ssn.key, t) && (positive <==> ssn.key == t) &&
          if ssn in was then Sessions(i) == was && ssn in old(repr) && ssn.key == old(ssn.key)
          else
            Sessions(i) == was + {ssn} && ssn.key == t &&
            forall c | c in old(repr) && c in was :: !old(Matches(c.key, t))
      ensures ssn != null <==>
        old(Known(t)) ||
        (!finOrRst && old(activeNum) < SSN_TOTAL_NUM && (old(heads[IndexOf(hash, |heads|, t)].empty) || pool == Cell) && timerOk)
      ensures activeNum == old(activeNum) +
        if old(Known(t)) || finOrRst || old(activeNum) >= SSN_TOTAL_NUM ||
           (!old(heads[IndexOf(hash, |heads|, t)].empty) && pool == NoCell) then 0 else 1
      ensures ssn != null ==>
        if ssn in old(Sessions(IndexOf(hash, |heads|, t))) then
          ssn.Life() == old(ssn.Life()).(ttl := if old(ssn.good) then old(ssn.age) else old(ssn.ttl))
        else ssn.Life() == Record(seqNum, ackSeq, ssnAge - 1, ssnAge - 1, true)
      ensures
        var head := heads[IndexOf(hash, |heads|, t)];
        forall c | c in old(repr) && c != ssn && (c != head || !old(c.empty)) :: c.Life() == old(c.Life())
    {
      hide Keys, Flows, Matches, IndexOf, BucketOk, LiveCells;
      var i := IndexOf(hash, |heads|, t);
      positive := false;
      ssn := SsnLookupByTuple(i, Sort(t));
      NoneBySorted(Sessions(i), t);
      LiveKnown(i);
      if ssn == null {
        ssn := SsnPrepare(i, t, finOrRst, seqNum, ackSeq, ssnAge, pool, timerOk);
        if ssn == null {
          return;
        }
        LiveKnown(i);
        SsnAdd(ssn);
      }
      MatchesIsEquivalence(ssn.key, t, t);
      positive := SsnDirectionTuple(t, ssn.key);
      ExecutePacket(ssn);
    }

    method SsnAdd(ssn: Ssn)
      modifies ssn`good
      ensures ssn.good
    {
      ssn.good := true;
    }

    /** A packet keeps a good session alive. */
    method ExecutePacket(ssn: Ssn)
      modifies ssn`ttl
      ensures ssn.ttl == if ssn.good then ssn.age else old(ssn.ttl)
    {
      if !ssn.good {
        return;
      }
      ssn.ttl := ssn.age;
    }

    /** A session's timer: with its time used up, or no timer to be had, it is purged. */
    method FrcoreSsnAgeProcess(ssn: Ssn, timerOk: bool, ghost k: nat) returns (purged: bool)
      requires Valid() && Stands(ssn, k)
      modifies this`chains, this`activeNum, repr`next, ssn`empty, ssn`good, ssn`ttl
      ensures Valid() && purged == (old(ssn.ttl) == 0 || !timerOk) && ssn.ttl == old(ssn.ttl) - 1
      ensures Sessions(ssn.index) == old(Sessions(ssn.index)) - if purged then {ssn} else {}
      ensures forall i | 0 <= i < |heads| && i != ssn.index :: Sessions(i) == old(Sessions(i))
      ensures activeNum == old(activeNum) - if purged then 1 else 0
    {
      hide Keys, Flows, BucketOk, LiveCells;
      var ttl := ssn.ttl;
      ssn.ttl := ttl - 1;
      if ttl == 0 {
        SsnPurgeSsn(ssn, k);
        return true;
      }
      if !timerOk {
        SsnPurgeSsn(ssn, k);
        return true;
      }
      return false;
    }

    /** A session is in the bucket of its key. */
    lemma SessionPlaced(i: nat, c: Ssn)
      requires Valid() && i < |heads| && c in Sessions(i)
      ensures IndexOf(hash, |heads|, c.key) == i && c.index == i
      ensures exists k :: Stands(c, k)
    {
      hide Flows, IndexOf;
      ChainsOk(i);
      LiveAre(chains[i], c);
      var k :| 0 <= k < |chains[i]| && Live(chains[i], k) && chains[i][k] == c;
      ChainSays(chains[i], heads[i], i, k);
      assert Flows(chains[i])[k] == Flow(true, c.key);
      assert Stands(c, k);
    }

    /** No two sessions of the whole table are one flow, unless the flow's ends have one address and
        different ports; and even such a flow has only one session in a bucket. */
    lemma OneSessionPerFlow(i: nat, c: Ssn, j: nat, d: Ssn)
      requires Valid() && i < |heads| && j < |heads| && c in Sessions(i) && d in Sessions(j) && Matches(c.key, d.key)
      ensures Sortable(c.key) || i == j ==> c == d
    {
      hide Flows, IndexOf, Matches, LiveCells;
      SessionPlaced(i, c);
      SessionPlaced(j, d);
      if Sortable(c.key) {
        MatchingMeet(hash, |heads|, c.key, d.key);
      }
      if i == j {
        ChainsOk(i);
        LiveAre(chains[i], d);
        var k :| 0 <= k < |chains[i]| && Live(chains[i], k) && chains[i][k] == d;
        MatchesIsEquivalence(d.key, d.key, d.key);
        OnlyMatch(chains[i], d.key, k, hash, |heads|, i);
      }
    }

    /** Both directions of a flow reach its one session. */
    lemma FoundFromBothEnds(t: Tuple, c: Ssn)
      requires Valid() && c in Sessions(IndexOf(hash, |heads|, t)) && Matches(c.key, t) && Sortable(t)
      ensures c in Sessions(IndexOf(hash, |heads|, Reverse(t))) && Matches(c.key, Reverse(t))
    {
      SortsAlike(t);
    }

    lemma HeadKnown(i: nat)
      requires Valid() && i < |heads|
      ensures heads[i] in repr && chains[i] != [] && chains[i][0] == heads[i]
      ensures heads[i] in Sessions(i) <==> !heads[i].empty
    {
      ChainsOk(i);
    }
  }

  lemma NoneBySorted(cells: set<Ssn>, t: Tuple)
    ensures (forall c | c in cells :: !Matches(c.key, Sort(t))) <==> forall c | c in cells :: !Matches(c.key, t)
    ensures forall c | c in cells :: Matches(c.key, Sort(t)) <==> Matches(c.key, t)
  {
    forall c | c in cells
      ensures Matches(c.key, Sort(t)) <==> Matches(c.key, t)
    {
      MatchesIsEquivalence(c.key, t, t);
    }
  }

  /** Positive: the packet has the tuple of the session's first packet. */
  method SsnDirectionTuple(t: Tuple, key: Tuple) returns (positive: bool)
    requires Matches(key, t)
    ensures positive <==> key == t
  {
    positive := t.sip == key.sip && t.dip == key.dip && t.sp == key.sp && t.dp == key.dp;
  }

  /** What the pool of session cells answers: nothing, a cell that is not its own, or a cell. */
  datatype Pool = NoCell | Stray | Cell

  lemma LiveLonger(s: seq<Ssn>, head: Ssn, ssn: Ssn)
    requires s != [] && s[0] == head && !head.empty
    ensures LiveCells([head, ssn] + s[1..]) == LiveCells(s) + {ssn}
  {
    assert ([head, ssn] + s[1..])[1..] == [ssn] + s[1..];
  }

  /** No cell of the bucket with a session matches. */
  lemma NoneMatches(s: seq<Ssn>, t: Tuple)
    requires s != [] && forall c | c in LiveCells(s) :: !Matches(c.key, t)
    ensures forall k | 0 <= k < |s| && Flows(s)[k].live :: !Matches(Flows(s)[k].key, t)
  {
    forall k | 0 <= k < |s| && Live(s, k)
      ensures !Matches(s[k].key, t)
    {
      LiveAre(s, s[k]);
    }
  }

  lemma KeysFilled(r: seq<Flow>, t: Tuple, hash: Hash, n: nat, i: nat)
    requires n > 0 && r != [] && Keys(r, hash, n, i) && IndexOf(hash, n, t) == i
    requires forall k | 0 <= k < |r| && r[k].live :: !Matches(r[k].key, t)
    ensures Keys(r[0 := Flow(true, t)], hash, n, i)
  {
    var e := r[0 := Flow(true, t)];
    forall j, k | 0 <= j < k < |e| && e[j].live && e[k].live
      ensures !Matches(e[j].key, e[k].key)
    {
      MatchesIsEquivalence(e[j].key, e[k].key, t);
    }
  }

  lemma KeysInserted(r: seq<Flow>, t: Tuple, hash: Hash, n: nat, i: nat)
    requires n > 0 && r != [] && Keys(r, hash, n, i) && IndexOf(hash, n, t) == i
    requires forall k | 0 <= k < |r| && r[k].live :: !Matches(r[k].key, t)
    ensures Keys([r[0], Flow(true, t)] + r[1..], hash, n, i)
  {
    hide Matches, IndexOf;
    var e := [r[0], Flow(true, t)] + r[1..];
    assert forall k | 2 <= k < |e| :: e[k] == r[k - 1];
    forall j, k | 0 <= j < k < |e| && e[j].live && e[k].live
      ensures !Matches(e[j].key, e[k].key)
    {
      MatchesIsEquivalence(e[j].key, e[k].key, t);
    }
  }

  method FillHead(head: Ssn, ghost s: seq<Ssn>, i: nat, t: Tuple)
    requires Chain(s, head, i)
    modifies head`empty, head`key, head`index
    ensures Chain(s, head, i) && !head.empty && head.key == t && head.index == i
    ensures Flows(s) == old(Flows(s))[0 := Flow(true, t)]
  {
    head.empty := false;
    head.key := t;
    head.index := i;
    forall m | 0 <= m < |s|
      ensures Linked(s, m, i)
    {
      assert old(Linked(s, m, i));
    }
  }

  method InsertSecond(head: Ssn, ssn: Ssn, ghost s: seq<Ssn>, i: nat, t: Tuple)
    requires Chain(s, head, i) && ssn !in s && ssn.home == i
    modifies head`next, ssn
    ensures Chain([head, ssn] + s[1..], head, i) && ssn.key == t && ssn.index == i
    ensures Flows([head, ssn] + s[1..]) == [old(Flows(s))[0], Flow(true, t)] + old(Flows(s))[1..]
  {
    assert Linked(s, 0, i);
    ssn.next := head.next;
    head.next := ssn;
    ssn.key := t;
    ssn.index := i;
    ghost var e := [head, ssn] + s[1..];
    assert forall m | 2 <= m < |e| :: e[m] == s[m - 1];
    forall m | 0 <= m < |e|
      ensures Linked(e, m, i)
    {
      assert m > 1 ==> old(Linked(s, m - 1, i));
    }
  }

  /** The embedded cell loses its session; the chain stays. */
  method MarkEmpty(ssn: Ssn, ghost s: seq<Ssn>, ghost i: nat)
    requires Chain(s, ssn, i)
    modifies ssn`empty
    ensures Chain(s, ssn, i) && ssn.empty && Flows(s) == old(Flows(s))[0 := Flow(false, s[0].key)]
  {
    ssn.empty := true;
    forall m | 0 <= m < |s|
      ensures Linked(s, m, i)
    {
      assert old(Linked(s, m, i));
    }
  }

  lemma KeysEmptied(r: seq<Flow>, hash: Hash, n: nat, i: nat)
    requires n > 0 && r != [] && Keys(r, hash, n, i)
    ensures Keys(r[0 := Flow(false, r[0].key)], hash, n, i)
  {
  }

  /** The cell before one leads past it: the chain without it is a chain. */
  method LeadPast(q: Ssn, ssn: Ssn, ghost head: Ssn, ghost s: seq<Ssn>, ghost i: nat, ghost k: nat)
    requires Chain(s, head, i) && 0 < k < |s| && s[k] == ssn && s[k - 1] == q
    modifies q`next
    ensures Chain(s[..k] + s[k + 1..], head, i)
    ensures Flows(s[..k] + s[k + 1..]) == old(Flows(s[..k] + s[k + 1..]))
  {
    ghost var e := s[..k] + s[k + 1..];
    assert Linked(s, k - 1, i) && Linked(s, k, i);
    q.next := ssn.next;
    forall m | 0 <= m < |e|
      ensures Linked(e, m, i)
    {
      assert old(Linked(s, if m < k then m else m + 1, i));
    }
  }

  /** Flows depends on the keys and on whether the first cell is empty, and on nothing else. */
  lemma FlowsSay(s: seq<Ssn>)
    ensures |Flows(s)| == |s| && forall k | 0 <= k < |s| :: Flows(s)[k] == Flow(Live(s, k), s[k].key)
  {
  }

  lemma FlowsShorter(s: seq<Ssn>, k: nat)
    requires 0 < k < |s|
    ensures Flows(s[..k] + s[k + 1..]) == Flows(s)[..k] + Flows(s)[k + 1..]
  {
    hide Flows;
    var e := s[..k] + s[k + 1..];
    var r, t := Flows(s), Flows(e);
    var u := r[..k] + r[k + 1..];
    forall m | 0 <= m < |e|
      ensures t[m] == u[m]
    {
      var from := if m < k then m else m + 1;
      assert e[m] == s[from] && u[m] == r[from];
    }
  }

  lemma LiveAre(s: seq<Ssn>, c: Ssn)
    requires s != []
    ensures c in LiveCells(s) <==> exists k :: 0 <= k < |s| && Live(s, k) && s[k] == c
  {
    if c in s[1..] {
      var j :| 0 <= j < |s[1..]| && s[1..][j] == c;
      assert Live(s, j + 1) && s[j + 1] == c;
    }
    if k :| 0 < k < |s| && s[k] == c {
      assert s[1..][k - 1] == c;
    }
    if !s[0].empty && c == s[0] {
      assert Live(s, 0);
    }
  }

  lemma LiveShorter(s: seq<Ssn>, k: nat)
    requires Distinct(s) && 0 < k < |s|
    ensures LiveCells(s[..k] + s[k + 1..]) == LiveCells(s) - {s[k]}
  {
    var e := s[..k] + s[k + 1..];
    assert forall m | 0 <= m < |e| :: e[m] == s[if m < k then m else m + 1];
    forall c
      ensures c in LiveCells(e) <==> c in LiveCells(s) && c != s[k]
    {
      LiveAre(s, c);
      LiveAre(e, c);
      if m :| 0 <= m < |s| && Live(s, m) && s[m] == c && m != k {
        assert Live(e, if m < k then m else m - 1) && e[if m < k then m else m - 1] == c;
      }
      if m :| 0 <= m < |e| && Live(e, m) && e[m] == c {
        assert Live(s, if m < k then m else m + 1) && s[if m < k then m else m + 1] == c;
      }
    }
  }

  lemma OneFlow(r: seq<Flow>, t: Tuple, j: nat, k: nat, hash: Hash, n: nat, i: nat)
    requires n > 0 && Keys(r, hash, n, i) && j < |r| && k < |r|
    requires r[j].live && r[k].live && Matches(r[j].key, t) && Matches(r[k].key, t)
    ensures j == k
  {
    hide Matches, IndexOf;
    MatchesIsEquivalence(r[j].key, t, r[k].key);
    MatchesIsEquivalence(r[k].key, t, r[j].key);
  }

  /** Of the sessions of a bucket at most one matches a tuple. */
  lemma OnlyMatch(s: seq<Ssn>, t: Tuple, k: nat, hash: Hash, n: nat, i: nat)
    requires n > 0 && Keys(Flows(s), hash, n, i) && k < |s| && Live(s, k) && Matches(s[k].key, t)
    ensures forall c | c in LiveCells(s) && Matches(c.key, t) :: c == s[k]
    ensures s[k] in LiveCells(s)
  {
    hide Flows, Matches, Keys, LiveCells;
    LiveAre(s, s[k]);
    forall c | c in LiveCells(s) && Matches(c.key, t)
      ensures c == s[k]
    {
      LiveAre(s, c);
      var j :| 0 <= j < |s| && Live(s, j) && s[j] == c;
      OneFlow(Flows(s), t, j, k, hash, n, i);
    }
  }
}
