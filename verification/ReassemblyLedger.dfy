/** Ownership: every packet handed in is held by one queue entry or has been released once,
    and the queue entries taken and not returned are those in the two queues. */
module ReassemblyLedger {
  import opened Reassembly

  /** All work a state accounts for: released, or held by an entry of either queue. */
  ghost function Ledger(st: State): multiset<Work> {
    multiset(st.released) + multiset(Works(st.positive.queue)) + multiset(Works(st.negative.queue))
  }

  /** Queue entries taken from the pool that neither a queue holds nor the pool has back. */
  ghost function Astray(st: State): int {
    st.allocs - st.frees - |st.positive.queue| - |st.negative.queue|
  }

  lemma WorksSplit(q: seq<Entry>, n: nat)
    requires n <= |q|
    ensures multiset(Works(q)) == multiset(Works(q[..n])) + multiset(Works(q[n..]))
  {
    assert q == q[..n] + q[n..];
    WorksConcat(q[..n], q[n..]);
  }

  lemma SendLedger(st: State, d: Direction, n: nat)
    requires n <= |st.FlowOf(d).queue|
    ensures Ledger(Send(st, d, n)) == Ledger(st) && Astray(Send(st, d, n)) == Astray(st)
  {
    hide Works;
    WorksSplit(st.FlowOf(d).queue, n);
  }

  lemma FlushLedger(st: State, d: Direction)
    ensures Ledger(Flush(st, d)) == Ledger(st) && Astray(Flush(st, d)) == Astray(st)
  {
    SendLedger(st, d, |st.FlowOf(d).queue|);
  }

  lemma AcknowledgeLedger(st: State, d: Direction, ackNum: nat)
    ensures Ledger(Acknowledge(st, d, ackNum)) == Ledger(st) && Astray(Acknowledge(st, d, ackNum)) == Astray(st)
  {
    hide EndedBy, Advance, ToInt, Works, Send, Flush;
    var f := st.FlowOf(d);
    if ToInt(ackNum - f.rcvNxt) != 0 {
      FlushLedger(st, d);
    } else {
      SendLedger(st, d, EndedBy(f.queue, f.rcvNxt));
    }
  }

  /** The work of a joined queue: what was there, less the entries dropped, and the segment's own. */
  lemma JoinWorks(q: seq<Entry>, s: Segment, pos: nat, skip: nat)
    requires pos <= |q| && (skip == 0 || skip < |s.data|)
    ensures var end := s.sequence + |s.data|;
      var gone := q[pos..][..Covered(q[pos..], end)];
      multiset(Works(Join(q, s, pos, skip))) + multiset(Works(gone)) ==
        multiset(Works(q)) + (if s.syn then multiset{} else multiset{s.work}) &&
      |Join(q, s, pos, skip)| + |gone| == |q| + if s.syn then 0 else 1
  {
    hide Works, TrimTail, Covered;
    var end := s.sequence + |s.data|;
    var rest := TrimTail(q[pos..], end);
    TrimTailLength(q[pos..], end);
    WorksSplit(q, pos);
    var te := Entry((s.sequence + skip) % TWO32, s.ackNum, end, s.work, s.data[skip..], s.direction);
    WorksOne(te);
    if s.syn {
      assert q[..pos] + [] == q[..pos];
      WorksConcat(q[..pos], rest);
    } else {
      WorksConcat(q[..pos] + [te], rest);
      WorksConcat(q[..pos], [te]);
    }
  }

  lemma WorksOne(e: Entry)
    ensures Works([e]) == [e.work]
  {
  }

  /** Exchanging one queue and releasing some work changes the account by just that. */
  lemma ExchangeLedger(st: State, d: Direction, f: Flow, extra: seq<Work>, e: State)
    requires e.FlowOf(d).queue == f.queue && e.FlowOf(Opposite(d)).queue == st.FlowOf(Opposite(d)).queue
    requires e.released == st.released + extra
    ensures Ledger(e) + multiset(Works(st.FlowOf(d).queue)) == Ledger(st) + multiset(Works(f.queue)) + multiset(extra)
    ensures Astray(e) - Astray(st) == (e.allocs - st.allocs) - (e.frees - st.frees) - (|f.queue| - |st.FlowOf(d).queue|)
  {
    hide Works;
  }

  /** If exchanging q for q' costs g, and q' with g is q with x, then x is what was added. */
  lemma Settle<T>(after: multiset<T>, before: multiset<T>, q: multiset<T>, q': multiset<T>, g: multiset<T>, x: multiset<T>)
    requires after + q == before + q' + g && q' + g == q + x
    ensures after == before + x
  {
    forall t
      ensures after[t] == (before + x)[t]
    {
      assert (after + q)[t] == (before + q' + g)[t] && (q' + g)[t] == (q + x)[t];
    }
  }

  lemma JoinedLedger(st: State, s: Segment, pos: nat, skip: nat)
    requires pos <= |st.FlowOf(s.direction).queue| && (skip == 0 || skip < |s.data|)
    ensures Ledger(Joined(st, s, pos, skip)) == Ledger(st) + (if s.syn then multiset{} else multiset{s.work})
    ensures Astray(Joined(st, s, pos, skip)) == Astray(st) - if s.syn then 0 else 1
  {
    hide Works, Covered, TrimTail, Join, Ledger, Astray;
    var q := st.FlowOf(s.direction).queue;
    var gone := q[pos..][..Covered(q[pos..], s.sequence + |s.data|)];
    JoinWorks(q, s, pos, skip);
    var e := Joined(st, s, pos, skip);
    ExchangeLedger(st, s.direction, e.FlowOf(s.direction), Works(gone), e);
    Settle(Ledger(e), Ledger(st), multiset(Works(q)), multiset(Works(e.FlowOf(s.direction).queue)), multiset(Works(gone)),
           if s.syn then multiset{} else multiset{s.work});
  }

  lemma PlaceLedger(st: State, s: Segment, pos: nat, skip: nat, depth: nat)
    requires pos <= |st.FlowOf(s.direction).queue| && (skip == 0 || skip < |s.data|)
    ensures Ledger(Place(st, s, pos, skip, depth)) == Ledger(st) + multiset{s.work}
    ensures Astray(Place(st, s, pos, skip, depth)) == Astray(st) - 1
  {
    hide Works, Ledger, Astray, Joined, Flush, Run, SeqGt;
    var queued := Joined(st, s, pos, skip);
    var e := Place(st, s, pos, skip, depth);
    JoinedLedger(st, s, pos, skip);
    FlushLedger(queued, s.direction);
    if s.syn {
      ReleaseLedger(queued, s.work, queued.Release(s.work));
      CellLedger(queued.Release(s.work), e);
    } else if |queued.FlowOf(s.direction).queue| < depth {
      SameQueuesLedger(queued, e);
    }
  }

  lemma InsertLedger(st: State, s: Segment, depth: nat)
    ensures Ledger(Insert(st, s, depth)) == Ledger(st) + multiset{s.work}
    ensures Astray(Insert(st, s, depth)) == Astray(st)
  {
    hide Works, Place, Judge, Position, Join, Ledger, Astray;
    var d, f := s.direction, st.FlowOf(s.direction);
    var pos := Position(f.queue, s.sequence);
    var taken := st.(allocs := st.allocs + 1);
    CellLedger(st, taken);
    if pos == 0 {
      PlaceLedger(taken, s, 0, 0, depth);
    } else {
      var p := f.queue[pos - 1];
      var v := Judge(p, s.sequence, s.data);
      if v.Fits? {
        PlaceLedger(taken, s, pos, v.skip, depth);
      } else if v == SameEnd {
        SwapWork(f.queue, pos - 1, Merge(f.queue, s)[pos - 1]);
        var e := Insert(st, s, depth);
        ExchangeLedger(st, d, e.FlowOf(d), [p.work], e);
        Settle(Ledger(e), Ledger(st), multiset(Works(f.queue)), multiset(Works(e.FlowOf(d).queue)), multiset{p.work}, multiset{s.work});
      } else {
        ReleaseLedger(taken, s.work, taken.Release(s.work));
        CellLedger(taken.Release(s.work), Insert(st, s, depth));
      }
    }
  }

  lemma CellLedger(a: State, b: State)
    requires b == a.(allocs := b.allocs, frees := b.frees)
    ensures Ledger(b) == Ledger(a) && Astray(b) == Astray(a) + (b.allocs - a.allocs) - (b.frees - a.frees)
  {
  }

  lemma SameQueuesLedger(a: State, b: State)
    requires b.positive.queue == a.positive.queue && b.negative.queue == a.negative.queue
    requires b.released == a.released && b.allocs == a.allocs && b.frees == a.frees
    ensures Ledger(b) == Ledger(a) && Astray(b) == Astray(a)
  {
  }

  lemma SwapWork(q: seq<Entry>, k: nat, e: Entry)
    requires k < |q|
    ensures multiset(Works(q[k := e])) + multiset{q[k].work} == multiset(Works(q)) + multiset{e.work}
  {
    assert Works(q[k := e]) == Works(q)[k := e.work];
  }

  lemma ReleaseLedger(st: State, w: Work, e: State)
    requires e.positive.queue == st.positive.queue && e.negative.queue == st.negative.queue
    requires e.allocs == st.allocs && e.frees == st.frees && e.released == st.released + [w]
    ensures Ledger(e) == Ledger(st) + multiset{w} && Astray(e) == Astray(st)
  {
    hide Works;
  }

  /** Each packet adds exactly its own work to the account, and no queue entry goes astray. */
  lemma ReceiveLedger(st: State, s: Segment, depth: nat, available: bool)
    ensures Ledger(Receive(st, s, depth, available)) == Ledger(st) + multiset{s.work}
    ensures Astray(Receive(st, s, depth, available)) == Astray(st)
  {
    hide Works, Insert, Acknowledge, Flush, Ledger, Astray;
    var e := Receive(st, s, depth, available);
    if (s.data == [] && !(s.syn || s.fin || s.rst)) || s.sequence < st.Base(s.direction) {
      ReleaseLedger(st, s.work, e);
      return;
    }
    var rev := Opposite(s.direction);
    var acked := if st.FlowOf(s.direction).linked && st.FlowOf(rev).queue != [] then Acknowledge(st, rev, s.ackNum) else st;
    AcknowledgeLedger(st, rev, s.ackNum);
    ReleaseLedger(acked, s.work, acked.Release(s.work));
    if s.fin || s.rst {
      var flushed := Flush(acked.Release(s.work), s.direction);
      FlushLedger(acked.Release(s.work), s.direction);
      SameQueuesLedger(flushed, e);
    } else {
      InsertLedger(acked, s, depth);
    }
  }

  /** Expiry moves everything held into the released. */
  lemma ExpireLedger(st: State)
    ensures Ledger(Expire(st)) == Ledger(st) && Astray(Expire(st)) == Astray(st)
    ensures multiset(Expire(st).released) == Ledger(st)
    ensures Expire(st).emitted == st.emitted + st.positive.queue + st.negative.queue
  {
    hide Works;
    FlushLedger(st, Positive);
    var a := Flush(st, Positive);
    FlushLedger(a.WithFlow(Positive, a.positive.(linked := false)), Negative);
    assert Works([]) == [];
  }

  // Whole runs

  datatype Event = Packet(segment: Segment, available: bool) | Timeout

  ghost function Handle(st: State, e: Event, depth: nat): State {
    if e.Packet? then Receive(st, e.segment, depth, e.available) else Expire(st)
  }

  ghost function Run(st: State, events: seq<Event>, depth: nat): State {
    if events == [] then st
    else Handle(Run(st, events[..|events| - 1], depth), events[|events| - 1], depth)
  }

  ghost function Arrived(events: seq<Event>): multiset<Work> {
    if events == [] then multiset{}
    else
      Arrived(events[..|events| - 1]) +
      if events[|events| - 1].Packet? then multiset{events[|events| - 1].segment.work} else multiset{}
  }

  ghost function NewSession(firstSeq: nat, firstAck: nat): State {
    State(Flow(0, [], true), Flow(0, [], true), firstSeq, firstAck, false, [], [], 0, 0)
  }

  /** Over any run, the packets that arrived are exactly those released and those still queued. */
  lemma {:induction false} RunLedger(firstSeq: nat, firstAck: nat, events: seq<Event>, depth: nat)
    ensures Ledger(Run(NewSession(firstSeq, firstAck), events, depth)) == Arrived(events)
    ensures Astray(Run(NewSession(firstSeq, firstAck), events, depth)) == 0
  {
    hide Ledger, Astray, Receive, Expire;
    if events == [] {
      NewLedger(firstSeq, firstAck);
    } else {
      RunLedger(firstSeq, firstAck, events[..|events| - 1], depth);
      var st, e := Run(NewSession(firstSeq, firstAck), events[..|events| - 1], depth), events[|events| - 1];
      if e.Packet? {
        ReceiveLedger(st, e.segment, depth, e.available);
      } else {
        ExpireLedger(st);
      }
    }
  }

  lemma NewLedger(firstSeq: nat, firstAck: nat)
    ensures Ledger(NewSession(firstSeq, firstAck)) == multiset{} && Astray(NewSession(firstSeq, firstAck)) == 0
  {
  }

  ghost predicate SoundEvents(events: seq<Event>, firstSeq: nat, firstAck: nat) {
    forall i | 0 <= i < |events| && events[i].Packet? ::
      SoundSegment(events[i].segment, if events[i].segment.direction == Positive then firstSeq else firstAck)
  }

  /** Over any run of packets that do not wrap, both queues stay in order and below the depth. */
  lemma {:induction false} RunKeepsInv(firstSeq: nat, firstAck: nat, events: seq<Event>, depth: nat)
    requires depth > 0 && SoundEvents(events, firstSeq, firstAck)
    ensures var st := Run(NewSession(firstSeq, firstAck), events, depth);
      Inv(st, depth) && st.firstSeq == firstSeq && st.firstAck == firstAck
  {
    hide Receive, Sound;
    if events == [] {
      EmptySound(firstSeq);
      EmptySound(firstAck);
    } else {
      var init := events[..|events| - 1];
      assert forall i | 0 <= i < |init| :: init[i] == events[i];
      RunKeepsInv(firstSeq, firstAck, init, depth);
      var st, e := Run(NewSession(firstSeq, firstAck), init, depth), events[|events| - 1];
      if e.Packet? {
        ReceiveKeepsInv(st, e.segment, depth, e.available);
        ReceiveBases(st, e.segment, depth, e.available);
      } else {
        EmptySound(firstSeq);
        EmptySound(firstAck);
      }
    }
  }
}
