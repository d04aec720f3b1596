/** Streams and acknowledgements: entries carry the stream's own bytes from arrival to emission,
    and an expected acknowledgement releases exactly what it acknowledges. */
module ReassemblyStream {
  import opened Bytes
  import opened Reassembly
  import opened ReassemblyLedger

  /** The byte each direction sends at each sequence number. */
  type Stream = (Direction, int) -> byte

  /** The entry is not empty, and holds the stream's bytes for exactly the range it names. */
  ghost predicate Carries(e: Entry, stream: Stream) {
    e.data != [] && e.nxtSeq == e.seqNum + |e.data| &&
    forall k | 0 <= k < |e.data| :: e.data[k] == stream(e.direction, e.seqNum + k)
  }

  ghost predicate AllCarry(q: seq<Entry>, stream: Stream) {
    forall i | 0 <= i < |q| :: Carries(q[i], stream)
  }

  ghost predicate AllFrom(q: seq<Entry>, d: Direction) {
    forall i | 0 <= i < |q| :: q[i].direction == d
  }

  ghost predicate Agrees(s: Segment, stream: Stream) {
    forall k | 0 <= k < |s.data| :: s.data[k] == stream(s.direction, s.sequence + k)
  }

  /** Every entry queued or sent carries the stream, and queues hold their own direction. */
  ghost predicate Genuine(st: State, stream: Stream) {
    AllCarry(st.emitted, stream) &&
    forall d: Direction :: AllCarry(st.FlowOf(d).queue, stream) && AllFrom(st.FlowOf(d).queue, d)
  }

  lemma CutCarries(e: Entry, cut: nat, stream: Stream)
    requires Carries(e, stream) && cut < |e.data|
    ensures Carries(e.(seqNum := e.seqNum + cut, data := e.data[cut..]), stream)
  {
    forall j | 0 <= j < |e.data| - cut
      ensures e.data[cut..][j] == stream(e.direction, e.seqNum + cut + j)
    {
      assert e.data[cut + j] == stream(e.direction, e.seqNum + (cut + j));
    }
  }

  lemma TrimTailCarries(q: seq<Entry>, end: nat, base: nat, stream: Stream, d: Direction)
    requires Sound(q, base) && InWindow(base, end) && AllCarry(q, stream) && AllFrom(q, d)
    ensures AllCarry(TrimTail(q, end), stream) && AllFrom(TrimTail(q, end), d)
  {
    hide Sound, TrimTail, Carries;
    var k := Covered(q, end);
    TrimTailIsKept(q, end, base);
    if k < |q| && q[k].seqNum < end < q[k].seqNum + |q[k].data| {
      CutCarries(q[k], end - q[k].seqNum, stream);
    }
  }

  lemma JoinCarries(q: seq<Entry>, s: Segment, pos: nat, skip: nat, base: nat, stream: Stream)
    requires Sound(q, base) && pos <= |q| && (skip == 0 || skip < |s.data|)
    requires base <= s.sequence && InWindow(base, s.sequence + |s.data|) && (s.data != [] || s.syn)
    requires AllCarry(q, stream) && AllFrom(q, s.direction) && Agrees(s, stream)
    ensures AllCarry(Join(q, s, pos, skip), stream) && AllFrom(Join(q, s, pos, skip), s.direction)
  {
    hide TrimTail, Sound, Carries;
    var end := s.sequence + |s.data|;
    SoundTail(q, base, pos);
    TrimTailCarries(q[pos..], end, base, stream, s.direction);
    if !s.syn {
      SliceCarries(s, skip, base, stream);
    }
  }

  lemma SliceCarries(s: Segment, skip: nat, base: nat, stream: Stream)
    requires InWindow(base, s.sequence + |s.data|) && skip < |s.data| && Agrees(s, stream)
    ensures Carries(Entry((s.sequence + skip) % TWO32, s.ackNum, s.sequence + |s.data|, s.work, s.data[skip..], s.direction), stream)
  {
    forall j | 0 <= j < |s.data| - skip
      ensures s.data[skip..][j] == stream(s.direction, s.sequence + skip + j)
    {
      assert s.data[skip + j] == stream(s.direction, s.sequence + (skip + j));
    }
  }

  lemma MergeCarries(q: seq<Entry>, s: Segment, base: nat, stream: Stream)
    requires Sound(q, base)
    requires base <= s.sequence && InWindow(base, s.sequence + |s.data|) && (s.data != [] || s.syn)
    requires AllCarry(q, stream) && AllFrom(q, s.direction) && Agrees(s, stream)
    ensures AllCarry(Merge(q, s), stream) && AllFrom(Merge(q, s), s.direction)
  {
    hide Join, Position, ToInt, Sound, Judge;
    var pos := Position(q, s.sequence);
    PositionSplits(q, s.sequence, base);
    if pos == 0 {
      JoinCarries(q, s, 0, 0, base, stream);
    } else {
      var p := q[pos - 1];
      SoundAt(q, base, pos - 1);
      JudgeExact(p, s, base);
      var v := Judge(p, s.sequence, s.data);
      if v.Fits? {
        JoinCarries(q, s, pos, v.skip, base, stream);
      } else if v == SameEnd {
        SliceCarries(s, 0, base, stream);
        assert s.data[0..] == s.data;
        assert Carries(p, stream);
      }
    }
  }

  lemma SendGenuine(st: State, d: Direction, n: nat, stream: Stream)
    requires n <= |st.FlowOf(d).queue| && Genuine(st, stream)
    ensures Genuine(Send(st, d, n), stream)
  {
    hide Carries, Works;
    var q, e := st.FlowOf(d).queue, Send(st, d, n);
    assert AllCarry(q, stream) && AllFrom(q, d);
    forall c: Direction
      ensures AllCarry(e.FlowOf(c).queue, stream) && AllFrom(e.FlowOf(c).queue, c)
    {
      assert c == d || e.FlowOf(c) == st.FlowOf(c);
    }
  }

  /** The invariant looks at the queues and at what was sent, and at nothing else. */
  lemma SameEntriesGenuine(a: State, b: State, stream: Stream)
    requires Genuine(a, stream) && b.positive.queue == a.positive.queue && b.negative.queue == a.negative.queue
    requires b.emitted == a.emitted
    ensures Genuine(b, stream)
  {
    forall c: Direction
      ensures AllCarry(b.FlowOf(c).queue, stream) && AllFrom(b.FlowOf(c).queue, c)
    {
      assert b.FlowOf(c).queue == a.FlowOf(c).queue;
    }
  }

  lemma FlushGenuine(st: State, d: Direction, stream: Stream)
    requires Genuine(st, stream)
    ensures Genuine(Flush(st, d), stream)
  {
    hide Genuine, Works;
    var n := |st.FlowOf(d).queue|;
    SendGenuine(st, d, n, stream);
    SameEntriesGenuine(Send(st, d, n), Flush(st, d), stream);
  }

  lemma AcknowledgeGenuine(st: State, d: Direction, ackNum: nat, stream: Stream)
    requires Genuine(st, stream)
    ensures Genuine(Acknowledge(st, d, ackNum), stream)
  {
    hide Genuine, Send, Flush, EndedBy, Advance, ToInt;
    var f := st.FlowOf(d);
    if ToInt(ackNum - f.rcvNxt) != 0 {
      FlushGenuine(st, d, stream);
    } else {
      var n := EndedBy(f.queue, f.rcvNxt);
      SendGenuine(st, d, n, stream);
      SameEntriesGenuine(Send(st, d, n), Acknowledge(st, d, ackNum), stream);
    }
  }

  /** Exchanging one queue for another that carries the stream. */
  lemma ExchangeGenuine(a: State, d: Direction, b: State, stream: Stream)
    requires Genuine(a, stream) && b.FlowOf(Opposite(d)) == a.FlowOf(Opposite(d))
    requires AllCarry(b.FlowOf(d).queue, stream) && AllFrom(b.FlowOf(d).queue, d) && AllCarry(b.emitted, stream)
    ensures Genuine(b, stream)
  {
    forall c: Direction
      ensures AllCarry(b.FlowOf(c).queue, stream) && AllFrom(b.FlowOf(c).queue, c)
    {
      assert c == d || b.FlowOf(c) == a.FlowOf(c);
    }
  }

  lemma PlaceGenuine(st: State, s: Segment, pos: nat, skip: nat, depth: nat, stream: Stream)
    requires pos <= |st.FlowOf(s.direction).queue| && (skip == 0 || skip < |s.data|)
    requires Genuine(st, stream)
    requires AllCarry(Join(st.FlowOf(s.direction).queue, s, pos, skip), stream)
    requires AllFrom(Join(st.FlowOf(s.direction).queue, s, pos, skip), s.direction)
    ensures Genuine(Place(st, s, pos, skip, depth), stream)
  {
    hide Place, Join, Carries;
    PlaceOutcome(st, s, pos, skip, depth);
    ExchangeGenuine(st, s.direction, Place(st, s, pos, skip, depth), stream);
  }

  lemma InsertGenuine(st: State, s: Segment, depth: nat, stream: Stream)
    requires Genuine(st, stream) && Agrees(s, stream) && (s.data != [] || s.syn)
    requires Sound(st.FlowOf(s.direction).queue, st.Base(s.direction))
    requires st.Base(s.direction) <= s.sequence && SoundSegment(s, st.Base(s.direction))
    ensures Genuine(Insert(st, s, depth), stream)
  {
    hide Sound, Place, Judge, Join, Position, Carries, Agrees;
    var f := st.FlowOf(s.direction);
    var pos := Position(f.queue, s.sequence);
    var taken := st.(allocs := st.allocs + 1);
    SameEntriesGenuine(st, taken, stream);
    assert AllCarry(f.queue, stream) && AllFrom(f.queue, s.direction);
    MergeCarries(f.queue, s, st.Base(s.direction), stream);
    if pos == 0 {
      PlaceGenuine(taken, s, 0, 0, depth, stream);
    } else {
      var v := Judge(f.queue[pos - 1], s.sequence, s.data);
      if v.Fits? {
        PlaceGenuine(taken, s, pos, v.skip, depth, stream);
      } else if v == SameEnd {
        ExchangeGenuine(st, s.direction, Insert(st, s, depth), stream);
      } else {
        SameEntriesGenuine(st, Insert(st, s, depth), stream);
      }
    }
  }

  /** A segment that agrees with the stream leaves every entry, queued or sent, carrying it. */
  lemma ReceiveGenuine(st: State, s: Segment, depth: nat, available: bool, stream: Stream)
    requires Genuine(st, stream) && Agrees(s, stream)
    requires Inv(st, depth) && depth > 0 && SoundSegment(s, st.Base(s.direction))
    ensures Genuine(Receive(st, s, depth, available), stream)
  {
    hide Genuine, Sound, Insert, Acknowledge, Flush, Agrees;
    var e := Receive(st, s, depth, available);
    if (s.data == [] && !(s.syn || s.fin || s.rst)) || s.sequence < st.Base(s.direction) {
      SameEntriesGenuine(st, e, stream);
    } else {
      var rev := Opposite(s.direction);
      var acked := if st.FlowOf(s.direction).linked && st.FlowOf(rev).queue != [] then Acknowledge(st, rev, s.ackNum) else st;
      AcknowledgeGenuine(st, rev, s.ackNum, stream);
      AcknowledgeInv(st, rev, s.ackNum, depth);
      AcknowledgeBases(st, rev, s.ackNum);
      if s.fin || s.rst {
        SameEntriesGenuine(acked, acked.Release(s.work), stream);
        FlushGenuine(acked.Release(s.work), s.direction, stream);
        SameEntriesGenuine(Flush(acked.Release(s.work), s.direction), e, stream);
      } else if |acked.FlowOf(s.direction).queue| >= depth || !available {
        SameEntriesGenuine(acked, e, stream);
      } else {
        InsertGenuine(acked, s, depth, stream);
      }
    }
  }

  lemma ExpireGenuine(st: State, stream: Stream)
    requires Genuine(st, stream)
    ensures Genuine(Expire(st), stream)
  {
    hide Genuine, Flush;
    var a := Flush(st, Positive);
    FlushGenuine(st, Positive, stream);
    var a' := a.WithFlow(Positive, a.positive.(linked := false));
    SameEntriesGenuine(a, a', stream);
    FlushGenuine(a', Negative, stream);
    SameEntriesGenuine(Flush(a', Negative), Expire(st), stream);
  }

  /** Over any run of segments that agree with one stream and do not wrap, every entry queued
      and every entry sent carries exactly the stream's bytes for its range. */
  lemma {:induction false} RunGenuine(firstSeq: nat, firstAck: nat, events: seq<Event>, depth: nat, stream: Stream)
    requires depth > 0 && SoundEvents(events, firstSeq, firstAck)
    requires forall i | 0 <= i < |events| && events[i].Packet? :: Agrees(events[i].segment, stream)
    ensures Genuine(ReassemblyLedger.Run(NewSession(firstSeq, firstAck), events, depth), stream)
  {
    hide Genuine, Receive, Expire, Sound, Agrees, Inv;
    if events == [] {
      NewGenuine(firstSeq, firstAck, stream);
    } else {
      var init := events[..|events| - 1];
      assert forall i | 0 <= i < |init| :: init[i] == events[i];
      RunGenuine(firstSeq, firstAck, init, depth, stream);
      RunKeepsInv(firstSeq, firstAck, init, depth);
      var st, e := ReassemblyLedger.Run(NewSession(firstSeq, firstAck), init, depth), events[|events| - 1];
      if e.Packet? {
        ReceiveGenuine(st, e.segment, depth, e.available, stream);
      } else {
        ExpireGenuine(st, stream);
      }
    }
  }

  lemma NewGenuine(firstSeq: nat, firstAck: nat, stream: Stream)
    ensures Genuine(NewSession(firstSeq, firstAck), stream)
  {
  }

  // Acknowledgements

  /** The first k entries, and no more, follow on from the head without a gap. */
  ghost predicate ContiguousRun(q: seq<Entry>, k: nat) {
    1 <= k <= |q| && (forall i | 0 < i < k :: q[i].seqNum == q[i - 1].nxtSeq) &&
    (k < |q| ==> q[k].seqNum > q[k - 1].nxtSeq)
  }

  lemma {:induction false} EndedByPrefix(q: seq<Entry>, n: nat, base: nat)
    requires Sound(q, base)
    ensures forall i | 0 <= i < |q| :: q[i].nxtSeq <= n <==> i < EndedBy(q, n)
  {
    hide Sound;
    if q != [] {
      SoundHead(q, base);
      if q[0].nxtSeq <= n {
        EndedByPrefix(q[1..], n, base);
        forall i | 0 < i < |q|
          ensures q[i].nxtSeq <= n <==> i < EndedBy(q, n)
        {
          assert q[1..][i - 1] == q[i];
        }
      } else {
        forall i | 0 <= i < |q|
          ensures q[i].nxtSeq > n
        {
          SoundAt(q, base, i);
        }
      }
    }
  }

  /** Past a gap nothing starts at the number, so nothing moves it. */
  lemma {:induction false} AdvanceStays(q: seq<Entry>, n: nat)
    requires forall i | 0 <= i < |q| :: q[i].seqNum > n
    ensures Advance(q, n) == n
  {
    if q != [] {
      assert forall i | 0 <= i < |q[1..]| :: q[1..][i] == q[i + 1];
      AdvanceStays(q[1..], n);
    }
  }

  lemma {:induction false} AdvanceToGap(q: seq<Entry>, base: nat) returns (k: nat)
    requires Sound(q, base) && q != []
    ensures 1 <= k <= |q| && ContiguousRun(q, k) && Advance(q, q[0].seqNum) == q[k - 1].nxtSeq
  {
    hide Sound;
    SoundHead(q, base);
    SeqGtIsGreater(q[0].nxtSeq, q[0].seqNum);
    var rest := q[1..];
    k := 1;
    if rest != [] {
      StartsAfter(q, base);
      if rest[0].seqNum == q[0].nxtSeq {
        var m := AdvanceToGap(rest, base);
        k := m + 1;
        forall i | 0 < i < k
          ensures q[i].seqNum == q[i - 1].nxtSeq
        {
          assert q[i] == rest[i - 1] && (i > 1 ==> q[i - 1] == rest[i - 2]);
        }
      } else {
        AdvanceStays(rest, q[0].nxtSeq);
      }
    }
  }

  lemma StartsAfter(q: seq<Entry>, base: nat)
    requires Sound(q, base) && |q| > 1
    ensures q[1].seqNum >= q[0].nxtSeq
    ensures q[1].seqNum > q[0].nxtSeq ==> forall i | 0 <= i < |q[1..]| :: q[1..][i].seqNum > q[0].nxtSeq
  {
    forall i | 0 <= i < |q[1..]|
      ensures q[1..][i].seqNum >= q[1].seqNum
    {
      assert i == 0 || (SoundEntry(q[1], base) && q[1].nxtSeq <= q[i + 1].seqNum);
    }
  }

  /** An acknowledgement of exactly the expected number sends, in order, the entries that end at
      or before it and keeps the others; then either nothing is left and nothing is expected, or
      the end of the unbroken run from the new head is. */
  lemma AcknowledgeReleases(st: State, d: Direction, base: nat) returns (n: nat, k: nat)
    requires Sound(st.FlowOf(d).queue, base)
    ensures n <= |st.FlowOf(d).queue|
    ensures
      var f, e := st.FlowOf(d), Acknowledge(st, d, st.FlowOf(d).rcvNxt);
      (forall i | 0 <= i < |f.queue| :: f.queue[i].nxtSeq <= f.rcvNxt <==> i < n) &&
      e.emitted == st.emitted + f.queue[..n] && e.FlowOf(d).queue == f.queue[n..] &&
      e.FlowOf(Opposite(d)) == st.FlowOf(Opposite(d)) &&
      if n == |f.queue| then e.FlowOf(d).rcvNxt == 0
      else ContiguousRun(f.queue[n..], k) && e.FlowOf(d).rcvNxt == f.queue[n + k - 1].nxtSeq
  {
    hide Sound, ContiguousRun, Advance, EndedBy, Works;
    var f := st.FlowOf(d);
    n, k := EndedBy(f.queue, f.rcvNxt), 0;
    EndedByPrefix(f.queue, f.rcvNxt, base);
    ToIntExact(0);
    SoundTail(f.queue, base, n);
    if n < |f.queue| {
      k := AdvanceToGap(f.queue[n..], base);
    }
  }

  /** Any other acknowledgement sends the whole queue and expects nothing. */
  lemma AcknowledgeFlushes(st: State, d: Direction, ackNum: nat)
    requires -TWO31 <= ackNum - st.FlowOf(d).rcvNxt < TWO31 && ackNum != st.FlowOf(d).rcvNxt
    ensures var e := Acknowledge(st, d, ackNum);
      e.emitted == st.emitted + st.FlowOf(d).queue && e.FlowOf(d).queue == [] && e.FlowOf(d).rcvNxt == 0 &&
      e.FlowOf(Opposite(d)) == st.FlowOf(Opposite(d))
  {
    hide ToInt, Works;
    ToIntExact(ackNum - st.FlowOf(d).rcvNxt);
    var q := st.FlowOf(d).queue;
    assert q[..|q|] == q && q[|q|..] == [];
  }
}
