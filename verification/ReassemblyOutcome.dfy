/** What one packet does to a session, said of the queues themselves: when it is refused, where a
    segment goes in and what it covers, what an acknowledgement and the end of a flow send. */
module ReassemblyOutcome {
  import opened Bytes
  import opened Reassembly
  import opened ReassemblyBytes
  import opened ReassemblyStream

  /** A bare acknowledgement, or a segment from before the session. */
  ghost predicate Outright(st: State, s: Segment) {
    (s.data == [] && !s.syn && !s.fin && !s.rst) || s.sequence < st.Base(s.direction)
  }

  ghost predicate SoundQueues(st: State) {
    Sound(st.positive.queue, st.firstSeq) && Sound(st.negative.queue, st.firstAck)
  }

  /** A flow's queue when an acknowledgement came: of just the expected number it sends the entries
      that end by it, and expects the end of the unbroken run at the new head; of any other it sends
      everything. */
  ghost predicate AckDone(was: Flow, ackNum: nat, now: Flow, sent: seq<Entry>) {
    now.linked == was.linked && sent + now.queue == was.queue &&
    if (ackNum - was.rcvNxt) % TWO32 != 0 then now.queue == [] && now.rcvNxt == 0
    else
      (forall e | e in sent :: e.nxtSeq <= was.rcvNxt) && (forall e | e in now.queue :: e.nxtSeq > was.rcvNxt) &&
      if now.queue == [] then now.rcvNxt == 0 else RunEnds(now.queue, now.rcvNxt)
  }

  /** The number is where the unbroken run at the front ends. */
  ghost predicate RunEnds(q: seq<Entry>, number: nat) {
    exists k: nat :: k > 0 && ContiguousRun(q, k) && q[k - 1].nxtSeq == number
  }

  /** The first n entries, and no others, start at or before a number. */
  ghost predicate StartsUpTo(q: seq<Entry>, number: nat, n: nat) {
    n <= |q| && (forall i | 0 <= i < n :: q[i].seqNum <= number) && (n < |q| ==> q[n].seqNum > number)
  }

  /** From entry n on, those before k and no others end at or before a number. */
  ghost predicate EndsUpTo(q: seq<Entry>, n: nat, number: nat, k: nat) {
    n <= k <= |q| && (forall i | n <= i < k :: q[i].nxtSeq <= number) && (k < |q| ==> q[k].nxtSeq > number)
  }

  function EndOf(s: Segment): nat {
    s.sequence + |s.data|
  }

  /** The entry before the segment starts more than 64K back, or reaches past the segment's end. */
  ghost predicate Useless(q: seq<Entry>, s: Segment, n: nat)
    requires n <= |q|
  {
    n > 0 && (s.sequence - q[n - 1].seqNum > 0x1_0000 || q[n - 1].nxtSeq > EndOf(s))
  }

  /** The entry before the segment ends just where the segment does. */
  ghost predicate Replaces(q: seq<Entry>, s: Segment, n: nat)
    requires n <= |q|
  {
    n > 0 && s.sequence - q[n - 1].seqNum <= 0x1_0000 && q[n - 1].nxtSeq == EndOf(s) && s.data != []
  }

  /** Where the bytes start that the entry before the segment does not have. */
  function NewFrom(q: seq<Entry>, s: Segment, n: nat): nat
    requires n <= |q|
  {
    if n > 0 && q[n - 1].nxtSeq > s.sequence then q[n - 1].nxtSeq else s.sequence
  }

  /** The queue with the segment's new bytes after entry n, where everything up to k is covered and
      the entry at k loses what the segment has of it. A SYN only covers. */
  ghost function WithSegment(q: seq<Entry>, s: Segment, n: nat, k: nat): seq<Entry>
    requires n <= k <= |q| && NewFrom(q, s, n) <= EndOf(s)
  {
    var from := NewFrom(q, s, n);
    var entry := Entry(from, s.ackNum, EndOf(s), s.work, s.data[from - s.sequence..], s.direction);
    q[..n] + (if s.syn then [] else [entry]) + Kept(q, k, EndOf(s))
  }

  /** The number expected after the segment: its end if nothing else is queued, the end of its own
      run if it starts at the number expected before, and else that number. */
  ghost predicate Expects(was: Flow, s: Segment, n: nat, k: nat, rcvNxt: nat)
    requires n <= k <= |was.queue| && NewFrom(was.queue, s, n) <= EndOf(s)
  {
    if n == 0 && k == |was.queue| then rcvNxt == EndOf(s) + if s.syn then 1 else 0
    else if !s.syn && NewFrom(was.queue, s, n) == was.rcvNxt then RunEnds(WithSegment(was.queue, s, n, k)[n..], rcvNxt)
    else rcvNxt == was.rcvNxt
  }

  /** The segment goes in: kept, or all of it sent when the queue reaches the depth. */
  ghost predicate TakenIn(was: Flow, s: Segment, depth: nat, n: nat, k: nat, now: Flow, sent: seq<Entry>) {
    EndsUpTo(was.queue, n, EndOf(s), k) && NewFrom(was.queue, s, n) <= EndOf(s) && now.linked == was.linked &&
    var queue := WithSegment(was.queue, s, n, k);
    if !s.syn && |queue| >= depth then sent == queue && now.queue == [] && now.rcvNxt == 0
    else sent == [] && now.queue == queue && Expects(was, s, n, k, now.rcvNxt)
  }

  /** A segment without FIN or RST and its flow: refused, replacing the entry before it, or taken in. */
  ghost predicate SegmentDone(was: Flow, s: Segment, depth: nat, available: bool, n: nat, k: nat, now: Flow, sent: seq<Entry>) {
    StartsUpTo(was.queue, s.sequence, n) &&
    if |was.queue| >= depth || !available || Useless(was.queue, s, n) then now == was && sent == []
    else if Replaces(was.queue, s, n) then
      sent == [] &&
      now == was.(queue := was.queue[n - 1 := Entry(s.sequence, s.ackNum, EndOf(s), s.work, s.data, was.queue[n - 1].direction)])
    else TakenIn(was, s, depth, n, k, now, sent)
  }

  // Acknowledgements

  lemma AckSays(st: State, d: Direction, ackNum: nat) returns (sent: seq<Entry>)
    requires Sound(st.FlowOf(d).queue, st.Base(d))
    ensures
      var e := Acknowledge(st, d, ackNum);
      AckDone(st.FlowOf(d), ackNum, e.FlowOf(d), sent) && e.emitted == st.emitted + sent &&
      e.FlowOf(Opposite(d)) == st.FlowOf(Opposite(d)) && e.expired == st.expired && SameBases(st, e)
  {
    hide Sound, Acknowledge;
    var f := st.FlowOf(d);
    ZeroDifference(ackNum - f.rcvNxt);
    AckKeeps(st, d, ackNum);
    if (ackNum - f.rcvNxt) % TWO32 != 0 {
      sent := f.queue;
      assert sent + [] == f.queue;
    } else {
      var n, k := AcknowledgeReleases(st, d, st.Base(d));
      sent := f.queue[..n];
      ExpectedAck(f.queue, f.rcvNxt, n);
      assert n < |f.queue| ==> f.queue[n..][k - 1] == f.queue[n + k - 1];
    }
  }

  lemma ExpectedAck(q: seq<Entry>, number: nat, n: nat)
    requires n <= |q| && forall i | 0 <= i < |q| :: q[i].nxtSeq <= number <==> i < n
    ensures q[..n] + q[n..] == q
    ensures (forall e | e in q[..n] :: e.nxtSeq <= number) && forall e | e in q[n..] :: e.nxtSeq > number
  {
  }

  lemma AckKeeps(st: State, d: Direction, ackNum: nat)
    ensures
      var f, e := st.FlowOf(d), Acknowledge(st, d, ackNum);
      e.FlowOf(d).linked == f.linked && e.expired == st.expired && SameBases(st, e) &&
      e.FlowOf(Opposite(d)) == st.FlowOf(Opposite(d)) &&
      if ToInt(ackNum - f.rcvNxt) == 0 then e == Acknowledge(st, d, f.rcvNxt)
      else e.FlowOf(d) == Flow(0, [], f.linked) && e.emitted == st.emitted + f.queue
  {
    hide EndedBy, Advance, Works, ToInt;
    ToIntExact(0);
    var q := st.FlowOf(d).queue;
    assert q[..|q|] == q && q[|q|..] == [];
  }

  lemma ZeroDifference(x: int)
    ensures ToInt(x) == 0 <==> x % TWO32 == 0
  {
  }

  // Segments

  /** The walk along a run that starts with the first entry stops at its end. */
  lemma {:induction false} RunToGap(q: seq<Entry>, base: nat) returns (k: nat)
    requires Sound(q, base) && q != []
    ensures k > 0 && ContiguousRun(q, k) && Run(q[1..], q[0].nxtSeq) == q[k - 1].nxtSeq
  {
    hide Sound, SeqGt;
    var rest := q[1..];
    k := 1;
    if rest != [] {
      SoundHead(q, base);
      StartsAfter(q, base);
      if rest[0].seqNum == q[0].nxtSeq {
        SoundHead(rest, base);
        SeqGtIsGreater(rest[0].nxtSeq, rest[0].seqNum);
        var m := RunToGap(rest, base);
        k := m + 1;
        forall i | 0 < i < k
          ensures q[i].seqNum == q[i - 1].nxtSeq
        {
          assert q[i] == rest[i - 1] && (i > 1 ==> q[i - 1] == rest[i - 2]);
        }
      }
    }
  }

  /** What trimming comes to. */
  lemma TrimSays(q: seq<Entry>, n: nat, end: nat, base: nat) returns (k: nat)
    requires Sound(q, base) && n <= |q| && InWindow(base, end)
    ensures EndsUpTo(q, n, end, k) && TrimTail(q[n..], end) == Kept(q, k, end) && (Kept(q, k, end) == [] <==> k == |q|)
  {
    hide Sound, TrimTail, Covered, Kept;
    SoundTail(q, base, n);
    TrimTailIsKept(q[n..], end, base);
    var c := Covered(q[n..], end);
    k := n + c;
    KeptFrom(q, n, c, end);
    assert forall i | n <= i < k :: q[i] == q[n..][i - n];
    assert k < |q| ==> q[k] == q[n..][c];
  }

  /** What joining comes to. */
  lemma JoinSays(q: seq<Entry>, s: Segment, n: nat, skip: nat, base: nat) returns (k: nat)
    requires Sound(q, base) && n <= |q| && (skip == 0 || skip < |s.data|) && s.sequence + skip == NewFrom(q, s, n)
    requires InWindow(base, EndOf(s)) && base <= s.sequence
    ensures EndsUpTo(q, n, EndOf(s), k) && Join(q, s, n, skip) == WithSegment(q, s, n, k)
    ensures q[..n] + TrimTail(q[n..], EndOf(s)) == [] <==> n == 0 && k == |q|
  {
    hide Sound, TrimTail, Kept, NewFrom;
    k := TrimSays(q, n, EndOf(s), base);
    assert (s.sequence + skip) % TWO32 == s.sequence + skip;
  }

  lemma KeptFrom(q: seq<Entry>, n: nat, c: nat, end: nat)
    requires n + c <= |q|
    ensures Kept(q[n..], c, end) == Kept(q, n + c, end) && (Kept(q, n + c, end) == [] <==> n + c == |q|)
  {
    assert q[n..][c..] == q[n + c..];
    if n + c < |q| {
      assert q[n..][c] == q[n + c] && q[n..][c + 1..] == q[n + c + 1..];
    }
  }

  /** A segment that is placed is taken in. */
  lemma PlaceSays(st: State, s: Segment, n: nat, skip: nat, depth: nat) returns (k: nat, sent: seq<Entry>)
    requires Sound(st.FlowOf(s.direction).queue, st.Base(s.direction)) && n <= |st.FlowOf(s.direction).queue|
    requires skip == 0 || skip < |s.data|
    requires s.sequence + skip == NewFrom(st.FlowOf(s.direction).queue, s, n) && (s.data != [] || s.syn)
    requires InWindow(st.Base(s.direction), EndOf(s)) && st.Base(s.direction) <= s.sequence
    requires Sound(Join(st.FlowOf(s.direction).queue, s, n, skip), st.Base(s.direction))
    ensures
      var d, e := s.direction, Place(st, s, n, skip, depth);
      TakenIn(st.FlowOf(d), s, depth, n, k, e.FlowOf(d), sent) && e.emitted == st.emitted + sent &&
      e.FlowOf(Opposite(d)) == st.FlowOf(Opposite(d)) && e.expired == st.expired
  {
    hide Sound, TrimTail, Covered, Join, Works, Run, ContiguousRun, WithSegment;
    var f, base := st.FlowOf(s.direction), st.Base(s.direction);
    k := JoinSays(f.queue, s, n, skip, base);
    PlaceOutcome(st, s, n, skip, depth);
    var queue := Join(f.queue, s, n, skip);
    sent := if !s.syn && |queue| >= depth then queue else [];
    assert st.emitted + [] == st.emitted;
    if !s.syn && |queue| < depth {
      PlaceExpects(st, s, n, k, skip, depth);
    }
  }

  lemma PlaceExpects(st: State, s: Segment, n: nat, k: nat, skip: nat, depth: nat)
    requires Sound(st.FlowOf(s.direction).queue, st.Base(s.direction)) && n <= k <= |st.FlowOf(s.direction).queue|
    requires skip == 0 || skip < |s.data|
    requires s.sequence + skip == NewFrom(st.FlowOf(s.direction).queue, s, n) && s.data != [] && !s.syn
    requires InWindow(st.Base(s.direction), EndOf(s)) && st.Base(s.direction) <= s.sequence
    requires Sound(Join(st.FlowOf(s.direction).queue, s, n, skip), st.Base(s.direction))
    requires Join(st.FlowOf(s.direction).queue, s, n, skip) == WithSegment(st.FlowOf(s.direction).queue, s, n, k)
    requires st.FlowOf(s.direction).queue[..n] + TrimTail(st.FlowOf(s.direction).queue[n..], EndOf(s)) == [] <==>
      n == 0 && k == |st.FlowOf(s.direction).queue|
    requires |Join(st.FlowOf(s.direction).queue, s, n, skip)| < depth
    ensures Expects(st.FlowOf(s.direction), s, n, k, Place(st, s, n, skip, depth).FlowOf(s.direction).rcvNxt)
  {
    hide Sound, TrimTail, Covered, Works, Run, ContiguousRun, Kept;
    var f, base := st.FlowOf(s.direction), st.Base(s.direction);
    var queue := Join(f.queue, s, n, skip);
    SeqGtIsGreater(EndOf(s), s.sequence + skip);
    SoundTail(queue, base, n);
    assert queue[n..] != [] && queue[n..][0].nxtSeq == EndOf(s) && queue[n..][1..] == queue[n + 1..];
    var m := RunToGap(queue[n..], base);
  }

  /** What the code's verdict on the entry before the segment comes to. */
  lemma JudgeSays(q: seq<Entry>, s: Segment, n: nat, base: nat)
    requires Sound(q, base) && 0 < n <= |q| && q[n - 1].seqNum <= s.sequence && InWindow(base, EndOf(s))
    ensures
      var v := Judge(q[n - 1], s.sequence, s.data);
      (v == TooFar || v == Duplicate <==> Useless(q, s, n)) && (v == SameEnd <==> Replaces(q, s, n)) &&
      (v.Fits? ==> s.sequence + v.skip == NewFrom(q, s, n))
  {
    hide Sound;
    SoundAt(q, base, n - 1);
    ToIntExact(q[n - 1].nxtSeq - s.sequence);
  }

  lemma InsertSays(st: State, s: Segment, depth: nat) returns (n: nat, k: nat, sent: seq<Entry>)
    requires Sound(st.FlowOf(s.direction).queue, st.Base(s.direction)) && |st.FlowOf(s.direction).queue| < depth
    requires InWindow(st.Base(s.direction), EndOf(s)) && st.Base(s.direction) <= s.sequence && (s.data != [] || s.syn)
    ensures
      var d, e := s.direction, Insert(st, s, depth);
      SegmentDone(st.FlowOf(d), s, depth, true, n, k, e.FlowOf(d), sent) && e.emitted == st.emitted + sent &&
      e.FlowOf(Opposite(d)) == st.FlowOf(Opposite(d)) && e.expired == st.expired
  {
    hide Sound, Place, Judge, Join, Position, TakenIn, Useless, Replaces, NewFrom;
    var f, base := st.FlowOf(s.direction), st.Base(s.direction);
    var taken := st.(allocs := st.allocs + 1);
    n, k, sent := Position(f.queue, s.sequence), 0, [];
    PositionSplits(f.queue, s.sequence, base);
    MergeSound(f.queue, s, base);
    assert st.emitted + [] == st.emitted;
    if n == 0 {
      NothingBefore(f.queue, s);
      k, sent := PlaceSays(taken, s, 0, 0, depth);
    } else {
      JudgeSays(f.queue, s, n, base);
      var v := Judge(f.queue[n - 1], s.sequence, s.data);
      if v.Fits? {
        k, sent := PlaceSays(taken, s, n, v.skip, depth);
      } else if v == SameEnd {
        ReplacingEntry(f.queue, s, n, base);
      }
    }
  }

  lemma ReplacingEntry(q: seq<Entry>, s: Segment, n: nat, base: nat)
    requires 0 < n <= |q| && Replaces(q, s, n) && InWindow(base, EndOf(s))
    ensures
      q[n - 1].(seqNum := s.sequence % TWO32, ackNum := s.ackNum, work := s.work, data := s.data) ==
      Entry(s.sequence, s.ackNum, EndOf(s), s.work, s.data, q[n - 1].direction)
  {
  }

  lemma NothingBefore(q: seq<Entry>, s: Segment)
    ensures !Useless(q, s, 0) && !Replaces(q, s, 0) && NewFrom(q, s, 0) == s.sequence
  {
  }

  /** Everything a packet does. Outright it is dropped. Otherwise it first acknowledges the other
      flow, if that has anything queued; then FIN or RST sends all of its own flow and ends the
      session, and any other segment is refused, replaces an entry or is taken in. */
  lemma ReceiveSays(st: State, s: Segment, depth: nat, available: bool) returns (n: nat, k: nat, acked: seq<Entry>, sent: seq<Entry>)
    requires SoundQueues(st) && SoundSegment(s, st.Base(s.direction))
    ensures
      var d, e := s.direction, Receive(st, s, depth, available);
      var own, other := st.FlowOf(d), st.FlowOf(Opposite(d));
      e.emitted == st.emitted + acked + sent && SameBases(st, e) &&
      e.expired == (st.expired || (!Outright(st, s) && (s.fin || s.rst))) &&
      if Outright(st, s) then acked == [] && sent == [] && e.positive == st.positive && e.negative == st.negative
      else
        (if own.linked && other.queue != [] then AckDone(other, s.ackNum, e.FlowOf(Opposite(d)), acked)
         else acked == [] && e.FlowOf(Opposite(d)) == other) &&
        if s.fin || s.rst then sent == own.queue && e.FlowOf(d) == Flow(0, [], own.linked)
        else SegmentDone(own, s, depth, available, n, k, e.FlowOf(d), sent)
  {
    hide Sound, Insert, Acknowledge, SegmentDone, AckDone, Flush;
    var d, rev := s.direction, Opposite(s.direction);
    n, k, acked, sent := 0, 0, [], [];
    assert st.emitted + [] == st.emitted;
    ReceiveBases(st, s, depth, available);
    if !Outright(st, s) {
      var mid := st;
      if st.FlowOf(d).linked && st.FlowOf(rev).queue != [] {
        acked := AckSays(st, rev, s.ackNum);
        mid := Acknowledge(st, rev, s.ackNum);
      }
      assert mid.emitted + [] == mid.emitted;
      if s.fin || s.rst {
        sent := mid.FlowOf(d).queue;
        FlushSays(mid.Release(s.work), d);
      } else if |mid.FlowOf(d).queue| >= depth || !available {
        n := RefusedSays(mid.FlowOf(d), s, mid.Base(d), depth, available);
        k := n;
      } else {
        n, k, sent := InsertSays(mid, s, depth);
      }
    }
  }

  lemma FlushSays(st: State, d: Direction)
    ensures
      var e := Flush(st, d);
      e.FlowOf(d) == Flow(0, [], st.FlowOf(d).linked) && e.emitted == st.emitted + st.FlowOf(d).queue &&
      e.FlowOf(Opposite(d)) == st.FlowOf(Opposite(d)) && e.expired == st.expired
  {
    hide Works;
    var q := st.FlowOf(d).queue;
    assert q[..|q|] == q && q[|q|..] == [];
  }

  lemma RefusedSays(f: Flow, s: Segment, base: nat, depth: nat, available: bool) returns (n: nat)
    requires Sound(f.queue, base) && InWindow(base, EndOf(s)) && base <= s.sequence && (|f.queue| >= depth || !available)
    ensures SegmentDone(f, s, depth, available, n, n, f, [])
  {
    hide Sound;
    n := Position(f.queue, s.sequence);
    PositionSplits(f.queue, s.sequence, base);
  }

  // The bytes of a segment taken in

  /** A segment taken in starts past the entries before it. */
  lemma TakenSkip(q: seq<Entry>, s: Segment, n: nat, base: nat)
    requires Sound(q, base) && s.data != [] && InWindow(base, EndOf(s)) && base <= s.sequence
    requires StartsUpTo(q, s.sequence, n) && !Useless(q, s, n) && !Replaces(q, s, n)
    ensures s.sequence <= NewFrom(q, s, n) < EndOf(s)
    ensures forall i | 0 <= i < n :: q[i].nxtSeq <= NewFrom(q, s, n)
    ensures n < |q| ==> NewFrom(q, s, n) <= q[n].seqNum
  {
    hide Sound;
    if n > 0 {
      SoundAt(q, base, n - 1);
      if n < |q| {
        SoundPair(q, base, n - 1);
      }
    }
  }

  lemma EndsOnce(q: seq<Entry>, n: nat, number: nat, k: nat, c: nat)
    requires EndsUpTo(q, n, number, k) && EndsUpTo(q, n, number, c)
    ensures k <= c
  {
  }

  /** The queue with the segment is the one that the code's joining makes. */
  lemma TakenJoin(q: seq<Entry>, s: Segment, n: nat, k: nat, base: nat)
    requires Sound(q, base) && s.data != [] && InWindow(base, EndOf(s)) && base <= s.sequence
    requires StartsUpTo(q, s.sequence, n) && EndsUpTo(q, n, EndOf(s), k) && !Useless(q, s, n) && !Replaces(q, s, n)
    ensures NewFrom(q, s, n) < EndOf(s) && Join(q, s, n, NewFrom(q, s, n) - s.sequence) == WithSegment(q, s, n, k)
    ensures Sound(WithSegment(q, s, n, k), base)
  {
    hide Sound, Join, Kept, StartsUpTo, Useless, Replaces, NewFrom;
    TakenSkip(q, s, n, base);
    StartsIn(q, s.sequence, n);
    var skip := NewFrom(q, s, n) - s.sequence;
    var c := JoinSays(q, s, n, skip, base);
    EndsOnce(q, n, EndOf(s), k, c);
    EndsOnce(q, n, EndOf(s), c, k);
    JoinSound(q, s, n, skip, base);
  }

  lemma StartsIn(q: seq<Entry>, number: nat, n: nat)
    requires StartsUpTo(q, number, n)
    ensures n <= |q|
  {
  }

  /** The queue with the segment, whether kept or sent, holds just what it held and the segment's
      bytes: the segment's from where the entry before it ends, the old ones elsewhere. */
  lemma TakenBytes(q: seq<Entry>, s: Segment, n: nat, k: nat, base: nat, x: int)
    requires Sound(q, base) && !s.syn && s.data != [] && InWindow(base, EndOf(s)) && base <= s.sequence
    requires StartsUpTo(q, s.sequence, n) && EndsUpTo(q, n, EndOf(s), k) && !Useless(q, s, n) && !Replaces(q, s, n)
    ensures NewFrom(q, s, n) < EndOf(s) && Sound(WithSegment(q, s, n, k), base)
    ensures
      var now := ByteAt(WithSegment(q, s, n, k), x);
      now == (if NewFrom(q, s, n) <= x < EndOf(s) then Some(s.data[x - s.sequence]) else ByteAt(q, x)) &&
      (now.Some? <==> ByteAt(q, x).Some? || s.sequence <= x < EndOf(s))
  {
    hide Sound, Join, ByteAt, WithSegment, EndsUpTo, Useless, Replaces;
    TakenSkip(q, s, n, base);
    TakenJoin(q, s, n, k, base);
    JoinBytes(q, s, n, NewFrom(q, s, n) - s.sequence, base, x);
    if s.sequence <= x < NewFrom(q, s, n) {
      SoundAt(q, base, n - 1);
      ByteOfEntry(q, base, n - 1, x);
    }
  }

  lemma StartsOnce(q: seq<Entry>, number: nat, n: nat, c: nat)
    requires StartsUpTo(q, number, n) && StartsUpTo(q, number, c)
    ensures n <= c
  {
  }

  /** A segment that replaces the entry before it: that entry's bytes before the segment are lost. */
  lemma ReplacedBytes(q: seq<Entry>, s: Segment, n: nat, base: nat, x: int)
    requires Sound(q, base) && InWindow(base, EndOf(s)) && base <= s.sequence
    requires StartsUpTo(q, s.sequence, n) && Replaces(q, s, n)
    ensures
      var now := q[n - 1 := Entry(s.sequence, s.ackNum, EndOf(s), s.work, s.data, q[n - 1].direction)];
      ByteAt(now, x) ==
        if q[n - 1].seqNum <= x < s.sequence then None
        else if s.sequence <= x < EndOf(s) then Some(s.data[x - s.sequence])
        else ByteAt(q, x)
  {
    hide Sound, ByteAt, Judge;
    PositionSplits(q, s.sequence, base);
    StartsOnce(q, s.sequence, n, Position(q, s.sequence));
    StartsOnce(q, s.sequence, Position(q, s.sequence), n);
    JudgeSays(q, s, n, base);
    ReplacingEntry(q, s, n, base);
    SameEndBytes(q, s, base, x);
  }

  /** What is held or was handed on of a flow: its queue, and behind it what was just sent of it. */
  ghost predicate Held(f: Flow, sent: seq<Entry>, e: Entry) {
    e in f.queue || e in sent
  }

  /** A data segment's packet is held or handed on if and only if there was room and an entry for it
      and the entry before it neither starts too far back nor reaches past its end. */
  lemma KeptExactly(st: State, s: Segment, depth: nat, available: bool) returns (n: nat, acked: seq<Entry>, sent: seq<Entry>)
    requires SoundQueues(st) && SoundSegment(s, st.Base(s.direction)) && !Outright(st, s) && !s.syn && !s.fin && !s.rst
    requires forall e | e in st.FlowOf(s.direction).queue :: e.work != s.work
    ensures
      var own, e := st.FlowOf(s.direction), Receive(st, s, depth, available);
      e.emitted == st.emitted + acked + sent && StartsUpTo(own.queue, s.sequence, n) &&
      ((exists x :: Held(e.FlowOf(s.direction), sent, x) && x.work == s.work) <==>
       |own.queue| < depth && available && !Useless(own.queue, s, n))
  {
    hide Sound, Receive, StartsUpTo, Useless, Replaces, Expects, Kept, NewFrom;
    var own, e, k := st.FlowOf(s.direction), Receive(st, s, depth, available), 0;
    n, k, acked, sent := ReceiveSays(st, s, depth, available);
    StartsIn(own.queue, s.sequence, n);
    if |own.queue| < depth && available && !Useless(own.queue, s, n) {
      if Replaces(own.queue, s, n) {
        assert n > 0 by {
          NothingBefore(own.queue, s);
        }
        var x := e.FlowOf(s.direction).queue[n - 1];
        assert Held(e.FlowOf(s.direction), sent, x) && x.work == s.work;
      } else {
        var x := WithSegment(own.queue, s, n, k)[n];
        assert Held(e.FlowOf(s.direction), sent, x) && x.work == s.work;
      }
    }
  }

  /** And then the flow, counting what was just sent of it, holds every byte of the segment. */
  lemma DataHeld(st: State, s: Segment, depth: nat, available: bool, x: int) returns (n: nat, held: seq<Entry>, acked: seq<Entry>)
    requires SoundQueues(st) && SoundSegment(s, st.Base(s.direction)) && !Outright(st, s) && !s.syn && !s.fin && !s.rst
    requires |st.FlowOf(s.direction).queue| < depth && available
    ensures
      var own, now, emitted := st.FlowOf(s.direction).queue, Receive(st, s, depth, available).FlowOf(s.direction).queue,
        Receive(st, s, depth, available).emitted;
      StartsUpTo(own, s.sequence, n) &&
      (if |held| >= depth then now == [] && emitted == st.emitted + acked + held else now == held && emitted == st.emitted + acked) &&
      ByteAt(held, x) ==
        if Useless(own, s, n) then ByteAt(own, x)
        else if Replaces(own, s, n) && own[n - 1].seqNum <= x < s.sequence then None
        else if s.sequence <= x < EndOf(s) && (Replaces(own, s, n) || NewFrom(own, s, n) <= x) then Some(s.data[x - s.sequence])
        else ByteAt(own, x)
  {
    hide Sound, Receive, StartsUpTo, Useless, Replaces, Expects, WithSegment, ByteAt, NewFrom;
    var d := s.direction;
    var own, e := st.FlowOf(d), Receive(st, s, depth, available);
    var k, sent;
    n, k, acked, sent := ReceiveSays(st, s, depth, available);
    held := if sent == [] then e.FlowOf(d).queue else sent;
    assert st.emitted + acked + [] == st.emitted + acked;
    OwnSound(st, d);
    StartsIn(own.queue, s.sequence, n);
    NothingBefore(own.queue, s);
    if !Useless(own.queue, s, n) {
      if Replaces(own.queue, s, n) {
        ReplacedBytes(own.queue, s, n, st.Base(d), x);
      } else {
        TakenSkip(own.queue, s, n, st.Base(d));
        TakenBytes(own.queue, s, n, k, st.Base(d), x);
      }
    }
  }

  lemma OwnSound(st: State, d: Direction)
    requires SoundQueues(st)
    ensures Sound(st.FlowOf(d).queue, st.Base(d))
  {
  }

  /** Expiry sends both queues, the positive first, and leaves the flows empty and unlinked. */
  lemma ExpireSays(st: State)
    ensures
      var e := Expire(st);
      e.emitted == st.emitted + st.positive.queue + st.negative.queue && e.expired == st.expired &&
      e.positive == Flow(0, [], false) && e.negative == Flow(0, [], false) && SameBases(st, e)
  {
    hide Works;
    FlushSays(st, Positive);
    var a := Flush(st, Positive);
    FlushSays(a.WithFlow(Positive, a.positive.(linked := false)), Negative);
  }
}
