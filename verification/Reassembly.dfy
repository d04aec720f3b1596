/** TCP flow reassembly: what one arriving segment, one acknowledgement, a flush and the
    expiry of a session do to the two bounded out-of-order queues of a session. */
module Reassembly {
  import opened Bytes

  const TWO31: int := 0x8000_0000
  const TWO32: int := 0x1_0000_0000
  const TWO64: int := 0x1_0000_0000_0000_0000
  const FAR: int := 64 * 1024

  /** The C conversion of an unsigned difference to int: its low 32 bits, read as signed. */
  function ToInt(x: int): int {
    var low := x % TWO32;
    if low >= TWO31 then low - TWO32 else low
  }

  predicate SeqGt(a: int, b: int) {
    ToInt(a - b) > 0
  }

  lemma ToIntExact(x: int)
    requires -TWO31 <= x < TWO31
    ensures ToInt(x) == x
  {
    if x < 0 {
      assert x % TWO32 == x + TWO32;
    }
  }

  /** Between numbers less than 2^31 apart, the sequence comparison is the ordinary one. */
  lemma SeqGtIsGreater(a: int, b: int)
    requires -TWO31 <= a - b < TWO31
    ensures SeqGt(a, b) <==> a > b
  {
    ToIntExact(a - b);
  }

  datatype Direction = Positive | Negative

  function Opposite(d: Direction): Direction {
    if d == Positive then Negative else Positive
  }

  type Work = nat

  datatype Segment = Segment(work: Work, sequence: nat, ackNum: nat, data: seq<byte>,
                             syn: bool, fin: bool, rst: bool, direction: Direction)

  /** A queue entry: nxtSeq is the number after its last byte. */
  datatype Entry = Entry(seqNum: nat, ackNum: nat, nxtSeq: nat, work: Work, data: seq<byte>, direction: Direction)

  datatype Flow = Flow(rcvNxt: nat, queue: seq<Entry>, linked: bool)

  /** A session's two flows, the numbers its first packet set, and what it has done so far:
      the entries handed to the channel, the work released, the queue entries taken and returned. */
  datatype State = State(positive: Flow, negative: Flow, firstSeq: nat, firstAck: nat, expired: bool,
                         emitted: seq<Entry>, released: seq<Work>, allocs: nat, frees: nat)
  {
    function FlowOf(d: Direction): Flow {
      if d == Positive then positive else negative
    }

    function WithFlow(d: Direction, f: Flow): State {
      if d == Positive then this.(positive := f) else this.(negative := f)
    }

    /** Numbers below this are before the session's first packet. */
    function Base(d: Direction): nat {
      if d == Positive then firstSeq else firstAck
    }

    function Release(w: Work): State {
      this.(released := released + [w])
    }
  }

  function Works(q: seq<Entry>): (w: seq<Work>)
    ensures |w| == |q|
  {
    seq(|q|, i requires 0 <= i < |q| => q[i].work)
  }

  // Emission

  /** Hands the first n entries of a queue to the channel, which takes their work. */
  function Send(st: State, d: Direction, n: nat): State
    requires n <= |st.FlowOf(d).queue|
  {
    var f := st.FlowOf(d);
    st.WithFlow(d, f.(queue := f.queue[n..])).(
      emitted := st.emitted + f.queue[..n], released := st.released + Works(f.queue[..n]), frees := st.frees + n)
  }

  /** Sends everything and resets the flow. */
  function Flush(st: State, d: Direction): State {
    var sent := Send(st, d, |st.FlowOf(d).queue|);
    sent.WithFlow(d, sent.FlowOf(d).(rcvNxt := 0))
  }

  /** How many entries at the front end at or before a number. */
  function EndedBy(q: seq<Entry>, n: nat): (k: nat)
    ensures k <= |q|
  {
    if q != [] && q[0].nxtSeq <= n then 1 + EndedBy(q[1..], n) else 0
  }

  /** Walks the queue from a number, stepping over each entry that starts just there. */
  function Advance(q: seq<Entry>, n: nat): nat {
    if q == [] then n
    else if q[0].seqNum == n && SeqGt(q[0].nxtSeq, n) then Advance(q[1..], q[0].nxtSeq)
    else Advance(q[1..], n)
  }

  /** An acknowledgement for a direction: of exactly the expected number it releases the entries
      that end there and looks for the next run, of any other it flushes the queue. */
  function Acknowledge(st: State, d: Direction, ackNum: nat): State {
    var f := st.FlowOf(d);
    if ToInt(ackNum - f.rcvNxt) != 0 then Flush(st, d)
    else
      var sent := Send(st, d, EndedBy(f.queue, f.rcvNxt));
      var q := sent.FlowOf(d).queue;
      sent.WithFlow(d, sent.FlowOf(d).(rcvNxt := if q == [] then 0 else Advance(q, q[0].seqNum)))
  }

  // Placing one segment

  /** How many entries at the front do not start after a number. */
  function Position(q: seq<Entry>, sequence: nat): (k: nat)
    ensures k <= |q|
  {
    if q != [] && !SeqGt(q[0].seqNum, sequence) then 1 + Position(q[1..], sequence) else 0
  }

  /** What the entry before the segment makes of it. */
  datatype Verdict = TooFar | Duplicate | SameEnd | Fits(skip: nat)

  function Judge(p: Entry, sequence: nat, data: seq<byte>): (v: Verdict)
    ensures v.Fits? ==> v.skip == 0 || v.skip < |data|
  {
    if (sequence - p.seqNum) % TWO64 > FAR then TooFar
    else
      var i := ToInt(p.seqNum + |p.data| - sequence);
      if i <= 0 then Fits(0)
      else if i > |data| then Duplicate
      else if i == |data| then SameEnd
      else Fits(i)
  }

  /** The entries after the segment, without what it covers of them. */
  function TrimTail(q: seq<Entry>, end: nat): seq<Entry> {
    if q == [] then q
    else
      var i := ToInt(end - q[0].seqNum);
      if i <= 0 then q
      else if i < |q[0].data| then [q[0].(seqNum := (q[0].seqNum + i) % TWO32, data := q[0].data[i..])] + q[1..]
      else TrimTail(q[1..], end)
  }

  /** How many whole entries trimming drops. */
  function Covered(q: seq<Entry>, end: nat): (k: nat)
    ensures k <= |q|
  {
    if q == [] then 0
    else
      var i := ToInt(end - q[0].seqNum);
      if i <= 0 || i < |q[0].data| then 0 else 1 + Covered(q[1..], end)
  }

  /** The queue with the bytes of a segment past those the entry before has; a SYN only trims. */
  function Join(q: seq<Entry>, s: Segment, pos: nat, skip: nat): (r: seq<Entry>)
    requires pos <= |q| && (skip == 0 || skip < |s.data|)
    ensures |r| >= pos && (!s.syn ==> |r| > pos)
  {
    var end := s.sequence + |s.data|;
    var te := Entry((s.sequence + skip) % TWO32, s.ackNum, end, s.work, s.data[skip..], s.direction);
    q[..pos] + (if s.syn then [] else [te]) + TrimTail(q[pos..], end)
  }

  /** The queue after a segment, before any flush. */
  function Merge(q: seq<Entry>, s: Segment): seq<Entry> {
    var pos := Position(q, s.sequence);
    if pos == 0 then Join(q, s, 0, 0)
    else
      var v := Judge(q[pos - 1], s.sequence, s.data);
      if v.Fits? then Join(q, s, pos, v.skip)
      else if v == SameEnd then
        q[pos - 1 := q[pos - 1].(seqNum := s.sequence % TWO32, ackNum := s.ackNum, work := s.work, data := s.data)]
      else q
  }

  /** The state with the segment joined in and what it covers dropped. When nothing else is
      queued, the expected number restarts at the segment's end. */
  function Joined(st: State, s: Segment, pos: nat, skip: nat): State
    requires pos <= |st.FlowOf(s.direction).queue| && (skip == 0 || skip < |s.data|)
  {
    var f := st.FlowOf(s.direction);
    var tail := f.queue[pos..];
    var end := s.sequence + |s.data|;
    var gone := Covered(tail, end);
    var rcvNxt := if f.queue[..pos] + TrimTail(tail, end) == [] then end + (if s.syn then 1 else 0) else f.rcvNxt;
    st.WithFlow(s.direction, f.(queue := Join(f.queue, s, pos, skip), rcvNxt := rcvNxt)).(
      released := st.released + Works(tail[..gone]), frees := st.frees + gone)
  }

  /** The segment that fits: a SYN is dropped, a full queue is sent, and a segment that starts at
      the expected number moves it past every entry that follows on. */
  function Place(st: State, s: Segment, pos: nat, skip: nat, depth: nat): State
    requires pos <= |st.FlowOf(s.direction).queue| && (skip == 0 || skip < |s.data|)
  {
    var sequence, nxtSeq := s.sequence + skip, s.sequence + |s.data|;
    var queued := Joined(st, s, pos, skip);
    var f := queued.FlowOf(s.direction);
    if s.syn then queued.Release(s.work).(frees := queued.frees + 1)
    else if |f.queue| >= depth then Flush(queued, s.direction)
    else if sequence == f.rcvNxt then
      var next := if SeqGt(nxtSeq, f.rcvNxt) then nxtSeq else f.rcvNxt;
      queued.WithFlow(s.direction, f.(rcvNxt := Run(f.queue[pos + 1..], next)))
    else queued
  }

  /** Like Advance, but stops at the first entry that does not start at the number. */
  function Run(q: seq<Entry>, n: nat): nat {
    if q != [] && q[0].seqNum == n then Run(q[1..], if SeqGt(q[0].nxtSeq, n) then q[0].nxtSeq else n) else n
  }

  /** Queueing one segment, with a queue entry in hand. */
  function Insert(st: State, s: Segment, depth: nat): State {
    var f := st.FlowOf(s.direction);
    var pos := Position(f.queue, s.sequence);
    var taken := st.(allocs := st.allocs + 1);
    if pos == 0 then Place(taken, s, 0, 0, depth)
    else
      var p := f.queue[pos - 1];
      match Judge(p, s.sequence, s.data)
      case TooFar => taken.Release(s.work).(frees := st.frees + 1)
      case Duplicate => taken.Release(s.work).(frees := st.frees + 1)
      case SameEnd =>
        taken.WithFlow(s.direction, f.(queue := Merge(f.queue, s))).Release(p.work).(frees := st.frees + 1)
      case Fits(skip) => Place(taken, s, pos, skip, depth)
  }

  /** One segment of a session: drop it, act on its acknowledgement, and queue or refuse it. */
  function Arrive(st: State, s: Segment, depth: nat, available: bool): State {
    if s.sequence < st.Base(s.direction) then st.Release(s.work)
    else
      var rev := Opposite(s.direction);
      var acked := if st.FlowOf(s.direction).linked && st.FlowOf(rev).queue != [] then Acknowledge(st, rev, s.ackNum) else st;
      if s.fin || s.rst then Flush(acked.Release(s.work), s.direction).(expired := true)
      else if |acked.FlowOf(s.direction).queue| >= depth then acked.Release(s.work)
      else if !available then acked.Release(s.work)
      else Insert(acked, s, depth)
  }

  /** A packet as it comes from the network: bare acknowledgements are dropped outright. */
  function Receive(st: State, s: Segment, depth: nat, available: bool): State {
    if s.data == [] && !(s.syn || s.fin || s.rst) then st.Release(s.work) else Arrive(st, s, depth, available)
  }

  /** The session times out: both queues are sent and the flows are unlinked. */
  function Expire(st: State): State {
    var a := Flush(st, Positive);
    var b := Flush(a.WithFlow(Positive, a.positive.(linked := false)), Negative);
    b.WithFlow(Negative, b.negative.(linked := false))
  }

  // What every step keeps

  /** Sequence numbers of a direction do not wrap: they stay below 2^32, and less than 2^31
      past the direction's first number. */
  ghost predicate InWindow(base: nat, x: int) {
    base <= x < base + TWO31 && x < TWO32
  }

  /** Not empty, its next number right, and inside the window. */
  ghost predicate SoundEntry(e: Entry, base: nat) {
    e.data != [] && e.nxtSeq == e.seqNum + |e.data| && base <= e.seqNum && InWindow(base, e.nxtSeq)
  }

  /** Every entry sound, and each ending before the next starts. */
  ghost predicate Sound(q: seq<Entry>, base: nat) {
    (forall i | 0 <= i < |q| :: SoundEntry(q[i], base)) &&
    forall i, j | 0 <= i < j < |q| :: q[i].nxtSeq <= q[j].seqNum
  }

  /** A segment that carries something and does not wrap. */
  ghost predicate SoundSegment(s: Segment, base: nat) {
    s.sequence >= base ==> InWindow(base, s.sequence + |s.data|)
  }

  ghost predicate Inv(st: State, depth: nat) {
    forall d: Direction :: Sound(st.FlowOf(d).queue, st.Base(d)) && |st.FlowOf(d).queue| < depth
  }

  lemma SoundSlice(q: seq<Entry>, base: nat, i: nat, j: nat)
    requires Sound(q, base) && i <= j <= |q|
    ensures Sound(q[i..j], base)
  {
  }

  lemma SoundTail(q: seq<Entry>, base: nat, i: nat)
    requires Sound(q, base) && i <= |q|
    ensures Sound(q[i..], base)
  {
  }

  lemma SoundConcat(a: seq<Entry>, b: seq<Entry>, base: nat)
    requires Sound(a, base) && Sound(b, base)
    requires forall i, j | 0 <= i < |a| && 0 <= j < |b| :: a[i].nxtSeq <= b[j].seqNum
    ensures Sound(a + b, base)
  {
  }

  lemma {:induction false} PositionSplits(q: seq<Entry>, sequence: nat, base: nat)
    requires Sound(q, base) && InWindow(base, sequence)
    ensures forall i | 0 <= i < Position(q, sequence) :: q[i].seqNum <= sequence
    ensures Position(q, sequence) < |q| ==> q[Position(q, sequence)].seqNum > sequence
  {
    if q != [] {
      assert SoundEntry(q[0], base);
      SeqGtIsGreater(q[0].seqNum, sequence);
      SoundTail(q, base, 1);
      PositionSplits(q[1..], sequence, base);
      forall i | 0 < i < Position(q, sequence)
        ensures q[i].seqNum <= sequence
      {
        assert q[1..][i - 1] == q[i];
      }
    }
  }

  /** What trimming leaves: the entries past the dropped ones, the first without its covered front. */
  ghost function Kept(q: seq<Entry>, k: nat, end: nat): seq<Entry>
    requires k <= |q|
  {
    if k == |q| then []
    else if q[k].seqNum < end < q[k].seqNum + |q[k].data| then
      [q[k].(seqNum := end, data := q[k].data[end - q[k].seqNum..])] + q[k + 1..]
    else q[k..]
  }

  lemma KeptTail(q: seq<Entry>, k: nat, end: nat)
    requires q != [] && k <= |q[1..]|
    ensures Kept(q[1..], k, end) == Kept(q, k + 1, end)
  {
    assert q[1..][k..] == q[k + 1..];
    if k < |q[1..]| {
      assert q[1..][k + 1..] == q[k + 2..];
    }
  }

  lemma SoundHead(q: seq<Entry>, base: nat)
    requires Sound(q, base) && q != []
    ensures SoundEntry(q[0], base) && Sound(q[1..], base)
  {
  }

  lemma {:induction false} TrimTailIsKept(q: seq<Entry>, end: nat, base: nat)
    requires Sound(q, base) && InWindow(base, end)
    ensures TrimTail(q, end) == Kept(q, Covered(q, end), end)
    ensures forall i | 0 <= i < Covered(q, end) :: q[i].nxtSeq <= end
    ensures Covered(q, end) < |q| ==> q[Covered(q, end)].nxtSeq > end
  {
    hide ToInt, Kept, Sound;
    if q == [] {
      KeptHead(q, end);
    } else {
      SoundHead(q, base);
      ToIntExact(end - q[0].seqNum);
      if end - q[0].seqNum >= |q[0].data| {
        TrimTailIsKept(q[1..], end, base);
        KeptTail(q, Covered(q[1..], end), end);
        forall i | 0 < i < Covered(q, end)
          ensures q[i].nxtSeq <= end
        {
          assert q[1..][i - 1] == q[i];
        }
      } else {
        KeptHead(q, end);
        assert end % TWO32 == end;
      }
    }
  }

  lemma KeptHead(q: seq<Entry>, end: nat)
    ensures q == [] ==> Kept(q, 0, end) == []
    ensures q != [] && end <= q[0].seqNum ==> Kept(q, 0, end) == q
    ensures q != [] && q[0].seqNum < end < q[0].seqNum + |q[0].data| ==>
      Kept(q, 0, end) == [q[0].(seqNum := end, data := q[0].data[end - q[0].seqNum..])] + q[1..]
  {
  }

  lemma KeptSound(q: seq<Entry>, k: nat, end: nat, base: nat)
    requires Sound(q, base) && InWindow(base, end) && k <= |q|
    requires k < |q| ==> q[k].nxtSeq > end
    ensures Sound(Kept(q, k, end), base)
    ensures forall i | 0 <= i < |Kept(q, k, end)| :: Kept(q, k, end)[i].seqNum >= end
  {
    var r := Kept(q, k, end);
    if k < |q| {
      assert SoundEntry(q[k], base);
      forall i | 0 < i < |r|
        ensures r[i] == q[k + i] && r[i].seqNum >= q[k].nxtSeq
      {
      }
    }
  }

  lemma TrimTailSound(q: seq<Entry>, end: nat, base: nat)
    requires Sound(q, base) && InWindow(base, end)
    ensures Sound(TrimTail(q, end), base)
    ensures forall i | 0 <= i < |TrimTail(q, end)| :: TrimTail(q, end)[i].seqNum >= end
    ensures |TrimTail(q, end)| == |q| - Covered(q, end)
  {
    TrimTailIsKept(q, end, base);
    KeptSound(q, Covered(q, end), end, base);
  }

  /** The entry before a segment that fits ends where the segment's own bytes start. */
  lemma JudgeExact(p: Entry, s: Segment, base: nat)
    requires SoundEntry(p, base) && p.seqNum <= s.sequence && InWindow(base, s.sequence + |s.data|)
    ensures Judge(p, s.sequence, s.data) == TooFar <==> s.sequence - p.seqNum > FAR
    ensures Judge(p, s.sequence, s.data) == Duplicate ==> p.nxtSeq > s.sequence + |s.data|
    ensures Judge(p, s.sequence, s.data) == SameEnd ==> p.nxtSeq == s.sequence + |s.data| && s.data != []
    ensures Judge(p, s.sequence, s.data).Fits? ==>
      var skip := Judge(p, s.sequence, s.data).skip;
      p.nxtSeq <= s.sequence + skip && (skip > 0 ==> p.nxtSeq == s.sequence + skip)
  {
    ToIntExact(p.nxtSeq - s.sequence);
  }

  lemma JoinSound(q: seq<Entry>, s: Segment, pos: nat, skip: nat, base: nat)
    requires Sound(q, base) && pos <= |q| && (skip == 0 || skip < |s.data|)
    requires base <= s.sequence && InWindow(base, s.sequence + |s.data|) && (s.data != [] || s.syn)
    requires forall i | 0 <= i < pos :: q[i].nxtSeq <= s.sequence + skip
    ensures Sound(Join(q, s, pos, skip), base)
  {
    hide TrimTail, Sound;
    var end := s.sequence + |s.data|;
    var rest := TrimTail(q[pos..], end);
    SoundSlice(q, base, 0, pos);
    SoundTail(q, base, pos);
    TrimTailSound(q[pos..], end, base);
    if s.syn {
      SoundConcat(q[..pos], rest, base);
      assert q[..pos] + [] == q[..pos];
    } else {
      var te := Entry((s.sequence + skip) % TWO32, s.ackNum, end, s.work, s.data[skip..], s.direction);
      SoundSingle(te, base);
      SoundConcat(q[..pos], [te], base);
      SoundConcat(q[..pos] + [te], rest, base);
    }
  }

  lemma SoundSingle(e: Entry, base: nat)
    requires SoundEntry(e, base)
    ensures Sound([e], base)
  {
  }

  lemma SoundAt(q: seq<Entry>, base: nat, k: nat)
    requires Sound(q, base) && k < |q|
    ensures SoundEntry(q[k], base) && forall i | 0 <= i <= k :: q[i].nxtSeq <= q[k].nxtSeq
  {
    forall i | 0 <= i < k
      ensures q[i].nxtSeq <= q[k].nxtSeq
    {
      assert SoundEntry(q[k], base) && q[i].nxtSeq <= q[k].seqNum;
    }
  }

  lemma SoundReplace(q: seq<Entry>, base: nat, k: nat, e: Entry)
    requires Sound(q, base) && k < |q| && SoundEntry(e, base)
    requires e.seqNum >= q[k].seqNum && e.nxtSeq == q[k].nxtSeq
    ensures Sound(q[k := e], base)
  {
  }

  /** Queueing a segment keeps the queue in order, apart and without empty entries. */
  lemma MergeSound(q: seq<Entry>, s: Segment, base: nat)
    requires Sound(q, base)
    requires base <= s.sequence && InWindow(base, s.sequence + |s.data|) && (s.data != [] || s.syn)
    ensures Sound(Merge(q, s), base)
  {
    hide Join, Position, ToInt, Sound, Judge;
    var pos := Position(q, s.sequence);
    PositionSplits(q, s.sequence, base);
    if pos == 0 {
      JoinSound(q, s, 0, 0, base);
    } else {
      var p := q[pos - 1];
      SoundAt(q, base, pos - 1);
      JudgeExact(p, s, base);
      var v := Judge(p, s.sequence, s.data);
      if v.Fits? {
        JoinSound(q, s, pos, v.skip, base);
      } else if v == SameEnd {
        SoundReplace(q, base, pos - 1, p.(seqNum := s.sequence % TWO32, ackNum := s.ackNum, work := s.work, data := s.data));
      }
    }
  }

  lemma FlushInv(st: State, d: Direction, depth: nat)
    requires depth > 0 && Sound(st.FlowOf(Opposite(d)).queue, st.Base(Opposite(d)))
    requires |st.FlowOf(Opposite(d)).queue| < depth
    ensures Inv(Flush(st, d), depth)
  {
    var e := Flush(st, d);
    forall c: Direction
      ensures Sound(e.FlowOf(c).queue, e.Base(c)) && |e.FlowOf(c).queue| < depth
    {
      assert c == d || c == Opposite(d);
    }
  }

  lemma FlowInv(st: State, d: Direction, f: Flow, depth: nat)
    requires Inv(st, depth) && Sound(f.queue, st.Base(d)) && |f.queue| < depth
    ensures Inv(st.WithFlow(d, f), depth)
  {
    var e := st.WithFlow(d, f);
    forall c: Direction
      ensures Sound(e.FlowOf(c).queue, e.Base(c)) && |e.FlowOf(c).queue| < depth
    {
      assert c == d || e.FlowOf(c) == st.FlowOf(c);
    }
  }

  /** The same flows and bases: nothing the invariant looks at has changed. */
  lemma SameFlowsInv(a: State, b: State, depth: nat)
    requires Inv(a, depth) && b.positive == a.positive && b.negative == a.negative
    requires b.firstSeq == a.firstSeq && b.firstAck == a.firstAck
    ensures Inv(b, depth)
  {
    forall c: Direction
      ensures Sound(b.FlowOf(c).queue, b.Base(c)) && |b.FlowOf(c).queue| < depth
    {
      assert b.FlowOf(c) == a.FlowOf(c) && b.Base(c) == a.Base(c);
    }
  }

  lemma AcknowledgeInv(st: State, d: Direction, ackNum: nat, depth: nat)
    requires Inv(st, depth) && depth > 0
    ensures Inv(Acknowledge(st, d, ackNum), depth)
  {
    hide Sound;
    var f := st.FlowOf(d);
    if ToInt(ackNum - f.rcvNxt) != 0 {
      FlushInv(st, d, depth);
    } else {
      var k := EndedBy(f.queue, f.rcvNxt);
      var q := f.queue[k..];
      SoundTail(f.queue, st.Base(d), k);
      FlowInv(st, d, f.(queue := q, rcvNxt := if q == [] then 0 else Advance(q, q[0].seqNum)), depth);
      SameFlowsInv(st.WithFlow(d, f.(queue := q, rcvNxt := if q == [] then 0 else Advance(q, q[0].seqNum))),
                   Acknowledge(st, d, ackNum), depth);
    }
  }

  lemma WorksConcat(a: seq<Entry>, b: seq<Entry>)
    ensures Works(a + b) == Works(a) + Works(b)
  {
  }

  lemma {:induction false} TrimTailLength(q: seq<Entry>, end: nat)
    ensures |TrimTail(q, end)| == |q| - Covered(q, end)
    ensures Works(q) == Works(q[..Covered(q, end)]) + Works(TrimTail(q, end))
  {
    hide ToInt;
    if q != [] {
      var i := ToInt(end - q[0].seqNum);
      if i > 0 && i >= |q[0].data| {
        TrimTailLength(q[1..], end);
        var dropped := q[1..][..Covered(q[1..], end)];
        assert q[..Covered(q, end)] == [q[0]] + dropped;
        WorksConcat([q[0]], dropped);
        assert q == [q[0]] + q[1..];
        WorksConcat([q[0]], q[1..]);
      } else {
        var r := TrimTail(q, end);
        assert q[..0] == [] && |r| == |q| && r[0].work == q[0].work;
        forall k | 0 <= k < |q|
          ensures Works(r)[k] == Works(q)[k]
        {
        }
        assert Works(q[..0]) + Works(r) == Works(q);
      }
    }
  }

  /** Nothing changes the numbers the first packet set. */
  ghost predicate SameBases(a: State, b: State) {
    a.firstSeq == b.firstSeq && a.firstAck == b.firstAck
  }

  lemma PlaceBases(st: State, s: Segment, pos: nat, skip: nat, depth: nat)
    requires pos <= |st.FlowOf(s.direction).queue| && (skip == 0 || skip < |s.data|)
    ensures SameBases(st, Place(st, s, pos, skip, depth))
  {
    hide Join, TrimTail, Covered, Run, SeqGt, Works;
  }

  /** Placing leaves the joined queue, or sends it all when it has reached the depth. */
  lemma PlaceOutcome(st: State, s: Segment, pos: nat, skip: nat, depth: nat)
    requires pos <= |st.FlowOf(s.direction).queue| && (skip == 0 || skip < |s.data|)
    ensures
      var d := s.direction;
      var q, e := Join(st.FlowOf(d).queue, s, pos, skip), Place(st, s, pos, skip, depth);
      e.FlowOf(Opposite(d)) == st.FlowOf(Opposite(d)) && e.FlowOf(d).linked == st.FlowOf(d).linked &&
      e.expired == st.expired &&
      if !s.syn && |q| >= depth then e.FlowOf(d).queue == [] && e.emitted == st.emitted + q && e.FlowOf(d).rcvNxt == 0
      else e.FlowOf(d).queue == q && e.emitted == st.emitted
  {
    hide Join, TrimTail, Covered, Run, SeqGt, Works;
    var q := Join(st.FlowOf(s.direction).queue, s, pos, skip);
    assert q[..|q|] == q && q[|q|..] == [];
  }

  lemma PlaceInv(st: State, s: Segment, pos: nat, skip: nat, depth: nat)
    requires Inv(st, depth) && depth > 0 && pos <= |st.FlowOf(s.direction).queue| && (skip == 0 || skip < |s.data|)
    requires Sound(Join(st.FlowOf(s.direction).queue, s, pos, skip), st.Base(s.direction))
    ensures Inv(Place(st, s, pos, skip, depth), depth)
  {
    hide Sound, Place, TrimTail, Covered;
    var d, f := s.direction, st.FlowOf(s.direction);
    TrimTailLength(f.queue[pos..], s.sequence + |s.data|);
    assert |Join(f.queue, s, pos, skip)| <= |f.queue| + if s.syn then 0 else 1;
    PlaceOutcome(st, s, pos, skip, depth);
    PlaceBases(st, s, pos, skip, depth);
    var e := Place(st, s, pos, skip, depth);
    EmptySound(st.Base(d));
    forall c: Direction
      ensures Sound(e.FlowOf(c).queue, e.Base(c)) && |e.FlowOf(c).queue| < depth
    {
      assert c == d || e.FlowOf(c) == st.FlowOf(c);
      assert e.Base(c) == st.Base(c);
    }
  }

  lemma EmptySound(base: nat)
    ensures Sound([], base)
  {
  }

  lemma InsertInv(st: State, s: Segment, depth: nat)
    requires Inv(st, depth) && depth > 0 && (s.data != [] || s.syn)
    requires st.Base(s.direction) <= s.sequence && SoundSegment(s, st.Base(s.direction))
    ensures Inv(Insert(st, s, depth), depth)
  {
    hide Sound, Place, Judge, Join, Position;
    var f := st.FlowOf(s.direction);
    var pos := Position(f.queue, s.sequence);
    var taken := st.(allocs := st.allocs + 1);
    SameFlowsInv(st, taken, depth);
    MergeSound(f.queue, s, st.Base(s.direction));
    if pos == 0 {
      PlaceInv(taken, s, 0, 0, depth);
    } else {
      var v := Judge(f.queue[pos - 1], s.sequence, s.data);
      if v.Fits? {
        PlaceInv(taken, s, pos, v.skip, depth);
      } else if v == SameEnd {
        FlowInv(st, s.direction, f.(queue := Merge(f.queue, s)), depth);
        SameFlowsInv(st.WithFlow(s.direction, f.(queue := Merge(f.queue, s))), Insert(st, s, depth), depth);
      } else {
        SameFlowsInv(st, Insert(st, s, depth), depth);
      }
    }
  }

  lemma InsertBases(st: State, s: Segment, depth: nat)
    ensures SameBases(st, Insert(st, s, depth))
  {
    hide Place, Judge, Position, Merge;
    var pos := Position(st.FlowOf(s.direction).queue, s.sequence);
    var taken := st.(allocs := st.allocs + 1);
    if pos == 0 {
      PlaceBases(taken, s, 0, 0, depth);
    } else {
      var v := Judge(st.FlowOf(s.direction).queue[pos - 1], s.sequence, s.data);
      if v.Fits? {
        PlaceBases(taken, s, pos, v.skip, depth);
      }
    }
  }

  lemma AcknowledgeBases(st: State, d: Direction, ackNum: nat)
    ensures SameBases(st, Acknowledge(st, d, ackNum))
  {
    hide EndedBy, Advance, ToInt, Works;
  }

  lemma ReceiveBases(st: State, s: Segment, depth: nat, available: bool)
    ensures SameBases(st, Receive(st, s, depth, available))
  {
    hide Insert, Acknowledge, Works;
    var rev := Opposite(s.direction);
    var acked := if st.FlowOf(s.direction).linked && st.FlowOf(rev).queue != [] then Acknowledge(st, rev, s.ackNum) else st;
    AcknowledgeBases(st, rev, s.ackNum);
    InsertBases(acked, s, depth);
  }

  /** Every packet keeps both queues in order, apart, free of empty entries and below the depth. */
  lemma ReceiveKeepsInv(st: State, s: Segment, depth: nat, available: bool)
    requires Inv(st, depth) && depth > 0 && SoundSegment(s, st.Base(s.direction))
    ensures Inv(Receive(st, s, depth, available), depth)
  {
    hide Sound, Insert, Acknowledge, Flush;
    var e := Receive(st, s, depth, available);
    if (s.data == [] && !(s.syn || s.fin || s.rst)) || s.sequence < st.Base(s.direction) {
      SameFlowsInv(st, e, depth);
    } else {
      var rev := Opposite(s.direction);
      var acked := if st.FlowOf(s.direction).linked && st.FlowOf(rev).queue != [] then Acknowledge(st, rev, s.ackNum) else st;
      AcknowledgeInv(st, rev, s.ackNum, depth);
      AcknowledgeBases(st, rev, s.ackNum);
      if s.fin || s.rst {
        SameFlowsInv(acked, acked.Release(s.work), depth);
        FlushInv(acked.Release(s.work), s.direction, depth);
        SameFlowsInv(Flush(acked.Release(s.work), s.direction), e, depth);
      } else if |acked.FlowOf(s.direction).queue| >= depth || !available {
        SameFlowsInv(acked, e, depth);
      } else {
        InsertInv(acked, s, depth);
      }
    }
  }
}
