/** The session object whose fields the reassembly code updates step by step, each method
    proved against the function of Reassembly that says what it does to the whole session. */
module TcpFlows {
  import opened Reassembly

  // How the loops relate to the functions

  /** Sending one more entry after n. */
  lemma SendNext(st: State, d: Direction, n: nat)
    requires n < |st.FlowOf(d).queue|
    ensures Send(Send(st, d, n), d, 1) == Send(st, d, n + 1)
  {
    var q := st.FlowOf(d).queue;
    var rest := q[n..];
    assert q[..n] + rest[..1] == q[..n + 1];
    WorksConcat(q[..n], rest[..1]);
    assert st.emitted + q[..n] + rest[..1] == st.emitted + q[..n + 1];
    assert st.released + Works(q[..n]) + Works(rest[..1]) == st.released + Works(q[..n + 1]);
    assert rest[1..] == q[n + 1..];
  }

  lemma SendNone(st: State, d: Direction)
    ensures Send(st, d, 0) == st
  {
    var q := st.FlowOf(d).queue;
    assert q[..0] == [] && q[0..] == q && Works([]) == [];
    assert st.emitted + [] == st.emitted && st.released + [] == st.released;
  }

  /** Counting the entries that end by a number, one at a time from any point already passed. */
  lemma {:induction false} EndedByNext(q: seq<Entry>, n: nat, k: nat)
    requires k <= EndedBy(q, n)
    ensures k < |q| && q[k].nxtSeq <= n ==> k < EndedBy(q, n)
    ensures k == |q| || q[k].nxtSeq > n ==> k == EndedBy(q, n)
  {
    if k > 0 {
      EndedByNext(q[1..], n, k - 1);
    }
  }

  lemma {:induction false} PositionNext(q: seq<Entry>, sequence: nat, k: nat)
    requires k <= Position(q, sequence)
    ensures k < |q| && !SeqGt(q[k].seqNum, sequence) ==> k < Position(q, sequence)
    ensures k == |q| || SeqGt(q[k].seqNum, sequence) ==> k == Position(q, sequence)
  {
    if k > 0 {
      PositionNext(q[1..], sequence, k - 1);
    }
  }

  lemma TailOf<T>(q: seq<T>, k: nat)
    requires k < |q|
    ensures q[k..] != [] && q[k..][0] == q[k] && q[k..][1..] == q[k + 1..]
  {
  }

  /** Walking one entry further along the run that starts at a number. */
  lemma AdvanceNext(q: seq<Entry>, n: nat, i: nat)
    requires i < |q|
    ensures Advance(q[i..], n) ==
      Advance(q[i + 1..], if q[i].seqNum == n && SeqGt(q[i].nxtSeq, n) then q[i].nxtSeq else n)
  {
    TailOf(q, i);
  }

  lemma RunNext(q: seq<Entry>, n: nat, i: nat)
    requires i < |q|
    ensures Run(q[i..], n) ==
      if q[i].seqNum == n then Run(q[i + 1..], if SeqGt(q[i].nxtSeq, n) then q[i].nxtSeq else n) else n
  {
    TailOf(q, i);
  }

  /** One step of trimming the entries from k on. */
  lemma TrimNext(q: seq<Entry>, k: nat, end: nat)
    requires k < |q|
    ensures
      var i := ToInt(end - q[k].seqNum);
      if i <= 0 then TrimTail(q[k..], end) == q[k..] && Covered(q[k..], end) == 0
      else if i < |q[k].data| then
        TrimTail(q[k..], end) == [q[k].(seqNum := (q[k].seqNum + i) % TWO32, data := q[k].data[i..])] + q[k + 1..] &&
        Covered(q[k..], end) == 0
      else
        TrimTail(q[k..], end) == TrimTail(q[k + 1..], end) && Covered(q[k..], end) == 1 + Covered(q[k + 1..], end)
  {
    hide ToInt;
    TailOf(q, k);
  }

  class FlowData {
    var rcvNxt: nat
    var queue: seq<Entry>
    var tsegqeLen: nat
    var linked: bool

    constructor ()
      ensures rcvNxt == 0 && queue == [] && tsegqeLen == 0 && linked
    {
      rcvNxt, queue, tsegqeLen, linked := 0, [], 0, true;
    }

    function Value(): Flow
      reads this
    {
      Flow(rcvNxt, queue, linked)
    }
  }

  class Session {
    const positive: FlowData
    const negative: FlowData
    const firstSeq: nat
    const firstAck: nat
    var expired: bool
    var emitted: seq<Entry>
    var released: seq<Work>
    var allocs: nat
    var frees: nat

    ghost predicate Valid()
      reads this, positive, negative
    {
      positive != negative && positive.tsegqeLen == |positive.queue| && negative.tsegqeLen == |negative.queue|
    }

    ghost function Abs(): State
      reads this, positive, negative
    {
      State(positive.Value(), negative.Value(), firstSeq, firstAck, expired, emitted, released, allocs, frees)
    }

    constructor (firstSeq: nat, firstAck: nat)
      ensures Valid() && fresh(positive) && fresh(negative)
      ensures Abs() == State(Flow(0, [], true), Flow(0, [], true), firstSeq, firstAck, false, [], [], 0, 0)
    {
      positive := new FlowData();
      negative := new FlowData();
      this.firstSeq, this.firstAck := firstSeq, firstAck;
      expired, emitted, released, allocs, frees := false, [], [], 0, 0;
    }

    function FlowOf(d: Direction): FlowData {
      if d == Positive then positive else negative
    }

    lemma AbsQueue(d: Direction)
      ensures Abs().FlowOf(d).queue == FlowOf(d).queue
    {
    }

    method FreeWork(w: Work)
      requires Valid()
      modifies this
      ensures Valid() && Abs() == old(Abs()).Release(w)
    {
      released := released + [w];
    }

    method SendPacket(d: Direction)
      requires Valid() && FlowOf(d).queue != []
      modifies this, positive, negative
      ensures Valid() && Abs() == Send(old(Abs()), d, 1)
    {
      var f := FlowOf(d);
      var q := f.queue[0];
      f.queue := f.queue[1..];
      f.tsegqeLen := f.tsegqeLen - 1;
      emitted := emitted + [q];
      released := released + [q.work];
      frees := frees + 1;
      assert Works(old(f.queue)[..1]) == [q.work];
    }

    method TcpFlowFlush(d: Direction)
      requires Valid()
      modifies this, positive, negative
      ensures Valid() && Abs() == Flush(old(Abs()), d)
    {
      hide Works;
      var f := FlowOf(d);
      ghost var n := 0;
      SendNone(Abs(), d);
      while f.queue != []
        invariant Valid() && n + |f.queue| == |old(f.queue)|
        invariant Abs() == Send(old(Abs()), d, n)
        decreases |f.queue|
      {
        SendNext(old(Abs()), d, n);
        SendPacket(d);
        n := n + 1;
      }
      f.rcvNxt, f.tsegqeLen, f.queue := 0, 0, [];
    }

    method TcpFlowFlushLock()
      requires Valid()
      modifies this, positive, negative
      ensures Valid() && Abs() == Expire(old(Abs()))
    {
      TcpFlowFlush(Positive);
      positive.linked := false;
      TcpFlowFlush(Negative);
      negative.linked := false;
    }

    /** The entries that end at or before the expected number are sent. */
    method SendEnded(d: Direction)
      requires Valid()
      modifies this, positive, negative
      ensures Valid() && Abs() == Send(old(Abs()), d, EndedBy(old(FlowOf(d).queue), old(FlowOf(d).rcvNxt)))
    {
      hide EndedBy, Works;
      var f := FlowOf(d);
      ghost var n := 0;
      SendNone(Abs(), d);
      EndedByNext(f.queue, f.rcvNxt, 0);
      while f.queue != [] && f.queue[0].nxtSeq <= f.rcvNxt
        invariant Valid() && n <= EndedBy(old(f.queue), f.rcvNxt) && f.queue == old(f.queue)[n..]
        invariant f.rcvNxt == old(f.rcvNxt) && Abs() == Send(old(Abs()), d, n)
        invariant f.queue == [] || f.queue[0].nxtSeq > f.rcvNxt ==> n == EndedBy(old(f.queue), f.rcvNxt)
        decreases |f.queue|
      {
        EndedByNext(old(f.queue), f.rcvNxt, n);
        SendNext(old(Abs()), d, n);
        SendPacket(d);
        n := n + 1;
        EndedByNext(old(f.queue), f.rcvNxt, n);
      }
    }

    /** The expected number steps over each entry that starts just there. */
    method AdvanceExpected(d: Direction)
      requires Valid()
      modifies this, positive, negative
      ensures Valid()
      ensures var f := old(Abs()).FlowOf(d);
        Abs() == old(Abs()).WithFlow(d, f.(rcvNxt := Advance(f.queue, f.rcvNxt)))
    {
      hide Advance, SeqGt;
      var f := FlowOf(d);
      var i := 0;
      assert f.queue[0..] == f.queue;
      while i < |f.queue|
        invariant 0 <= i <= |f.queue| && Valid()
        invariant Abs() == old(Abs()).WithFlow(d, old(f.Value()).(rcvNxt := f.rcvNxt))
        invariant Advance(f.queue[i..], f.rcvNxt) == Advance(old(f.queue), old(f.rcvNxt))
      {
        AdvanceNext(f.queue, f.rcvNxt, i);
        if f.queue[i].seqNum == f.rcvNxt && SeqGt(f.queue[i].nxtSeq, f.rcvNxt) {
          f.rcvNxt := f.queue[i].nxtSeq;
        }
        i := i + 1;
      }
      assert f.queue[i..] == [];
      RunsEnd(f.rcvNxt);
    }

    method SendReverseTcpflow(d: Direction, ackNum: nat)
      requires Valid()
      modifies this, positive, negative
      ensures Valid() && Abs() == Acknowledge(old(Abs()), d, ackNum)
    {
      hide EndedBy, Advance, ToInt, Works;
      var f := FlowOf(d);
      if ToInt(ackNum - f.rcvNxt) != 0 {
        TcpFlowFlush(d);
        return;
      }
      SendEnded(d);
      if f.queue == [] {
        f.rcvNxt, f.tsegqeLen := 0, 0;
        return;
      }
      f.rcvNxt := f.queue[0].seqNum;
      AdvanceExpected(d);
    }

    /** Finds the first entry that starts after a number. */
    method FindAfter(d: Direction, sequence: nat) returns (pos: nat)
      requires Valid()
      ensures pos == Position(FlowOf(d).queue, sequence)
    {
      hide Position, SeqGt;
      var f := FlowOf(d);
      pos := 0;
      PositionNext(f.queue, sequence, 0);
      while pos < |f.queue| && !SeqGt(f.queue[pos].seqNum, sequence)
        invariant pos <= Position(f.queue, sequence)
        invariant pos == |f.queue| || SeqGt(f.queue[pos].seqNum, sequence) ==> pos == Position(f.queue, sequence)
      {
        PositionNext(f.queue, sequence, pos);
        pos := pos + 1;
        PositionNext(f.queue, sequence, pos);
      }
    }

    /** Takes an entry out of a queue and frees it with its packet. */
    method RemoveAt(d: Direction, pos: nat)
      requires Valid() && pos < |FlowOf(d).queue|
      modifies this, positive, negative
      ensures Valid() && Abs() == Dropped(old(Abs()), d, pos, 1)
    {
      var f := FlowOf(d);
      var q := f.queue[pos];
      f.queue := f.queue[..pos] + f.queue[pos + 1..];
      released := released + [q.work];
      frees := frees + 1;
      f.tsegqeLen := f.tsegqeLen - 1;
      assert Works(old(f.queue)[pos..][..1]) == [q.work];
    }

    /** Takes the first i bytes off an entry. */
    method TrimFront(d: Direction, pos: nat, i: nat)
      requires Valid() && pos < |FlowOf(d).queue| && i < |FlowOf(d).queue[pos].data|
      modifies this, positive, negative
      ensures Valid()
      ensures
        var q := old(FlowOf(d).queue[pos]);
        Abs() == WithEntry(old(Abs()), d, pos, q.(seqNum := (q.seqNum + i) % TWO32, data := q.data[i..]))
    {
      var f := FlowOf(d);
      var q := f.queue[pos];
      f.queue := f.queue[pos := q.(seqNum := (q.seqNum + i) % TWO32, data := q.data[i..])];
    }

    /** Trims the entries from pos on by what a segment ending there covers, removing those it
        covers whole. */
    method TrimFollowing(d: Direction, pos: nat, end: nat)
      requires Valid() && pos <= |FlowOf(d).queue|
      modifies this, positive, negative
      ensures Valid() && Abs() == Trimmed(old(Abs()), d, pos, end)
    {
      hide TrimTail, Covered, ToInt, Dropped, Trimmed, WithEntry, Valid, Abs;
      var f := FlowOf(d);
      ghost var st, q0, k := Abs(), f.queue, 0;
      AbsQueue(d);
      assert q0 == q0[..pos] + q0[pos + 0..];
      DroppedNone(st, d, pos);
      while pos < |f.queue|
        invariant pos + k <= |q0| && f.queue == q0[..pos] + q0[pos + k..]
        invariant Valid() && Abs() == Dropped(st, d, pos, k)
        invariant Covered(q0[pos..], end) == k + Covered(q0[pos + k..], end)
        invariant TrimTail(q0[pos..], end) == TrimTail(q0[pos + k..], end)
        decreases |f.queue|
      {
        var q := f.queue[pos];
        var i := ToInt(end - q.seqNum);
        TrimNext(q0, pos + k, end);
        if i <= 0 {
          TrimmedWhole(st, d, pos, end, k);
          return;
        }
        if i < |q.data| {
          TrimmedPart(st, d, pos, end, k, q.(seqNum := (q.seqNum + i) % TWO32, data := q.data[i..]));
          TrimFront(d, pos, i);
          return;
        }
        RemoveAt(d, pos);
        DroppedNext(st, d, pos, k);
        k := k + 1;
        DroppedQueue(st, d, pos, k);
        AbsQueue(d);
      }
      TrimEmpty(end);
      assert q0[pos + k..] == [];
      TrimmedWhole(st, d, pos, end, k);
    }

    /** With the entries after it trimmed, the segment goes in at pos unless it is a SYN. */
    method Enter(s: Segment, pos: nat, skip: nat)
      requires Valid() && pos <= |FlowOf(s.direction).queue| && (skip == 0 || skip < |s.data|)
      modifies this, positive, negative
      ensures Valid() && Abs() == Entered(old(Abs()), s, pos, skip)
    {
      var f := FlowOf(s.direction);
      var end := s.sequence + |s.data|;
      if f.queue == [] {
        f.rcvNxt := end + if s.syn then 1 else 0;
      }
      assert f.queue == f.queue[..pos] + [] + f.queue[pos..];
      if !s.syn {
        var te := Entry((s.sequence + skip) % TWO32, s.ackNum, end, s.work, s.data[skip..], s.direction);
        f.queue := f.queue[..pos] + [te] + f.queue[pos..];
        f.tsegqeLen := f.tsegqeLen + 1;
      }
    }

    /** From entry i on, the expected number moves past each entry that starts just there, up to
        the first that does not. */
    method FollowRun(d: Direction, start: nat)
      requires Valid() && start <= |FlowOf(d).queue|
      modifies this, positive, negative
      ensures Valid()
      ensures
        var f := old(Abs()).FlowOf(d);
        Abs() == old(Abs()).WithFlow(d, f.(rcvNxt := Reassembly.Run(f.queue[start..], f.rcvNxt)))
    {
      hide Run, SeqGt;
      var f := FlowOf(d);
      var i := start;
      while i < |f.queue| && f.queue[i].seqNum == f.rcvNxt
        invariant start <= i <= |f.queue| && Valid()
        invariant Abs() == old(Abs()).WithFlow(d, old(f.Value()).(rcvNxt := f.rcvNxt))
        invariant Run(f.queue[i..], f.rcvNxt) == Run(old(f.queue)[start..], old(f.rcvNxt))
      {
        RunNext(f.queue, f.rcvNxt, i);
        if SeqGt(f.queue[i].nxtSeq, f.rcvNxt) {
          f.rcvNxt := f.queue[i].nxtSeq;
        }
        i := i + 1;
      }
      if i < |f.queue| {
        RunNext(f.queue, f.rcvNxt, i);
      } else {
        assert f.queue[i..] == [];
        RunsEnd(f.rcvNxt);
      }
    }

    method PlaceSegment(s: Segment, pos: nat, skip: nat, depth: nat)
      requires Valid() && pos <= |FlowOf(s.direction).queue| && (skip == 0 || skip < |s.data|)
      modifies this, positive, negative
      ensures Valid() && Abs() == Place(old(Abs()), s, pos, skip, depth)
    {
      hide Joined, Trimmed, Entered, Flush, SeqGt, Run;
      var d := s.direction;
      var f := FlowOf(d);
      JoinedIsEntered(Abs(), s, pos, skip);
      TrimFollowing(d, pos, s.sequence + |s.data|);
      AbsQueue(d);
      Enter(s, pos, skip);
      AbsQueue(d);
      if s.syn {
        FreeWork(s.work);
        frees := frees + 1;
      } else if f.tsegqeLen >= depth {
        TcpFlowFlush(d);
      } else if s.sequence + skip == f.rcvNxt {
        if SeqGt(s.sequence + |s.data|, f.rcvNxt) {
          f.rcvNxt := s.sequence + |s.data|;
        }
        FollowRun(d, pos + 1);
      }
    }

    /** Queues one segment, with a queue entry taken for it. */
    method InsertSegment(s: Segment, depth: nat)
      requires Valid()
      modifies this, positive, negative
      ensures Valid() && Abs() == Insert(old(Abs()), s, depth)
    {
      hide Place, Position, Judge, Join;
      var f := FlowOf(s.direction);
      allocs := allocs + 1;
      var pos := FindAfter(s.direction, s.sequence);
      if pos == 0 {
        PlaceSegment(s, 0, 0, depth);
        return;
      }
      var p := f.queue[pos - 1];
      match Judge(p, s.sequence, s.data)
      case TooFar =>
        FreeWork(s.work);
        frees := frees + 1;
      case Duplicate =>
        FreeWork(s.work);
        frees := frees + 1;
      case SameEnd =>
        frees := frees + 1;
        FreeWork(p.work);
        f.queue := f.queue[pos - 1 := p.(seqNum := s.sequence % TWO32, ackNum := s.ackNum, work := s.work, data := s.data)];
      case Fits(skip) =>
        PlaceSegment(s, pos, skip, depth);
    }

    /** One segment of the session; available says whether the pool has a queue entry to give. */
    method ReassTcp(s: Segment, depth: nat, available: bool)
      requires Valid()
      modifies this, positive, negative
      ensures Valid() && Abs() == Arrive(old(Abs()), s, depth, available)
    {
      hide Acknowledge, Insert, Flush;
      if s.sequence < (if s.direction == Positive then firstSeq else firstAck) {
        FreeWork(s.work);
        return;
      }
      var rev := Opposite(s.direction);
      if FlowOf(s.direction).linked && FlowOf(rev).queue != [] {
        SendReverseTcpflow(rev, s.ackNum);
      }
      if s.fin || s.rst {
        FreeWork(s.work);
        TcpFlowFlush(s.direction);
        expired := true;
      } else if FlowOf(s.direction).tsegqeLen >= depth {
        FreeWork(s.work);
      } else if !available {
        FreeWork(s.work);
      } else {
        InsertSegment(s, depth);
      }
    }

    /** A packet of the session: one without data, SYN, FIN or RST goes no further. */
    method TcpFlowRecovery(s: Segment, depth: nat, available: bool)
      requires Valid()
      modifies this, positive, negative
      ensures Valid() && Abs() == Receive(old(Abs()), s, depth, available)
    {
      hide Arrive;
      if s.data == [] && !(s.syn || s.fin || s.rst) {
        FreeWork(s.work);
      } else {
        ReassTcp(s, depth, available);
      }
    }
  }

  /** The segment itself put in a queue that is already trimmed for it. */
  ghost function Entered(st: State, s: Segment, pos: nat, skip: nat): State
    requires pos <= |st.FlowOf(s.direction).queue| && (skip == 0 || skip < |s.data|)
  {
    var f := st.FlowOf(s.direction);
    var end := s.sequence + |s.data|;
    var te := Entry((s.sequence + skip) % TWO32, s.ackNum, end, s.work, s.data[skip..], s.direction);
    st.WithFlow(s.direction, f.(
      queue := f.queue[..pos] + (if s.syn then [] else [te]) + f.queue[pos..],
      rcvNxt := if f.queue == [] then end + (if s.syn then 1 else 0) else f.rcvNxt))
  }

  lemma JoinedIsEntered(st: State, s: Segment, pos: nat, skip: nat)
    requires pos <= |st.FlowOf(s.direction).queue| && (skip == 0 || skip < |s.data|)
    ensures
      var e := Trimmed(st, s.direction, pos, s.sequence + |s.data|);
      pos <= |e.FlowOf(s.direction).queue| && Entered(e, s, pos, skip) == Joined(st, s, pos, skip)
    ensures |Joined(st, s, pos, skip).FlowOf(s.direction).queue| >= pos + if s.syn then 0 else 1
  {
    hide TrimTail, Covered, Works;
    var q := st.FlowOf(s.direction).queue;
    var e := q[..pos] + TrimTail(q[pos..], s.sequence + |s.data|);
    assert e[..pos] == q[..pos] && e[pos..] == TrimTail(q[pos..], s.sequence + |s.data|);
  }

  /** k entries from pos on removed and freed. */
  ghost function Dropped(st: State, d: Direction, pos: nat, k: nat): State
    requires pos + k <= |st.FlowOf(d).queue|
  {
    var q := st.FlowOf(d).queue;
    st.WithFlow(d, st.FlowOf(d).(queue := q[..pos] + q[pos + k..])).(
      released := st.released + Works(q[pos..][..k]), frees := st.frees + k)
  }

  /** What the entries from pos on become when a segment ends there. */
  ghost function Trimmed(st: State, d: Direction, pos: nat, end: nat): State
    requires pos <= |st.FlowOf(d).queue|
  {
    var q := st.FlowOf(d).queue;
    var gone := Covered(q[pos..], end);
    st.WithFlow(d, st.FlowOf(d).(queue := q[..pos] + TrimTail(q[pos..], end))).(
      released := st.released + Works(q[pos..][..gone]), frees := st.frees + gone)
  }

  lemma DroppedNone(st: State, d: Direction, pos: nat)
    requires pos <= |st.FlowOf(d).queue|
    ensures Dropped(st, d, pos, 0) == st
  {
    var q := st.FlowOf(d).queue;
    assert q[..pos] + q[pos + 0..] == q && Works(q[pos..][..0]) == [] && st.released + [] == st.released;
  }

  lemma DroppedQueue(st: State, d: Direction, pos: nat, k: nat)
    requires pos + k <= |st.FlowOf(d).queue|
    ensures Dropped(st, d, pos, k).FlowOf(d).queue == st.FlowOf(d).queue[..pos] + st.FlowOf(d).queue[pos + k..]
  {
  }

  lemma DroppedNext(st: State, d: Direction, pos: nat, k: nat)
    requires pos + k < |st.FlowOf(d).queue|
    ensures |Dropped(st, d, pos, k).FlowOf(d).queue| == |st.FlowOf(d).queue| - k
    ensures Dropped(Dropped(st, d, pos, k), d, pos, 1) == Dropped(st, d, pos, k + 1)
  {
    var q := st.FlowOf(d).queue;
    DropNext(q, pos, k, st.released);
    var r := q[..pos] + q[pos + k..];
    assert r[pos..][..1] == [q[pos + k]] && Works(r[pos..][..1]) == [q[pos + k].work];
  }

  /** After k drops with no more to come, trimming the entry at pos completes the trim. */
  lemma TrimmedPart(st: State, d: Direction, pos: nat, end: nat, k: nat, x: Entry)
    requires pos + k < |st.FlowOf(d).queue| && Covered(st.FlowOf(d).queue[pos..], end) == k
    requires TrimTail(st.FlowOf(d).queue[pos..], end) == [x] + st.FlowOf(d).queue[pos + k + 1..]
    ensures
      var e := Dropped(st, d, pos, k);
      pos < |e.FlowOf(d).queue| && Trimmed(st, d, pos, end) == WithEntry(e, d, pos, x)
  {
    hide Covered, TrimTail, Works;
    var q := st.FlowOf(d).queue;
    assert (q[..pos] + q[pos + k..])[pos := x] == q[..pos] + ([x] + q[pos + k + 1..]);
  }

  ghost function WithEntry(st: State, d: Direction, pos: nat, x: Entry): State
    requires pos < |st.FlowOf(d).queue|
  {
    st.WithFlow(d, st.FlowOf(d).(queue := st.FlowOf(d).queue[pos := x]))
  }

  lemma TrimmedWhole(st: State, d: Direction, pos: nat, end: nat, k: nat)
    requires pos + k <= |st.FlowOf(d).queue| && Covered(st.FlowOf(d).queue[pos..], end) == k
    requires TrimTail(st.FlowOf(d).queue[pos..], end) == st.FlowOf(d).queue[pos + k..]
    ensures Trimmed(st, d, pos, end) == Dropped(st, d, pos, k)
  {
    hide Covered, TrimTail, Works;
  }

  lemma RunsEnd(n: nat)
    ensures Advance([], n) == n && Run([], n) == n
  {
  }

  lemma TrimEmpty(end: nat)
    ensures TrimTail([], end) == [] && Covered([], end) == 0
  {
  }

  lemma DropNext(q: seq<Entry>, pos: nat, k: nat, released: seq<Work>)
    requires pos + k < |q|
    ensures released + Works(q[pos..][..k]) + [q[pos + k].work] == released + Works(q[pos..][..k + 1])
    ensures var r := q[..pos] + q[pos + k..]; r[..pos] + r[pos + 1..] == q[..pos] + q[pos + k + 1..]
  {
    assert q[pos..][..k + 1] == q[pos..][..k] + [q[pos + k]];
    WorksConcat(q[pos..][..k], [q[pos + k]]);
    assert Works([q[pos + k]]) == [q[pos + k].work];
  }
}
