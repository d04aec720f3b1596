/** Content: which byte of the stream a queue holds at each sequence number, what one segment
    changes of it, and that queues and emitted entries carry the stream's own bytes. */
module ReassemblyBytes {
  import opened Bytes
  import opened Reassembly
  import opened ReassemblyLedger

  ghost predicate Covers(e: Entry, x: int) {
    e.seqNum <= x < e.seqNum + |e.data|
  }

  /** The byte a queue holds at a sequence number. */
  ghost function ByteAt(q: seq<Entry>, x: int): Option<byte> {
    if q == [] then None
    else if Covers(q[0], x) then Some(q[0].data[x - q[0].seqNum])
    else ByteAt(q[1..], x)
  }

  lemma {:induction false} ByteAtConcat(a: seq<Entry>, b: seq<Entry>, x: int)
    ensures ByteAt(a + b, x) == if ByteAt(a, x).Some? then ByteAt(a, x) else ByteAt(b, x)
  {
    if a == [] {
      assert a + b == b;
    } else {
      ByteAtConcat(a[1..], b, x);
      assert (a + b)[1..] == a[1..] + b;
    }
  }

  lemma {:induction false} ByteAtMisses(q: seq<Entry>, x: int)
    requires forall i | 0 <= i < |q| :: !Covers(q[i], x)
    ensures ByteAt(q, x) == None
  {
    if q != [] {
      assert forall i | 0 <= i < |q[1..]| :: q[1..][i] == q[i + 1];
      ByteAtMisses(q[1..], x);
    }
  }

  lemma MissesFrom(q: seq<Entry>, base: nat, x: int)
    requires Sound(q, base) && (q != [] ==> x < q[0].seqNum)
    ensures ByteAt(q, x) == None
  {
    forall i | 0 <= i < |q|
      ensures !Covers(q[i], x)
    {
      assert i == 0 || q[0].nxtSeq <= q[i].seqNum;
      assert SoundEntry(q[0], base);
    }
    ByteAtMisses(q, x);
  }

  lemma MissesUpTo(q: seq<Entry>, base: nat, x: int)
    requires Sound(q, base) && forall i | 0 <= i < |q| :: q[i].nxtSeq <= x
    ensures ByteAt(q, x) == None
  {
    forall i | 0 <= i < |q|
      ensures !Covers(q[i], x)
    {
      assert SoundEntry(q[i], base);
    }
    ByteAtMisses(q, x);
  }

  /** Taking the front off the first entry takes away the bytes before the end. */
  lemma CutBytes(q: seq<Entry>, end: nat, base: nat, x: int)
    requires Sound(q, base) && q != [] && q[0].seqNum < end < q[0].seqNum + |q[0].data|
    ensures
      var e := q[0].(seqNum := end, data := q[0].data[end - q[0].seqNum..]);
      ByteAt([e] + q[1..], x) == if x < end then None else ByteAt(q, x)
  {
    hide Sound, SoundEntry;
    var e := q[0].(seqNum := end, data := q[0].data[end - q[0].seqNum..]);
    var r := [e] + q[1..];
    assert r[0] == e && r[1..] == q[1..];
    SoundHead(q, base);
    NextStarts(q, base);
    if x < end {
      MissesFrom(q[1..], base, x);
    }
  }

  /** Trimming takes away the bytes before the end and nothing else. */
  lemma {:induction false} TrimTailBytes(q: seq<Entry>, end: nat, base: nat, x: int)
    requires Sound(q, base) && InWindow(base, end)
    ensures ByteAt(TrimTail(q, end), x) == if x < end then None else ByteAt(q, x)
  {
    hide ToInt, Sound, SoundEntry, ByteAt;
    if q == [] {
      NoBytes(x);
    } else {
      SoundHead(q, base);
      EntrySays(q[0], base);
      ToIntExact(end - q[0].seqNum);
      if end - q[0].seqNum >= |q[0].data| {
        TrimTailBytes(q[1..], end, base, x);
        HeadBytes(q, x);
      } else if end <= q[0].seqNum {
        if x < end {
          MissesFrom(q, base, x);
        }
      } else {
        assert end % TWO32 == end;
        CutBytes(q, end, base, x);
      }
    }
  }

  lemma NoBytes(x: int)
    ensures ByteAt([], x) == None
  {
  }

  lemma HeadBytes(q: seq<Entry>, x: int)
    requires q != []
    ensures !Covers(q[0], x) ==> ByteAt(q, x) == ByteAt(q[1..], x)
    ensures Covers(q[0], x) ==> ByteAt(q, x).Some?
  {
  }

  lemma EntrySays(e: Entry, base: nat)
    requires SoundEntry(e, base)
    ensures e.nxtSeq == e.seqNum + |e.data| && InWindow(base, e.nxtSeq) && base <= e.seqNum
  {
  }

  lemma NextStarts(q: seq<Entry>, base: nat)
    requires Sound(q, base) && |q| > 0
    ensures q[0].nxtSeq == q[0].seqNum + |q[0].data|
    ensures q[1..] != [] ==> q[1..][0].seqNum >= q[0].nxtSeq
  {
  }

  /** The joined queue: the segment's own bytes where it has any past skip, the old ones elsewhere. */
  lemma JoinBytes(q: seq<Entry>, s: Segment, pos: nat, skip: nat, base: nat, x: int)
    requires Sound(q, base) && pos <= |q| && (skip == 0 || skip < |s.data|)
    requires base <= s.sequence && InWindow(base, s.sequence + |s.data|)
    requires forall i | 0 <= i < pos :: q[i].nxtSeq <= s.sequence + skip
    requires pos < |q| ==> s.sequence + skip <= q[pos].seqNum
    ensures ByteAt(Join(q, s, pos, skip), x) ==
      if !(s.sequence + skip <= x < s.sequence + |s.data|) then ByteAt(q, x)
      else if s.syn then None
      else Some(s.data[x - s.sequence])
  {
    hide TrimTail, Sound, ByteAt;
    var end := s.sequence + |s.data|;
    var head, tail := q[..pos], q[pos..];
    SoundSlice(q, base, 0, pos);
    SoundTail(q, base, pos);
    assert q == head + tail;
    ByteAtConcat(head, tail, x);
    TrimTailBytes(tail, end, base, x);
    if x >= s.sequence + skip {
      MissesUpTo(head, base, x);
    } else {
      MissesFrom(tail, base, x);
    }
    if s.syn {
      assert head + [] == head;
      ByteAtConcat(head, TrimTail(tail, end), x);
    } else {
      var te := Entry((s.sequence + skip) % TWO32, s.ackNum, end, s.work, s.data[skip..], s.direction);
      ByteAtConcat(head + [te], TrimTail(tail, end), x);
      ByteAtConcat(head, [te], x);
      ByteAtOne(te, x);
    }
  }

  lemma ByteAtOne(e: Entry, x: int)
    ensures ByteAt([e], x) == if Covers(e, x) then Some(e.data[x - e.seqNum]) else None
  {
    assert [e][1..] == [];
  }

  lemma {:induction false} ByteOfEntry(q: seq<Entry>, base: nat, k: nat, x: int)
    requires Sound(q, base) && k < |q| && Covers(q[k], x)
    ensures ByteAt(q, x) == Some(q[k].data[x - q[k].seqNum])
  {
    if k > 0 {
      assert SoundEntry(q[0], base) && q[0].nxtSeq <= q[k].seqNum;
      SoundTail(q, base, 1);
      ByteOfEntry(q[1..], base, k - 1, x);
    }
  }

  /** The segment was queued past the bytes an earlier entry has. */
  ghost predicate Queued(q: seq<Entry>, s: Segment) {
    Position(q, s.sequence) == 0 || Judge(q[Position(q, s.sequence) - 1], s.sequence, s.data).Fits?
  }

  ghost function SkipOf(q: seq<Entry>, s: Segment): nat {
    var pos := Position(q, s.sequence);
    if pos == 0 || !Judge(q[pos - 1], s.sequence, s.data).Fits? then 0 else Judge(q[pos - 1], s.sequence, s.data).skip
  }

  /** A queued segment adds its bytes after those already held before it, wins over later
      entries, and loses nothing: what is covered becomes the old and the new together. */
  lemma QueuedBytes(q: seq<Entry>, s: Segment, base: nat, x: int)
    requires Sound(q, base) && !s.syn && s.data != [] && Queued(q, s)
    requires base <= s.sequence && InWindow(base, s.sequence + |s.data|)
    ensures ByteAt(Merge(q, s), x) ==
      if s.sequence + SkipOf(q, s) <= x < s.sequence + |s.data| then Some(s.data[x - s.sequence]) else ByteAt(q, x)
    ensures ByteAt(Merge(q, s), x).Some? <==> ByteAt(q, x).Some? || s.sequence <= x < s.sequence + |s.data|
  {
    hide Join, Position, ToInt, Sound, Judge, ByteAt;
    var pos := Position(q, s.sequence);
    PositionSplits(q, s.sequence, base);
    if pos == 0 {
      JoinBytes(q, s, 0, 0, base, x);
    } else {
      var p := q[pos - 1];
      SoundAt(q, base, pos - 1);
      JudgeExact(p, s, base);
      if pos < |q| {
        SoundPair(q, base, pos - 1);
      }
      JoinBytes(q, s, pos, SkipOf(q, s), base, x);
      if s.sequence <= x < s.sequence + SkipOf(q, s) {
        ByteOfEntry(q, base, pos - 1, x);
      }
    }
  }

  lemma SoundPair(q: seq<Entry>, base: nat, k: nat)
    requires Sound(q, base) && k + 1 < |q|
    ensures q[k].nxtSeq <= q[k + 1].seqNum
  {
  }

  /** A duplicate changes nothing, and nothing of it was missing. */
  lemma DuplicateBytes(q: seq<Entry>, s: Segment, base: nat, x: int)
    requires Sound(q, base) && base <= s.sequence && InWindow(base, s.sequence + |s.data|)
    requires Position(q, s.sequence) > 0 && Judge(q[Position(q, s.sequence) - 1], s.sequence, s.data) == Duplicate
    ensures Merge(q, s) == q
    ensures s.sequence <= x < s.sequence + |s.data| ==> ByteAt(q, x).Some?
  {
    hide Position, ToInt, Sound, Judge, ByteAt;
    var pos := Position(q, s.sequence);
    PositionSplits(q, s.sequence, base);
    SoundAt(q, base, pos - 1);
    JudgeExact(q[pos - 1], s, base);
    if s.sequence <= x < s.sequence + |s.data| {
      ByteOfEntry(q, base, pos - 1, x);
    }
  }

  /** A segment that ends where the entry before it ends replaces that entry whole: the entry's
      bytes before the segment are lost, and that is exactly what is lost. */
  lemma SameEndBytes(q: seq<Entry>, s: Segment, base: nat, x: int)
    requires Sound(q, base) && base <= s.sequence && InWindow(base, s.sequence + |s.data|)
    requires Position(q, s.sequence) > 0 && Judge(q[Position(q, s.sequence) - 1], s.sequence, s.data) == SameEnd
    ensures var p := q[Position(q, s.sequence) - 1];
      ByteAt(Merge(q, s), x) ==
        if p.seqNum <= x < s.sequence then None
        else if s.sequence <= x < s.sequence + |s.data| then Some(s.data[x - s.sequence])
        else ByteAt(q, x)
  {
    hide Position, ToInt, Sound, Judge, ByteAt;
    var pos := Position(q, s.sequence);
    var p := q[pos - 1];
    PositionSplits(q, s.sequence, base);
    SoundAt(q, base, pos - 1);
    JudgeExact(p, s, base);
    var e := p.(seqNum := s.sequence % TWO32, ackNum := s.ackNum, work := s.work, data := s.data);
    assert Merge(q, s) == q[..pos - 1] + [e] + q[pos..];
    assert q == q[..pos - 1] + [p] + q[pos..];
    SoundSlice(q, base, 0, pos - 1);
    SoundTail(q, base, pos);
    ByteAtConcat(q[..pos - 1] + [p], q[pos..], x);
    ByteAtConcat(q[..pos - 1], [p], x);
    ByteAtConcat(q[..pos - 1] + [e], q[pos..], x);
    ByteAtConcat(q[..pos - 1], [e], x);
    ByteAtOne(p, x);
    ByteAtOne(e, x);
    if p.seqNum <= x {
      EarlierMiss(q, base, pos - 1, x);
    }
    if x < p.nxtSeq {
      LaterMiss(q, base, pos - 1, x);
    }
  }

  lemma EarlierMiss(q: seq<Entry>, base: nat, k: nat, x: int)
    requires Sound(q, base) && k < |q| && q[k].seqNum <= x
    ensures ByteAt(q[..k], x) == None
  {
    forall i | 0 <= i < k
      ensures q[..k][i].nxtSeq <= x
    {
      assert q[i].nxtSeq <= q[k].seqNum;
    }
    SoundSlice(q, base, 0, k);
    MissesUpTo(q[..k], base, x);
  }

  lemma LaterMiss(q: seq<Entry>, base: nat, k: nat, x: int)
    requires Sound(q, base) && k < |q| && x < q[k].nxtSeq
    ensures ByteAt(q[k + 1..], x) == None
  {
    SoundTail(q, base, k + 1);
    if k + 1 < |q| {
      SoundPair(q, base, k);
    }
    MissesFrom(q[k + 1..], base, x);
  }
}
