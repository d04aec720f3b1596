/** The fifo and submission objects do nothing but steps of the block protocol: what each of their
    methods is proved to do is where a run of steps leads. */
module BlockRefines {
  import opened Sequences
  import opened Bytes
  import opened BlockPacking
  import opened BlockProtocol
  import opened BlockSteps
  import opened SsnFifo
  import Submission

  lemma {:induction false} LeadsOn(st: State, a: seq<Step>, m: State, b: seq<Step>, e: State)
    requires Leads(st, a, m) && Leads(m, b, e)
    ensures Leads(st, a + b, e)
    decreases |a|
  {
    hide Enabled, Next;
    if a == [] {
      assert a + b == b;
    } else {
      assert (a + b)[0] == a[0] && (a + b)[1..] == a[1..] + b;
      LeadsOn(Next(st, a[0]), a[1..], m, b, e);
    }
  }

  lemma LeadsOne(st: State, step: Step)
    requires |st.fifos| == FRC_SSN_FIFO_NUM && Enabled(st, step)
    ensures Leads(st, [step], Next(st, step))
  {
    hide Enabled, Next;
    assert [step][1..] == [];
    assert Leads(Next(st, step), [], Next(st, step));
  }

  /** The transfers of a posting, one step each. */
  ghost function Scatters(f: nat, out: seq<seq<Posted>>): seq<Step> {
    seq(|out|, i requires 0 <= i < |out| => Scatter(f, |out[i]|))
  }

  lemma {:induction false} FlattenFront(out: seq<seq<Posted>>, i: nat)
    requires i <= |out|
    ensures |Flatten(out[..i])| <= |Flatten(out)| && Flatten(out)[..|Flatten(out[..i])|] == Flatten(out[..i])
  {
    if i < |out| {
      FlattenFront(out[..|out| - 1], i);
      assert out[..|out| - 1][..i] == out[..i];
    } else {
      assert out[..i] == out;
    }
  }

  /** After i transfers the writes of just those are out, and nothing else has changed. */
  ghost predicate Sent(st: State, e: State, f: nat, ps: seq<Posted>) {
    f < |st.fifos| && |e.fifos| == |st.fifos| &&
    e.fifos == st.fifos[f := st.fifos[f].(sent := |ps|)] && e.avail == st.avail && e.sessions == st.sessions &&
    e.compl == st.compl && e.held == st.held && e.overrun == st.overrun && (forall b: Addr :: e.issued(b) == st.issued(b) + Of(ps, b))
  }

  lemma {:induction false} ScattersLead(st: State, f: nat, out: seq<seq<Posted>>, i: nat) returns (e: State)
    requires |st.fifos| == FRC_SSN_FIFO_NUM && f < FRC_SSN_FIFO_NUM && i <= |out|
    requires 0 < st.fifos[f].post == |st.fifos[f].cells| && st.fifos[f].sent == 0
    requires Flatten(out) == Flat(st.fifos[f].cells) && Loads(out) && !st.overrun
    ensures Leads(st, Scatters(f, out[..i]), e) && Sent(st, e, f, Flatten(out[..i]))
    decreases i
  {
    hide Flat, Of, Flatten, Leads;
    if i == 0 {
      e := st;
      NothingSent(st, f, out);
    } else {
      var m := ScattersLead(st, f, out, i - 1);
      var ps, batch, cells := Flatten(out[..i - 1]), out[i - 1], st.fifos[f].cells;
      assert out[..i] == out[..i - 1] + [batch];
      FlattenNext(out[..i - 1], batch);
      FlattenFront(out, i);
      assert cells[..|cells|] == cells;
      assert 0 < |batch| <= FRCORE_MAX_DMA_POINTERS;
      var step := Scatter(f, |batch|);
      assert Enabled(m, step);
      e := Next(m, step);
      LeadsOne(m, step);
      assert Scatters(f, out[..i]) == Scatters(f, out[..i - 1]) + [step];
      LeadsOn(st, Scatters(f, out[..i - 1]), m, [step], e);
      var q := m.fifos[f];
      assert Flatten(out[..i])[|ps|..] == batch;
      assert Flat(q.cells[..q.post])[q.sent..q.sent + |batch|] == batch;
      forall b: Addr
        ensures e.issued(b) == st.issued(b) + Of(ps + batch, b)
      {
        OfConcat(ps, batch, b);
      }
    }
  }

  lemma NothingSent(st: State, f: nat, out: seq<seq<Posted>>)
    requires f < |st.fifos| && st.fifos[f].sent == 0
    ensures Leads(st, Scatters(f, out[..0]), st) && Sent(st, st, f, Flatten(out[..0]))
  {
    assert Scatters(f, out[..0]) == [];
    assert Flatten<Posted>([]) == [];
    forall b: Addr
      ensures st.issued(b) == st.issued(b) + Of([], b)
    {
    }
  }

  /** The steps of one posting of a fifo. */
  ghost function PostSteps(f: nat, out: seq<seq<Posted>>): seq<Step> {
    [BeginPost(f)] + Scatters(f, out) + [Publish(f), Advance(f)]
  }

  /** Posting a fifo, in the transfers that the fifo object makes of its cells, is a run of steps:
      every write goes out, the blocks follow on the completed ring, and the fifo is empty. */
  lemma PostIsRun(st: State, f: nat, out: seq<seq<Posted>>) returns (e: State)
    requires Inv(st) && !st.overrun && f < FRC_SSN_FIFO_NUM && st.fifos[f].Unlocked() && st.fifos[f].cells != []
    requires Flatten(out) == Flat(st.fifos[f].cells) && Loads(out)
    ensures Leads(st, PostSteps(f, out), e)
    ensures e.compl == st.compl + Heads(st.fifos[f].cells) && e.avail == st.avail && e.sessions == st.sessions
    ensures e.held == st.held && !e.overrun
    ensures |e.fifos| == FRC_SSN_FIFO_NUM && e.fifos == st.fifos[f := st.fifos[f].(cells := [])]
    ensures forall b: Addr :: e.issued(b) == st.issued(b) + Of(Flat(st.fifos[f].cells), b)
  {
    hide Flat, Of, Flatten, Leads, Heads, Inv;
    FifoCount(st);
    var cells := st.fifos[f].cells;
    Unposted(st, f);
    var a := Next(st, BeginPost(f));
    LeadsOne(st, BeginPost(f));
    var m := ScattersLead(a, f, out, |out|);
    assert out[..|out|] == out && cells[..|cells|] == cells && cells[|cells|..] == [];
    LeadsOn(st, [BeginPost(f)], a, Scatters(f, out), m);
    var run := [BeginPost(f)] + Scatters(f, out);
    RunKeepsInv(st, run, m);
    assert |m.fifos| == |st.fifos|;
    assert ReadyToPublish(m, f);
    AlwaysSpace(m, f);
    var c := Next(m, Publish(f));
    LeadsOne(m, Publish(f));
    LeadsOn(st, run, m, [Publish(f)], c);
    e := Next(c, Advance(f));
    LeadsOne(c, Advance(f));
    LeadsOn(st, run + [Publish(f)], c, [Advance(f)], e);
    assert PostSteps(f, out) == run + [Publish(f)] + [Advance(f)];
  }

  lemma Unposted(st: State, f: nat)
    requires Inv(st) && f < FRC_SSN_FIFO_NUM && st.fifos[f].Unlocked()
    ensures |st.fifos| == FRC_SSN_FIFO_NUM && st.fifos[f].sent == 0
  {
    hide Flat, ListsOk, CellsOk, BlockOk, SessionOk;
    FifosOk(st, f);
    FlatNone();
    assert st.fifos[f].cells[..0] == [];
  }

  /** What the cache of a fifo holds when a block is asked for: an empty one is refilled first. */
  ghost function Refilled(st: State, f: nat): seq<Addr>
    requires f < |st.fifos|
  {
    st.fifos[f].cache + st.avail[..RefillOf(st, f)]
  }

  ghost function RefillOf(st: State, f: nat): (n: nat)
    requires f < |st.fifos|
    ensures n <= |st.avail|
  {
    if st.fifos[f].cache == [] then RefillSize(|st.avail|) else 0
  }

  /** The block that a session of the fifo gets, if there is any. */
  ghost function ToBeHad(st: State, f: nat): (b: Option<Addr>)
    requires f < |st.fifos|
    ensures b.Some? <==> st.fifos[f].cache != [] || st.avail != []
  {
    var cache := Refilled(st, f);
    if cache == [] then None else Some(cache[|cache| - 1])
  }

  /** The state once a session has taken a block, leaving all else that the code sees as it is. */
  ghost predicate Took(st: State, e: State, s: nat) {
    var f := FifoOf(s);
    |st.fifos| == FRC_SSN_FIFO_NUM && s < |st.sessions| && Refilled(st, f) != [] &&
    var cache := Refilled(st, f);
    e.sessions == st.sessions[s := Open(cache[|cache| - 1], [])] &&
    e.fifos == st.fifos[f := st.fifos[f].(cache := cache[..|cache| - 1])] && e.avail == st.avail[RefillOf(st, f)..] &&
    e.compl == st.compl && e.held == st.held && e.overrun == st.overrun
  }

  /** Taking a block for a session, in the way that the fifo object gives one out, is a refill if
      the cache is empty and then the session's step. */
  lemma TakeIsRun(st: State, s: nat) returns (steps: seq<Step>, e: State)
    requires Inv(st) && !st.overrun && s < |st.sessions| && st.sessions[s] == Closed
    requires st.fifos[FifoOf(s)].Unlocked() && ToBeHad(st, FifoOf(s)).Some?
    ensures Leads(st, steps, e) && Took(st, e, s)
  {
    hide Leads, Inv;
    var f := FifoOf(s);
    FifoCount(st);
    var was := st.fifos[f].cache;
    if was != [] {
      assert was + st.avail[..0] == was && st.avail[0..] == st.avail;
      steps, e := [Take(s)], Next(st, Take(s));
      LeadsOne(st, Take(s));
    } else {
      var n := RefillSize(|st.avail|);
      assert [] + st.avail[..n] == st.avail[..n];
      var m := Next(st, Refill(f, n));
      LeadsOne(st, Refill(f, n));
      e := Next(m, Take(s));
      LeadsOne(m, Take(s));
      LeadsOn(st, [Refill(f, n)], m, [Take(s)], e);
      steps := [Refill(f, n)] + [Take(s)];
    }
  }

  lemma CloseIsRun(st: State, s: nat, key: Key, unset: seq<byte>) returns (steps: seq<Step>, e: State)
    requires Inv(st) && !st.overrun && s < |st.sessions| && st.sessions[s].Open? && GoodKey(key) && |unset| == 16
    requires st.fifos[FifoOf(s)].Unlocked() && |st.fifos[FifoOf(s)].cells| < FRCORE_CORE_FIFO_NUM
    ensures Leads(st, steps, e) && Inv(e) && e.sessions == st.sessions[s := Closed]
    ensures
      var f := FifoOf(s);
      e.fifos == st.fifos[f := st.fifos[f].(cells := st.fifos[f].cells + [Submission.HeadOf(st.sessions[s], key, unset)])]
    ensures e.avail == st.avail && e.compl == st.compl && e.held == st.held && !e.overrun
  {
    hide Leads, Inv, GoodKey, HeadWrite;
    FifoCount(st);
    var a := Next(st, AddHead(s, key, unset));
    LeadsOne(st, AddHead(s, key, unset));
    e := Next(a, Close(s));
    LeadsOne(a, Close(s));
    LeadsOn(st, [AddHead(s, key, unset)], a, [Close(s)], e);
    steps := [AddHead(s, key, unset)] + [Close(s)];
    RunKeepsInv(st, steps, e);
  }

  lemma PutIsRun(st: State, s: nat, p: Packet) returns (e: State)
    requires Inv(st) && !st.overrun && s < |st.sessions| && st.sessions[s].Open? && GoodPacket(p)
    requires Fits(st.sessions[s].packets, p) && |p.data| <= FRC_PAYLOAD_LEN_MAX
    requires st.fifos[FifoOf(s)].Unlocked() && |st.fifos[FifoOf(s)].cells| < FRCORE_CORE_FIFO_NUM
    ensures Leads(st, [AddPayload(s, p)], e)
    ensures
      var f, o := FifoOf(s), st.sessions[s];
      e.sessions == st.sessions[s := Open(o.block, o.packets + [p])] &&
      e.fifos == st.fifos[f := st.fifos[f].(cells := st.fifos[f].cells + [Submission.PayloadOf(o, p)])]
    ensures e.avail == st.avail && e.compl == st.compl && e.held == st.held && !e.overrun
  {
    hide Leads, Inv, InfoWrite, PayloadWrite;
    FifoCount(st);
    e := Next(st, AddPayload(s, p));
    LeadsOne(st, AddPayload(s, p));
  }

  /** What submitting a packet leaves of the whole state, given what is specified of it alone. */
  ghost predicate SubmittedState(st: State, e: State, s: nat, o: Submission.Outcome, took: bool) {
    var f := FifoOf(s);
    |st.fifos| == FRC_SSN_FIFO_NUM && s < |st.sessions| && (took ==> Refilled(st, f) != []) &&
    var cache := Refilled(st, f);
    e.sessions == st.sessions[s := o.session] && e.compl == st.compl && e.held == st.held && !e.overrun &&
    e.avail == (if took then st.avail[RefillOf(st, f)..] else st.avail) &&
    e.fifos == st.fifos[f := st.fifos[f].(
      cells := st.fifos[f].cells + o.cells, cache := if took then cache[..|cache| - 1] else st.fifos[f].cache)]
  }

  /** Submitting a packet that fits a payload cell, as the session's submit address does it with the
      fifo object, is a run of steps, whether or not the session has a block, whether or not that has
      room, and whether or not there is another: to just the state that they specify. */
  lemma SubmitIsRun(st: State, s: nat, p: Packet, key: Key, unset: seq<byte>) returns (steps: seq<Step>, e: State)
    requires Inv(st) && !st.overrun && s < |st.sessions| && st.sessions[s] != Closing
    requires GoodPacket(p) && |p.data| <= FRC_PAYLOAD_LEN_MAX && GoodKey(key) && |unset| == 16
    requires st.fifos[FifoOf(s)].Unlocked() && |st.fifos[FifoOf(s)].cells| + 1 < FRCORE_CORE_FIFO_NUM
    ensures Leads(st, steps, e)
    ensures
      var had := ToBeHad(st, FifoOf(s));
      var o := Submission.Submitted(st.sessions[s], p, key, unset, had, had);
      SubmittedState(st, e, s, o, had.Some? && (st.sessions[s].Closed? || !Fits(st.sessions[s].packets, p)))
  {
    hide Leads, Inv, GoodKey, HeadWrite, InfoWrite, PayloadWrite, Next, Enabled;
    FifoCount(st);
    Submission.PacketGoesInEmpty(p);
    var f, cells := FifoOf(s), st.fifos[FifoOf(s)].cells;
    assert cells + [] == cells;
    if st.sessions[s].Open? && Fits(st.sessions[s].packets, p) {
      e := PutIsRun(st, s, p);
      steps := [AddPayload(s, p)];
      var cell := Submission.PayloadOf(st.sessions[s], p);
      assert [] + [cell] == [cell];
      return;
    }
    var m, first := st, [];
    NoSteps(st);
    if st.sessions[s].Open? {
      first, m := CloseIsRun(st, s, key, unset);
    }
    if ToBeHad(st, f).None? {
      steps, e := first, m;
      return;
    }
    assert ToBeHad(m, f) == ToBeHad(st, f) && Refilled(m, f) == Refilled(st, f) && RefillOf(m, f) == RefillOf(st, f);
    var take, c := TakeIsRun(m, s);
    RunKeepsInv(m, take, c);
    e := PutIsRun(c, s, p);
    LeadsOn(st, first, m, take, c);
    LeadsOn(st, first + take, c, [AddPayload(s, p)], e);
    steps := first + take + [AddPayload(s, p)];
    var payload := Submission.PayloadOf(c.sessions[s], p);
    assert [] + [payload] == [payload] && [] + [p] == [p];
    if st.sessions[s].Open? {
      var head := Submission.HeadOf(st.sessions[s], key, unset);
      assert cells + [head] + [payload] == cells + ([head] + [payload]);
    }
    assert e.sessions == st.sessions[s := e.sessions[s]];
    assert e.fifos == st.fifos[f := e.fifos[f]];
  }

  lemma NoSteps(st: State)
    ensures Leads(st, [], st)
  {
  }
}
