/** What the host receives of one session, over a whole run: the packets submitted, in order, as far as
    it has got. */
module BlockOrder {
  import opened Bytes
  import opened BlockPacking
  import opened BlockProtocol
  import opened BlockSteps
  import opened Submission

  /** Of one session: the packets submitted, the blocks it was the last to close, and the packets of
      its blocks that the host has taken, in the order in which it took them. */
  datatype Log = Log(sent: seq<Packet>, mine: Addr -> bool, received: seq<Packet>)

  const NOTHING := Log([], (b: Addr) => false, [])

  ghost function Logged(st: State, step: Step, s: nat, g: Log): Log
    requires |st.fifos| == FRC_SSN_FIFO_NUM && Enabled(st, step)
  {
    if step.AddPayload? && step.s == s && |step.p.data| <= FRC_PAYLOAD_LEN_MAX then g.(sent := g.sent + [step.p])
    else if step.AddHead? then g.(mine := Put(g.mine, st.sessions[step.s].block, step.s == s))
    else if step.HostTake? && g.mine(st.compl[0]) then g.(received := g.received + st.content(st.compl[0]).packets)
    else g
  }

  ghost function LogOf(st: State, steps: seq<Step>, e: State, s: nat, g: Log): Log
    requires Leads(st, steps, e)
    decreases |steps|
  {
    if steps == [] then g else LogOf(Next(st, steps[0]), steps[1..], e, s, Logged(st, steps[0], s, g))
  }

  /** The packets of those of the blocks that are the session's. */
  ghost function PacketsOf(q: seq<Addr>, mine: Addr -> bool, content: Addr -> Content): seq<Packet> {
    if q == [] then []
    else (if mine(q[0]) then content(q[0]).packets else []) + PacketsOf(q[1..], mine, content)
  }

  lemma {:induction false} PacketsConcat(a: seq<Addr>, b: seq<Addr>, mine: Addr -> bool, content: Addr -> Content)
    ensures PacketsOf(a + b, mine, content) == PacketsOf(a, mine, content) + PacketsOf(b, mine, content)
  {
    if a == [] {
      assert a + b == b;
    } else {
      assert (a + b)[0] == a[0] && (a + b)[1..] == a[1..] + b;
      PacketsConcat(a[1..], b, mine, content);
    }
  }

  lemma PacketsOne(b: Addr, mine: Addr -> bool, content: Addr -> Content)
    ensures PacketsOf([b], mine, content) == if mine(b) then content(b).packets else []
  {
    assert [b][1..] == [];
  }

  lemma {:induction false} PacketsSame(q: seq<Addr>, mine: Addr -> bool, content: Addr -> Content,
                                       mine': Addr -> bool, content': Addr -> Content)
    requires forall b | b in q :: mine'(b) == mine(b) && content'(b) == content(b)
    ensures PacketsOf(q, mine', content') == PacketsOf(q, mine, content)
  {
    if q != [] {
      PacketsSame(q[1..], mine, content, mine', content');
    }
  }

  lemma {:induction false} PacketsNone(q: seq<Addr>, mine: Addr -> bool, content: Addr -> Content)
    requires forall b | b in q :: !mine(b)
    ensures PacketsOf(q, mine, content) == []
  {
    if q != [] {
      PacketsNone(q[1..], mine, content);
    }
  }

  /** Blocks of the session that wait for their header to go out do so in the session's own fifo. */
  ghost predicate InOwnFifo(st: State, s: nat, g: Log) {
    forall b | b in st.blocks && g.mine(b) && st.owner(b).Heading? :: st.owner(b).fifo == FifoOf(s)
  }

  /** On the completed ring, behind those in the fifo, behind those in the open block. */
  ghost function OnTheWay(st: State, s: nat, g: Log): seq<Packet>
    requires |st.fifos| == FRC_SSN_FIFO_NUM && s < |st.sessions|
  {
    PacketsOf(st.compl, g.mine, st.content) + PacketsOf(Heads(st.fifos[FifoOf(s)].cells), g.mine, st.content) +
    InBlock(st.sessions[s])
  }

  /** What the host has received and what is on the way is what was submitted. */
  ghost predicate InOrder(st: State, s: nat, g: Log)
    requires |st.fifos| == FRC_SSN_FIFO_NUM && s < |st.sessions|
  {
    g.received + OnTheWay(st, s, g) == g.sent && InOwnFifo(st, s, g)
  }

  lemma HeadsOwned(st: State, f: nat)
    requires Inv(st) && f < FRC_SSN_FIFO_NUM
    ensures forall b | b in Heads(st.fifos[f].cells) :: b in st.blocks && st.owner(b) == Heading(f)
  {
    hide FifoOk, SessionOk, BlockOk, Heads;
    assert CellsOk(st.fifos[f].cells, f, st.blocks, st.owner);
  }

  /** A header takes the packets of the open block into the fifo. */
  lemma HeaderMoves(st: State, step: Step, s: nat, g: Log)
    requires Inv(st) && Enabled(st, step) && step.AddHead? && s < |st.sessions|
    ensures |Next(st, step).fifos| == FRC_SSN_FIFO_NUM && |Next(st, step).sessions| == |st.sessions|
    ensures
      var e, h, f := Next(st, step), Logged(st, step, s, g), FifoOf(s);
      PacketsOf(e.compl, h.mine, e.content) == PacketsOf(st.compl, g.mine, st.content) &&
      PacketsOf(Heads(e.fifos[f].cells), h.mine, e.content) + InBlock(e.sessions[s]) ==
        PacketsOf(Heads(st.fifos[f].cells), g.mine, st.content) + InBlock(st.sessions[s])
  {
    hide Inv, SessionOk, Lists, CellsOk, FifoOk, Heads, PacketsOf;
    FifoCount(st);
    var e, h, f := Next(st, step), Logged(st, step, s, g), FifoOf(s);
    var b, heads := st.sessions[step.s].block, Heads(st.fifos[f].cells);
    HeldBlock(st, step.s);
    AvailKnown(st);
    HeadsOwned(st, f);
    PacketsSame(st.compl, g.mine, st.content, h.mine, e.content);
    PacketsSame(heads, g.mine, st.content, h.mine, e.content);
    if FifoOf(step.s) == f {
      var cell := HeadCell(b, HeadWrite(step.key, st.sessions[step.s].packets, step.unset));
      HeadsNext(st.fifos[f].cells, cell);
      PacketsConcat(heads, [b], h.mine, e.content);
      PacketsOne(b, h.mine, e.content);
    }
  }

  lemma HeadsNext(cells: seq<Cell>, c: Cell)
    ensures Heads(cells + [c]) == Heads(cells) + if c.HeadCell? then [c.block] else []
  {
    HeadsConcat(cells, [c]);
    assert [c][1..] == [];
    assert Heads([c]) == if c.HeadCell? then [c.block] + [] else [];
  }

  lemma HeaderLogged(st: State, step: Step, s: nat, g: Log)
    requires Inv(st) && Enabled(st, step) && step.AddHead? && s < |st.sessions| && InOrder(st, s, g)
    ensures |Next(st, step).fifos| == FRC_SSN_FIFO_NUM && |Next(st, step).sessions| == |st.sessions|
    ensures InOrder(Next(st, step), s, Logged(st, step, s, g))
  {
    hide Inv, SessionOk, Lists, CellsOk, FifoOk, Heads, PacketsOf, InBlock;
    FifoCount(st);
    HeaderMoves(st, step, s, g);
    var e, h, f := Next(st, step), Logged(st, step, s, g), FifoOf(s);
    Regrouped(PacketsOf(st.compl, g.mine, st.content),
              PacketsOf(Heads(st.fifos[f].cells), g.mine, st.content), InBlock(st.sessions[s]),
              PacketsOf(Heads(e.fifos[f].cells), h.mine, e.content), InBlock(e.sessions[s]));
  }

  lemma Regrouped(a: seq<Packet>, b: seq<Packet>, c: seq<Packet>, b': seq<Packet>, c': seq<Packet>)
    requires b + c == b' + c'
    ensures a + b + c == a + b' + c'
  {
    assert a + b + c == a + (b + c) && a + b' + c' == a + (b' + c');
  }

  lemma HeldBlock(st: State, s: nat)
    requires Inv(st) && s < |st.sessions| && st.sessions[s].Open?
    ensures st.sessions[s].block in st.blocks && st.owner(st.sessions[s].block) == Holder(s)
  {
    assert SessionOk(st, s);
  }

  /** Publishing takes the headers posted from the fifo to the ring. */
  lemma PublishMoves(st: State, f: nat, s: nat, g: Log)
    requires Inv(st) && Enabled(st, Publish(f)) && s < |st.sessions| && InOwnFifo(st, s, g)
    ensures |Next(st, Publish(f)).fifos| == FRC_SSN_FIFO_NUM
    ensures
      var e := Next(st, Publish(f));
      PacketsOf(e.compl, g.mine, st.content) + PacketsOf(Heads(e.fifos[FifoOf(s)].cells), g.mine, st.content) ==
        PacketsOf(st.compl, g.mine, st.content) + PacketsOf(Heads(st.fifos[FifoOf(s)].cells), g.mine, st.content)
  {
    hide Inv, CellsOk, FifoOk, Heads, PacketsOf, Flat, Moved, NoDup;
    FifoCount(st);
    var q := st.fifos[f];
    var heads, rest := Heads(q.cells[..q.post]), Heads(q.cells[q.post..]);
    PostedHeads(st, f);
    PacketsConcat(st.compl, heads, g.mine, st.content);
    if FifoOf(s) == f {
      PacketsConcat(heads, rest, g.mine, st.content);
    } else {
      PacketsNone(heads, g.mine, st.content);
    }
  }

  lemma PublishKeeps(st: State, f: nat, s: nat, g: Log)
    requires Inv(st) && Enabled(st, Publish(f)) && s < |st.sessions| && InOwnFifo(st, s, g)
    ensures
      var e := Next(st, Publish(f));
      e.sessions == st.sessions && e.content == st.content && InOwnFifo(e, s, g) && |e.fifos| == FRC_SSN_FIFO_NUM
  {
    hide Inv, Heads, Flat;
    FifoCount(st);
  }

  lemma PublishLogged(st: State, f: nat, s: nat, g: Log)
    requires Inv(st) && Enabled(st, Publish(f)) && s < |st.sessions| && InOrder(st, s, g)
    ensures |Next(st, Publish(f)).fifos| == FRC_SSN_FIFO_NUM && |Next(st, Publish(f)).sessions| == |st.sessions|
    ensures InOrder(Next(st, Publish(f)), s, g)
  {
    hide Inv, Next, Enabled, Heads, PacketsOf, InBlock, InOwnFifo;
    FifoCount(st);
    PublishMoves(st, f, s, g);
    PublishKeeps(st, f, s, g);
  }

  lemma TakeLogged(st: State, s: nat, g: Log)
    requires Inv(st) && Enabled(st, HostTake) && s < |st.sessions| && InOrder(st, s, g)
    ensures InOrder(Next(st, HostTake), s, Logged(st, HostTake, s, g))
  {
    hide Inv, SessionOk, Lists, CellsOk, FifoOk, Heads, PacketsOf, InBlock;
    FifoCount(st);
    AvailKnown(st);
    PacketsConcat([st.compl[0]], st.compl[1..], g.mine, st.content);
    PacketsOne(st.compl[0], g.mine, st.content);
    assert st.compl == [st.compl[0]] + st.compl[1..];
  }

  /** The steps that leave the order of blocks and packets as it is. */
  lemma OtherLogged(st: State, step: Step, s: nat, g: Log)
    requires Inv(st) && Enabled(st, step) && s < |st.sessions| && InOrder(st, s, g)
    requires !step.AddHead? && !step.AddPayload? && !step.Publish? && !step.HostTake?
    ensures InOrder(Next(st, step), s, Logged(st, step, s, g))
  {
    hide Inv, SessionOk, Lists, CellsOk, FifoOk, Heads, Flat, PacketsOf;
    FifoCount(st);
  }

  /** A payload adds its packet to the session's block. */
  lemma PayloadMoves(st: State, step: Step, s: nat, g: Log)
    requires Inv(st) && Enabled(st, step) && step.AddPayload? && |step.p.data| <= FRC_PAYLOAD_LEN_MAX && s < |st.sessions|
    ensures |Next(st, step).fifos| == FRC_SSN_FIFO_NUM && |Next(st, step).sessions| == |st.sessions|
    ensures
      var e := Next(st, step);
      Heads(e.fifos[FifoOf(s)].cells) == Heads(st.fifos[FifoOf(s)].cells) && e.compl == st.compl &&
      e.content == st.content && e.owner == st.owner && e.blocks == st.blocks &&
      InBlock(e.sessions[s]) == InBlock(st.sessions[s]) + if step.s == s then [step.p] else []
  {
    hide Inv, Flat, Heads;
    FifoCount(st);
    if FifoOf(step.s) == FifoOf(s) {
      var cells := Next(st, step).fifos[FifoOf(s)].cells;
      HeadsNext(st.fifos[FifoOf(s)].cells, cells[|cells| - 1]);
    }
  }

  lemma PayloadLogged(st: State, step: Step, s: nat, g: Log)
    requires Inv(st) && Enabled(st, step) && step.AddPayload? && s < |st.sessions| && InOrder(st, s, g)
    ensures |Next(st, step).fifos| == FRC_SSN_FIFO_NUM && |Next(st, step).sessions| == |st.sessions|
    ensures InOrder(Next(st, step), s, Logged(st, step, s, g))
  {
    hide Inv, Next, Enabled, Heads, PacketsOf, InBlock;
    FifoCount(st);
    if |step.p.data| > FRC_PAYLOAD_LEN_MAX {
      OverrunNext(st, step.s, step.p);
    } else {
      PayloadMoves(st, step, s, g);
    }
  }

  lemma PublishUnlogged(st: State, step: Step, s: nat, g: Log)
    requires Inv(st) && Enabled(st, step) && step.Publish?
    ensures |st.fifos| == FRC_SSN_FIFO_NUM && Logged(st, step, s, g) == g
  {
    hide Inv;
    FifoCount(st);
  }

  lemma StepInOrder(st: State, step: Step, s: nat, g: Log)
    requires Inv(st) && Enabled(st, step) && s < |st.sessions| && InOrder(st, s, g)
    ensures |Next(st, step).fifos| == FRC_SSN_FIFO_NUM && |Next(st, step).sessions| == |st.sessions|
    ensures InOrder(Next(st, step), s, Logged(st, step, s, g))
  {
    hide Inv, InOrder, Next, Logged;
    FifoCount(st);
    StepBlocks(st, step);
    if step.AddHead? {
      HeaderLogged(st, step, s, g);
    } else if step.AddPayload? {
      PayloadLogged(st, step, s, g);
    } else if step.Publish? {
      PublishLogged(st, step.f, s, g);
      assert Logged(st, step, s, g) == g by {
        PublishUnlogged(st, step, s, g);
      }
    } else if step.HostTake? {
      TakeLogged(st, s, g);
    } else {
      OtherLogged(st, step, s, g);
    }
  }

  lemma {:induction false} RunInOrder(st: State, steps: seq<Step>, e: State, s: nat, g: Log)
    requires Inv(st) && Leads(st, steps, e) && s < |st.sessions| && InOrder(st, s, g)
    ensures |e.fifos| == FRC_SSN_FIFO_NUM && |e.sessions| == |st.sessions| && InOrder(e, s, LogOf(st, steps, e, s, g))
    decreases |steps|
  {
    hide Inv, InOrder, Next, Logged, Enabled;
    FifoCount(st);
    if steps != [] {
      StepKeepsInv(st, steps[0]);
      StepInOrder(st, steps[0], s, g);
      RunInOrder(Next(st, steps[0]), steps[1..], e, s, Logged(st, steps[0], s, g));
    }
  }

  /** The packets that a run submits for a session. */
  function Payloads(steps: seq<Step>, s: nat): seq<Packet> {
    if steps == [] then []
    else One(steps[0], s) + Payloads(steps[1..], s)
  }

  function One(step: Step, s: nat): seq<Packet> {
    if step.AddPayload? && step.s == s then [step.p] else []
  }

  lemma PayloadsStep(steps: seq<Step>, s: nat)
    ensures Payloads(steps, s) == if steps == [] then [] else One(steps[0], s) + Payloads(steps[1..], s)
  {
  }

  lemma SmallTail(steps: seq<Step>)
    requires SmallPayloads(steps) && steps != []
    ensures SmallPayloads(steps[1..]) && (steps[0].AddPayload? ==> |steps[0].p.data| <= FRC_PAYLOAD_LEN_MAX)
  {
    assert forall i | 0 <= i < |steps[1..]| :: steps[1..][i] == steps[i + 1];
  }

  lemma SentNext(st: State, step: Step, s: nat, g: Log)
    requires |st.fifos| == FRC_SSN_FIFO_NUM && Enabled(st, step)
    requires step.AddPayload? ==> |step.p.data| <= FRC_PAYLOAD_LEN_MAX
    ensures Logged(st, step, s, g).sent == g.sent + One(step, s)
  {
  }

  lemma LogStep(st: State, steps: seq<Step>, e: State, s: nat, g: Log)
    requires Leads(st, steps, e)
    ensures
      if steps == [] then LogOf(st, steps, e, s, g) == g
      else
        |st.fifos| == FRC_SSN_FIFO_NUM && Enabled(st, steps[0]) && Leads(Next(st, steps[0]), steps[1..], e) &&
        LogOf(st, steps, e, s, g) == LogOf(Next(st, steps[0]), steps[1..], e, s, Logged(st, steps[0], s, g))
  {
    hide Next, Enabled, Logged;
  }

  lemma {:induction false} SentAre(st: State, steps: seq<Step>, e: State, s: nat, g: Log)
    requires Leads(st, steps, e) && SmallPayloads(steps)
    ensures LogOf(st, steps, e, s, g).sent == g.sent + Payloads(steps, s)
    decreases |steps|
  {
    hide Next, Enabled, Logged, SmallPayloads, Leads, LogOf, Payloads;
    LogStep(st, steps, e, s, g);
    PayloadsStep(steps, s);
    if steps != [] {
      SmallTail(steps);
      SentNext(st, steps[0], s, g);
      var h := Logged(st, steps[0], s, g);
      SentAre(Next(st, steps[0]), steps[1..], e, s, h);
      Joined(g.sent, h.sent, One(steps[0], s), Payloads(steps[1..], s));
    }
  }

  lemma Joined(a: seq<Packet>, ab: seq<Packet>, b: seq<Packet>, c: seq<Packet>)
    requires ab == a + b
    ensures ab + c == a + (b + c)
  {
  }

  /** End to end, over any run whose payloads fit their cells: the packets of a session's blocks, in the
      order in which the host takes them, are the first of the packets submitted for the session, none
      lost, none twice and none out of place; the rest of them are on their way. */
  lemma ReceivedInOrder(st: State, steps: seq<Step>, e: State, s: nat)
    requires Initial(st) && Leads(st, steps, e) && SmallPayloads(steps) && s < |st.sessions|
    ensures |e.fifos| == FRC_SSN_FIFO_NUM && |e.sessions| == |st.sessions|
    ensures var g := LogOf(st, steps, e, s, NOTHING);
      g.received <= Payloads(steps, s) && Payloads(steps, s) == g.received + OnTheWay(e, s, g)
  {
    hide Inv, Leads, LogOf, Payloads, OnTheWay;
    InitialInv(st);
    InitialOrder(st, s);
    RunInOrder(st, steps, e, s, NOTHING);
    SentAre(st, steps, e, s, NOTHING);
    assert [] + Payloads(steps, s) == Payloads(steps, s);
  }

  lemma InitialOrder(st: State, s: nat)
    requires Initial(st) && s < |st.sessions|
    ensures InOrder(st, s, NOTHING)
  {
    assert st.fifos[FifoOf(s)] == Fifo([], [], 0, 0, []);
  }
}
