/** The simple channel's blocks over whole runs: host's available ring, a core's index buffer while
    it posts, the completed ring, the host, and round again, with all the cores' fifos interleaved. */
module SimpleProtocol {
  import opened CellMemory
  import opened SimpleChannel

  const FRC_SIMPLE_RING_BUFF_SIZE: nat := 20480
  const POOLS: nat := 10
  /** Blocks in a pool: 4 MB in blocks of 2 KB. */
  const POOL_BLOCKS: nat := 2048
  const FIFOS: nat := 10

  /** A fifo's waiting packets and the blocks in its index buffer, and what it has seen: the packets
      accepted, the blocks taken, and what it has published. */
  datatype Fifo = Fifo(cells: seq<Pkt>, index: seq<nat>, accepted: seq<Pkt>, took: seq<nat>, published: seq<Transfer>)

  /** got: all that the host has taken off the completed ring; log: all that was put on it, and by whom. */
  datatype State = State(avail: seq<nat>, fifos: seq<Fifo>, compl: seq<nat>, held: seq<nat>, got: seq<nat>, log: seq<Entry>)

  datatype Entry = Entry(fifo: nat, block: nat)

  datatype Step =
    | Accept(f: nat, p: Pkt)
    | TakeBlocks(f: nat)
    | Publish(f: nat)
    | NoSpace(f: nat)
    | HostTake
    | HostReturn(k: nat)

  /** A core adds and posts one after the other; the rings are taken under their own locks. */
  ghost predicate Enabled(st: State, step: Step) {
    match step
    case Accept(f, p) =>
      f < |st.fifos| && st.fifos[f].index == [] && |st.fifos[f].cells| < FRCORE_CORE_FIFO_NUM && |p| <= CELL_DATA
    case TakeBlocks(f) =>
      f < |st.fifos| && st.fifos[f].index == [] && 0 < |st.fifos[f].cells| <= |st.avail|
    case Publish(f) => Ready(st, f) && |st.compl| + |st.fifos[f].index| <= FRC_SIMPLE_RING_BUFF_SIZE
    case NoSpace(f) => Ready(st, f) && |st.compl| + |st.fifos[f].index| > FRC_SIMPLE_RING_BUFF_SIZE
    case HostTake => st.compl != []
    case HostReturn(k) => k < |st.held| && |st.avail| < FRC_SIMPLE_RING_BUFF_SIZE
  }

  /** A block is in hand for every packet that waits. */
  ghost predicate Ready(st: State, f: nat) {
    f < |st.fifos| && st.fifos[f].index != [] && |st.fifos[f].index| <= |st.fifos[f].cells|
  }

  ghost function Entries(f: nat, blocks: seq<nat>): seq<Entry> {
    seq(|blocks|, k requires 0 <= k < |blocks| => Entry(f, blocks[k]))
  }

  ghost function Next(st: State, step: Step): State
    requires Enabled(st, step)
  {
    match step
    case Accept(f, p) =>
      var q := st.fifos[f];
      st.(fifos := st.fifos[f := q.(cells := q.cells + [p], accepted := q.accepted + [p])])
    case TakeBlocks(f) =>
      var q, n := st.fifos[f], |st.fifos[f].cells|;
      st.(avail := st.avail[n..], fifos := st.fifos[f := q.(index := st.avail[..n], took := q.took + st.avail[..n])])
    case Publish(f) =>
      var q, n := st.fifos[f], |st.fifos[f].index|;
      st.(fifos := st.fifos[f := q.(cells := q.cells[n..], index := [],
            published := q.published + Paired(q.index, q.cells[..n]))],
          compl := st.compl + q.index, log := st.log + Entries(f, q.index))
    case NoSpace(f) => st.(fifos := st.fifos[f := st.fifos[f].(index := [])])
    case HostTake => st.(compl := st.compl[1..], held := st.held + [st.compl[0]], got := st.got + [st.compl[0]])
    case HostReturn(k) => st.(held := st.held[..k] + st.held[k + 1..], avail := st.avail + [st.held[k]])
  }

  // The invariant

  /** The blocks in all index buffers together. */
  ghost function InHand(fifos: seq<Fifo>): multiset<nat> {
    if fifos == [] then multiset{} else InHand(fifos[..|fifos| - 1]) + multiset(fifos[|fifos| - 1].index)
  }

  /** All blocks, wherever they are. */
  ghost function Blocks(st: State): multiset<nat> {
    multiset(st.avail) + InHand(st.fifos) + multiset(st.compl) + multiset(st.held)
  }

  /** What a fifo has published is the front of what it accepted, packet k in block k of those it took. */
  ghost predicate FifoOk(q: Fifo) {
    |q.took| <= |q.accepted| && |q.published| <= |q.took| &&
    q.published == Paired(q.took[..|q.published|], q.accepted[..|q.published|]) &&
    q.took == q.took[..|q.published|] + q.index && q.cells == q.accepted[|q.published|..] &&
    |q.cells| <= FRCORE_CORE_FIFO_NUM && (q.index != [] ==> |q.index| == |q.cells|)
  }

  /** What one fifo put on the completed ring. */
  ghost function By(log: seq<Entry>, f: nat): seq<nat> {
    if log == [] then []
    else By(log[..|log| - 1], f) + if log[|log| - 1].fifo == f then [log[|log| - 1].block] else []
  }

  ghost predicate LogOk(st: State) {
    (forall f | 0 <= f < |st.fifos| ::
      |st.fifos[f].published| <= |st.fifos[f].took| && By(st.log, f) == st.fifos[f].took[..|st.fifos[f].published|]) &&
    BlocksOf(st.log) == st.got + st.compl
  }

  ghost function BlocksOf(log: seq<Entry>): seq<nat> {
    seq(|log|, k requires 0 <= k < |log| => log[k].block)
  }

  ghost predicate Inv(st: State) {
    |Blocks(st)| <= FRC_SIMPLE_RING_BUFF_SIZE && (forall f | 0 <= f < |st.fifos| :: FifoOk(st.fifos[f])) && LogOk(st)
  }

  lemma {:induction false} InHandUpdate(fifos: seq<Fifo>, f: nat, q: Fifo)
    requires f < |fifos|
    ensures InHand(fifos[f := q]) + multiset(fifos[f].index) == InHand(fifos) + multiset(q.index)
  {
    var n, e := |fifos| - 1, fifos[f := q];
    if f < n {
      InHandUpdate(fifos[..n], f, q);
      assert e[..n] == fifos[..n][f := q];
      Carry(InHand(e[..n]), InHand(fifos[..n]), multiset(fifos[f].index), multiset(q.index), multiset(fifos[n].index));
    } else {
      assert e[..n] == fifos[..n];
      Carry(InHand(e[..n]), InHand(e[..n]), multiset{}, multiset{}, multiset{});
    }
  }

  lemma Carry(a: multiset<nat>, b: multiset<nat>, x: multiset<nat>, y: multiset<nat>, z: multiset<nat>)
    requires a + x == b + y
    ensures a + z + x == b + z + y
  {
    assert a + z + x == (a + x) + z && b + z + y == (b + y) + z;
  }

  lemma SplitAt(s: seq<nat>, n: nat)
    requires n <= |s|
    ensures multiset(s) == multiset(s[..n]) + multiset(s[n..])
  {
    assert s == s[..n] + s[n..];
  }

  lemma TakenOut(s: seq<nat>, k: nat)
    requires k < |s|
    ensures multiset(s) == multiset(s[..k] + s[k + 1..]) + multiset{s[k]}
  {
    assert s == s[..k] + ([s[k]] + s[k + 1..]);
  }

  lemma FifoKeepsBlocks(st: State, e: State, f: nat, q: Fifo, gone: multiset<nat>, come: multiset<nat>)
    requires f < |st.fifos| && e.fifos == st.fifos[f := q] && multiset(q.index) + gone == multiset(st.fifos[f].index) + come
    requires multiset(e.avail) + multiset(e.compl) + multiset(e.held) + come ==
      multiset(st.avail) + multiset(st.compl) + multiset(st.held) + gone
    ensures Blocks(e) == Blocks(st)
  {
    hide InHand;
    InHandUpdate(st.fifos, f, q);
    var rest, rest' := multiset(st.avail) + multiset(st.compl) + multiset(st.held), multiset(e.avail) + multiset(e.compl) + multiset(e.held);
    forall b: nat
      ensures Blocks(e)[b] == Blocks(st)[b]
    {
      assert (InHand(e.fifos) + multiset(st.fifos[f].index))[b] == (InHand(st.fifos) + multiset(q.index))[b];
      assert (multiset(q.index) + gone)[b] == (multiset(st.fifos[f].index) + come)[b];
      assert (rest' + come)[b] == (rest + gone)[b];
    }
  }

  lemma TakeKeepsBlocks(st: State, f: nat)
    requires Enabled(st, TakeBlocks(f))
    ensures Blocks(Next(st, TakeBlocks(f))) == Blocks(st)
  {
    hide Blocks;
    var e := Next(st, TakeBlocks(f));
    SplitAt(st.avail, |st.fifos[f].cells|);
    FifoKeepsBlocks(st, e, f, e.fifos[f], multiset{}, multiset(e.fifos[f].index));
  }

  lemma PublishKeepsBlocks(st: State, f: nat)
    requires Enabled(st, Publish(f))
    ensures Blocks(Next(st, Publish(f))) == Blocks(st)
  {
    hide Blocks, Paired, Entries;
    var e := Next(st, Publish(f));
    FifoKeepsBlocks(st, e, f, e.fifos[f], multiset(st.fifos[f].index), multiset{});
  }

  lemma ReturnKeepsBlocks(st: State, k: nat)
    requires Enabled(st, HostReturn(k))
    ensures Blocks(Next(st, HostReturn(k))) == Blocks(st)
  {
    hide Blocks;
    TakenOut(st.held, k);
    HostKeepsBlocks(st, Next(st, HostReturn(k)));
  }

  /** No step makes or loses a block, unless the completed ring refuses some. */
  lemma StepKeepsBlocks(st: State, step: Step)
    requires Enabled(st, step) && !step.NoSpace?
    ensures Blocks(Next(st, step)) == Blocks(st)
  {
    hide Blocks, Paired, Entries;
    match step
    case Accept(f, p) =>
      FifoKeepsBlocks(st, Next(st, step), f, Next(st, step).fifos[f], multiset{}, multiset{});
    case TakeBlocks(f) => TakeKeepsBlocks(st, f);
    case Publish(f) => PublishKeepsBlocks(st, f);
    case HostTake =>
      SplitAt(st.compl, 1);
      HostKeepsBlocks(st, Next(st, HostTake));
    case HostReturn(k) => ReturnKeepsBlocks(st, k);
  }

  lemma HostKeepsBlocks(st: State, e: State)
    requires e.fifos == st.fifos
    requires multiset(e.avail) + multiset(e.compl) + multiset(e.held) == multiset(st.avail) + multiset(st.compl) + multiset(st.held)
    ensures Blocks(e) == Blocks(st)
  {
    hide InHand;
    assert Blocks(e) == InHand(e.fifos) + (multiset(e.avail) + multiset(e.compl) + multiset(e.held));
    assert Blocks(st) == InHand(st.fifos) + (multiset(st.avail) + multiset(st.compl) + multiset(st.held));
  }

  lemma {:induction false} HandIn(fifos: seq<Fifo>, f: nat)
    requires f < |fifos|
    ensures |fifos[f].index| <= |InHand(fifos)|
  {
    if f < |fifos| - 1 {
      HandIn(fifos[..|fifos| - 1], f);
    }
  }

  /** The completed ring never refuses: what is on it and what is to go on it are among the blocks. */
  lemma NeverFull(st: State, f: nat)
    requires Inv(st) && Ready(st, f)
    ensures Enabled(st, Publish(f)) && !Enabled(st, NoSpace(f))
  {
    hide FifoOk, LogOk;
    HandIn(st.fifos, f);
    assert |Blocks(st)| == |st.avail| + |InHand(st.fifos)| + |st.compl| + |st.held|;
  }

  // What every step keeps of the fifos and the log

  lemma AcceptOk(q: Fifo, p: Pkt)
    requires FifoOk(q) && q.index == [] && |q.cells| < FRCORE_CORE_FIFO_NUM
    ensures FifoOk(q.(cells := q.cells + [p], accepted := q.accepted + [p]))
  {
    var n := |q.published|;
    assert (q.accepted + [p])[..n] == q.accepted[..n] && (q.accepted + [p])[n..] == q.accepted[n..] + [p];
  }

  lemma TakeOk(q: Fifo, blocks: seq<nat>)
    requires FifoOk(q) && q.index == [] && |blocks| == |q.cells|
    ensures FifoOk(q.(index := blocks, took := q.took + blocks))
  {
    var n := |q.published|;
    assert q.took[..n] == q.took && (q.took + blocks)[..n] == q.took[..n];
  }

  lemma PublishOk(q: Fifo)
    requires FifoOk(q) && q.index != []
    ensures |q.index| <= |q.cells|
    ensures
      var n := |q.index|;
      FifoOk(q.(cells := q.cells[n..], index := [], published := q.published + Paired(q.index, q.cells[..n]))) &&
      |q.published| + n <= |q.took| && q.took[..|q.published| + n] == q.took[..|q.published|] + q.index
  {
    var m, n := |q.published|, |q.index|;
    assert q.took[..m + n] == q.took && q.accepted[..m + n] == q.accepted[..m] + q.cells[..n];
    PairedConcat(q.took[..m], q.index, q.accepted[..m], q.cells[..n]);
    assert q.cells[n..] == q.accepted[m + n..];
  }

  lemma PairedConcat(a: seq<nat>, b: seq<nat>, p: seq<Pkt>, r: seq<Pkt>)
    requires |a| == |p| && |b| == |r|
    ensures Paired(a + b, p + r) == Paired(a, p) + Paired(b, r)
  {
  }

  lemma {:induction false} ByEntries(log: seq<Entry>, f: nat, blocks: seq<nat>, g: nat)
    ensures By(log + Entries(f, blocks), g) == By(log, g) + if f == g then blocks else []
  {
    if blocks == [] {
      assert log + Entries(f, blocks) == log;
    } else {
      var n := |blocks| - 1;
      ByEntries(log, f, blocks[..n], g);
      var all := log + Entries(f, blocks);
      assert all[..|all| - 1] == log + Entries(f, blocks[..n]);
      assert all[|all| - 1] == Entry(f, blocks[n]);
      assert blocks == blocks[..n] + [blocks[n]];
    }
  }

  lemma LogPublished(st: State, f: nat)
    requires LogOk(st) && f < |st.fifos| && FifoOk(st.fifos[f]) && Enabled(st, Publish(f))
    ensures LogOk(Next(st, Publish(f)))
  {
    hide Paired, By, FifoOk;
    var e, q := Next(st, Publish(f)), st.fifos[f];
    PublishOk(q);
    PairedLength(q.index, q.cells[..|q.index|]);
    forall g | 0 <= g < |e.fifos|
      ensures |e.fifos[g].published| <= |e.fifos[g].took|
      ensures By(e.log, g) == e.fifos[g].took[..|e.fifos[g].published|]
    {
      ByEntries(st.log, f, q.index, g);
      assert By(st.log, g) == st.fifos[g].took[..|st.fifos[g].published|];
    }
    assert BlocksOf(st.log + Entries(f, q.index)) == BlocksOf(st.log) + q.index;
  }

  lemma PairedLength(blocks: seq<nat>, pkts: seq<Pkt>)
    requires |blocks| == |pkts|
    ensures |Paired(blocks, pkts)| == |pkts|
  {
  }

  /** Every step of every core and of the host keeps the invariant, and the one that loses blocks
      is never possible. */
  lemma StepKeepsInv(st: State, step: Step)
    requires Inv(st) && Enabled(st, step)
    ensures !step.NoSpace? && Inv(Next(st, step)) && Blocks(Next(st, step)) == Blocks(st)
    ensures |Next(st, step).fifos| == |st.fifos|
  {
    hide Blocks, Paired, By, FifoOk;
    if step.NoSpace? {
      NeverFull(st, step.f);
      return;
    }
    StepKeepsBlocks(st, step);
    match step
    case Accept(f, p) => AcceptOk(st.fifos[f], p);
    case TakeBlocks(f) =>
      var q, n := st.fifos[f], |st.fifos[f].cells|;
      TakeOk(q, st.avail[..n]);
      assert |q.published| <= |q.took|;
      assert (q.took + st.avail[..n])[..|q.published|] == q.took[..|q.published|];
    case Publish(f) =>
      PublishOk(st.fifos[f]);
      LogPublished(st, f);
    case HostTake => assert st.got + st.compl == st.got + [st.compl[0]] + st.compl[1..];
    case HostReturn(k) =>
  }

  ghost predicate Initial(st: State) {
    |st.avail| <= FRC_SIMPLE_RING_BUFF_SIZE && st.compl == [] && st.held == [] && st.got == [] && st.log == [] &&
    forall f | 0 <= f < |st.fifos| :: st.fifos[f] == Fifo([], [], [], [], [])
  }

  ghost predicate Leads(st: State, steps: seq<Step>, e: State)
    decreases |steps|
  {
    if steps == [] then e == st else Enabled(st, steps[0]) && Leads(Next(st, steps[0]), steps[1..], e)
  }

  lemma {:induction false} NobodyHolds(fifos: seq<Fifo>)
    requires forall f | 0 <= f < |fifos| :: fifos[f].index == []
    ensures InHand(fifos) == multiset{}
  {
    if fifos != [] {
      NobodyHolds(fifos[..|fifos| - 1]);
    }
  }

  lemma InitialInv(st: State)
    requires Initial(st)
    ensures Inv(st) && Blocks(st) == multiset(st.avail)
  {
    NobodyHolds(st.fifos);
  }

  lemma {:induction false} RunKeepsInv(st: State, steps: seq<Step>, e: State)
    requires Inv(st) && Leads(st, steps, e)
    ensures Inv(e) && Blocks(e) == Blocks(st) && |e.fifos| == |st.fifos|
    ensures forall i | 0 <= i < |steps| :: !steps[i].NoSpace?
    decreases |steps|
  {
    hide Inv, Next, Enabled, Blocks;
    if steps != [] {
      StepKeepsInv(st, steps[0]);
      RunKeepsInv(Next(st, steps[0]), steps[1..], e);
      assert forall i | 0 < i < |steps| :: steps[i] == steps[1..][i - 1];
    }
  }

  /** Over any run, of all cores and the host together: what a fifo has published is the front of the
      packets it accepted, each once and in order, packet k in block k of all those it ever took; the
      rest of its packets wait. */
  lemma ExactFifo(st: State, steps: seq<Step>, e: State, f: nat)
    requires Initial(st) && Leads(st, steps, e) && f < |st.fifos|
    ensures |e.fifos| == |st.fifos|
    ensures
      var q := e.fifos[f];
      |q.published| <= |q.took| && |q.published| <= |q.accepted| &&
      (forall k | 0 <= k < |q.published| :: q.published[k] == Transfer(q.took[k] + FRC_DMA_OFFSET, q.accepted[k])) &&
      q.cells == q.accepted[|q.published|..] && q.index == q.took[|q.published|..]
  {
    hide Initial, Leads;
    InitialInv(st);
    RunKeepsInv(st, steps, e);
    var q := e.fifos[f];
    assert FifoOk(q);
    assert q.index == q.took[|q.published|..];
  }

  /** The blocks put on the completed ring are, in order, those the host has taken off it and those
      still there; each fifo's among them are those it published, in order. No block is made or lost. */
  lemma BlocksConserved(st: State, steps: seq<Step>, e: State, f: nat)
    requires Initial(st) && Leads(st, steps, e) && f < |st.fifos|
    ensures BlocksOf(e.log) == e.got + e.compl
    ensures |e.fifos| == |st.fifos| && |e.fifos[f].published| <= |e.fifos[f].took|
    ensures By(e.log, f) == e.fifos[f].took[..|e.fifos[f].published|]
    ensures Blocks(e) == multiset(st.avail)
  {
    hide Initial, Leads, Blocks;
    InitialInv(st);
    RunKeepsInv(st, steps, e);
  }

  /** The driver's pools, ten of 2048 blocks, are as many blocks as the rings have places. */
  lemma PoolsFit(blocks: seq<nat>, pools: nat)
    requires |blocks| == pools * POOL_BLOCKS && pools <= POOLS
    ensures Initial(State(blocks, seq(FIFOS, _ => Fifo([], [], [], [], [])), [], [], [], []))
  {
    assert pools * POOL_BLOCKS <= POOLS * POOL_BLOCKS == FRC_SIMPLE_RING_BUFF_SIZE;
  }

  /** Posting a fifo, when there are blocks for its packets and nobody rests, is two steps that reach
      just what the fifo object is proved to reach; its case of a full ring does not arise. */
  lemma PostIsRun(st: State, f: nat) returns (e: State)
    requires Inv(st) && f < |st.fifos| && st.fifos[f].index == [] && 0 < |st.fifos[f].cells| <= |st.avail|
    ensures Leads(st, [TakeBlocks(f), Publish(f)], e)
    ensures
      var q, n := st.fifos[f], |st.fifos[f].cells|;
      |st.compl| + n <= FRC_SIMPLE_RING_BUFF_SIZE && |e.fifos| == |st.fifos| && e.fifos[f].cells == [] &&
      e.fifos[f].published == q.published + Paired(st.avail[..n], q.cells) &&
      e.avail == st.avail[n..] && e.compl == st.compl + st.avail[..n]
  {
    hide Inv, Paired;
    var q, n := st.fifos[f], |st.fifos[f].cells|;
    var m := Next(st, TakeBlocks(f));
    StepKeepsInv(st, TakeBlocks(f));
    NeverFull(m, f);
    e := Next(m, Publish(f));
    assert q.cells[..n] == q.cells;
    assert [TakeBlocks(f), Publish(f)][1..] == [Publish(f)] && [Publish(f)][1..] == [];
    assert Leads(m, [Publish(f)], e);
  }
}
