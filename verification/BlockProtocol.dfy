/** The life of a session block: host's available ring, a fifo's cache, a session that packs it,
    a header waiting in the fifo, the completed ring, the host, and round again. Each step is what
    one core or the host does under the locks it holds, and steps of all sessions interleave. */
module BlockProtocol {
  import opened Bytes
  import opened BlockPacking
  import CellMemory

  const FRC_DMA_SSN_RING_BUFF_SIZE: nat := 400896
  const FRC_SSN_FIFO_NUM: nat := 50
  /** How many writes one transfer takes; the cells of a fifo are sixteen times as many. */
  const FRCORE_MAX_DMA_POINTERS: nat := 14
  const FRCORE_CORE_FIFO_NUM: nat := 16 * FRCORE_MAX_DMA_POINTERS
  const FRCORE_CHAN_POST_LWM: nat := 16 * FRCORE_MAX_DMA_POINTERS
  /** The room that a cell has for a payload. */
  const FRC_PAYLOAD_LEN_MAX: nat := CellMemory.FRC_PAYLOAD_LEN_MAX

  type Addr = nat

  /** What waits in a fifo: a packet's payload with its record, or a block's header. */
  datatype Cell = HeadCell(block: Addr, head: Write) | PayloadCell(block: Addr, payload: Write, info: Write)

  /** A fifo's cells not yet published, those published that still take up room, how many of the
      first are being posted (zero when nobody posts) and how many of their writes are out. */
  datatype Fifo = Fifo(cells: seq<Cell>, stale: seq<Cell>, post: nat, sent: nat, cache: seq<Addr>)
  {
    predicate Unlocked() {
      post == 0 && stale == []
    }
  }

  /** Closing: the header is queued but the session still shows its block as open. */
  datatype Session = Closed | Open(block: Addr, packets: seq<Packet>) | Closing

  datatype Owner = Avail | Cache(fifo: nat) | Holder(session: nat) | Heading(fifo: nat) | Completed | Host

  datatype Content = Content(key: Key, packets: seq<Packet>, unset: seq<byte>)

  /** overrun: a copy has run past the end of a payload cell, and no step is left; what it overwrites
      is no longer as the steps say. The last four fields say, of each block, where it is, what has been recorded to be written to it
      and what has been written since a session last took it, and what it was closed with. */
  datatype State = State(blocks: set<Addr>, avail: seq<Addr>, fifos: seq<Fifo>, sessions: seq<Session>, compl: seq<Addr>,
                         held: seq<Addr>, overrun: bool, owner: Addr -> Owner, recorded: Addr -> seq<Write>, issued: Addr -> seq<Write>,
                         content: Addr -> Content)

  datatype Step =
    | Refill(f: nat, n: nat)
    | Take(s: nat)
    | AddPayload(s: nat, p: Packet)
    | AddHead(s: nat, key: Key, unset: seq<byte>)
    | Close(s: nat)
    | BeginPost(f: nat)
    | Scatter(f: nat, k: nat)
    | Publish(f: nat)
    | NoSpace(f: nat)
    | Advance(f: nat)
    | HostTake
    | HostReturn(k: nat)

  // The writes that cells stand for

  datatype Posted = Posted(block: Addr, write: Write)

  function CellWrites(c: Cell): seq<Posted> {
    if c.HeadCell? then [Posted(c.block, c.head)] else [Posted(c.block, c.payload), Posted(c.block, c.info)]
  }

  function Flat(cells: seq<Cell>): seq<Posted> {
    if cells == [] then [] else CellWrites(cells[0]) + Flat(cells[1..])
  }

  /** The writes to one block among many. */
  function Of(ps: seq<Posted>, b: Addr): seq<Write> {
    if ps == [] then []
    else if ps[0].block == b then [ps[0].write] + Of(ps[1..], b)
    else Of(ps[1..], b)
  }

  /** The blocks whose headers are among the cells. */
  function Heads(cells: seq<Cell>): seq<Addr> {
    if cells == [] then []
    else if cells[0].HeadCell? then [cells[0].block] + Heads(cells[1..])
    else Heads(cells[1..])
  }

  /** The writes of a fifo still to go out. */
  function Pending(f: Fifo): seq<Posted> {
    if f.sent <= |Flat(f.cells)| then Flat(f.cells)[f.sent..] else []
  }

  function Put<T>(g: Addr -> T, b: Addr, v: T): Addr -> T {
    (x: Addr) => if x == b then v else g(x)
  }

  function Moved(owner: Addr -> Owner, m: seq<Addr>, o: Owner): Addr -> Owner {
    (x: Addr) => if x in m then o else owner(x)
  }

  function FifoOf(s: nat): (f: nat)
    ensures f < FRC_SSN_FIFO_NUM
  {
    s % FRC_SSN_FIFO_NUM
  }

  /** When a step can be taken. */
  ghost predicate Enabled(st: State, step: Step)
    requires |st.fifos| == FRC_SSN_FIFO_NUM
  {
    !st.overrun &&
    match step
    case Refill(f, n) =>
      f < |st.fifos| && st.fifos[f].Unlocked() && st.fifos[f].cache == [] && n in {1000, 100, 1} && n <= |st.avail|
    case Take(s) =>
      s < |st.sessions| && st.sessions[s] == Closed && st.fifos[FifoOf(s)].Unlocked() && st.fifos[FifoOf(s)].cache != []
    case AddPayload(s, p) =>
      s < |st.sessions| && st.sessions[s].Open? && GoodPacket(p) &&
      (Fits(st.sessions[s].packets, p) || |p.data| > FRC_PAYLOAD_LEN_MAX) &&
      st.fifos[FifoOf(s)].Unlocked() && |st.fifos[FifoOf(s)].cells| < FRCORE_CORE_FIFO_NUM
    case AddHead(s, key, unset) =>
      s < |st.sessions| && st.sessions[s].Open? && GoodKey(key) && |unset| == 16 &&
      st.fifos[FifoOf(s)].Unlocked() && |st.fifos[FifoOf(s)].cells| < FRCORE_CORE_FIFO_NUM
    case Close(s) => s < |st.sessions| && st.sessions[s] == Closing
    case BeginPost(f) => f < |st.fifos| && st.fifos[f].Unlocked() && st.fifos[f].cells != []
    case Scatter(f, k) =>
      f < |st.fifos| && 0 < st.fifos[f].post <= |st.fifos[f].cells| && 0 < k <= FRCORE_MAX_DMA_POINTERS &&
      st.fifos[f].sent + k <= |Flat(st.fifos[f].cells[..st.fifos[f].post])|
    case Publish(f) => ReadyToPublish(st, f) && HasSpace(st, f)
    case NoSpace(f) => ReadyToPublish(st, f) && !HasSpace(st, f)
    case Advance(f) => f < |st.fifos| && st.fifos[f].stale != []
    case HostTake => st.compl != []
    case HostReturn(k) => k < |st.held| && |st.avail| < FRC_DMA_SSN_RING_BUFF_SIZE
  }

  /** Every write of the cells being posted is out. */
  ghost predicate ReadyToPublish(st: State, f: nat) {
    f < |st.fifos| && 0 < st.fifos[f].post <= |st.fifos[f].cells| &&
    st.fifos[f].sent == |Flat(st.fifos[f].cells[..st.fifos[f].post])|
  }

  /** The completed ring takes the blocks of the cells being posted. */
  ghost predicate HasSpace(st: State, f: nat)
    requires ReadyToPublish(st, f)
  {
    |st.compl| <= FRC_DMA_SSN_RING_BUFF_SIZE - |Heads(st.fifos[f].cells[..st.fifos[f].post])|
  }

  /** A payload cell queued, and the packet recorded for the session's block. */
  ghost function WithPayload(st: State, s: nat, p: Packet): State
    requires |st.fifos| == FRC_SSN_FIFO_NUM && s < |st.sessions| && st.sessions[s].Open? && Fits(st.sessions[s].packets, p)
  {
    var f, b, ps := FifoOf(s), st.sessions[s].block, st.sessions[s].packets;
    var cell := PayloadCell(b, PayloadWrite(ps, p), InfoWrite(ps, p));
    st.(fifos := st.fifos[f := st.fifos[f].(cells := st.fifos[f].cells + [cell])],
        sessions := st.sessions[s := Open(b, ps + [p])],
        recorded := Put(st.recorded, b, st.recorded(b) + [PayloadWrite(ps, p), InfoWrite(ps, p)]))
  }

  ghost function Next(st: State, step: Step): State
    requires |st.fifos| == FRC_SSN_FIFO_NUM && Enabled(st, step)
  {
    match step
    case Refill(f, n) =>
      st.(avail := st.avail[n..], fifos := st.fifos[f := st.fifos[f].(cache := st.avail[..n])],
          owner := Moved(st.owner, st.avail[..n], Cache(f)))
    case Take(s) =>
      var f := FifoOf(s);
      var cache := st.fifos[f].cache;
      var b := cache[|cache| - 1];
      st.(fifos := st.fifos[f := st.fifos[f].(cache := cache[..|cache| - 1])], sessions := st.sessions[s := Open(b, [])],
          owner := Moved(st.owner, [b], Holder(s)), recorded := Put(st.recorded, b, []), issued := Put(st.issued, b, []))
    case AddPayload(s, p) =>
      if |p.data| > FRC_PAYLOAD_LEN_MAX then st.(overrun := true) else WithPayload(st, s, p)
    case AddHead(s, key, unset) =>
      var f, b, ps := FifoOf(s), st.sessions[s].block, st.sessions[s].packets;
      var cell := HeadCell(b, HeadWrite(key, ps, unset));
      st.(fifos := st.fifos[f := st.fifos[f].(cells := st.fifos[f].cells + [cell])],
          sessions := st.sessions[s := Closing], owner := Moved(st.owner, [b], Heading(f)),
          recorded := Put(st.recorded, b, st.recorded(b) + [HeadWrite(key, ps, unset)]),
          content := Put(st.content, b, Content(key, ps, unset)))
    case Close(s) => st.(sessions := st.sessions[s := Closed])
    case BeginPost(f) => st.(fifos := st.fifos[f := st.fifos[f].(post := |st.fifos[f].cells|)])
    case Scatter(f, k) =>
      var q := st.fifos[f];
      var out := Flat(q.cells[..q.post])[q.sent..q.sent + k];
      st.(fifos := st.fifos[f := st.fifos[f].(sent := st.fifos[f].sent + k)],
          issued := (b: Addr) => st.issued(b) + Of(out, b))
    case Publish(f) =>
      var q := st.fifos[f];
      var heads := Heads(q.cells[..q.post]);
      st.(fifos := st.fifos[f := q.(cells := q.cells[q.post..], stale := q.cells[..q.post], post := 0, sent := 0)],
          compl := st.compl + heads, owner := Moved(st.owner, heads, Completed))
    case NoSpace(f) => st.(fifos := st.fifos[f := st.fifos[f].(post := 0, sent := 0)])
    case Advance(f) => st.(fifos := st.fifos[f := st.fifos[f].(stale := [])])
    case HostTake =>
      st.(compl := st.compl[1..], held := st.held + [st.compl[0]], owner := Moved(st.owner, [st.compl[0]], Host))
    case HostReturn(k) =>
      st.(held := st.held[..k] + st.held[k + 1..], avail := st.avail + [st.held[k]],
          owner := Moved(st.owner, [st.held[k]], Avail))
  }

  // The invariant

  ghost predicate NoDup(q: seq<Addr>) {
    forall i, j | 0 <= i < j < |q| :: q[i] != q[j]
  }

  /** The list has each block of one owner once, and nothing else. */
  ghost predicate Lists(q: seq<Addr>, blocks: set<Addr>, owner: Addr -> Owner, o: Owner) {
    NoDup(q) && forall b: Addr :: b in q <==> b in blocks && owner(b) == o
  }

  /** A fifo's cells name only blocks of its sessions or with their header in it, and nothing comes
      after a block's header. */
  ghost predicate CellsOk(cells: seq<Cell>, f: nat, blocks: set<Addr>, owner: Addr -> Owner) {
    Lists(Heads(cells), blocks, owner, Heading(f)) &&
    (forall i | 0 <= i < |cells| :: cells[i].block in blocks && Here(owner(cells[i].block), f)) &&
    forall i, j | 0 <= i < j < |cells| && cells[i].HeadCell? :: cells[j].block != cells[i].block
  }

  predicate Here(o: Owner, f: nat) {
    o == Heading(f) || (o.Holder? && FifoOf(o.session) == f)
  }

  ghost predicate FifoOk(q: Fifo) {
    q.post <= |q.cells| && q.sent <= |Flat(q.cells[..q.post])| && (q.post > 0 ==> q.stale == []) &&
    |q.cells| + |q.stale| <= FRCORE_CORE_FIFO_NUM
  }

  /** A session has the block that it holds, with just its packets recorded. */
  ghost predicate SessionOk(st: State, s: nat)
    requires s < |st.sessions|
  {
    st.sessions[s].Open? ==>
      var b, ps := st.sessions[s].block, st.sessions[s].packets;
      b in st.blocks && st.owner(b) == Holder(s) && Packs(ps) && st.recorded(b) == Writes(ps)
  }

  ghost predicate Full(c: Content, ws: seq<Write>) {
    Packs(c.packets) && GoodKey(c.key) && |c.unset| == 16 && ws == BlockWrites(c.key, c.packets, c.unset)
  }

  /** The writes to a block that still wait in a fifo. */
  ghost function Waiting(fifos: seq<Fifo>, o: Owner, b: Addr): seq<Write>
    requires |fifos| == FRC_SSN_FIFO_NUM
  {
    if o.Holder? then Of(Pending(fifos[FifoOf(o.session)]), b)
    else if o.Heading? && o.fifo < FRC_SSN_FIFO_NUM then Of(Pending(fifos[o.fifo]), b)
    else []
  }

  /** What is recorded for a block is what is out followed by what still waits in its fifo. */
  ghost predicate BlockOk(st: State, b: Addr)
    requires |st.fifos| == FRC_SSN_FIFO_NUM
  {
    var o := st.owner(b);
    (o.Holder? ==> o.session < |st.sessions| && st.sessions[o.session].Open? && st.sessions[o.session].block == b) &&
    (o.Heading? || o.Cache? ==> o.fifo < FRC_SSN_FIFO_NUM) &&
    (o.Heading? || o.Completed? || o.Host? ==> Full(st.content(b), st.recorded(b))) &&
    st.recorded(b) == st.issued(b) + Waiting(st.fifos, o, b)
  }

  ghost predicate ListsOk(st: State)
    requires |st.fifos| == FRC_SSN_FIFO_NUM
  {
    Lists(st.avail, st.blocks, st.owner, Avail) && Lists(st.compl, st.blocks, st.owner, Completed) &&
    Lists(st.held, st.blocks, st.owner, Host) &&
    forall f | 0 <= f < FRC_SSN_FIFO_NUM :: Lists(st.fifos[f].cache, st.blocks, st.owner, Cache(f))
  }

  ghost predicate Inv(st: State) {
    |st.fifos| == FRC_SSN_FIFO_NUM && |st.blocks| <= FRC_DMA_SSN_RING_BUFF_SIZE && ListsOk(st) &&
    (forall f | 0 <= f < FRC_SSN_FIFO_NUM :: FifoOk(st.fifos[f]) && CellsOk(st.fifos[f].cells, f, st.blocks, st.owner)) &&
    (forall s | 0 <= s < |st.sessions| :: SessionOk(st, s)) &&
    forall b | b in st.blocks :: BlockOk(st, b)
  }

  // Moving blocks between lists

  lemma ListsMoved(q: seq<Addr>, blocks: set<Addr>, owner: Addr -> Owner, o: Owner, m: seq<Addr>, to: Owner)
    requires Lists(q, blocks, owner, o) && o != to
    requires forall b | b in m :: b in blocks && owner(b) != o
    ensures Lists(q, blocks, Moved(owner, m, to), o)
  {
  }

  lemma ListsTaken(q: seq<Addr>, rest: seq<Addr>, blocks: set<Addr>, owner: Addr -> Owner, o: Owner, m: seq<Addr>, to: Owner)
    requires Lists(q, blocks, owner, o) && o != to && NoDup(rest)
    requires forall b: Addr :: b in rest <==> b in q && b !in m
    ensures Lists(rest, blocks, Moved(owner, m, to), o)
  {
  }

  lemma ListsGiven(q: seq<Addr>, blocks: set<Addr>, owner: Addr -> Owner, m: seq<Addr>, to: Owner)
    requires Lists(q, blocks, owner, to) && NoDup(m)
    requires forall b | b in m :: b in blocks && owner(b) != to
    ensures Lists(q + m, blocks, Moved(owner, m, to), to)
  {
    forall i, j | 0 <= i < j < |q + m|
      ensures (q + m)[i] != (q + m)[j]
    {
      if i < |q| <= j {
        assert q[i] in q && m[j - |q|] in m;
      }
    }
  }

  /** Taking the first n of a list. */
  lemma FrontTaken(q: seq<Addr>, n: nat)
    requires NoDup(q) && n <= |q|
    ensures NoDup(q[..n]) && NoDup(q[n..])
    ensures forall b: Addr :: b in q[n..] <==> b in q && b !in q[..n]
    ensures forall b | b in q[..n] :: b in q
    ensures forall b | b in q[n..] :: b in q
  {
    forall b: Addr
      ensures b in q[n..] <==> b in q && b !in q[..n]
    {
      if b in q[n..] {
        var j :| 0 <= j < |q[n..]| && q[n..][j] == b;
        assert q[n + j] == b;
      }
      if b in q && b !in q[..n] {
        var i :| 0 <= i < |q| && q[i] == b;
        assert i >= n && q[n..][i - n] == b;
      }
    }
  }

  /** Taking one from anywhere in a list. */
  lemma OneTaken(q: seq<Addr>, k: nat)
    requires NoDup(q) && k < |q|
    ensures NoDup(q[..k] + q[k + 1..])
    ensures forall b: Addr :: b in q[..k] + q[k + 1..] <==> b in q && b !in [q[k]]
  {
    var rest := q[..k] + q[k + 1..];
    assert forall i | 0 <= i < |rest| :: rest[i] == q[if i < k then i else i + 1];
    forall b: Addr
      ensures b in rest <==> b in q && b !in [q[k]]
    {
      if b in q && b != q[k] {
        var i :| 0 <= i < |q| && q[i] == b;
        assert rest[if i < k then i else i - 1] == b;
      }
    }
  }

  lemma CellsMoved(cells: seq<Cell>, f: nat, blocks: set<Addr>, owner: Addr -> Owner, m: seq<Addr>, to: Owner)
    requires CellsOk(cells, f, blocks, owner) && to != Heading(f)
    requires forall b | b in m :: b in blocks && !Here(owner(b), f)
    ensures CellsOk(cells, f, blocks, Moved(owner, m, to))
  {
    hide Lists;
    ListsMoved(Heads(cells), blocks, owner, Heading(f), m, to);
  }

  // Lists of writes

  lemma {:induction false} FlatConcat(a: seq<Cell>, b: seq<Cell>)
    ensures Flat(a + b) == Flat(a) + Flat(b)
  {
    if a == [] {
      assert a + b == b;
    } else {
      assert (a + b)[0] == a[0] && (a + b)[1..] == a[1..] + b;
      FlatConcat(a[1..], b);
    }
  }

  lemma {:induction false} HeadsConcat(a: seq<Cell>, b: seq<Cell>)
    ensures Heads(a + b) == Heads(a) + Heads(b)
  {
    if a == [] {
      assert a + b == b;
    } else {
      assert (a + b)[0] == a[0] && (a + b)[1..] == a[1..] + b;
      HeadsConcat(a[1..], b);
    }
  }

  lemma {:induction false} HeadsAre(cells: seq<Cell>, b: Addr)
    ensures b in Heads(cells) <==> exists i :: 0 <= i < |cells| && cells[i].HeadCell? && cells[i].block == b
  {
    if cells != [] {
      HeadsAre(cells[1..], b);
      if b in Heads(cells[1..]) {
        var i :| 0 <= i < |cells[1..]| && cells[1..][i].HeadCell? && cells[1..][i].block == b;
        assert cells[i + 1].HeadCell? && cells[i + 1].block == b;
      } else if b in Heads(cells) {
        assert cells[0].HeadCell? && cells[0].block == b;
      }
      if i :| 0 < i < |cells| && cells[i].HeadCell? && cells[i].block == b {
        assert cells[1..][i - 1].HeadCell? && cells[1..][i - 1].block == b;
      }
    }
  }

  lemma {:induction false} OfConcat(a: seq<Posted>, c: seq<Posted>, b: Addr)
    ensures Of(a + c, b) == Of(a, b) + Of(c, b)
  {
    if a == [] {
      assert a + c == c;
    } else {
      assert (a + c)[0] == a[0] && (a + c)[1..] == a[1..] + c;
      OfConcat(a[1..], c, b);
    }
  }

  lemma OfCell(c: Cell, b: Addr)
    ensures Of(CellWrites(c), b) ==
      if c.block != b then [] else if c.HeadCell? then [c.head] else [c.payload, c.info]
  {
    var w := CellWrites(c);
    if c.HeadCell? {
      assert w[1..] == [];
    } else {
      assert w[1..] == [w[1]] && [w[1]][1..] == [];
      assert Of([w[1]], b) == if c.block == b then [c.info] else [];
    }
  }

  /** Cells that do not name a block have no write for it. */
  lemma {:induction false} OfUnnamed(cells: seq<Cell>, b: Addr)
    requires forall i | 0 <= i < |cells| :: cells[i].block != b
    ensures Of(Flat(cells), b) == []
  {
    if cells != [] {
      assert forall i | 0 <= i < |cells[1..]| :: cells[1..][i] == cells[i + 1];
      OfUnnamed(cells[1..], b);
      OfCell(cells[0], b);
      OfConcat(CellWrites(cells[0]), Flat(cells[1..]), b);
    }
  }

  lemma {:induction false} OfUnnamedTail(ps: seq<Posted>, k: nat, b: Addr)
    requires k <= |ps| && Of(ps, b) == []
    ensures Of(ps[k..], b) == [] && Of(ps[..k], b) == []
  {
    assert ps == ps[..k] + ps[k..];
    OfConcat(ps[..k], ps[k..], b);
  }
}
