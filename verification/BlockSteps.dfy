/** Every step of the block protocol keeps its invariant, and what follows for whole runs: blocks
    are conserved, the rings never overflow, and what the host is given is complete and stays so. */
module BlockSteps {
  import opened Bytes
  import opened BlockPacking
  import opened BlockProtocol

  /** Owners that keep a block clear of the fifos. */
  predicate Quiet(o: Owner) {
    o.Avail? || o.Completed? || o.Host? || (o.Cache? && o.fifo < FRC_SSN_FIFO_NUM)
  }

  /** The parts of the invariant other than the lists. */
  ghost predicate Rest(st: State)
    requires |st.fifos| == FRC_SSN_FIFO_NUM
  {
    (forall f | 0 <= f < FRC_SSN_FIFO_NUM :: FifoOk(st.fifos[f]) && CellsOk(st.fifos[f].cells, f, st.blocks, st.owner)) &&
    (forall s | 0 <= s < |st.sessions| :: SessionOk(st, s)) &&
    forall b | b in st.blocks :: BlockOk(st, b)
  }

  ghost predicate SameCells(a: seq<Fifo>, b: seq<Fifo>) {
    |a| == |b| == FRC_SSN_FIFO_NUM && forall f | 0 <= f < |a| :: b[f] == a[f].(cache := b[f].cache)
  }

  lemma WaitingSame(a: seq<Fifo>, b: seq<Fifo>, o: Owner, x: Addr)
    requires SameCells(a, b)
    ensures Waiting(b, o, x) == Waiting(a, o, x)
  {
    hide Of, Flat;
    if o.Holder? {
      assert b[FifoOf(o.session)] == a[FifoOf(o.session)].(cache := b[FifoOf(o.session)].cache);
    } else if o.Heading? && o.fifo < FRC_SSN_FIFO_NUM {
      assert b[o.fifo] == a[o.fifo].(cache := b[o.fifo].cache);
    }
  }

  /** Blocks that move between quiet owners disturb nothing but the lists. */
  lemma QuietMove(st: State, e: State, m: seq<Addr>, to: Owner)
    requires Inv(st) && SameCells(st.fifos, e.fifos) && Quiet(to)
    requires e == st.(avail := e.avail, fifos := e.fifos, compl := e.compl, held := e.held, owner := Moved(st.owner, m, to))
    requires forall b | b in m :: b in st.blocks && Quiet(st.owner(b))
    requires to.Completed? || to.Host? ==> forall b | b in m :: st.owner(b).Completed? || st.owner(b).Host?
    ensures Rest(e)
  {
    hide Lists, Flat, Heads, Of, Packs, Writes, Full, Pending;
    forall f | 0 <= f < FRC_SSN_FIFO_NUM
      ensures FifoOk(e.fifos[f]) && CellsOk(e.fifos[f].cells, f, e.blocks, e.owner)
    {
      assert e.fifos[f] == st.fifos[f].(cache := e.fifos[f].cache) && FifoOk(st.fifos[f]);
      CellsMoved(st.fifos[f].cells, f, st.blocks, st.owner, m, to);
    }
    forall s | 0 <= s < |e.sessions|
      ensures SessionOk(e, s)
    {
      assert SessionOk(st, s);
    }
    forall b | b in e.blocks
      ensures BlockOk(e, b)
    {
      assert BlockOk(st, b);
      WaitingSame(st.fifos, e.fifos, e.owner(b), b);
    }
  }

  lemma RefillInv(st: State, f: nat, n: nat)
    requires Inv(st) && Enabled(st, Refill(f, n))
    ensures Inv(Next(st, Refill(f, n)))
  {
    hide Rest, CellsOk, FifoOk, SessionOk, BlockOk, Lists;
    var e, m := Next(st, Refill(f, n)), st.avail[..n];
    AvailKnown(st);
    FrontTaken(st.avail, n);
    assert SameCells(st.fifos, e.fifos);
    QuietMove(st, e, m, Cache(f)) by {
      assert Inv(st);
    }
    ListsTaken(st.avail, e.avail, st.blocks, st.owner, Avail, m, Cache(f));
    ListsMoved(st.compl, st.blocks, st.owner, Completed, m, Cache(f));
    ListsMoved(st.held, st.blocks, st.owner, Host, m, Cache(f));
    forall g | 0 <= g < FRC_SSN_FIFO_NUM
      ensures Lists(e.fifos[g].cache, e.blocks, e.owner, Cache(g))
    {
      if g == f {
        ListsGiven(st.fifos[f].cache, st.blocks, st.owner, m, Cache(f));
        assert [] + m == m;
      } else {
        ListsMoved(st.fifos[g].cache, st.blocks, st.owner, Cache(g), m, Cache(f));
      }
    }
    RestInv(e);
  }

  lemma RestInv(e: State)
    requires |e.fifos| == FRC_SSN_FIFO_NUM && |e.blocks| <= FRC_DMA_SSN_RING_BUFF_SIZE && ListsOk(e) && Rest(e)
    ensures Inv(e)
  {
  }

  lemma AvailKnown(st: State)
    requires Inv(st)
    ensures NoDup(st.avail) && forall b | b in st.avail :: b in st.blocks && st.owner(b) == Avail
    ensures NoDup(st.compl) && forall b | b in st.compl :: b in st.blocks && st.owner(b) == Completed
    ensures NoDup(st.held) && forall b | b in st.held :: b in st.blocks && st.owner(b) == Host
  {
  }

  lemma CacheKnown(st: State, f: nat)
    requires Inv(st) && f < FRC_SSN_FIFO_NUM
    ensures NoDup(st.fifos[f].cache) && forall b | b in st.fifos[f].cache :: b in st.blocks && st.owner(b) == Cache(f)
  {
    assert Lists(st.fifos[f].cache, st.blocks, st.owner, Cache(f));
  }

  /** The caches of all fifos when a block moves between two other owners. */
  lemma CachesMoved(st: State, m: seq<Addr>, to: Owner)
    requires Inv(st) && !to.Cache?
    requires forall b | b in m :: b in st.blocks && !st.owner(b).Cache?
    ensures forall f | 0 <= f < FRC_SSN_FIFO_NUM ::
      Lists(st.fifos[f].cache, st.blocks, Moved(st.owner, m, to), Cache(f))
  {
    hide Lists;
    forall f | 0 <= f < FRC_SSN_FIFO_NUM
      ensures Lists(st.fifos[f].cache, st.blocks, Moved(st.owner, m, to), Cache(f))
    {
      ListsMoved(st.fifos[f].cache, st.blocks, st.owner, Cache(f), m, to);
    }
  }

  lemma HostTakeInv(st: State)
    requires Inv(st) && Enabled(st, HostTake)
    ensures Inv(Next(st, HostTake))
  {
    hide Rest, CellsOk, FifoOk, SessionOk, BlockOk, Lists;
    var e, m := Next(st, HostTake), [st.compl[0]];
    AvailKnown(st);
    OneTaken(st.compl, 0);
    assert st.compl[..0] + st.compl[1..] == st.compl[1..];
    QuietMove(st, e, m, Host);
    ListsTaken(st.compl, e.compl, st.blocks, st.owner, Completed, m, Host);
    ListsMoved(st.avail, st.blocks, st.owner, Avail, m, Host);
    ListsGiven(st.held, st.blocks, st.owner, m, Host);
    CachesMoved(st, m, Host);
    RestInv(e);
  }

  lemma HostReturnInv(st: State, k: nat)
    requires Inv(st) && Enabled(st, HostReturn(k))
    ensures Inv(Next(st, HostReturn(k)))
  {
    hide Rest, CellsOk, FifoOk, SessionOk, BlockOk, Lists;
    var e, m := Next(st, HostReturn(k)), [st.held[k]];
    AvailKnown(st);
    OneTaken(st.held, k);
    QuietMove(st, e, m, Avail);
    ListsTaken(st.held, e.held, st.blocks, st.owner, Host, m, Avail);
    ListsMoved(st.compl, st.blocks, st.owner, Completed, m, Avail);
    ListsGiven(st.avail, st.blocks, st.owner, m, Avail);
    CachesMoved(st, m, Avail);
    RestInv(e);
  }

  /** A block owned elsewhere has no cell in a fifo, and so no write waiting there. */
  lemma NotHere(st: State, f: nat, b: Addr)
    requires Inv(st) && f < FRC_SSN_FIFO_NUM && !Here(st.owner(b), f)
    ensures forall i | 0 <= i < |st.fifos[f].cells| :: st.fifos[f].cells[i].block != b
    ensures Of(Flat(st.fifos[f].cells), b) == [] && Of(Pending(st.fifos[f]), b) == []
  {
    hide Lists, Heads, BlockOk, SessionOk, FifoOk, Of, Flat;
    assert CellsOk(st.fifos[f].cells, f, st.blocks, st.owner);
    OfUnnamed(st.fifos[f].cells, b);
    var q := st.fifos[f];
    if q.sent <= |Flat(q.cells)| {
      OfUnnamedTail(Flat(q.cells), q.sent, b);
    } else {
      OfNone(b);
    }
  }

  lemma OfNone(b: Addr)
    ensures Of([], b) == []
  {
  }

  lemma TakeInv(st: State, s: nat)
    requires Inv(st) && Enabled(st, Take(s))
    ensures Inv(Next(st, Take(s)))
  {
    hide CellsOk, FifoOk, SessionOk, BlockOk, Lists, Pending, Waiting;
    var f, e := FifoOf(s), Next(st, Take(s));
    var cache := st.fifos[f].cache;
    var n := |cache| - 1;
    var b := cache[n];
    CacheKnown(st, f);
    AvailKnown(st);
    OneTaken(cache, n);
    assert cache[..n] + cache[n + 1..] == cache[..n];
    ListsMoved(st.avail, st.blocks, st.owner, Avail, [b], Holder(s));
    ListsMoved(st.compl, st.blocks, st.owner, Completed, [b], Holder(s));
    ListsMoved(st.held, st.blocks, st.owner, Host, [b], Holder(s));
    assert b in st.blocks && st.owner(b) == Cache(f);
    forall g | 0 <= g < FRC_SSN_FIFO_NUM
      ensures Lists(e.fifos[g].cache, e.blocks, e.owner, Cache(g))
    {
      if g == f {
        ListsTaken(cache, cache[..n], st.blocks, st.owner, Cache(f), [b], Holder(s));
      } else {
        ListsMoved(st.fifos[g].cache, st.blocks, st.owner, Cache(g), [b], Holder(s));
      }
    }
    TakeRest(st, s, b);
    RestInv(e);
  }

  lemma TakeRest(st: State, s: nat, b: Addr)
    requires Inv(st) && Enabled(st, Take(s))
    requires b in st.blocks && st.owner(b) == Cache(FifoOf(s)) && b == st.fifos[FifoOf(s)].cache[|st.fifos[FifoOf(s)].cache| - 1]
    ensures Rest(Next(st, Take(s)))
  {
    hide CellsOk, Lists, Pending, Packs, Full, ListsOk, Writes, Of, Flat, FifoOk;
    var f, e := FifoOf(s), Next(st, Take(s));
    assert SameCells(st.fifos, e.fifos);
    forall g | 0 <= g < FRC_SSN_FIFO_NUM
      ensures FifoOk(e.fifos[g]) && CellsOk(e.fifos[g].cells, g, e.blocks, e.owner)
    {
      assert e.fifos[g] == st.fifos[g].(cache := e.fifos[g].cache) && FifoOk(st.fifos[g]);
      FifoCache(st.fifos[g], e.fifos[g].cache);
      CellsMoved(st.fifos[g].cells, g, st.blocks, st.owner, [b], Holder(s));
    }
    forall t | 0 <= t < |e.sessions|
      ensures SessionOk(e, t)
    {
      assert SessionOk(st, t);
      if t == s {
        PacksNone();
      }
    }
    forall x | x in e.blocks
      ensures BlockOk(e, x)
    {
      assert BlockOk(st, x);
      WaitingSame(st.fifos, e.fifos, e.owner(x), x);
      if x == b {
        NotHere(st, f, b);
      }
    }
  }

  lemma PacksNext(ps: seq<Packet>, p: Packet)
    requires Packs(ps) && GoodPacket(p) && Fits(ps, p)
    ensures Packs(ps + [p]) && Writes(ps + [p]) == Writes(ps) + [PayloadWrite(ps, p), InfoWrite(ps, p)]
  {
    assert (ps + [p])[..|ps|] == ps;
  }

  /** One cell more at the end of a fifo that nobody posts. */
  lemma AppendWrites(q: Fifo, c: Cell, b: Addr)
    requires FifoOk(q) && q.Unlocked()
    ensures q.sent == 0
    ensures Of(Pending(q.(cells := q.cells + [c])), b) ==
      Of(Pending(q), b) + if c.block != b then [] else if c.HeadCell? then [c.head] else [c.payload, c.info]
    ensures |q.cells| < FRCORE_CORE_FIFO_NUM ==> FifoOk(q.(cells := q.cells + [c]))
  {
    hide Of;
    assert q.cells[..0] == [] && Flat([]) == [] && (q.cells + [c])[..0] == [];
    FlatConcat(q.cells, [c]);
    assert [c][1..] == [];
    assert Flat([c]) == CellWrites(c) + [] == CellWrites(c);
    OfConcat(Flat(q.cells), CellWrites(c), b);
    OfCell(c, b);
    assert Flat(q.cells)[0..] == Flat(q.cells) && Flat(q.cells + [c])[0..] == Flat(q.cells + [c]);
  }

  /** No header is queued for a block that a session still holds. */
  lemma NoHeadYet(st: State, f: nat, b: Addr)
    requires Inv(st) && f < FRC_SSN_FIFO_NUM && st.owner(b).Holder?
    ensures forall i | 0 <= i < |st.fifos[f].cells| :: st.fifos[f].cells[i].HeadCell? ==> st.fifos[f].cells[i].block != b
    ensures b !in Heads(st.fifos[f].cells)
  {
    hide Flat, Of, BlockOk, SessionOk;
    assert CellsOk(st.fifos[f].cells, f, st.blocks, st.owner);
    HeadsAre(st.fifos[f].cells, b);
  }

  /** Setting the mark of an overrun changes nothing else. */
  lemma OverrunInv(st: State)
    requires Inv(st)
    ensures Inv(st.(overrun := true))
  {
    hide CellsOk, FifoOk, Lists, Pending, Packs, Writes, Full, Flat, Of;
    var e := st.(overrun := true);
    forall x | x in e.blocks
      ensures BlockOk(e, x)
    {
      assert BlockOk(st, x);
    }
    forall t | 0 <= t < |e.sessions|
      ensures SessionOk(e, t)
    {
      assert SessionOk(st, t);
    }
  }

  lemma AddPayloadInv(st: State, s: nat, p: Packet)
    requires Inv(st) && Enabled(st, AddPayload(s, p)) && |p.data| <= FRC_PAYLOAD_LEN_MAX
    ensures Inv(Next(st, AddPayload(s, p)))
  {
    hide CellsOk, FifoOk, Lists, Pending, Packs, Writes, Full, PayloadWrite, InfoWrite, Fits, Flat, Of, GoodPacket;
    var f, e := FifoOf(s), Next(st, AddPayload(s, p));
    var b, ps := st.sessions[s].block, st.sessions[s].packets;
    var cell := PayloadCell(b, PayloadWrite(ps, p), InfoWrite(ps, p));
    assert SessionOk(st, s);
    PacksNext(ps, p);
    forall g | 0 <= g < FRC_SSN_FIFO_NUM
      ensures FifoOk(e.fifos[g]) && CellsOk(e.fifos[g].cells, g, e.blocks, e.owner)
    {
      if g == f {
        assert FifoOk(st.fifos[f]) && CellsOk(st.fifos[f].cells, f, st.blocks, st.owner);
        AppendWrites(st.fifos[f], cell, b);
        NoHeadYet(st, f, b);
        AppendPayload(st.fifos[f].cells, f, st.blocks, st.owner, cell);
      }
    }
    forall t | 0 <= t < |e.sessions|
      ensures SessionOk(e, t)
    {
      assert SessionOk(st, t);
      assert t != s && st.sessions[t].Open? ==> st.sessions[t].block != b;
    }
    forall x | x in e.blocks
      ensures BlockOk(e, x)
    {
      assert BlockOk(st, x) && BlockOk(st, b);
      assert FifoOk(st.fifos[f]);
      AppendWrites(st.fifos[f], cell, x);
    }
    assert ListsOk(e) by {
      assert ListsOk(st);
    }
  }

  lemma AppendPayload(cells: seq<Cell>, f: nat, blocks: set<Addr>, owner: Addr -> Owner, c: Cell)
    requires CellsOk(cells, f, blocks, owner) && c.PayloadCell? && c.block in blocks && Here(owner(c.block), f)
    requires forall i | 0 <= i < |cells| :: cells[i].HeadCell? ==> cells[i].block != c.block
    ensures CellsOk(cells + [c], f, blocks, owner)
  {
    hide Lists;
    HeadsConcat(cells, [c]);
    assert [c][1..] == [];
    assert Heads(cells) + [] == Heads(cells);
  }

  lemma FifoCache(q: Fifo, cache: seq<Addr>)
    requires FifoOk(q)
    ensures FifoOk(q.(cache := cache))
  {
  }

  lemma AddHeadInv(st: State, s: nat, key: Key, unset: seq<byte>)
    requires Inv(st) && Enabled(st, AddHead(s, key, unset))
    ensures Inv(Next(st, AddHead(s, key, unset)))
  {
    hide CellsOk, FifoOk, Lists, Pending, Packs, Writes, HeadWrite, Flat, Of, Rest, BlockOk, Waiting;
    var f, e := FifoOf(s), Next(st, AddHead(s, key, unset));
    var b := st.sessions[s].block;
    assert SessionOk(st, s);
    ListsMoved(st.avail, st.blocks, st.owner, Avail, [b], Heading(f));
    ListsMoved(st.compl, st.blocks, st.owner, Completed, [b], Heading(f));
    ListsMoved(st.held, st.blocks, st.owner, Host, [b], Heading(f));
    CachesMoved(st, [b], Heading(f));
    AddHeadCells(st, s, key, unset);
    AddHeadBlocks(st, s, key, unset);
    forall t | 0 <= t < |e.sessions|
      ensures SessionOk(e, t)
    {
      assert SessionOk(st, t);
    }
  }

  lemma AddHeadCells(st: State, s: nat, key: Key, unset: seq<byte>)
    requires Inv(st) && Enabled(st, AddHead(s, key, unset))
    ensures var e := Next(st, AddHead(s, key, unset));
      forall g | 0 <= g < FRC_SSN_FIFO_NUM :: FifoOk(e.fifos[g]) && CellsOk(e.fifos[g].cells, g, e.blocks, e.owner)
  {
    hide CellsOk, FifoOk, Lists, Pending, Packs, Writes, HeadWrite, Flat, Of, BlockOk, ListsOk;
    var f, e := FifoOf(s), Next(st, AddHead(s, key, unset));
    var b, ps := st.sessions[s].block, st.sessions[s].packets;
    var cell := HeadCell(b, HeadWrite(key, ps, unset));
    assert SessionOk(st, s);
    forall g | 0 <= g < FRC_SSN_FIFO_NUM
      ensures FifoOk(e.fifos[g]) && CellsOk(e.fifos[g].cells, g, e.blocks, e.owner)
    {
      assert FifoOk(st.fifos[g]) && CellsOk(st.fifos[g].cells, g, st.blocks, st.owner);
      if g == f {
        AppendWrites(st.fifos[f], cell, b);
        NoHeadYet(st, f, b);
        AppendHead(st.fifos[f].cells, f, st.blocks, st.owner, cell);
      } else {
        CellsMoved(st.fifos[g].cells, g, st.blocks, st.owner, [b], Heading(f));
      }
    }
  }

  lemma AppendHead(cells: seq<Cell>, f: nat, blocks: set<Addr>, owner: Addr -> Owner, c: Cell)
    requires CellsOk(cells, f, blocks, owner) && c.HeadCell? && c.block in blocks && owner(c.block).Holder?
    requires forall i | 0 <= i < |cells| :: cells[i].HeadCell? ==> cells[i].block != c.block
    ensures CellsOk(cells + [c], f, blocks, Moved(owner, [c.block], Heading(f)))
  {
    hide Lists;
    HeadsConcat(cells, [c]);
    assert [c][1..] == [];
    assert Heads([c]) == [c.block] + [] == [c.block];
    ListsGiven(Heads(cells), blocks, owner, [c.block], Heading(f));
  }

  lemma AddHeadBlocks(st: State, s: nat, key: Key, unset: seq<byte>)
    requires Inv(st) && Enabled(st, AddHead(s, key, unset))
    ensures var e := Next(st, AddHead(s, key, unset)); forall x | x in e.blocks :: BlockOk(e, x)
  {
    hide CellsOk, FifoOk, Lists, Pending, Packs, Writes, HeadWrite, Flat, Of, ListsOk, GoodKey;
    var f, e := FifoOf(s), Next(st, AddHead(s, key, unset));
    var b, ps := st.sessions[s].block, st.sessions[s].packets;
    var cell := HeadCell(b, HeadWrite(key, ps, unset));
    assert SessionOk(st, s);
    forall x | x in e.blocks
      ensures BlockOk(e, x)
    {
      assert BlockOk(st, x) && BlockOk(st, b) && FifoOk(st.fifos[f]);
      AppendWrites(st.fifos[f], cell, x);
    }
  }

  /** Changes to a fifo that keep its cells, its place in them and who owns what. */
  lemma SteadyInv(st: State, e: State, f: nat, q: Fifo)
    requires Inv(st) && f < FRC_SSN_FIFO_NUM && e == st.(fifos := st.fifos[f := q])
    requires q.cells == st.fifos[f].cells && q.cache == st.fifos[f].cache && q.sent == st.fifos[f].sent && FifoOk(q)
    ensures Inv(e)
  {
    hide CellsOk, FifoOk, Lists, Packs, Writes, Flat, Of, Full;
    forall x | x in e.blocks
      ensures BlockOk(e, x)
    {
      assert BlockOk(st, x);
    }
    forall t | 0 <= t < |e.sessions|
      ensures SessionOk(e, t)
    {
      assert SessionOk(st, t);
    }
  }

  lemma BeginPostInv(st: State, f: nat)
    requires Inv(st) && Enabled(st, BeginPost(f))
    ensures Inv(Next(st, BeginPost(f)))
  {
    hide Flat, CellsOk, ListsOk, BlockOk, SessionOk;
    var q := st.fifos[f];
    assert FifoOk(q) by {
      FifosOk(st, f);
    }
    assert q.cells[..0] == [] && Flat([]) == [] by {
      FlatNone();
    }
    assert q.cells[..|q.cells|] == q.cells;
    SteadyInv(st, Next(st, BeginPost(f)), f, q.(post := |q.cells|));
  }

  lemma FlatNone()
    ensures Flat([]) == []
  {
  }

  lemma FifosOk(st: State, f: nat)
    requires Inv(st) && f < FRC_SSN_FIFO_NUM
    ensures FifoOk(st.fifos[f]) && CellsOk(st.fifos[f].cells, f, st.blocks, st.owner)
  {
  }

  lemma AdvanceInv(st: State, f: nat)
    requires Inv(st) && Enabled(st, Advance(f))
    ensures Inv(Next(st, Advance(f)))
  {
    hide Flat, CellsOk, ListsOk, BlockOk, SessionOk;
    FifosOk(st, f);
    SteadyInv(st, Next(st, Advance(f)), f, st.fifos[f].(stale := []));
  }

  lemma CloseInv(st: State, s: nat)
    requires Inv(st) && Enabled(st, Close(s))
    ensures Inv(Next(st, Close(s)))
  {
    hide CellsOk, FifoOk, Lists, Packs, Writes, Flat, Of, Full, Pending;
    var e := Next(st, Close(s));
    forall x | x in e.blocks
      ensures BlockOk(e, x)
    {
      assert BlockOk(st, x);
    }
    forall t | 0 <= t < |e.sessions|
      ensures SessionOk(e, t)
    {
      assert SessionOk(st, t);
    }
  }

  /** The next k writes of the cells being posted are the first k pending. */
  lemma PostedFirst(q: Fifo, k: nat)
    requires FifoOk(q) && q.sent + k <= |Flat(q.cells[..q.post])|
    ensures q.sent + k <= |Flat(q.cells)| && k <= |Pending(q)|
    ensures Flat(q.cells[..q.post])[q.sent..q.sent + k] == Pending(q)[..k]
    ensures Pending(q.(sent := q.sent + k)) == Pending(q)[k..]
  {
    assert q.cells == q.cells[..q.post] + q.cells[q.post..];
    FlatConcat(q.cells[..q.post], q.cells[q.post..]);
  }

  lemma ScatterInv(st: State, f: nat, k: nat)
    requires Inv(st) && Enabled(st, Scatter(f, k))
    ensures Inv(Next(st, Scatter(f, k)))
  {
    hide CellsOk, Lists, Packs, Writes, Flat, Of, Full, Pending, ListsOk;
    var e, q := Next(st, Scatter(f, k)), st.fifos[f];
    FifosOk(st, f);
    PostedFirst(q, k);
    var pending := Pending(q);
    assert pending == pending[..k] + pending[k..];
    forall x | x in e.blocks
      ensures BlockOk(e, x)
    {
      assert BlockOk(st, x);
      OfConcat(pending[..k], pending[k..], x);
      if !Here(st.owner(x), f) {
        NotHere(st, f, x);
      }
    }
    forall t | 0 <= t < |e.sessions|
      ensures SessionOk(e, t)
    {
      assert SessionOk(st, t);
    }
    assert ListsOk(e) by {
      SameLists(st, e);
    }
  }

  lemma SameLists(st: State, e: State)
    requires |st.fifos| == |e.fifos| == FRC_SSN_FIFO_NUM && ListsOk(st)
    requires e.blocks == st.blocks && e.owner == st.owner && e.avail == st.avail && e.compl == st.compl && e.held == st.held
    requires forall g | 0 <= g < FRC_SSN_FIFO_NUM :: e.fifos[g].cache == st.fifos[g].cache
    ensures ListsOk(e)
  {
  }

  // Publishing

  lemma {:induction false} NoDupSize(q: seq<Addr>, s: set<Addr>)
    requires NoDup(q) && forall b | b in q :: b in s
    ensures |q| <= |s|
  {
    if q != [] {
      var n := |q| - 1;
      assert forall b | b in q[..n] :: b in q && b != q[n];
      NoDupSize(q[..n], s - {q[n]});
      assert q[n] in s;
    }
  }

  /** What the cells being posted tell of their headers: their blocks are headed for the host, and
      the cells that stay behind name none of them. */
  lemma PostedHeads(st: State, f: nat)
    requires Inv(st) && ReadyToPublish(st, f)
    ensures
      var q := st.fifos[f];
      var heads, rest := Heads(q.cells[..q.post]), q.cells[q.post..];
      NoDup(heads) && (forall b | b in heads :: b in st.blocks && st.owner(b) == Heading(f)) &&
      (forall i | 0 <= i < |rest| :: rest[i].block !in heads) &&
      Heads(q.cells) == heads + Heads(rest) && Flat(q.cells) == Flat(q.cells[..q.post]) + Flat(rest)
  {
    hide Flat, BlockOk, SessionOk, FifoOk;
    var q := st.fifos[f];
    var first, rest := q.cells[..q.post], q.cells[q.post..];
    assert q.cells == first + rest;
    assert CellsOk(q.cells, f, st.blocks, st.owner);
    HeadsConcat(first, rest);
    FlatConcat(first, rest);
    var heads := Heads(first);
    assert forall i | 0 <= i < |heads| :: heads[i] == Heads(q.cells)[i];
    forall i | 0 <= i < |rest|
      ensures rest[i].block !in heads
    {
      HeadsAre(first, rest[i].block);
      assert rest[i] == q.cells[q.post + i];
      assert forall j | 0 <= j < |first| :: first[j] == q.cells[j];
    }
  }

  /** The completed ring always has room: what is on it and what is about to be are different
      blocks, and there are no more blocks than the ring has places. */
  lemma AlwaysSpace(st: State, f: nat)
    requires Inv(st) && ReadyToPublish(st, f)
    ensures HasSpace(st, f)
  {
    hide Flat, Heads, BlockOk, SessionOk, FifoOk, CellsOk;
    PostedHeads(st, f);
    AvailKnown(st);
    var heads := Heads(st.fifos[f].cells[..st.fifos[f].post]);
    ListsGiven(st.compl, st.blocks, st.owner, heads, Completed);
    NoDupSize(st.compl + heads, st.blocks);
  }

  lemma PublishInv(st: State, f: nat)
    requires Inv(st) && Enabled(st, Publish(f))
    ensures Inv(Next(st, Publish(f)))
  {
    hide CellsOk, FifoOk, Lists, Pending, Packs, Flat, Of, Rest, BlockOk, Waiting, SessionOk, Heads;
    var e := Next(st, Publish(f));
    var heads := Heads(st.fifos[f].cells[..st.fifos[f].post]);
    PostedHeads(st, f);
    ListsMoved(st.avail, st.blocks, st.owner, Avail, heads, Completed);
    ListsGiven(st.compl, st.blocks, st.owner, heads, Completed);
    ListsMoved(st.held, st.blocks, st.owner, Host, heads, Completed);
    CachesMoved(st, heads, Completed);
    PublishCells(st, f, e);
    PublishBlocks(st, f);
    forall t | 0 <= t < |e.sessions|
      ensures SessionOk(e, t)
    {
      assert SessionOk(st, t);
      SessionMoved(st, e, t, heads, Completed);
    }
  }

  lemma SessionMoved(st: State, e: State, t: nat, m: seq<Addr>, to: Owner)
    requires t < |st.sessions| && SessionOk(st, t) && (forall b | b in m :: !st.owner(b).Holder?)
    requires e.sessions == st.sessions && e.blocks == st.blocks && e.recorded == st.recorded && e.owner == Moved(st.owner, m, to)
    ensures SessionOk(e, t)
  {
  }

  lemma PublishCells(st: State, f: nat, e: State)
    requires Inv(st) && Enabled(st, Publish(f)) && e == Next(st, Publish(f)) && |e.fifos| == FRC_SSN_FIFO_NUM
    ensures forall g | 0 <= g < FRC_SSN_FIFO_NUM :: FifoOk(e.fifos[g]) && CellsOk(e.fifos[g].cells, g, e.blocks, e.owner)
  {
    hide CellsOk, Lists, Pending, Packs, Flat, Of, BlockOk, SessionOk, Heads, ListsOk;
    var q := st.fifos[f];
    var heads := Heads(q.cells[..q.post]);
    PostedHeads(st, f);
    forall g | 0 <= g < FRC_SSN_FIFO_NUM
      ensures FifoOk(e.fifos[g]) && CellsOk(e.fifos[g].cells, g, e.blocks, e.owner)
    {
      FifosOk(st, g);
      if g == f {
        FlatNone();
        assert q.cells[q.post..][..0] == [];
        CellsLeft(q.cells, q.post, f, st.blocks, st.owner);
      } else {
        CellsMoved(st.fifos[g].cells, g, st.blocks, st.owner, heads, Completed);
      }
    }
  }

  lemma CellsLeft(cells: seq<Cell>, n: nat, f: nat, blocks: set<Addr>, owner: Addr -> Owner)
    requires CellsOk(cells, f, blocks, owner) && n <= |cells| && Heads(cells) == Heads(cells[..n]) + Heads(cells[n..])
    requires forall i | 0 <= i < |cells[n..]| :: cells[n..][i].block !in Heads(cells[..n])
    ensures CellsOk(cells[n..], f, blocks, Moved(owner, Heads(cells[..n]), Completed))
  {
    hide Heads, Here;
    var all, heads, rest := Heads(cells), Heads(cells[..n]), Heads(cells[n..]);
    assert all[..|heads|] == heads && all[|heads|..] == rest;
    FrontTaken(all, |heads|);
    ListsTaken(all, rest, blocks, owner, Heading(f), heads, Completed);
    assert forall i | 0 <= i < |cells[n..]| :: cells[n..][i] == cells[n + i];
  }

  lemma PublishBlocks(st: State, f: nat)
    requires Inv(st) && Enabled(st, Publish(f))
    ensures var e := Next(st, Publish(f)); forall x | x in e.blocks :: BlockOk(e, x)
  {
    hide CellsOk, Lists, Packs, Flat, Of, SessionOk, Heads, ListsOk, Full;
    var e, q := Next(st, Publish(f)), st.fifos[f];
    PostedHeads(st, f);
    FifosOk(st, f);
    var rest := q.cells[q.post..];
    assert Flat(q.cells)[q.sent..] == Flat(rest) && Flat(rest)[0..] == Flat(rest);
    forall x | x in e.blocks
      ensures BlockOk(e, x)
    {
      assert BlockOk(st, x);
      if x in Heads(q.cells[..q.post]) {
        OfUnnamed(rest, x);
      }
    }
  }

  // Every step, every run

  lemma StepKeepsInv(st: State, step: Step)
    requires Inv(st) && Enabled(st, step)
    ensures Inv(Next(st, step)) && Next(st, step).blocks == st.blocks && !step.NoSpace?
  {
    hide Inv, Next;
    StepBlocks(st, step);
    match step
    case Refill(f, n) => RefillInv(st, f, n);
    case Take(s) => TakeInv(st, s);
    case AddPayload(s, p) =>
      if |p.data| <= FRC_PAYLOAD_LEN_MAX {
        AddPayloadInv(st, s, p);
      } else {
        OverrunNext(st, s, p);
        OverrunInv(st);
      }
    case AddHead(s, key, unset) => AddHeadInv(st, s, key, unset);
    case Close(s) => CloseInv(st, s);
    case BeginPost(f) => BeginPostInv(st, f);
    case Scatter(f, k) => ScatterInv(st, f, k);
    case Publish(f) => PublishInv(st, f);
    case NoSpace(f) => AlwaysSpace(st, f);
    case Advance(f) => AdvanceInv(st, f);
    case HostTake => HostTakeInv(st);
    case HostReturn(k) => HostReturnInv(st, k);
  }

  lemma OverrunNext(st: State, s: nat, p: Packet)
    requires Inv(st) && Enabled(st, AddPayload(s, p)) && |p.data| > FRC_PAYLOAD_LEN_MAX
    ensures |st.fifos| == FRC_SSN_FIFO_NUM && Next(st, AddPayload(s, p)) == st.(overrun := true)
  {
  }

  lemma StepBlocks(st: State, step: Step)
    requires Inv(st) && Enabled(st, step)
    ensures |st.fifos| == |Next(st, step).fifos| == FRC_SSN_FIFO_NUM && Next(st, step).blocks == st.blocks
    ensures |Next(st, step).sessions| == |st.sessions|
  {
  }

  ghost predicate Initial(st: State) {
    |st.fifos| == FRC_SSN_FIFO_NUM && |st.blocks| <= FRC_DMA_SSN_RING_BUFF_SIZE && !st.overrun &&
    NoDup(st.avail) && (forall b: Addr :: b in st.avail <==> b in st.blocks) && st.compl == [] && st.held == [] &&
    (forall f | 0 <= f < FRC_SSN_FIFO_NUM :: st.fifos[f] == Fifo([], [], 0, 0, [])) &&
    (forall s | 0 <= s < |st.sessions| :: st.sessions[s] == Closed) &&
    forall b: Addr :: st.owner(b) == Avail && st.recorded(b) == [] && st.issued(b) == []
  }

  lemma InitialInv(st: State)
    requires Initial(st)
    ensures Inv(st)
  {
    hide Packs, Writes, Full;
    forall f | 0 <= f < FRC_SSN_FIFO_NUM
      ensures FifoOk(st.fifos[f]) && CellsOk(st.fifos[f].cells, f, st.blocks, st.owner)
      ensures Lists(st.fifos[f].cache, st.blocks, st.owner, Cache(f))
    {
      assert st.fifos[f] == Fifo([], [], 0, 0, []);
    }
    forall b | b in st.blocks
      ensures BlockOk(st, b)
    {
      assert st.owner(b) == Avail;
    }
  }

  /** The states that a run of enabled steps leads to. */
  ghost predicate Leads(st: State, steps: seq<Step>, e: State)
    decreases |steps|
  {
    if steps == [] then e == st
    else |st.fifos| == FRC_SSN_FIFO_NUM && Enabled(st, steps[0]) && Leads(Next(st, steps[0]), steps[1..], e)
  }

  lemma {:induction false} RunKeepsInv(st: State, steps: seq<Step>, e: State)
    requires Inv(st) && Leads(st, steps, e)
    ensures Inv(e) && e.blocks == st.blocks && forall i | 0 <= i < |steps| :: !steps[i].NoSpace?
    decreases |steps|
  {
    hide Inv, Next, Enabled;
    if steps != [] {
      StepKeepsInv(st, steps[0]);
      RunKeepsInv(Next(st, steps[0]), steps[1..], e);
      assert forall i | 0 < i < |steps| :: steps[i] == steps[1..][i - 1];
    }
  }

  /** Where a block is found, looking at nothing but the lists, fifos and sessions. */
  ghost predicate Found(st: State, b: Addr, o: Owner)
    requires |st.fifos| == FRC_SSN_FIFO_NUM
  {
    match o
    case Avail => b in st.avail
    case Cache(f) => f < FRC_SSN_FIFO_NUM && b in st.fifos[f].cache
    case Holder(s) => s < |st.sessions| && st.sessions[s].Open? && st.sessions[s].block == b
    case Heading(f) => f < FRC_SSN_FIFO_NUM && b in Heads(st.fifos[f].cells)
    case Completed => b in st.compl
    case Host => b in st.held
  }

  lemma FifoCount(st: State)
    requires Inv(st)
    ensures |st.fifos| == FRC_SSN_FIFO_NUM
  {
  }

  /** Conservation, after any run: each of the initial blocks is found in exactly one place, and no
      other address is found anywhere. */
  lemma BlocksConserved(st: State, steps: seq<Step>, e: State, b: Addr, o: Owner)
    requires Initial(st) && Leads(st, steps, e)
    ensures |e.fifos| == FRC_SSN_FIFO_NUM
    ensures Found(e, b, o) <==> b in st.blocks && e.owner(b) == o
  {
    hide Initial, Leads, Inv, Found;
    InitialInv(st);
    RunKeepsInv(st, steps, e);
    FifoCount(e);
    PlacesExact(e);
  }

  /** Nor is it found there twice, and no ring or fifo is ever over its size. */
  lemma NothingOverflows(st: State, steps: seq<Step>, e: State, f: nat)
    requires Initial(st) && Leads(st, steps, e) && f < FRC_SSN_FIFO_NUM
    ensures NoDup(e.avail) && NoDup(e.compl) && NoDup(e.held)
    ensures |e.fifos| == FRC_SSN_FIFO_NUM && NoDup(e.fifos[f].cache) && NoDup(Heads(e.fifos[f].cells))
    ensures |e.avail| + |e.compl| + |e.held| <= FRC_DMA_SSN_RING_BUFF_SIZE
    ensures |e.fifos[f].cells| + |e.fifos[f].stale| <= FRCORE_CORE_FIFO_NUM
  {
    hide Initial, Leads, Found;
    InitialInv(st);
    RunKeepsInv(st, steps, e);
    PlacesExact(e);
    RingsFit(e);
  }

  lemma PlacesExact(e: State)
    requires Inv(e)
    ensures forall b: Addr, o: Owner :: Found(e, b, o) <==> b in e.blocks && e.owner(b) == o
    ensures NoDup(e.avail) && NoDup(e.compl) && NoDup(e.held)
    ensures forall f | 0 <= f < FRC_SSN_FIFO_NUM :: NoDup(e.fifos[f].cache) && NoDup(Heads(e.fifos[f].cells))
    ensures forall f | 0 <= f < FRC_SSN_FIFO_NUM :: |e.fifos[f].cells| + |e.fifos[f].stale| <= FRCORE_CORE_FIFO_NUM
  {
    hide Packs, Writes, Full, Flat, Heads, Waiting;
    forall f | 0 <= f < FRC_SSN_FIFO_NUM
      ensures FifoOk(e.fifos[f]) && CellsOk(e.fifos[f].cells, f, e.blocks, e.owner)
      ensures Lists(e.fifos[f].cache, e.blocks, e.owner, Cache(f))
    {
    }
    forall b: Addr, o: Owner
      ensures Found(e, b, o) <==> b in e.blocks && e.owner(b) == o
    {
      assert b in e.blocks ==> BlockOk(e, b);
      if o.Holder? && o.session < |e.sessions| {
        assert SessionOk(e, o.session);
      }
    }
  }

  lemma RingsFit(e: State)
    requires Inv(e)
    ensures |e.avail| + |e.compl| + |e.held| <= |e.blocks|
  {
    hide Rest, BlockOk, SessionOk, CellsOk, FifoOk;
    AvailKnown(e);
    var q := e.avail + e.compl + e.held;
    forall i, j | 0 <= i < j < |q|
      ensures q[i] != q[j]
    {
      assert q[i] in e.avail || q[i] in e.compl || q[i] in e.held;
      assert q[j] in e.avail || q[j] in e.compl || q[j] in e.held;
    }
    NoDupSize(q, e.blocks);
  }

  /** Every payload submitted fits the cell it is queued in: what a caller can see to. */
  predicate SmallPayloads(steps: seq<Step>) {
    forall i | 0 <= i < |steps| && steps[i].AddPayload? :: |steps[i].p.data| <= FRC_PAYLOAD_LEN_MAX
  }

  /** A run overruns a cell exactly when a payload larger than the cell's room is submitted. */
  lemma {:induction false} OverrunExactly(st: State, steps: seq<Step>, e: State)
    requires Inv(st) && !st.overrun && Leads(st, steps, e)
    ensures e.overrun <==> !SmallPayloads(steps)
    decreases |steps|
  {
    hide Inv;
    if steps != [] {
      var m := Next(st, steps[0]);
      StepKeepsInv(st, steps[0]);
      if m.overrun {
        AfterOverrun(m, steps[1..], e);
        assert steps[0].AddPayload? && |steps[0].p.data| > FRC_PAYLOAD_LEN_MAX;
      } else {
        OverrunExactly(m, steps[1..], e);
        assert steps[0].AddPayload? ==> |steps[0].p.data| <= FRC_PAYLOAD_LEN_MAX;
        assert forall i | 0 < i < |steps| :: steps[i] == steps[1..][i - 1];
        assert forall i | 0 <= i < |steps[1..]| :: steps[1..][i] == steps[i + 1];
      }
    }
  }

  lemma AfterOverrun(st: State, steps: seq<Step>, e: State)
    requires st.overrun && Leads(st, steps, e)
    ensures e == st
  {
  }

  /** Safety of what the host sees, after any run whose payloads fit their cells: a block that is on
      the completed ring or with the host has had exactly its packets and then its header written, no
      write for it waits in any fifo, and whatever its memory held before it now decodes to its key
      and its packets. */
  lemma PublishedIsComplete(st: State, steps: seq<Step>, e: State, b: Addr, mem: seq<byte>)
    requires Initial(st) && Leads(st, steps, e) && SmallPayloads(steps) && |mem| == BLOCK_SIZE
    requires b in e.compl || b in e.held
    ensures |e.fifos| == FRC_SSN_FIFO_NUM && !e.overrun
    ensures forall f, i | 0 <= f < FRC_SSN_FIFO_NUM && 0 <= i < |e.fifos[f].cells| :: e.fifos[f].cells[i].block != b
    ensures
      var c := e.content(b);
      Packs(c.packets) && |c.unset| == 16 && e.issued(b) == BlockWrites(c.key, c.packets, c.unset) &&
      AllInside(e.issued(b)) && Decode(ApplyAll(mem, e.issued(b))) == Some(Block(c.key, Total(c.packets), c.packets))
  {
    hide Packs, Writes, Flat, Heads, BlockWrites, HeadWrite, Decode, ApplyAll, AllInside, Leads;
    InitialInv(st);
    RunKeepsInv(st, steps, e);
    OverrunExactly(st, steps, e);
    AvailKnown(e);
    assert BlockOk(e, b);
    forall f, i | 0 <= f < FRC_SSN_FIFO_NUM && 0 <= i < |e.fifos[f].cells|
      ensures e.fifos[f].cells[i].block != b
    {
      NotHere(e, f, b);
    }
    var c := e.content(b);
    DecodeBlock(mem, c.key, c.packets, c.unset);
  }

  /** The host's step that gives a block back. */
  predicate GivesBack(st: State, step: Step, b: Addr) {
    step.HostReturn? && step.k < |st.held| && st.held[step.k] == b
  }

  /** From then until the host gives it back nothing is written to it: no step but the host's own
      takes a published block anywhere, writes to it or changes what it was closed with. */
  lemma PublishedStays(st: State, step: Step, b: Addr)
    requires Inv(st) && Enabled(st, step) && (b in st.compl || b in st.held)
    requires !GivesBack(st, step, b)
    ensures
      var e := Next(st, step);
      (b in e.compl || b in e.held) && e.issued(b) == st.issued(b) && e.recorded(b) == st.recorded(b) &&
      e.content(b) == st.content(b)
  {
    hide Packs, Writes, Full, Flat, Heads, Lists, BlockOk, SessionOk, CellsOk, FifoOk, Of, Waiting, ListsOk;
    var e := Next(st, step);
    StepKeepsInv(st, step);
    AvailKnown(st);
    AvailKnown(e);
    if step.Scatter? {
      var q := st.fifos[step.f];
      NotHere(st, step.f, b);
      FifosOk(st, step.f);
      PostedFirst(q, step.k);
      OfUnnamedTail(Pending(q), step.k, b);
    } else if step.Take? {
      CacheKnown(st, FifoOf(step.s));
    } else if step.AddPayload? || step.AddHead? {
      SessionsOk(st, step.s);
    }
    StaysPublished(st, step, b);
  }

  lemma SessionsOk(st: State, s: nat)
    requires Inv(st) && s < |st.sessions|
    ensures SessionOk(st, s)
  {
  }

  lemma StaysPublished(st: State, step: Step, b: Addr)
    requires Inv(st) && Enabled(st, step) && (b in st.compl || b in st.held)
    requires !GivesBack(st, step, b)
    ensures b in Next(st, step).compl || b in Next(st, step).held
  {
    hide ListsOk, CellsOk, FifoOk, SessionOk, Flat, Heads, Of, Waiting, BlockOk;
    var e := Next(st, step);
    if step.HostTake? && b in st.compl {
      var i :| 0 <= i < |st.compl| && st.compl[i] == b;
      assert i > 0 ==> st.compl[1..][i - 1] == b;
    } else if step.HostReturn? && b in st.held {
      var i :| 0 <= i < |st.held| && st.held[i] == b;
      assert e.held[if i < step.k then i else i - 1] == b;
    }
  }

  /** The header goes out last: until it does the writes that are out are a part of the packets',
      in the order in which they were recorded. */
  lemma HeaderIsLast(st: State, b: Addr)
    requires Inv(st) && b in st.blocks
    requires st.owner(b).Heading? || st.owner(b).Holder?
    ensures |st.issued(b)| <= |st.recorded(b)| && st.issued(b) == st.recorded(b)[..|st.issued(b)|]
    ensures st.owner(b).Heading? ==>
      var c := st.content(b);
      Packs(c.packets) && |c.unset| == 16 && st.recorded(b) == Writes(c.packets) + [HeadWrite(c.key, c.packets, c.unset)]
    ensures st.owner(b).Holder? ==>
      var s := st.owner(b).session;
      s < |st.sessions| && st.sessions[s].Open? && Packs(st.sessions[s].packets) &&
      st.recorded(b) == Writes(st.sessions[s].packets)
  {
    hide Packs, Writes, Waiting, HeadWrite;
    assert BlockOk(st, b);
    if st.owner(b).Holder? {
      assert SessionOk(st, st.owner(b).session);
    }
  }

  /** A host that holds a block can always give it back. */
  lemma HostCanReturn(st: State, k: nat)
    requires Inv(st) && k < |st.held| && !st.overrun
    ensures Enabled(st, HostReturn(k))
  {
    RingsFit(st);
  }

  /** And one that finds a block on the completed ring can take it, the first first. */
  lemma HostCanTake(st: State)
    requires |st.fifos| == FRC_SSN_FIFO_NUM && st.compl != [] && !st.overrun
    ensures Enabled(st, HostTake)
    ensures Next(st, HostTake).held == st.held + [st.compl[0]] && Next(st, HostTake).compl == st.compl[1..]
  {
  }
}
