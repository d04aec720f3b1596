/** The session fifo object: its cells in an array used modulo its size and its cache of block
    addresses, with the posting that turns cells into transfers and published blocks. */
module SsnFifo {
  import opened Sequences
  import opened Rings
  import opened BlockPacking
  import opened BlockProtocol

  const FRCORE_SSN_AVAIL_BUFF_GET_SIZE: nat := 1000

  /** Transfers of a full load each, but for the last. */
  ghost predicate Loads(out: seq<seq<Posted>>) {
    (forall i | 0 <= i < |out| :: 0 < |out[i]| <= FRCORE_MAX_DMA_POINTERS) &&
    forall i | 0 <= i < |out| - 1 :: |out[i]| == FRCORE_MAX_DMA_POINTERS
  }

  lemma FlatNext(cells: seq<Cell>, k: nat)
    requires k < |cells|
    ensures Flat(cells[..k + 1]) == Flat(cells[..k]) + CellWrites(cells[k])
    ensures Heads(cells[..k + 1]) == Heads(cells[..k]) + if cells[k].HeadCell? then [cells[k].block] else []
  {
    assert cells[..k + 1] == cells[..k] + [cells[k]];
    assert [cells[k]][1..] == [];
    FlatConcat(cells[..k], [cells[k]]);
    HeadsConcat(cells[..k], [cells[k]]);
    assert Flat([cells[k]]) == CellWrites(cells[k]) + [] == CellWrites(cells[k]);
  }

  lemma {:induction false} HeadsFew(cells: seq<Cell>)
    ensures |Heads(cells)| <= |cells|
  {
    if cells != [] {
      HeadsFew(cells[1..]);
    }
  }

  /** How many addresses a refill asks for: the most of 1000, 100 and 1 that there are. */
  function RefillSize(there: nat): (n: nat)
    ensures n <= there && n in {0, 1, 100, 1000}
    ensures (there >= 1 ==> n >= 1) && (there >= 100 ==> n >= 100) && (there >= 1000 ==> n >= 1000)
  {
    if there >= 1000 then 1000 else if there >= 100 then 100 else if there >= 1 then 1 else 0
  }

  datatype AddCode = Added | Full | Overrun

  class SsnFifo {
    const cell: array<Cell>
    const availBuff: array<nat>
    var localWidx: nat
    var localRidx: nat
    var availRdx: nat

    ghost predicate Valid()
      reads this, cell, availBuff
    {
      cell.Length == FRCORE_CORE_FIFO_NUM && localRidx <= localWidx <= localRidx + FRCORE_CORE_FIFO_NUM &&
      availBuff.Length == FRCORE_SSN_AVAIL_BUFF_GET_SIZE && availRdx <= availBuff.Length
    }

    ghost function Cells(): (s: seq<Cell>)
      requires Valid()
      reads this, cell, availBuff
      ensures |s| == localWidx - localRidx
    {
      Window(cell[..], localRidx, localWidx - localRidx)
    }

    ghost function Cached(): seq<nat>
      requires Valid()
      reads this, cell, availBuff
    {
      availBuff[..availRdx]
    }

    constructor (none: Cell)
      ensures Valid() && fresh(cell) && fresh(availBuff) && Cells() == [] && Cached() == []
    {
      cell := new Cell[FRCORE_CORE_FIFO_NUM](_ => none);
      availBuff := new nat[FRCORE_SSN_AVAIL_BUFF_GET_SIZE](_ => 0);
      localWidx, localRidx, availRdx := 0, 0, 0;
    }

    /** One address from the cache, its last; an empty cache is first refilled from the ring. */
    method GetOneBlockAddr(avail: Ring) returns (rv: Code, addr: nat)
      requires Valid() && avail.Valid() && avail.buff != availBuff
      modifies this`availRdx, availBuff, avail`ridx
      ensures Valid() && avail.Valid()
      ensures
        var cache, ring := old(Cached()), old(avail.Contents());
        (rv == Success <==> cache != [] || ring != []) &&
        if cache != [] then
          addr == cache[|cache| - 1] && Cached() == cache[..|cache| - 1] && avail.Contents() == ring
        else if |ring| >= 1000 then addr == ring[999] && Cached() == ring[..999] && avail.Contents() == ring[1000..]
        else if |ring| >= 100 then addr == ring[99] && Cached() == ring[..99] && avail.Contents() == ring[100..]
        else if |ring| >= 1 then addr == ring[0] && Cached() == [] && avail.Contents() == ring[1..]
        else rv == Code.NoSpace && Cached() == [] && avail.Contents() == []
    {
      if availRdx <= 0 {
        rv := avail.AvailGet(FRCORE_SSN_AVAIL_BUFF_GET_SIZE, availBuff);
        if rv == Success {
          availRdx := FRCORE_SSN_AVAIL_BUFF_GET_SIZE;
        } else {
          rv := avail.AvailGet(100, availBuff);
          if rv == Success {
            availRdx := 100;
          } else {
            rv := avail.AvailGet(1, availBuff);
            if rv == Success {
              availRdx := 1;
            } else {
              return Code.NoSpace, 0;
            }
          }
        }
      }
      addr := availBuff[availRdx - 1];
      availRdx := availRdx - 1;
      rv := Success;
    }

    /** Turns the first cells into transfers of at most FRCORE_MAX_DMA_POINTERS writes: every write
        of every cell, once and in order, and the blocks whose headers are among them. */
    method PostPkt(localNum: nat) returns (out: seq<seq<Posted>>, blocks: seq<Addr>)
      requires Valid() && localNum <= localWidx - localRidx
      ensures Flatten(out) == Flat(Cells()[..localNum]) && Loads(out)
      ensures blocks == Heads(Cells()[..localNum])
    {
      hide Flat, Heads, Flatten;
      ghost var cells := Cells();
      var batch: seq<Posted> := [];
      var cur := 0;
      out, blocks := [], [];
      NothingYet();
      assert cells[..0] == [];
      while cur < localNum
        invariant cur <= localNum && |batch| < FRCORE_MAX_DMA_POINTERS
        invariant forall i | 0 <= i < |out| :: |out[i]| == FRCORE_MAX_DMA_POINTERS
        invariant Flatten(out) + batch == Flat(cells[..cur]) && blocks == Heads(cells[..cur])
      {
        var c := cell[(localRidx + cur) % FRCORE_CORE_FIFO_NUM];
        assert c == cells[cur];
        FlatNext(cells, cur);
        if c.HeadCell? {
          out, batch := Load(out, batch, Posted(c.block, c.head));
          blocks := blocks + [c.block];
        } else {
          ghost var before := Flatten(out) + batch;
          out, batch := Load(out, batch, Posted(c.block, c.payload));
          out, batch := Load(out, batch, Posted(c.block, c.info));
          assert before + [Posted(c.block, c.payload)] + [Posted(c.block, c.info)] == before + CellWrites(c);
        }
        cur := cur + 1;
      }
      if |batch| > 0 {
        FlattenNext(out, batch);
        out := out + [batch];
      }
    }

    /** Adds a write to the transfer being put together, and sends that once it is full. */
    method Load(sent: seq<seq<Posted>>, pending: seq<Posted>, w: Posted) returns (out: seq<seq<Posted>>, batch: seq<Posted>)
      requires |pending| < FRCORE_MAX_DMA_POINTERS
      requires forall i | 0 <= i < |sent| :: |sent[i]| == FRCORE_MAX_DMA_POINTERS
      ensures |batch| < FRCORE_MAX_DMA_POINTERS && Flatten(out) + batch == Flatten(sent) + pending + [w]
      ensures forall i | 0 <= i < |out| :: |out[i]| == FRCORE_MAX_DMA_POINTERS
    {
      hide Flatten;
      out, batch := sent, pending + [w];
      if |batch| == FRCORE_MAX_DMA_POINTERS {
        FlattenNext(out, batch);
        out, batch := out + [batch], [];
      }
    }

    /** Posts the cells: with the flag only when the fifo is full, without it whatever there is. All
        their writes go out, then their blocks go to the completed ring and the cells are done with;
        only when that ring has no room do they stay. */
    method FifoPost(compl: Ring, flag: bool) returns (out: seq<seq<Posted>>)
      requires Valid() && compl.Valid() && compl.buff != availBuff && compl.size >= FRCORE_CHAN_POST_LWM
      modifies this`localRidx, compl`widx, compl.buff
      ensures Valid() && compl.Valid() && Cached() == old(Cached())
      ensures
        var cells, done := old(Cells()), old(compl.Contents());
        if cells == [] || (flag && |cells| != FRCORE_CHAN_POST_LWM) then
          out == [] && Cells() == cells && compl.Contents() == done
        else
          Flatten(out) == Flat(cells) && Loads(out) &&
          if |done| + |Heads(cells)| <= compl.size then Cells() == [] && compl.Contents() == done + Heads(cells)
          else Cells() == cells && compl.Contents() == done
    {
      hide Flat, Heads, Flatten, Window;
      var localNum := localWidx - localRidx;
      if (if flag then localNum != FRCORE_CHAN_POST_LWM else localNum == 0) {
        return [];
      }
      ghost var cells, done := Cells(), compl.Contents();
      out := [];
      while localNum > 0
        invariant Valid() && compl.Valid() && localNum == localWidx - localRidx
        invariant if localNum > 0 then localNum == |cells| && Cells() == cells && compl.Contents() == done && out == []
          else Flatten(out) == Flat(cells) && Loads(out) && |done| + |Heads(cells)| <= compl.size &&
               Cells() == [] && compl.Contents() == done + Heads(cells)
      {
        var postNum := if localNum < FRCORE_CHAN_POST_LWM then localNum else FRCORE_CHAN_POST_LWM;
        var blocks;
        out, blocks := PostPkt(postNum);
        assert cells[..postNum] == cells;
        HeadsFew(cells);
        var blockAddr := new nat[FRCORE_CHAN_POST_LWM]((i: nat) => if i < |blocks| then blocks[i] else 0);
        assert blockAddr[..|blocks|] == blocks;
        var rv := compl.ComplPut(|blocks|, blockAddr);
        if rv != Success {
          return;
        }
        localRidx := localRidx + postNum;
        localNum := localNum - postNum;
      }
    }

    /** Queues a cell, first posting a full fifo; there is no room only when that posting failed. The
        payload is copied into the cell without a look at its length: Overrun stands for the copy of
        one that is longer than the cell's room. */
    method FifoAdd(compl: Ring, c: Cell) returns (rv: AddCode, out: seq<seq<Posted>>)
      requires Valid() && compl.Valid() && compl.buff != availBuff && compl.size >= FRCORE_CHAN_POST_LWM
      modifies this`localRidx, this`localWidx, cell, compl`widx, compl.buff
      ensures Valid() && compl.Valid() && Cached() == old(Cached())
      ensures
        var cells, done := old(Cells()), old(compl.Contents());
        var full := |cells| == FRCORE_CORE_FIFO_NUM;
        var goes := full && |done| + |Heads(cells)| <= compl.size;
        var left := if goes then [] else cells;
        Flatten(out) == (if full then Flat(cells) else []) && Loads(out) &&
        compl.Contents() == (if goes then done + Heads(cells) else done) &&
        rv == (if full && !goes then AddCode.Full else if Oversize(c) then Overrun else Added) &&
        Cells() == if rv == Added then left + [c] else left
    {
      hide Flat, Heads, Window, Written;
      FlattenNone<Posted>();
      out := FifoPost(compl, true);
      if localWidx - localRidx >= FRCORE_CORE_FIFO_NUM {
        return AddCode.Full, out;
      }
      if Oversize(c) {
        return Overrun, out;
      }
      WindowWritten(cell[..], localRidx, localWidx - localRidx, [c]);
      WrittenOne(cell[..], localWidx, c);
      cell[localWidx % FRCORE_CORE_FIFO_NUM] := c;
      localWidx := localWidx + 1;
      rv := Added;
    }
  }

  /** A payload that does not fit its cell. */
  predicate Oversize(c: Cell) {
    c.PayloadCell? && |c.payload.data| > FRC_PAYLOAD_LEN_MAX
  }

  lemma NothingYet()
    ensures Flatten<Posted>([]) == [] && Flat([]) == [] && Heads([]) == []
  {
  }
}
