/** The simple channel: packets of one core go through a local fifo, are written to blocks taken
    from the available ring, and those blocks are put on the completed ring. It is an exact FIFO. */
module SimpleChannel {
  import opened Bytes
  import opened Sequences
  import opened Rings
  import opened CellMemory
  import BlockPacking
  import BlockProtocol

  const MAX_DMA_POINTERS: nat := BlockProtocol.FRCORE_MAX_DMA_POINTERS
  const FRCORE_CORE_FIFO_NUM: nat := BlockProtocol.FRCORE_CORE_FIFO_NUM
  const FRCORE_CHAN_POST_LWM: nat := BlockProtocol.FRCORE_CHAN_POST_LWM
  const FRC_DMA_OFFSET: nat := BlockPacking.FRC_DMA_OFFSET
  const HDR_SIZE: nat := BlockPacking.HDR_SIZE
  const INFO_SIZE: nat := BlockPacking.INFO_SIZE

  type Pkt = seq<byte>

  /** Overrun stands for the copy that the code makes past the end of a cell. */
  datatype AddCode = Added | Exceed | Full | Overrun

  /** One write of a transfer: a packet's bytes to an address. */
  datatype Transfer = Transfer(addr: nat, data: Pkt)

  /** Packet k of a fifo written to block k of those taken. */
  function Paired(blocks: seq<nat>, pkts: seq<Pkt>): (r: seq<Transfer>)
    requires |blocks| == |pkts|
    ensures |r| == |pkts|
  {
    seq(|pkts|, k requires 0 <= k < |pkts| => Transfer(blocks[k] + FRC_DMA_OFFSET, pkts[k]))
  }

  lemma PairedNext(blocks: seq<nat>, pkts: seq<Pkt>, n: nat, m: nat)
    requires n <= m <= |blocks| && m <= |pkts|
    ensures Paired(blocks[..m], pkts[..m]) == Paired(blocks[..n], pkts[..n]) + Paired(blocks[n..m], pkts[n..m])
  {
  }

  lemma PairedOne(blocks: seq<nat>, pkts: seq<Pkt>, n: nat, m: nat)
    requires n <= m < |blocks| && m < |pkts|
    ensures Paired(blocks[n..m + 1], pkts[n..m + 1]) ==
      Paired(blocks[n..m], pkts[n..m]) + [Transfer(blocks[m] + FRC_DMA_OFFSET, pkts[m])]
    ensures Paired(blocks[m..m], pkts[m..m]) == []
  {
  }

  /** What becomes of a packet whose payload has so many bytes, with so many packets queued. */
  function CodeOf(queued: nat, payload: nat): (rv: AddCode)
    ensures rv == Added <==> queued < FRCORE_CORE_FIFO_NUM && payload <= 1936
    ensures rv == Exceed <==> payload > 1976
    ensures rv == Full <==> queued >= FRCORE_CORE_FIFO_NUM && payload <= 1976
  {
    if HDR_SIZE + INFO_SIZE + payload > PKT_MAX then Exceed
    else if queued >= FRCORE_CORE_FIFO_NUM then Full
    else if HDR_SIZE + INFO_SIZE + payload > CELL_DATA then Overrun
    else Added
  }

  class SimpleFifo {
    const cell: array<Pkt>
    const idxBuff: array<nat>
    var localWidx: nat
    var localRidx: nat
    /** Every packet accepted, and every one published with the block that it went to. */
    ghost var accepted: seq<Pkt>
    ghost var published: seq<Transfer>

    ghost predicate Valid()
      reads this, cell, idxBuff
    {
      cell.Length == FRCORE_CORE_FIFO_NUM && idxBuff.Length == FRCORE_CORE_FIFO_NUM &&
      localRidx <= localWidx <= localRidx + FRCORE_CORE_FIFO_NUM &&
      localRidx == |published| && localWidx == |accepted| &&
      Cells() == accepted[localRidx..] && InOrder(published, accepted) && AllFit(accepted)
    }

    ghost function Cells(): (s: seq<Pkt>)
      requires cell.Length > 0 && localRidx <= localWidx
      reads this, cell
      ensures |s| == localWidx - localRidx
    {
      Window(cell[..], localRidx, localWidx - localRidx)
    }

    constructor ()
      ensures Valid() && fresh(cell) && fresh(idxBuff) && accepted == [] && published == []
    {
      cell := new Pkt[FRCORE_CORE_FIFO_NUM](_ => []);
      idxBuff := new nat[FRCORE_CORE_FIFO_NUM](_ => 0);
      localWidx, localRidx, accepted, published := 0, 0, [], [];
    }

    /** Queues header, payload and record as one packet. The length test lets packets pass that are
        longer than a cell; a packet is queued whole exactly when there is room and its payload has
        at most 1936 bytes. */
    method FifoAdd(hdr: seq<byte>, payload: seq<byte>, info: seq<byte>) returns (rv: AddCode)
      requires Valid() && |hdr| == HDR_SIZE && |info| == INFO_SIZE
      modifies this`localWidx, this`accepted, cell
      ensures Valid() && rv == CodeOf(|old(Cells())|, |payload|)
      ensures accepted == old(accepted) + if rv == Added then [hdr + payload + info] else []
    {
      hide Window, InOrder, AllFit, Written;
      if HDR_SIZE + INFO_SIZE + |payload| > PKT_MAX {
        return Exceed;
      }
      if localWidx - localRidx >= FRCORE_CORE_FIFO_NUM {
        return Full;
      }
      var pkt := hdr + payload + info;
      if |pkt| > CELL_DATA {
        return Overrun;
      }
      WindowWritten(cell[..], localRidx, localWidx - localRidx, [pkt]);
      ghost var b := cell[..];
      cell[localWidx % FRCORE_CORE_FIFO_NUM] := pkt;
      WrittenOne(b, localWidx, pkt);
      localWidx := localWidx + 1;
      MoreAccepted(published, accepted, pkt, localRidx);
      accepted := accepted + [pkt];
      return Added;
    }

    /** An accepted packet stays whole in its cell, leaves the other cells whole, and fits a block. */
    lemma AcceptedIntact(k: nat)
      requires Valid() && k < |accepted|
      ensures StaysWhole(accepted[k]) && LeavesWhole(accepted[k]) && InBlock(accepted[k])
    {
      IntactExactly(accepted[k]);
    }

    /** Writes the first cells to the blocks in the index buffer, each to the one of its place, in
        transfers of at most MAX_DMA_POINTERS. */
    method PostPkt(localNum: nat) returns (out: seq<seq<Transfer>>, posted: nat)
      requires Valid() && localNum <= localWidx - localRidx
      ensures posted == localNum && Flatten(out) == Paired(idxBuff[..localNum], Cells()[..localNum])
      ensures forall i | 0 <= i < |out| :: 0 < |out[i]| <= MAX_DMA_POINTERS
    {
      hide Flatten, Paired, InOrder, AllFit;
      ghost var pkts, blocks := Cells(), idxBuff[..];
      out, posted := [], 0;
      var cur := 0;
      var remain := localNum;
      NothingYet();
      assert blocks[..0] == [] && pkts[..0] == [];
      while remain > 0
        invariant 0 <= remain && 0 <= cur && cur + remain == localNum && posted == cur
        invariant Flatten(out) == Paired(blocks[..cur], pkts[..cur])
        invariant forall i | 0 <= i < |out| :: 0 < |out[i]| <= MAX_DMA_POINTERS
      {
        var number := if remain > MAX_DMA_POINTERS then MAX_DMA_POINTERS else remain;
        var batch: seq<Transfer> := [];
        ghost var start := cur;
        assert blocks[start..cur] == [] && pkts[start..cur] == [];
        while |batch| < number
          invariant |batch| <= number && cur == start + |batch| && start + number <= localNum
          invariant batch == Paired(blocks[start..cur], pkts[start..cur])
        {
          var at := (localRidx + cur) % FRCORE_CORE_FIFO_NUM;
          PairedOne(blocks, pkts, start, cur);
          batch := batch + [Transfer(idxBuff[cur] + FRC_DMA_OFFSET, cell[at])];
          cur := cur + 1;
        }
        PairedNext(blocks, pkts, start, cur);
        FlattenNext(out, batch);
        out := out + [batch];
        remain := remain - number;
        posted := posted + number;
      }
      assert blocks[..localNum] == idxBuff[..localNum];
    }

    /** Takes a block for each cell, writes cell k to block k and publishes the blocks. */
    method PostCells(avail: Ring, compl: Ring, postNum: nat) returns (out: seq<seq<Transfer>>, ok: bool)
      requires Valid() && avail.Valid() && compl.Valid() && avail != compl && avail.buff != compl.buff
      requires avail.buff != idxBuff && compl.buff != idxBuff && compl.size >= FRCORE_CHAN_POST_LWM
      requires postNum == |Cells()|
      modifies this`localRidx, this`published, idxBuff, avail`ridx, compl`widx, compl.buff
      ensures Valid() && avail.Valid() && compl.Valid()
      ensures
        var cells, blocks, done := old(Cells()), old(avail.Contents()), old(compl.Contents());
        if |blocks| < postNum then
          !ok && out == [] && published == old(published) && Cells() == cells &&
          avail.Contents() == blocks && compl.Contents() == done
        else
          Flatten(out) == Paired(blocks[..postNum], cells) && avail.Contents() == blocks[postNum..] &&
          ok == (|done| + postNum <= compl.size) &&
          if ok then
            published == old(published) + Paired(blocks[..postNum], cells) && Cells() == [] &&
            compl.Contents() == done + blocks[..postNum]
          else published == old(published) && Cells() == cells && compl.Contents() == done
    {
      hide Window, Flatten, Paired, InOrder, AllFit;
      ghost var cells, blocks := Cells(), avail.Contents();
      var rv := avail.AvailGet(postNum, idxBuff);
      if rv == NoSpace {
        return [], false;
      }
      assert idxBuff[..postNum] == blocks[..postNum] && Cells()[..postNum] == cells;
      var posted;
      out, posted := PostPkt(postNum);
      rv := compl.ComplPut(postNum, idxBuff);
      ok := rv == Success;
      if ok {
        MorePublished(published, accepted, Paired(blocks[..postNum], cells), localRidx, cells);
        published := published + Paired(blocks[..postNum], cells);
        localRidx := localRidx + postNum;
      }
    }

    /** Posts the cells, with the flag only when the fifo is full. Too few blocks, a rest after too
        few, or no room on the completed ring leave the cells be. */
    method FifoPost(avail: Ring, compl: Ring, flag: bool, resting: bool) returns (out: seq<seq<Transfer>>)
      requires Valid() && avail.Valid() && compl.Valid() && avail != compl && avail.buff != compl.buff
      requires avail.buff != idxBuff && compl.buff != idxBuff && compl.size >= FRCORE_CHAN_POST_LWM
      modifies this`localRidx, this`published, idxBuff, avail`ridx, compl`widx, compl.buff
      ensures Valid() && avail.Valid() && compl.Valid()
      ensures
        var cells, blocks, done := old(Cells()), old(avail.Contents()), old(compl.Contents());
        var n := |cells|;
        if n == 0 || (flag && n != FRCORE_CHAN_POST_LWM) || resting || |blocks| < n then
          out == [] && published == old(published) && Cells() == cells &&
          avail.Contents() == blocks && compl.Contents() == done
        else
          Flatten(out) == Paired(blocks[..n], cells) && avail.Contents() == blocks[n..] &&
          if |done| + n <= compl.size then
            published == old(published) + Paired(blocks[..n], cells) && Cells() == [] &&
            compl.Contents() == done + blocks[..n]
          else published == old(published) && Cells() == cells && compl.Contents() == done
    {
      hide Window, Flatten, Paired, InOrder, AllFit;
      out := [];
      var localNum := localWidx - localRidx;
      if (if flag then localNum != FRCORE_CHAN_POST_LWM else localNum == 0) {
        return;
      }
      while localNum > 0
        invariant Valid() && avail.Valid() && compl.Valid() && localNum == localWidx - localRidx
        invariant localNum > 0 ==>
          localRidx == old(localRidx) && localWidx == old(localWidx) && out == [] && published == old(published) &&
          Cells() == old(Cells()) && avail.Contents() == old(avail.Contents()) && compl.Contents() == old(compl.Contents())
        invariant localNum == 0 ==>
          var cells, blocks := old(Cells()), old(avail.Contents());
          !resting && |cells| <= |blocks| && |old(compl.Contents())| + |cells| <= compl.size && Cells() == [] &&
          Flatten(out) == Paired(blocks[..|cells|], cells) && avail.Contents() == blocks[|cells|..] &&
          published == old(published) + Paired(blocks[..|cells|], cells) &&
          compl.Contents() == old(compl.Contents()) + blocks[..|cells|]
      {
        var postNum := if localNum < FRCORE_CHAN_POST_LWM then localNum else FRCORE_CHAN_POST_LWM;
        if resting {
          break;
        }
        var ok;
        out, ok := PostCells(avail, compl, postNum);
        if !ok {
          return;
        }
        localNum := localNum - postNum;
      }
    }

    /** A packet on its way to the host: a full fifo is posted, then the packet is queued. */
    method Forward(avail: Ring, compl: Ring, resting: bool, hdr: seq<byte>, payload: seq<byte>, info: seq<byte>)
      returns (rv: AddCode, out: seq<seq<Transfer>>)
      requires Valid() && avail.Valid() && compl.Valid() && avail != compl && avail.buff != compl.buff
      requires avail.buff != idxBuff && compl.buff != idxBuff && compl.size >= FRCORE_CHAN_POST_LWM
      requires |hdr| == HDR_SIZE && |info| == INFO_SIZE
      modifies this, cell, idxBuff, avail`ridx, compl`widx, compl.buff
      ensures Valid() && avail.Valid() && compl.Valid()
      ensures
        var cells, blocks, done := old(Cells()), old(avail.Contents()), old(compl.Contents());
        var n := |cells|;
        var posts := n == FRCORE_CHAN_POST_LWM && !resting && n <= |blocks|;
        var goes := posts && |done| + n <= compl.size;
        avail.Contents() == (if posts then blocks[n..] else blocks) &&
        compl.Contents() == (if goes then done + blocks[..n] else done) &&
        published == old(published) + (if goes then Paired(blocks[..n], cells) else []) &&
        Flatten(out) == (if posts then Paired(blocks[..n], cells) else []) &&
        rv == CodeOf(if goes then 0 else n, |payload|) &&
        accepted == old(accepted) + if rv == Added then [hdr + payload + info] else []
    {
      hide Window, Flatten, Paired, InOrder, AllFit, CodeOf;
      FlattenNone<Transfer>();
      out := FifoPost(avail, compl, true, resting);
      rv := FifoAdd(hdr, payload, info);
    }
  }

  /** Publishing the cells, each with its packet, keeps the order. */
  lemma MorePublished(published: seq<Transfer>, accepted: seq<Pkt>, more: seq<Transfer>, r: nat, cells: seq<Pkt>)
    requires InOrder(published, accepted) && r == |published| && accepted[r..] == cells && |more| == |cells|
    requires exists blocks: seq<nat> | |blocks| == |cells| :: more == Paired(blocks, cells)
    ensures InOrder(published + more, accepted) && accepted[r + |cells|..] == []
  {
    forall k | r <= k < r + |cells|
      ensures (published + more)[k].data == accepted[k]
    {
      assert accepted[k] == cells[k - r];
    }
  }

  /** What is published is, one for one and in order, the front of what was accepted. */
  ghost predicate InOrder(published: seq<Transfer>, accepted: seq<Pkt>) {
    |published| <= |accepted| && forall k | 0 <= k < |published| :: published[k].data == accepted[k]
  }

  /** Every packet fits its cell. */
  ghost predicate AllFit(accepted: seq<Pkt>) {
    forall k | 0 <= k < |accepted| :: |accepted[k]| <= CELL_DATA
  }

  lemma MoreAccepted(published: seq<Transfer>, accepted: seq<Pkt>, p: Pkt, r: nat)
    requires InOrder(published, accepted) && AllFit(accepted) && |p| <= CELL_DATA && r <= |accepted|
    ensures InOrder(published, accepted + [p]) && AllFit(accepted + [p])
    ensures (accepted + [p])[r..] == accepted[r..] + [p]
  {
  }

  lemma NothingYet()
    ensures Flatten<Transfer>([]) == [] && Paired([], []) == []
  {
  }
}
