/** A session's submit address: the offsets at which its open block is filled, kept by the code step
    by step, and when a full block is closed and a new one begun. */
module Submission {
  import opened Sequences
  import opened Bytes
  import opened BlockPacking
  import opened BlockProtocol

  /** Whether a packet went in, found no block, or was longer than a payload cell. */
  datatype Code = Sent | NoBlock | Overrun

  /** What submitting one packet leaves: the session's block, the cells queued, what became of the
      packet, and the packets of the block that was closed for it, if one was. */
  datatype Outcome = Outcome(session: Session, cells: seq<Cell>, code: Code, closed: seq<seq<Packet>>)

  function HeadOf(s: Session, key: Key, unset: seq<byte>): Cell
    requires s.Open? && |unset| == 16
  {
    HeadCell(s.block, HeadWrite(key, s.packets, unset))
  }

  function PayloadOf(s: Session, p: Packet): Cell
    requires s.Open? && Fits(s.packets, p)
  {
    PayloadCell(s.block, PayloadWrite(s.packets, p), InfoWrite(s.packets, p))
  }

  /** A packet goes into the open block if it fits, else that block is closed and it goes into a new
      one. The two options are the blocks to be had if the code asks for one, and for another. */
  function Submitted(s: Session, p: Packet, key: Key, unset: seq<byte>, first: Option<Addr>, second: Option<Addr>): Outcome
    requires |unset| == 16 && GoodPacket(p) && !s.Closing?
  {
    if s.Closed? && first.None? then Outcome(Closed, [], NoBlock, [])
    else
      var o := if s.Closed? then Open(first.value, []) else s;
      if Fits(o.packets, p) then PutIn(o, p, [], [])
      else if second.None? then Outcome(Closed, [HeadOf(o, key, unset)], NoBlock, [o.packets])
      else PutIn(Open(second.value, []), p, [HeadOf(o, key, unset)], [o.packets])
  }

  /** The payload's own cell, behind those queued for it. */
  function PutIn(o: Session, p: Packet, cells: seq<Cell>, closed: seq<seq<Packet>>): Outcome
    requires o.Open? && (o.packets == [] || Fits(o.packets, p))
  {
    if |p.data| > FRC_PAYLOAD_LEN_MAX then Outcome(o, cells, Overrun, closed)
    else Outcome(Open(o.block, o.packets + [p]), cells + [PayloadOf(o, p)], Sent, closed)
  }

  /** The bytes of a block's packets, end to end, and then the packet's, do not reach its record, which
      goes below those of the others. */
  predicate HasRoom(ps: seq<Packet>, p: Packet) {
    FRC_DMA_OFFSET + HDR_SIZE + Total(ps) + |p.data| <= BLOCK_SIZE - INFO_SIZE * (|ps| + 1)
  }

  /** What becomes of a packet when a session has a block, or none, and another is to be had or not. */
  ghost predicate SubmitDone(s: Session, p: Packet, key: Key, unset: seq<byte>, second: Option<Addr>,
                       code: Code, cells: seq<Cell>, now: Session)
    requires |unset| == 16
  {
    if !s.Open? then code == NoBlock && cells == [] && now == s
    else
      var ps := s.packets;
      var head := HeadCell(s.block, Write(FRC_DMA_OFFSET, HeaderBytes(key, Total(ps), |ps|, unset)));
      if HasRoom(ps, p) then WentIn(s, p, [], code, cells, now)
      else if second.Some? then WentIn(Open(second.value, []), p, [head], code, cells, now)
      else code == NoBlock && cells == [head] && now == Closed
  }

  /** The packet goes in behind those of the block, unless it is longer than a payload cell. */
  ghost predicate WentIn(s: Session, p: Packet, before: seq<Cell>, code: Code, cells: seq<Cell>, now: Session)
    requires s.Open?
  {
    var ps := s.packets;
    if |p.data| > 1600 then code == Overrun && cells == before && now == s
    else
      HasRoom(ps, p) && code == Sent && now == Open(s.block, ps + [p]) && |cells| == |before| + 1 && cells[..|before|] == before &&
      cells[|before|] == PayloadCell(s.block, Write(FRC_DMA_OFFSET + HDR_SIZE + Total(ps), p.data),
                                     Write(BLOCK_SIZE - INFO_SIZE * (|ps| + 1), InfoBytes(p, Total(ps))))
  }

  ghost predicate SessionPacks(s: Session) {
    s.Open? ==> Packs(s.packets)
  }

  class SubmitAddr {
    var addrFlag: bool
    var blockAddr: Addr
    var payloadOffset: nat
    var infoOffset: nat
    var payloadLen: nat
    var pktNum: nat
    ghost var packets: seq<Packet>

    /** While the address is in effect the offsets are those of the packets in the block, and all of
        them fit the sixteen bits that they are kept in. */
    ghost predicate Valid()
      reads this
    {
      addrFlag ==>
        Packs(packets) && payloadOffset == PayloadOffset(packets) && infoOffset == InfoOffset(packets) &&
        payloadLen == Total(packets) && pktNum == |packets| &&
        payloadOffset < 0x1_0000 && infoOffset < 0x1_0000 && payloadLen < 0x1_0000 && pktNum < 0x1_0000
    }

    ghost function Abs(): Session
      reads this
    {
      if addrFlag then Open(blockAddr, packets) else Closed
    }

    constructor ()
      ensures Valid() && Abs() == Closed
    {
      addrFlag, blockAddr, payloadOffset, infoOffset, payloadLen, pktNum, packets := false, 0, 0, 0, 0, 0, [];
    }

    /** With no block in effect, takes the one to be had. */
    method CheckSsnAddr(block: Option<Addr>) returns (ok: bool)
      requires Valid()
      modifies this
      ensures Valid() && ok == (old(addrFlag) || block.Some?)
      ensures Abs() == if !old(addrFlag) && block.Some? then Open(block.value, []) else old(Abs())
    {
      if !addrFlag {
        if block.None? {
          return false;
        }
        blockAddr := block.value;
        payloadOffset := FRC_DMA_OFFSET + HDR_SIZE;
        infoOffset := BLOCK_SIZE - INFO_SIZE;
        payloadLen := 0;
        pktNum := 0;
        addrFlag := true;
        packets := [];
      }
      return true;
    }

    /** Queues the header of the open block, if there is one, and lets the block go. */
    method SubmitDmaHeader(key: Key, unset: seq<byte>) returns (cells: seq<Cell>)
      requires Valid() && |unset| == 16
      modifies this
      ensures Valid() && Abs() == Closed
      ensures cells == if old(Abs()).Open? then [HeadOf(old(Abs()), key, unset)] else []
    {
      cells := [];
      if addrFlag {
        cells := [HeadCell(blockAddr, Write(FRC_DMA_OFFSET, HeaderBytes(key, payloadLen, pktNum, unset)))];
        addrFlag := false;
      }
    }

    /** Queues a packet's payload and record at the open block's offsets and moves these on. */
    method PutPayload(p: Packet) returns (cell: Cell)
      requires Valid() && addrFlag && GoodPacket(p) && Fits(packets, p)
      modifies this
      ensures Valid() && Abs() == Open(old(blockAddr), old(packets) + [p])
      ensures cell == PayloadOf(old(Abs()), p)
    {
      hide Packs, Total, InfoBytes, GoodPacket;
      PacketGoesIn(packets, p);
      cell := PayloadCell(blockAddr, Write(payloadOffset, p.data), Write(infoOffset, InfoBytes(p, payloadLen)));
      infoOffset := infoOffset - INFO_SIZE;
      payloadOffset := payloadOffset + |p.data|;
      payloadLen := payloadLen + |p.data|;
      pktNum := pktNum + 1;
      packets := packets + [p];
    }

    /** Submits a packet of any length. With the open block, or the first to be had when there is
        none: the packet goes in if there is room below the block's records, else the block is closed
        under the caller's key and the packet goes into the second to be had, if any. It overruns
        exactly when it gets that far and is longer than a payload cell. */
    method SubmitData(p: Packet, key: Key, unset: seq<byte>, first: Option<Addr>, second: Option<Addr>)
      returns (code: Code, cells: seq<Cell>)
      requires Valid() && GoodPacket(p) && |unset| == 16
      modifies this
      ensures Valid()
      ensures
        var o := Submitted(old(Abs()), p, key, unset, first, second);
        Abs() == o.session && cells == o.cells && code == o.code
      ensures
        var s := if old(Abs()) == Closed && first.Some? then Open(first.value, []) else old(Abs());
        SubmitDone(s, p, key, unset, second, code, cells, Abs())
    {
      SubmittedSays(Abs(), p, key, unset, first, second);
      hide Valid, Fits, Packs, GoodPacket, PayloadOf, HeadOf, InfoWrite, HeadWrite;
      cells := [];
      var ok := CheckSsnAddr(first);
      if !ok {
        return NoBlock, cells;
      }
      FullTest(p);
      if payloadOffset + |p.data| > infoOffset {
        cells := SubmitDmaHeader(key, unset);
        ok := CheckSsnAddr(second);
        if !ok {
          return NoBlock, cells;
        }
      }
      if |p.data| > FRC_PAYLOAD_LEN_MAX {
        return Overrun, cells;
      }
      PacketGoesInEmpty(p);
      var cell := PutPayload(p);
      cells := cells + [cell];
      code := Sent;
    }

    lemma FullTest(p: Packet)
      requires Valid() && addrFlag
      ensures payloadOffset + |p.data| > infoOffset <==> !Fits(packets, p)
    {
    }
  }

  /** Whatever fits a payload cell fits an empty block. */
  lemma PacketGoesInEmpty(p: Packet)
    requires |p.data| <= FRC_PAYLOAD_LEN_MAX
    ensures Fits([], p)
  {
  }

  /** A packet that fits keeps the block packed, and the record below it stays in the block. */
  lemma PacketGoesIn(ps: seq<Packet>, p: Packet)
    requires Packs(ps) && GoodPacket(p)
    ensures Fits(ps, p) ==>
      Packs(ps + [p]) && Total(ps + [p]) == Total(ps) + |p.data| && InfoOffset(ps) >= INFO_SIZE &&
      PayloadOffset(ps + [p]) < 0x1_0000 && |ps| < 0x1_0000 - 1
  {
    assert (ps + [p])[..|ps|] == ps;
    OffsetsMeet(ps);
    if Fits(ps, p) {
      OffsetsMeet(ps + [p]);
    }
  }

  /** The specification says of the session and the block to be had what it should. */
  lemma SubmittedSays(was: Session, p: Packet, key: Key, unset: seq<byte>, first: Option<Addr>, second: Option<Addr>)
    requires |unset| == 16 && GoodPacket(p) && SessionPacks(was) && !was.Closing?
    ensures
      var s := if was == Closed && first.Some? then Open(first.value, []) else was;
      var o := Submitted(was, p, key, unset, first, second);
      SubmitDone(s, p, key, unset, second, o.code, o.cells, o.session)
  {
    hide Packs, GoodPacket;
  }

  // Runs

  datatype Call = Call(packet: Packet, key: Key, unset: seq<byte>, first: Option<Addr>, second: Option<Addr>)

  ghost predicate GoodCalls(calls: seq<Call>) {
    forall i | 0 <= i < |calls| ::
      GoodPacket(calls[i].packet) && |calls[i].packet.data| <= FRC_PAYLOAD_LEN_MAX && |calls[i].unset| == 16
  }

  datatype Trace = Trace(session: Session, closed: seq<seq<Packet>>, accepted: seq<Packet>)

  ghost function RunOf(calls: seq<Call>): (t: Trace)
    requires GoodCalls(calls)
    ensures !t.session.Closing?
  {
    if calls == [] then Trace(Closed, [], [])
    else
      var t, c := RunOf(calls[..|calls| - 1]), calls[|calls| - 1];
      var o := Submitted(t.session, c.packet, c.key, c.unset, c.first, c.second);
      Trace(o.session, t.closed + o.closed, t.accepted + if o.code == Sent then [c.packet] else [])
  }

  ghost function InBlock(s: Session): seq<Packet> {
    if s.Open? then s.packets else []
  }

  /** One submission: what was in the block and the packet, if accepted, are what is in the closed
      block and then in the open one. */
  lemma SubmittedKeeps(s: Session, c: Call)
    requires SessionPacks(s) && !s.Closing? && GoodPacket(c.packet) && |c.unset| == 16
    requires |c.packet.data| <= FRC_PAYLOAD_LEN_MAX
    ensures
      var o := Submitted(s, c.packet, c.key, c.unset, c.first, c.second);
      SessionPacks(o.session) && |o.closed| <= 1 &&
      (forall i | 0 <= i < |o.closed| :: Packs(o.closed[i]) && o.closed[i] != []) &&
      (if o.closed == [] then [] else o.closed[0]) + InBlock(o.session) ==
        InBlock(s) + if o.code == Sent then [c.packet] else []
  {
    hide Packs, Fits, GoodPacket, PayloadOf, HeadOf;
    PacksNone();
    PacketGoesInEmpty(c.packet);
    PacketGoesIn([], c.packet);
    if s.Open? {
      PacketGoesIn(s.packets, c.packet);
      assert s.packets + [c.packet] == s.packets + [c.packet];
    }
    assert [] + [c.packet] == [c.packet];
  }

  /** Over any run of submissions the packets of the closed blocks, and after them those of the open
      one, are exactly the packets accepted, in order: none lost, none twice, and every block packed. */
  lemma {:induction false} RunKeepsOrder(calls: seq<Call>)
    requires GoodCalls(calls)
    ensures var t := RunOf(calls);
      Flatten(t.closed) + InBlock(t.session) == t.accepted && SessionPacks(t.session) &&
      forall i | 0 <= i < |t.closed| :: Packs(t.closed[i]) && t.closed[i] != []
  {
    hide Packs, Submitted, GoodPacket, SessionPacks, InBlock, Flatten;
    if calls == [] {
      NothingRun();
    } else {
      var init, c := calls[..|calls| - 1], calls[|calls| - 1];
      assert GoodCalls(init) by {
        assert forall i | 0 <= i < |init| :: init[i] == calls[i];
      }
      RunKeepsOrder(init);
      var t := RunOf(init);
      SubmittedKeeps(t.session, c);
      var o := Submitted(t.session, c.packet, c.key, c.unset, c.first, c.second);
      var one := if o.closed == [] then [] else o.closed[0];
      if o.closed != [] {
        FlattenNext(t.closed, o.closed[0]);
        assert o.closed == [o.closed[0]];
      } else {
        assert t.closed + o.closed == t.closed;
      }
      Regroup(Flatten(t.closed), one, InBlock(o.session), InBlock(t.session), if o.code == Sent then [c.packet] else []);
    }
  }

  lemma Regroup(f: seq<Packet>, b: seq<Packet>, i: seq<Packet>, was: seq<Packet>, x: seq<Packet>)
    requires b + i == was + x
    ensures f + b + i == f + was + x
    ensures b == [] ==> f + i == f + was + x
  {
    assert f + b + i == f + (b + i) && f + was + x == f + (was + x);
  }

  lemma NothingRun()
    ensures SessionPacks(Closed) && InBlock(Closed) == [] && Flatten<Packet>([]) == []
  {
  }
}
