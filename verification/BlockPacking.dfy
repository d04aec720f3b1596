/** How a session's packets share one block: the header at its start, payloads growing up behind
    it, one information record for each packet growing down from the end. Every write of a packed
    block keeps to its own bytes, and the block read back is exactly the list of packets. */
module BlockPacking {
  import opened Bytes

  const FRC_DMA_OFFSET: nat := 40
  const HDR_SIZE: nat := 40
  const INFO_SIZE: nat := 32
  const BLOCK_SIZE: nat := 8192
  const PAYLOAD_START: nat := FRC_DMA_OFFSET + HDR_SIZE
  /** The largest payload that an empty block takes. */
  const CAPACITY: nat := BLOCK_SIZE - INFO_SIZE - PAYLOAD_START

  // Fields as bytes, the most significant first

  function Power(n: nat): (r: nat)
    ensures r > 0
  {
    if n == 0 then 1 else 256 * Power(n - 1)
  }

  function Be(x: nat, n: nat): (r: seq<byte>)
    ensures |r| == n
  {
    if n == 0 then [] else Be(x / 256, n - 1) + [x % 256]
  }

  function Value(b: seq<byte>): nat {
    if b == [] then 0 else 256 * Value(b[..|b| - 1]) + b[|b| - 1]
  }

  lemma {:induction false} ValueOfBe(x: nat, n: nat)
    requires x < Power(n)
    ensures Value(Be(x, n)) == x
  {
    if n > 0 {
      ValueOfBe(x / 256, n - 1);
      assert Be(x, n)[..n - 1] == Be(x / 256, n - 1);
    }
  }

  lemma Powers()
    ensures Power(2) == 0x1_0000 && Power(4) == 0x1_0000_0000 && Power(8) == 0x1_0000_0000_0000_0000
  {
    assert Power(1) == 256 * Power(0) && Power(2) == 256 * Power(1) && Power(3) == 256 * Power(2);
    assert Power(4) == 256 * Power(3) && Power(5) == 256 * Power(4) && Power(6) == 256 * Power(5);
    assert Power(7) == 256 * Power(6) && Power(8) == 256 * Power(7);
  }

  datatype Key = Key(sip: nat, dip: nat, sport: nat, dport: nat, protocol: nat, hash: nat)

  datatype Packet = Packet(sequence: nat, ackSeq: nat, direction: nat, smac: nat, dmac: nat, data: seq<byte>)

  predicate GoodKey(k: Key) {
    k.sip < 0x1_0000_0000 && k.dip < 0x1_0000_0000 && k.sport < 0x1_0000 && k.dport < 0x1_0000 &&
    k.protocol < 0x1_0000 && k.hash < 0x1_0000_0000
  }

  predicate GoodPacket(p: Packet) {
    p.sequence < 0x1_0000_0000 && p.ackSeq < 0x1_0000_0000 && p.direction < 0x1_0000 &&
    p.smac < 0x1_0000_0000_0000_0000 && p.dmac < 0x1_0000_0000_0000_0000 && |p.data| < 0x1_0000
  }

  function InfoBytes(p: Packet, dataOffset: nat): (r: seq<byte>)
    ensures |r| == INFO_SIZE
  {
    Be(p.ackSeq, 4) + Be(p.sequence, 4) + Be(p.direction, 2) + Be(|p.data|, 2) + Be(dataOffset, 4) +
    Be(p.smac, 8) + Be(p.dmac, 8)
  }

  /** The last sixteen bytes are fields that nothing sets. */
  function HeaderBytes(k: Key, totalPaylen: nat, pktNum: nat, unset: seq<byte>): (r: seq<byte>)
    requires |unset| == 16
    ensures |r| == HDR_SIZE
  {
    Be(k.dip, 4) + Be(k.sip, 4) + Be(0, 2) + Be(k.protocol, 2) + Be(k.dport, 2) + Be(k.sport, 2) +
    Be(k.hash, 4) + Be(totalPaylen, 2) + Be(pktNum, 2) + unset
  }

  // Writes to a block

  datatype Write = Write(offset: nat, data: seq<byte>)

  predicate Inside(w: Write) {
    w.offset + |w.data| <= BLOCK_SIZE
  }

  predicate Apart(v: Write, w: Write) {
    v.offset + |v.data| <= w.offset || w.offset + |w.data| <= v.offset
  }

  function Apply(mem: seq<byte>, w: Write): (r: seq<byte>)
    requires |mem| == BLOCK_SIZE && Inside(w)
    ensures |r| == BLOCK_SIZE
  {
    mem[..w.offset] + w.data + mem[w.offset + |w.data|..]
  }

  ghost predicate AllInside(ws: seq<Write>) {
    forall i | 0 <= i < |ws| :: Inside(ws[i])
  }

  ghost predicate AllApart(ws: seq<Write>) {
    forall i, j | 0 <= i < j < |ws| :: Apart(ws[i], ws[j])
  }

  ghost function ApplyAll(mem: seq<byte>, ws: seq<Write>): (r: seq<byte>)
    requires |mem| == BLOCK_SIZE && AllInside(ws)
    ensures |r| == BLOCK_SIZE
  {
    if ws == [] then mem else Apply(ApplyAll(mem, ws[..|ws| - 1]), ws[|ws| - 1])
  }

  /** A write that no later one overlaps can be read back whole. */
  lemma {:induction false} ReadBack(mem: seq<byte>, ws: seq<Write>, k: nat)
    requires |mem| == BLOCK_SIZE && AllInside(ws) && AllApart(ws) && k < |ws|
    ensures ApplyAll(mem, ws)[ws[k].offset..ws[k].offset + |ws[k].data|] == ws[k].data
  {
    var n := |ws| - 1;
    var before := ApplyAll(mem, ws[..n]);
    if k < n {
      assert ws[..n][k] == ws[k];
      ReadBack(mem, ws[..n], k);
      AppliedElsewhere(before, ws[n], ws[k].offset, |ws[k].data|);
    }
  }

  lemma AppliedElsewhere(mem: seq<byte>, w: Write, offset: nat, n: nat)
    requires |mem| == BLOCK_SIZE && Inside(w) && offset + n <= BLOCK_SIZE
    requires offset + n <= w.offset || w.offset + |w.data| <= offset
    ensures Apply(mem, w)[offset..offset + n] == mem[offset..offset + n]
  {
  }

  lemma {:induction false} ApplyConcat(mem: seq<byte>, a: seq<Write>, b: seq<Write>)
    requires |mem| == BLOCK_SIZE && AllInside(a) && AllInside(b)
    ensures AllInside(a + b) && ApplyAll(mem, a + b) == ApplyAll(ApplyAll(mem, a), b)
  {
    if b == [] {
      assert a + b == a;
    } else {
      ApplyConcat(mem, a, b[..|b| - 1]);
      assert (a + b)[..|a + b| - 1] == a + b[..|b| - 1];
    }
  }

  // Packing

  function Total(ps: seq<Packet>): nat {
    if ps == [] then 0 else Total(ps[..|ps| - 1]) + |ps[|ps| - 1].data|
  }

  function PayloadOffset(ps: seq<Packet>): nat {
    PAYLOAD_START + Total(ps)
  }

  function InfoOffset(ps: seq<Packet>): int {
    BLOCK_SIZE - INFO_SIZE - INFO_SIZE * |ps|
  }

  /** The packet goes into the block that already holds ps. */
  predicate Fits(ps: seq<Packet>, p: Packet) {
    PayloadOffset(ps) + |p.data| <= InfoOffset(ps)
  }

  /** Each packet fitted when it came. */
  ghost predicate Packs(ps: seq<Packet>) {
    ps == [] || (Packs(ps[..|ps| - 1]) && GoodPacket(ps[|ps| - 1]) && Fits(ps[..|ps| - 1], ps[|ps| - 1]))
  }

  function PayloadWrite(ps: seq<Packet>, p: Packet): Write {
    Write(PayloadOffset(ps), p.data)
  }

  function InfoWrite(ps: seq<Packet>, p: Packet): Write
    requires Fits(ps, p)
  {
    Write(InfoOffset(ps), InfoBytes(p, Total(ps)))
  }

  function HeadWrite(k: Key, ps: seq<Packet>, unset: seq<byte>): Write
    requires |unset| == 16
  {
    Write(FRC_DMA_OFFSET, HeaderBytes(k, Total(ps), |ps|, unset))
  }

  ghost function Writes(ps: seq<Packet>): (r: seq<Write>)
    requires Packs(ps)
    ensures |r| == 2 * |ps|
  {
    if ps == [] then []
    else
      var init, p := ps[..|ps| - 1], ps[|ps| - 1];
      Writes(init) + [PayloadWrite(init, p), InfoWrite(init, p)]
  }

  lemma PacksNone()
    ensures Packs([]) && Writes([]) == []
  {
  }

  /** The payloads' end and the lowest record never pass each other, and no record is below the
      block: an offset is at most one record short of meeting. */
  lemma {:induction false} OffsetsMeet(ps: seq<Packet>)
    requires Packs(ps)
    ensures PayloadOffset(ps) <= InfoOffset(ps) + INFO_SIZE <= BLOCK_SIZE
    ensures InfoOffset(ps) >= PAYLOAD_START - INFO_SIZE
    ensures Total(ps) <= CAPACITY && |ps| < 256
  {
    if ps != [] {
      OffsetsMeet(ps[..|ps| - 1]);
    }
  }

  /** Payloads lie below the payload offset, records above the lowest one written. */
  lemma {:induction false} WritesPlaced(ps: seq<Packet>, i: nat)
    requires Packs(ps) && i < |ps|
    ensures var w := Writes(ps)[2 * i]; PAYLOAD_START <= w.offset && w.offset + |w.data| <= PayloadOffset(ps)
    ensures var w := Writes(ps)[2 * i + 1]; InfoOffset(ps) + INFO_SIZE <= w.offset && w.offset + |w.data| <= BLOCK_SIZE
  {
    OffsetsMeet(ps[..|ps| - 1]);
    if i < |ps| - 1 {
      WritesPlaced(ps[..|ps| - 1], i);
      assert Writes(ps)[2 * i] == Writes(ps[..|ps| - 1])[2 * i];
      assert Writes(ps)[2 * i + 1] == Writes(ps[..|ps| - 1])[2 * i + 1];
    }
  }

  /** No two writes of a packed block overlap, none overlaps the header, none leaves the block. */
  lemma {:induction false} WritesApart(ps: seq<Packet>)
    requires Packs(ps)
    ensures AllInside(Writes(ps)) && AllApart(Writes(ps))
    ensures forall i | 0 <= i < |Writes(ps)| :: Writes(ps)[i].offset >= PAYLOAD_START
  {
    if ps != [] {
      var init, p, ws := ps[..|ps| - 1], ps[|ps| - 1], Writes(ps);
      WritesApart(init);
      OffsetsMeet(init);
      forall k | 0 <= k < |ws| - 2
        ensures ws[k] == Writes(init)[k] && Apart(ws[k], PayloadWrite(init, p)) && Apart(ws[k], InfoWrite(init, p))
      {
        WritesPlaced(init, k / 2);
        assert k == 2 * (k / 2) || k == 2 * (k / 2) + 1;
      }
      assert ws[|ws| - 2] == PayloadWrite(init, p) && ws[|ws| - 1] == InfoWrite(init, p);
    }
  }

  /** Everything written to a block that is complete. */
  ghost function BlockWrites(k: Key, ps: seq<Packet>, unset: seq<byte>): seq<Write>
    requires Packs(ps) && |unset| == 16
  {
    Writes(ps) + [HeadWrite(k, ps, unset)]
  }

  lemma BlockApart(k: Key, ps: seq<Packet>, unset: seq<byte>)
    requires Packs(ps) && |unset| == 16
    ensures AllInside(BlockWrites(k, ps, unset)) && AllApart(BlockWrites(k, ps, unset))
  {
    hide Writes, HeaderBytes, Total;
    WritesApart(ps);
  }

  // Reading a block back

  function Field(mem: seq<byte>, at: nat, n: nat): nat
    requires at + n <= |mem|
  {
    Value(mem[at..at + n])
  }

  /** Packet i of a block: its record, and through it its payload. */
  function PacketAt(mem: seq<byte>, i: nat): Option<Packet>
    requires |mem| == BLOCK_SIZE
  {
    if INFO_SIZE * (i + 1) > BLOCK_SIZE then None
    else
      var at := BLOCK_SIZE - INFO_SIZE * (i + 1);
      var n, offset := Field(mem, at + 10, 2), PAYLOAD_START + Field(mem, at + 12, 4);
      if offset + n > BLOCK_SIZE then None
      else Some(Packet(Field(mem, at + 4, 4), Field(mem, at, 4), Field(mem, at + 8, 2),
                       Field(mem, at + 16, 8), Field(mem, at + 24, 8), mem[offset..offset + n]))
  }

  function PacketsOf(mem: seq<byte>, n: nat): Option<seq<Packet>>
    requires |mem| == BLOCK_SIZE
  {
    if n == 0 then Some([])
    else if PacketsOf(mem, n - 1).None? || PacketAt(mem, n - 1).None? then None
    else Some(PacketsOf(mem, n - 1).value + [PacketAt(mem, n - 1).value])
  }

  datatype Block = Block(key: Key, totalPaylen: nat, packets: seq<Packet>)

  function Decode(mem: seq<byte>): Option<Block>
    requires |mem| == BLOCK_SIZE
  {
    var at := FRC_DMA_OFFSET;
    var key := Key(Field(mem, at + 4, 4), Field(mem, at, 4), Field(mem, at + 14, 2), Field(mem, at + 12, 2),
                   Field(mem, at + 10, 2), Field(mem, at + 16, 4));
    var packets := PacketsOf(mem, Field(mem, at + 22, 2));
    if packets.None? then None else Some(Block(key, Field(mem, at + 20, 2), packets.value))
  }

  lemma SliceOfSlice(mem: seq<byte>, at: nat, n: nat, i: nat, j: nat)
    requires at + n <= |mem| && i <= j <= n
    ensures mem[at + i..at + j] == mem[at..at + n][i..j]
  {
    var part := mem[at..at + n];
    assert forall k | 0 <= k < j - i :: mem[at + i..at + j][k] == part[i..j][k];
  }

  /** The parts of a concatenation are where their lengths say. */
  lemma Parts7(a: seq<byte>, b: seq<byte>, c: seq<byte>, d: seq<byte>, e: seq<byte>, f: seq<byte>, g: seq<byte>)
    requires |a| == 4 && |b| == 4 && |c| == 2 && |d| == 2 && |e| == 4 && |f| == 8 && |g| == 8
    ensures
      var r := a + b + c + d + e + f + g;
      r[0..4] == a && r[4..8] == b && r[8..10] == c && r[10..12] == d && r[12..16] == e && r[16..24] == f && r[24..32] == g
  {
  }

  lemma Parts10(a: seq<byte>, b: seq<byte>, c: seq<byte>, d: seq<byte>, e: seq<byte>, f: seq<byte>, g: seq<byte>,
                h: seq<byte>, i: seq<byte>, j: seq<byte>)
    requires |a| == 4 && |b| == 4 && |c| == 2 && |d| == 2 && |e| == 2 && |f| == 2 && |g| == 4 && |h| == 2 && |i| == 2
    requires |j| == 16
    ensures
      var r := a + b + c + d + e + f + g + h + i + j;
      r[0..4] == a && r[4..8] == b && r[10..12] == d && r[12..14] == e && r[14..16] == f &&
      r[16..20] == g && r[20..22] == h && r[22..24] == i
  {
  }

  lemma InfoFields(mem: seq<byte>, at: nat, p: Packet, dataOffset: nat)
    requires at + INFO_SIZE <= |mem| && mem[at..at + INFO_SIZE] == InfoBytes(p, dataOffset)
    requires GoodPacket(p) && dataOffset < 0x1_0000_0000
    ensures Field(mem, at, 4) == p.ackSeq && Field(mem, at + 4, 4) == p.sequence && Field(mem, at + 8, 2) == p.direction
    ensures Field(mem, at + 10, 2) == |p.data| && Field(mem, at + 12, 4) == dataOffset
    ensures Field(mem, at + 16, 8) == p.smac && Field(mem, at + 24, 8) == p.dmac
  {
    hide Be, Value, Power;
    Powers();
    Parts7(Be(p.ackSeq, 4), Be(p.sequence, 4), Be(p.direction, 2), Be(|p.data|, 2), Be(dataOffset, 4), Be(p.smac, 8), Be(p.dmac, 8));
    ValueOfBe(p.ackSeq, 4);
    ValueOfBe(p.sequence, 4);
    ValueOfBe(p.direction, 2);
    ValueOfBe(|p.data|, 2);
    ValueOfBe(dataOffset, 4);
    ValueOfBe(p.smac, 8);
    ValueOfBe(p.dmac, 8);
    SliceOfSlice(mem, at, INFO_SIZE, 0, 4);
    SliceOfSlice(mem, at, INFO_SIZE, 4, 8);
    SliceOfSlice(mem, at, INFO_SIZE, 8, 10);
    SliceOfSlice(mem, at, INFO_SIZE, 10, 12);
    SliceOfSlice(mem, at, INFO_SIZE, 12, 16);
    SliceOfSlice(mem, at, INFO_SIZE, 16, 24);
    SliceOfSlice(mem, at, INFO_SIZE, 24, 32);
    assert mem[at..at + 4] == mem[at + 0..at + 4];
  }

  lemma HeaderFields(mem: seq<byte>, at: nat, k: Key, total: nat, n: nat, unset: seq<byte>)
    requires |unset| == 16 && at + HDR_SIZE <= |mem| && mem[at..at + HDR_SIZE] == HeaderBytes(k, total, n, unset)
    requires GoodKey(k) && total < 0x1_0000 && n < 0x1_0000
    ensures Field(mem, at, 4) == k.dip && Field(mem, at + 4, 4) == k.sip && Field(mem, at + 10, 2) == k.protocol
    ensures Field(mem, at + 12, 2) == k.dport && Field(mem, at + 14, 2) == k.sport && Field(mem, at + 16, 4) == k.hash
    ensures Field(mem, at + 20, 2) == total && Field(mem, at + 22, 2) == n
  {
    hide Be, Value, Power;
    Powers();
    Parts10(Be(k.dip, 4), Be(k.sip, 4), Be(0, 2), Be(k.protocol, 2), Be(k.dport, 2), Be(k.sport, 2), Be(k.hash, 4),
            Be(total, 2), Be(n, 2), unset);
    ValueOfBe(k.dip, 4);
    ValueOfBe(k.sip, 4);
    ValueOfBe(k.protocol, 2);
    ValueOfBe(k.dport, 2);
    ValueOfBe(k.sport, 2);
    ValueOfBe(k.hash, 4);
    ValueOfBe(total, 2);
    ValueOfBe(n, 2);
    SliceOfSlice(mem, at, HDR_SIZE, 0, 4);
    SliceOfSlice(mem, at, HDR_SIZE, 4, 8);
    SliceOfSlice(mem, at, HDR_SIZE, 10, 12);
    SliceOfSlice(mem, at, HDR_SIZE, 12, 14);
    SliceOfSlice(mem, at, HDR_SIZE, 14, 16);
    SliceOfSlice(mem, at, HDR_SIZE, 16, 20);
    SliceOfSlice(mem, at, HDR_SIZE, 20, 22);
    SliceOfSlice(mem, at, HDR_SIZE, 22, 24);
  }

  /** Where the writes of packet i are, and what they say. */
  lemma {:induction false} WritesAt(ps: seq<Packet>, i: nat)
    requires Packs(ps) && i < |ps|
    ensures Packs(ps[..i]) && GoodPacket(ps[i]) && Fits(ps[..i], ps[i])
    ensures Writes(ps)[2 * i] == PayloadWrite(ps[..i], ps[i]) && Writes(ps)[2 * i + 1] == InfoWrite(ps[..i], ps[i])
  {
    if i < |ps| - 1 {
      WritesAt(ps[..|ps| - 1], i);
      assert ps[..|ps| - 1][..i] == ps[..i];
    }
  }

  /** A record and the payload it points to make the packet. */
  lemma PacketFrom(mem: seq<byte>, i: nat, p: Packet, dataOffset: nat)
    requires |mem| == BLOCK_SIZE && GoodPacket(p) && INFO_SIZE * (i + 1) <= BLOCK_SIZE
    requires PAYLOAD_START + dataOffset + |p.data| <= BLOCK_SIZE
    requires mem[BLOCK_SIZE - INFO_SIZE * (i + 1)..BLOCK_SIZE - INFO_SIZE * (i + 1) + INFO_SIZE] == InfoBytes(p, dataOffset)
    requires mem[PAYLOAD_START + dataOffset..PAYLOAD_START + dataOffset + |p.data|] == p.data
    ensures PacketAt(mem, i) == Some(p)
  {
    hide InfoBytes, Field;
    InfoFields(mem, BLOCK_SIZE - INFO_SIZE * (i + 1), p, dataOffset);
  }

  lemma PacketReadBack(mem: seq<byte>, k: Key, ps: seq<Packet>, unset: seq<byte>, i: nat)
    requires |mem| == BLOCK_SIZE && Packs(ps) && |unset| == 16 && i < |ps|
    requires AllInside(BlockWrites(k, ps, unset))
    ensures PacketAt(ApplyAll(mem, BlockWrites(k, ps, unset)), i) == Some(ps[i])
  {
    hide Total, ApplyAll, InfoBytes, HeadWrite, PacketAt, AllInside, AllApart, Packs, Writes, GoodPacket;
    var ws := BlockWrites(k, ps, unset);
    BlockApart(k, ps, unset);
    WritesAt(ps, i);
    assert ws[2 * i] == PayloadWrite(ps[..i], ps[i]) && ws[2 * i + 1] == InfoWrite(ps[..i], ps[i]);
    ReadBack(mem, ws, 2 * i);
    ReadBack(mem, ws, 2 * i + 1);
    OffsetsMeet(ps[..i]);
    PacketFrom(ApplyAll(mem, ws), i, ps[i], Total(ps[..i]));
  }

  lemma {:induction false} PacketsReadBack(mem: seq<byte>, k: Key, ps: seq<Packet>, unset: seq<byte>, n: nat)
    requires |mem| == BLOCK_SIZE && Packs(ps) && |unset| == 16 && n <= |ps|
    requires AllInside(BlockWrites(k, ps, unset))
    ensures PacketsOf(ApplyAll(mem, BlockWrites(k, ps, unset)), n) == Some(ps[..n])
  {
    hide PacketAt, ApplyAll, AllInside, Packs, BlockWrites;
    if n > 0 {
      PacketsReadBack(mem, k, ps, unset, n - 1);
      PacketReadBack(mem, k, ps, unset, n - 1);
      assert ps[..n] == ps[..n - 1] + [ps[n - 1]];
    }
  }

  /** A complete block, whatever it held before, decodes to its key and its packets. */
  lemma DecodeBlock(mem: seq<byte>, k: Key, ps: seq<Packet>, unset: seq<byte>)
    requires |mem| == BLOCK_SIZE && Packs(ps) && GoodKey(k) && |unset| == 16
    ensures AllInside(BlockWrites(k, ps, unset))
    ensures Decode(ApplyAll(mem, BlockWrites(k, ps, unset))) == Some(Block(k, Total(ps), ps))
  {
    hide Total, ApplyAll, HeaderBytes, Field, Packs, Writes, AllInside, AllApart, PacketsOf;
    BlockApart(k, ps, unset);
    OffsetsMeet(ps);
    var ws := BlockWrites(k, ps, unset);
    ReadBack(mem, ws, |ws| - 1);
    HeaderFields(ApplyAll(mem, ws), FRC_DMA_OFFSET, k, Total(ps), |ps|, unset);
    PacketsReadBack(mem, k, ps, unset, |ps|);
    assert ps[..|ps|] == ps;
  }

}
