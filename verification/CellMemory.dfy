/** Fifo cells as the bytes they are: what a copy that runs past a cell's room does to the fields and
    the cells behind it. Both kinds of cell are copied into without a look at their size. */
module CellMemory {
  import opened Bytes
  import opened BlockPacking

  /** The memory of a fifo, a byte at each address. */
  type Memory = int -> byte

  function Store(m: Memory, at: int, data: seq<byte>): Memory {
    (x: int) => if at <= x < at + |data| then data[x - at] else m(x)
  }

  function Load(m: Memory, at: int, n: nat): (s: seq<byte>)
    ensures |s| == n
  {
    seq(n, i => m(at + i))
  }

  lemma LoadStored(m: Memory, at: int, data: seq<byte>)
    ensures Load(Store(m, at, data), at, |data|) == data
  {
  }

  lemma LoadElsewhere(m: Memory, at: int, data: seq<byte>, from: int, n: nat)
    requires from + n <= at || at + |data| <= from
    ensures Load(Store(m, at, data), from, n) == Load(m, from, n)
  {
  }

  lemma TwoBytes(b: seq<byte>)
    requires |b| == 2
    ensures Value(b) == b[0] as int * 256 + b[1]
  {
    assert b[..1][..0] == [];
    assert Value(b[..1]) == b[0];
  }

  lemma BeTwo(x: nat)
    requires x < 0x1_0000
    ensures Be(x, 2) == [x / 256, x % 256]
  {
    assert Be(x / 256, 1) == Be(x / 256 / 256, 0) + [x / 256 % 256];
  }

  // Cells of the simple channel: two bytes of size and the bytes of one packet, one after another

  /** The bytes that a packet's cell has for it. */
  const CELL_DATA: nat := 2008
  const CELL_SIZE: nat := 2 + CELL_DATA
  /** A block takes as many behind its reserved start: 40 + 2008 = 2048. */
  const SIMPLE_BLOCK_SIZE: nat := 2048
  /** The longest packet that the length test lets pass. */
  const PKT_MAX: nat := 2048

  /** Puts a packet into cell i: its length, then its bytes. */
  function Queue(m: Memory, i: int, p: seq<byte>): Memory {
    Store(Store(m, CELL_SIZE * i, Be(|p|, 2)), CELL_SIZE * i + 2, p)
  }

  /** What posting cell i sends: as many bytes as its size says. */
  function Queued(m: Memory, i: int): seq<byte> {
    Load(m, CELL_SIZE * i + 2, Value(Load(m, CELL_SIZE * i, 2)))
  }

  lemma QueuedBack(m: Memory, i: int, p: seq<byte>)
    requires |p| <= PKT_MAX
    ensures Queued(Queue(m, i, p), i) == p
  {
    hide Be, Value, Load, Store;
    var at := CELL_SIZE * i;
    var sized := Store(m, at, Be(|p|, 2));
    LoadStored(m, at, Be(|p|, 2));
    LoadElsewhere(sized, at + 2, p, at, 2);
    LoadStored(sized, at + 2, p);
    Powers();
    ValueOfBe(|p|, 2);
  }

  /** A packet within its cell is left alone by what goes into the next cell. */
  lemma NextKeeps(m: Memory, i: int, p: seq<byte>, q: seq<byte>)
    requires |p| <= CELL_DATA && |q| <= PKT_MAX
    ensures Queued(Queue(Queue(m, i, p), i + 1, q), i) == p
  {
    hide Be, Value, Load, Store;
    var at := CELL_SIZE * i;
    var one := Queue(m, i, p);
    var sized := Store(one, at + CELL_SIZE, Be(|q|, 2));
    QueuedBack(m, i, p);
    Powers();
    LoadStored(m, at, Be(|p|, 2));
    LoadElsewhere(Store(m, at, Be(|p|, 2)), at + 2, p, at, 2);
    ValueOfBe(|p|, 2);
    LoadElsewhere(one, at + CELL_SIZE, Be(|q|, 2), at, 2);
    LoadElsewhere(sized, at + CELL_SIZE + 2, q, at, 2);
    LoadElsewhere(one, at + CELL_SIZE, Be(|q|, 2), at + 2, |p|);
    LoadElsewhere(sized, at + CELL_SIZE + 2, q, at + 2, |p|);
  }

  /** And leaves alone what waits in the next cell. */
  lemma KeepsNext(m: Memory, i: int, p: seq<byte>)
    requires |p| <= CELL_DATA && |Queued(m, i + 1)| <= PKT_MAX
    ensures Queued(Queue(m, i, p), i + 1) == Queued(m, i + 1)
  {
    hide Be, Value, Load, Store;
    var at := CELL_SIZE * i;
    var sized := Store(m, at, Be(|p|, 2));
    LoadElsewhere(m, at, Be(|p|, 2), at + CELL_SIZE, 2);
    LoadElsewhere(sized, at + 2, p, at + CELL_SIZE, 2);
    var n := Value(Load(m, at + CELL_SIZE, 2));
    LoadElsewhere(m, at, Be(|p|, 2), at + CELL_SIZE + 2, n);
    LoadElsewhere(sized, at + 2, p, at + CELL_SIZE + 2, n);
  }

  /** One byte too many is the first byte of the next cell's size: the next packet overwrites it. */
  lemma NextDamages(m: Memory, i: int, p: seq<byte>, q: seq<byte>)
    requires CELL_DATA < |p| <= PKT_MAX && |q| < 0x1_0000 && p[CELL_DATA] != |q| / 256
    ensures Queued(Queue(Queue(m, i, p), i + 1, q), i) != p
  {
    hide Value, Power;
    var at := CELL_SIZE * i;
    var two := Queue(Queue(m, i, p), i + 1, q);
    BeTwo(|q|);
    assert two(at + CELL_SIZE) == |q| / 256;
    var back := Queued(two, i);
    if |back| == |p| {
      assert back[CELL_DATA] == two(at + 2 + CELL_DATA);
    }
  }

  /** And it overwrites the size of a packet that waits there. */
  lemma DamagesNext(m: Memory, i: int, p: seq<byte>, q: seq<byte>)
    requires CELL_DATA < |p| <= PKT_MAX && |q| <= PKT_MAX && p[CELL_DATA] != |q| / 256
    ensures Queued(Queue(Queue(m, i + 1, q), i, p), i + 1) != q
  {
    hide Value;
    var at := CELL_SIZE * i;
    var one := Queue(m, i + 1, q);
    var two := Queue(one, i, p);
    var size := Load(two, at + CELL_SIZE, 2);
    assert size[0] == two(at + CELL_SIZE) == p[CELL_DATA];
    TwoBytes(size);
  }

  ghost predicate NextIsHarmless(m: Memory, i: int, p: seq<byte>, q: seq<byte>) {
    Queued(Queue(Queue(m, i, p), i + 1, q), i) == p
  }

  ghost predicate HarmlessToNext(m: Memory, i: int, p: seq<byte>, q: seq<byte>) {
    Queued(Queue(Queue(m, i + 1, q), i, p), i + 1) == q
  }

  /** The packet stays whole whatever is put into the next cell. */
  ghost predicate StaysWhole(p: seq<byte>) {
    forall m: Memory, i: int, q: seq<byte> | |q| <= PKT_MAX :: NextIsHarmless(m, i, p, q)
  }

  /** Whatever waits in the next cell stays whole. */
  ghost predicate LeavesWhole(p: seq<byte>) {
    forall m: Memory, i: int, q: seq<byte> | |q| <= PKT_MAX :: HarmlessToNext(m, i, p, q)
  }

  ghost predicate InBlock(p: seq<byte>) {
    FRC_DMA_OFFSET + |p| <= SIMPLE_BLOCK_SIZE
  }

  /** Exactly when an admitted packet stays whole, leaves others whole, and stays in its block: when
      it is no longer than the room of a cell. Each of the three alone is lost with the first byte
      too many. */
  lemma IntactExactly(p: seq<byte>)
    requires |p| <= PKT_MAX
    ensures StaysWhole(p) <==> |p| <= CELL_DATA
    ensures LeavesWhole(p) <==> |p| <= CELL_DATA
    ensures InBlock(p) <==> |p| <= CELL_DATA
  {
    hide Queue, Queued;
    if |p| <= CELL_DATA {
      forall m: Memory, i: int, q: seq<byte> | |q| <= PKT_MAX
        ensures NextIsHarmless(m, i, p, q) && HarmlessToNext(m, i, p, q)
      {
        NextKeeps(m, i, p, q);
        QueuedBack(m, i + 1, q);
        KeepsNext(Queue(m, i + 1, q), i, p);
      }
    } else {
      var m: Memory := (x: int) => 0;
      var q: seq<byte> := seq(if p[CELL_DATA] == 0 then 256 else 72, i => 0);
      NextDamages(m, 0, p, q);
      DamagesNext(m, 0, p, q);
      assert !NextIsHarmless(m, 0, p, q) && !HarmlessToNext(m, 0, p, q);
    }
  }

  /** The shortest packet that the length test should not let pass: 1937 bytes of payload. It is
      damaged by an ordinary packet after it, and damages one that waits. */
  lemma Payload1937(m: Memory, i: int, p: seq<byte>, q: seq<byte>)
    requires |p| == HDR_SIZE + 1937 + INFO_SIZE && |q| == HDR_SIZE + INFO_SIZE && p[CELL_DATA] != 0
    ensures |p| <= PKT_MAX
    ensures Queued(Queue(Queue(m, i, p), i + 1, q), i) != p
    ensures Queued(Queue(Queue(m, i + 1, q), i, p), i + 1) != q
    ensures FRC_DMA_OFFSET + |p| == SIMPLE_BLOCK_SIZE + 1
  {
    NextDamages(m, i, p, q);
    DamagesNext(m, i, p, q);
  }

  // Payload cells of the session channel: the payload's bytes, then the field with their number

  /** The bytes that a cell has for a payload. */
  const FRC_PAYLOAD_LEN_MAX: nat := 1600

  /** Fills a cell whose payload starts at an address: first the size, then the payload. */
  function FillPayload(m: Memory, at: int, data: seq<byte>): Memory {
    Store(Store(m, at + FRC_PAYLOAD_LEN_MAX, Be(|data|, 2)), at, data)
  }

  function PayloadSize(m: Memory, at: int): nat {
    Value(Load(m, at + FRC_PAYLOAD_LEN_MAX, 2))
  }

  /** What posting the cell sends. */
  function Payload(m: Memory, at: int): seq<byte> {
    Load(m, at, PayloadSize(m, at))
  }

  ghost predicate PayloadKeeps(m: Memory, at: int, data: seq<byte>) {
    Payload(FillPayload(m, at, data), at) == data
  }

  lemma PayloadKept(m: Memory, at: int, data: seq<byte>)
    requires |data| <= FRC_PAYLOAD_LEN_MAX
    ensures Payload(FillPayload(m, at, data), at) == data
  {
    hide Be, Value, Load, Store, Power;
    var sized := Store(m, at + FRC_PAYLOAD_LEN_MAX, Be(|data|, 2));
    LoadStored(m, at + FRC_PAYLOAD_LEN_MAX, Be(|data|, 2));
    LoadElsewhere(sized, at, data, at + FRC_PAYLOAD_LEN_MAX, 2);
    LoadStored(sized, at, data);
    Powers();
    ValueOfBe(|data|, 2);
  }

  /** The byte after the room is the first of the size: unless it happens to be the same, what is
      sent has another length. */
  lemma PayloadLost(m: Memory, at: int, data: seq<byte>)
    requires FRC_PAYLOAD_LEN_MAX < |data| < 0x1_0000 && data[FRC_PAYLOAD_LEN_MAX] != |data| / 256
    ensures Payload(FillPayload(m, at, data), at) != data
  {
    hide Value, Be;
    var e := FillPayload(m, at, data);
    var size := Load(e, at + FRC_PAYLOAD_LEN_MAX, 2);
    assert size[0] == data[FRC_PAYLOAD_LEN_MAX];
    TwoBytes(size);
  }

  /** Payloads of a length all keep their length and bytes in a cell exactly when it has room. */
  lemma PayloadKeptExactly(n: nat)
    requires n < 0x1_0000
    ensures (forall m: Memory, at: int, data: seq<byte> | |data| == n :: PayloadKeeps(m, at, data)) <==> n <= FRC_PAYLOAD_LEN_MAX
  {
    hide Payload, FillPayload;
    if n <= FRC_PAYLOAD_LEN_MAX {
      forall m: Memory, at: int, data: seq<byte> | |data| == n
        ensures PayloadKeeps(m, at, data)
      {
        PayloadKept(m, at, data);
      }
    } else {
      var m: Memory := (x: int) => 0;
      var data: seq<byte> := seq(n, i => 0);
      PayloadLost(m, 0, data);
      assert !PayloadKeeps(m, 0, data);
    }
  }

  /** A payload one byte too long: 1601 bytes, whose last replaces the high byte of their number. */
  lemma Payload1601(m: Memory, at: int, data: seq<byte>)
    requires |data| == 1601
    ensures PayloadSize(FillPayload(m, at, data), at) == data[1600] as int * 256 + 65
    ensures data[1600] != 6 ==> Payload(FillPayload(m, at, data), at) != data
  {
    hide Value;
    BeTwo(1601);
    var e := FillPayload(m, at, data);
    var size := Load(e, at + FRC_PAYLOAD_LEN_MAX, 2);
    assert size[0] == data[1600] && size[1] == 65;
    TwoBytes(size);
  }
}
