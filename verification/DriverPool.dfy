/** The host driver's start: it cuts its pools into blocks, puts every block on the available ring,
    and tells the card the span of addresses that they lie in. */
module DriverPool {
  import opened Rings
  import BlockProtocol

  const FRC_DMA_POOL_SIZE: nat := 4096 * 1024
  const FRC_DMA_SSN_BLOCK_SIZE: nat := 8192
  /** Blocks in a pool: FRC_DMA_POOL_SIZE / FRC_DMA_SSN_BLOCK_SIZE. */
  const BLOCKS: nat := 512
  const FRC_DMA_SSN_POOL_NUM_MAX: nat := BlockProtocol.FRC_DMA_SSN_RING_BUFF_SIZE / BLOCKS

  /** Block k of the pools, counting through them in order. */
  ghost function BlockAddr(pools: seq<nat>, k: nat): nat
    requires k < BLOCKS * |pools|
  {
    pools[k / BLOCKS] + k % BLOCKS * FRC_DMA_SSN_BLOCK_SIZE
  }

  ghost function InitBlocks(pools: seq<nat>, n: nat): (s: seq<nat>)
    requires n <= BLOCKS * |pools|
    ensures |s| == n && forall k | 0 <= k < n :: s[k] == BlockAddr(pools, k)
  {
    seq(n, k requires 0 <= k < n => BlockAddr(pools, k))
  }

  lemma BlockAddrIs(pools: seq<nat>, i: nat, k: nat)
    requires i < |pools| && k < BLOCKS
    ensures BLOCKS * i + k < BLOCKS * |pools|
    ensures BlockAddr(pools, BLOCKS * i + k) == pools[i] + k * FRC_DMA_SSN_BLOCK_SIZE
  {
    assert (512 * i + k) / 512 == i && (512 * i + k) % 512 == k;
  }

  lemma InitBlocksNext(pools: seq<nat>, n: nat)
    requires n < BLOCKS * |pools|
    ensures InitBlocks(pools, n + 1) == InitBlocks(pools, n) + [BlockAddr(pools, n)]
  {
    hide BlockAddr;
  }

  /** Puts the blocks of one pool after those of the pools before it. */
  method PutPool(ring: Ring, pools: seq<nat>, poolId: nat) returns (ok: bool)
    requires ring.Valid() && poolId < |pools| && ring.Contents() == InitBlocks(pools, BLOCKS * poolId)
    modifies ring`widx, ring.buff
    ensures ring.Valid() && ok == (BLOCKS * (poolId + 1) <= ring.size)
    ensures ok ==> ring.Contents() == InitBlocks(pools, BLOCKS * (poolId + 1))
  {
    hide BlockAddr, InitBlocks;
    var offset := 0;
    ghost var k := 0;
    while offset < FRC_DMA_POOL_SIZE
      invariant offset == k * FRC_DMA_SSN_BLOCK_SIZE && k <= BLOCKS && ring.Valid()
      invariant |ring.Contents()| <= ring.size && ring.Contents() == InitBlocks(pools, BLOCKS * poolId + k)
    {
      BlockAddrIs(pools, poolId, k);
      InitBlocksNext(pools, BLOCKS * poolId + k);
      var put := ring.PutOne(pools[poolId] + offset);
      if !put {
        return false;
      }
      k := k + 1;
      offset := offset + FRC_DMA_SSN_BLOCK_SIZE;
    }
    return true;
  }

  /** Every block goes on an empty ring exactly when the ring has a place for each. */
  method AvailInit(ring: Ring, pools: seq<nat>) returns (ok: bool)
    requires ring.Valid() && ring.Contents() == []
    modifies ring`widx, ring.buff
    ensures ring.Valid() && ok == (BLOCKS * |pools| <= ring.size)
    ensures ok ==> ring.Contents() == InitBlocks(pools, BLOCKS * |pools|)
    ensures ok ==> forall k | 0 <= k < |ring.Contents()| ::
      k / 512 < |pools| && ring.Contents()[k] == pools[k / 512] + k % 512 * 8192
  {
    hide InitBlocks;
    var poolId := 0;
    while poolId < |pools|
      invariant 0 <= poolId <= |pools| && ring.Valid() && BLOCKS * poolId <= ring.size
      invariant ring.Contents() == InitBlocks(pools, BLOCKS * poolId)
    {
      var put := PutPool(ring, pools, poolId);
      if !put {
        return false;
      }
      poolId := poolId + 1;
    }
    return true;
  }

  /** Pools that do not overlap, each wholly clear of every other. */
  ghost predicate PoolsApart(pools: seq<nat>) {
    forall i, j | 0 <= i < j < |pools| ::
      pools[i] + FRC_DMA_POOL_SIZE <= pools[j] || pools[j] + FRC_DMA_POOL_SIZE <= pools[i]
  }

  /** No two blocks overlap, each is inside a pool, and a permitted number of pools fits the ring:
      the block protocol starts from a ring that holds each of its blocks once. */
  lemma InitialBlocks(pools: seq<nat>)
    requires PoolsApart(pools) && |pools| <= FRC_DMA_SSN_POOL_NUM_MAX
    ensures
      var s := InitBlocks(pools, BLOCKS * |pools|);
      BlockProtocol.NoDup(s) && |s| <= BlockProtocol.FRC_DMA_SSN_RING_BUFF_SIZE &&
      forall i, j | 0 <= i < j < |s| :: s[i] + FRC_DMA_SSN_BLOCK_SIZE <= s[j] || s[j] + FRC_DMA_SSN_BLOCK_SIZE <= s[i]
  {
    hide BlockAddr;
    var s := InitBlocks(pools, BLOCKS * |pools|);
    forall i, j | 0 <= i < j < |s|
      ensures s[i] + FRC_DMA_SSN_BLOCK_SIZE <= s[j] || s[j] + FRC_DMA_SSN_BLOCK_SIZE <= s[i]
    {
      BlocksApart(pools, i / 512, i % 512, j / 512, j % 512);
    }
  }

  lemma BlocksApart(pools: seq<nat>, p: nat, i: nat, q: nat, j: nat)
    requires PoolsApart(pools) && p < |pools| && q < |pools| && i < BLOCKS && j < BLOCKS
    requires p < q || (p == q && i < j)
    ensures BLOCKS * p + i < BLOCKS * |pools| && BLOCKS * q + j < BLOCKS * |pools|
    ensures
      var a, b := BlockAddr(pools, BLOCKS * p + i), BlockAddr(pools, BLOCKS * q + j);
      a + FRC_DMA_SSN_BLOCK_SIZE <= b || b + FRC_DMA_SSN_BLOCK_SIZE <= a
  {
    BlockAddrIs(pools, p, i);
    BlockAddrIs(pools, q, j);
  }

  /** The span told to the card has every block of every pool inside it, and starts at a pool. */
  method PoolSpan(pools: seq<nat>) returns (addr: nat, size: nat)
    requires pools != []
    ensures addr in pools && addr + size - FRC_DMA_POOL_SIZE in pools
    ensures forall i | 0 <= i < |pools| :: addr <= pools[i] && pools[i] + FRC_DMA_POOL_SIZE <= addr + size
  {
    var min, max := pools[0], pools[0];
    for i := 1 to |pools|
      invariant min in pools && max in pools && min <= max
      invariant forall k | 0 <= k < i :: min <= pools[k] <= max
    {
      if min > pools[i] {
        min := pools[i];
      }
      if max < pools[i] {
        max := pools[i];
      }
    }
    return min, max - min + FRC_DMA_POOL_SIZE;
  }
}
