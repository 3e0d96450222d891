// Model of the work partitioning in lab09/omp_apps.c. The OpenMP team is
// simulated sequentially: the thread count is a parameter, and the body each
// thread runs inside a parallel region becomes one iteration of a loop over
// the thread ids 0, ..., threads - 1. Elements are ints, so sums are exact.
module OmpApps {
  import Arith

  /** The vector-add functions `verify` can be handed. */
  datatype VAddFunct = Naive | Adjacent | Chunks

  /** Writer recorded for an index stored by the serial tail loop after the parallel region. */
  const SerialTail: int := -1

  /** Writer recorded for an index no thread and no tail loop has stored yet. */
  const Unstored: int := -2

  /** The compare half of `verify`: build the oracle `x[i] + y[i]` and scan
      for the first index where the vector-add output differs. Returns 1
      exactly when the output matches the oracle everywhere, 0 otherwise. */
  method CompareWithOracle(x: array<int>, y: array<int>, zVAdd: array<int>, arraySize: nat)
    returns (r: int)
    requires x.Length == arraySize && y.Length == arraySize && zVAdd.Length == arraySize
    ensures r == 0 || r == 1
    ensures r == 1 <==> forall i :: 0 <= i < arraySize ==> zVAdd[i] == x[i] + y[i]
  {
    var zOracle := new int[arraySize];
    for i := 0 to arraySize
      invariant forall k :: 0 <= k < i ==> zOracle[k] == x[k] + y[k]
    {
      zOracle[i] := x[i] + y[i];
    }
    for i := 0 to arraySize
      invariant forall k :: 0 <= k < i ==> zOracle[k] == zVAdd[k]
    {
      if zOracle[i] != zVAdd[i] {
        return 0;
      }
    }
    return 1;
  }

  /** verify: run the chosen vector add into a fresh buffer and compare it with
      the oracle. Every strategy, for every thread count, passes. */
  method Verify(x: array<int>, y: array<int>, funct: VAddFunct, arraySize: nat, threads: nat)
    returns (r: int)
    requires threads >= 1
    requires x.Length == arraySize && y.Length == arraySize
    ensures r == 1
  {
    var zVAdd := new int[arraySize];
    match funct {
      case Naive =>
        var _ := VAddNaive(x, y, zVAdd, arraySize, threads);
      case Adjacent =>
        var _, _ := VAddAdjacent(x, y, zVAdd, arraySize, threads);
      case Chunks =>
        var _, _ := VAddChunks(x, y, zVAdd, arraySize, threads);
    }
    r := CompareWithOracle(x, y, zVAdd, arraySize);
  }

  /** v_add_naive: every thread of the team runs the whole loop, so each z[i]
      is stored `threads` times, always with the same value x[i] + y[i]; the
      result does not depend on the thread count. */
  method VAddNaive(x: array<int>, y: array<int>, z: array<int>, arraySize: nat, threads: nat)
    returns (ghost writes: seq<nat>)
    requires threads >= 1
    requires x.Length == arraySize && y.Length == arraySize && z.Length == arraySize
    requires z != x && z != y
    modifies z
    ensures forall i :: 0 <= i < arraySize ==> z[i] == x[i] + y[i]
    ensures |writes| == arraySize && forall i :: 0 <= i < arraySize ==> writes[i] == threads
  {
    writes := seq(arraySize, _ => 0);
    for threadId := 0 to threads
      invariant |writes| == arraySize
      invariant forall k :: 0 <= k < arraySize ==> writes[k] == threadId
      invariant threadId >= 1 ==> forall k :: 0 <= k < arraySize ==> z[k] == x[k] + y[k]
    {
      for i := 0 to arraySize
        invariant |writes| == arraySize
        invariant forall k :: 0 <= k < arraySize ==> writes[k] == if k < i then threadId + 1 else threadId
        invariant forall k :: 0 <= k < arraySize && (k < i || threadId >= 1) ==> z[k] == x[k] + y[k]
      {
        z[i] := x[i] + y[i];
        writes := writes[i := writes[i] + 1];
      }
    }
  }

  /** v_add_optimized_adjacent: thread t stores exactly the indices i with
      i % threads == t, so every index is stored once, by thread i % threads. */
  method VAddAdjacent(x: array<int>, y: array<int>, z: array<int>, arraySize: nat, threads: nat)
    returns (ghost writer: seq<int>, ghost writes: seq<nat>)
    requires threads >= 1
    requires x.Length == arraySize && y.Length == arraySize && z.Length == arraySize
    requires z != x && z != y
    modifies z
    ensures forall i :: 0 <= i < arraySize ==> z[i] == x[i] + y[i]
    ensures |writer| == arraySize && |writes| == arraySize
    ensures forall i :: 0 <= i < arraySize ==> writes[i] == 1 && writer[i] == i % threads
  {
    writer := seq(arraySize, _ => Unstored);
    writes := seq(arraySize, _ => 0);
    for threadId := 0 to threads
      invariant |writer| == arraySize && |writes| == arraySize
      invariant forall k :: 0 <= k < arraySize ==>
                  if k % threads < threadId then
                    z[k] == x[k] + y[k] && writes[k] == 1 && writer[k] == k % threads
                  else writes[k] == 0
    {
      var totalThread := threads;
      for i := 0 to arraySize
        invariant |writer| == arraySize && |writes| == arraySize
        invariant forall k :: 0 <= k < arraySize ==>
                    if k % threads < threadId || (k % threads == threadId && k < i) then
                      z[k] == x[k] + y[k] && writes[k] == 1 && writer[k] == k % threads
                    else writes[k] == 0
      {
        if i % totalThread != threadId {
          continue;
        }
        z[i] := x[i] + y[i];
        writes := writes[i := writes[i] + 1];
        writer := writer[i := threadId];
      }
    }
  }

  /** Where the chunk strategies put their pieces: for `size = n / threads`,
      chunk t ends no later than the last chunk, and the last chunk ends no
      later than n. */
  lemma ChunkLayout(n: nat, threads: nat, t: nat)
    requires t < threads
    ensures (t + 1) * (n / threads) <= threads * (n / threads) <= n
  {
    Arith.MulMono(t + 1, threads, n / threads);
  }

  /** Index k lies in chunk t when chunks are `size` long: t*size <= k < (t+1)*size. */
  predicate InChunk(k: int, t: int, size: nat)
  {
    t * size <= k < (t + 1) * size
  }

  /** Index k of a vector add is finished: it holds x[k] + y[k] and was stored once. */
  ghost predicate Stored(x: array<int>, y: array<int>, z: array<int>, writes: seq<nat>, k: int)
    reads x, y, z
    requires 0 <= k < |writes| && |writes| == x.Length == y.Length == z.Length
  {
    z[k] == x[k] + y[k] && writes[k] == 1
  }

  /** The state of the chunk partition once the chunks below `done` are
      finished: indices below `done` hold x[k] + y[k], were stored once, and
      their writer is the thread whose chunk holds them; the others are not
      stored yet. */
  ghost predicate ChunksUpTo(x: array<int>, y: array<int>, z: array<int>, writer: seq<int>, writes: seq<nat>,
                             threads: nat, size: nat, done: int)
    reads x, y, z
  {
    |writer| == |writes| == x.Length == y.Length == z.Length &&
    forall k :: 0 <= k < |writes| ==>
      if k < done then
        Stored(x, y, z, writes, k) && 0 <= writer[k] < threads && InChunk(k, writer[k], size)
      else writes[k] == 0 && writer[k] == Unstored
  }

  /** The state of the whole partition once the serial tail has reached
      `done`: indices below `chunkEnd` are as in ChunksUpTo, those from
      `chunkEnd` up to `done` were stored once by the tail, and the others are
      not stored yet. */
  ghost predicate Partitioned(x: array<int>, y: array<int>, z: array<int>, writer: seq<int>, writes: seq<nat>,
                              threads: nat, size: nat, chunkEnd: int, done: int)
    reads x, y, z
  {
    |writer| == |writes| == x.Length == y.Length == z.Length &&
    forall k :: 0 <= k < |writes| ==>
      if k < chunkEnd then
        Stored(x, y, z, writes, k) && 0 <= writer[k] < threads && InChunk(k, writer[k], size)
      else if k < done then
        Stored(x, y, z, writes, k) && writer[k] == SerialTail
      else writes[k] == 0 && writer[k] == Unstored
  }

  /** The inner loop of v_add_optimized_chunks for the chunk of thread
      `threadId`: store x[j] + y[j] at every j of [threadId*size, (threadId+1)*size),
      extending the finished prefix over that chunk and touching nothing else. */
  method StoreChunk(x: array<int>, y: array<int>, z: array<int>, threads: nat, size: nat, threadId: nat,
                    ghost writer0: seq<int>, ghost writes0: seq<nat>)
    returns (ghost writer: seq<int>, ghost writes: seq<nat>)
    requires threadId < threads && (threadId + 1) * size <= z.Length
    requires z != x && z != y
    requires ChunksUpTo(x, y, z, writer0, writes0, threads, size, threadId * size)
    modifies z
    ensures ChunksUpTo(x, y, z, writer, writes, threads, size, (threadId + 1) * size)
    ensures forall k :: 0 <= k < z.Length && !InChunk(k, threadId, size) ==> z[k] == old(z[k])
  {
    writer, writes := writer0, writes0;
    var i := threadId * size;
    for j := i to i + size
      invariant ChunksUpTo(x, y, z, writer, writes, threads, size, j)
      invariant forall k :: 0 <= k < z.Length && !InChunk(k, threadId, size) ==> z[k] == old(z[k])
    {
      z[j] := x[j] + y[j];
      writes := writes[j := writes[j] + 1];
      writer := writer[j := threadId];
    }
  }

  /** What thread `threadId` runs inside the parallel region of
      v_add_optimized_chunks: walk the chunk starts 0, size, ..., below
      threads * size and store the one chunk whose number is its own id. */
  method VAddChunksThread(x: array<int>, y: array<int>, z: array<int>, arraySize: nat, threads: nat,
                          size: nat, threadId: nat, ghost writer0: seq<int>, ghost writes0: seq<nat>)
    returns (ghost writer: seq<int>, ghost writes: seq<nat>)
    requires threadId < threads && size == arraySize / threads
    requires x.Length == arraySize && y.Length == arraySize && z.Length == arraySize
    requires z != x && z != y
    requires ChunksUpTo(x, y, z, writer0, writes0, threads, size, threadId * size)
    modifies z
    ensures ChunksUpTo(x, y, z, writer, writes, threads, size, (threadId + 1) * size)
    ensures forall k :: 0 <= k < arraySize && !InChunk(k, threadId, size) ==> z[k] == old(z[k])
  {
    writer, writes := writer0, writes0;
    ChunkLayout(arraySize, threads, threadId);
    ghost var lo, hi := threadId * size, (threadId + 1) * size;
    assert hi == lo + size;
    var i := 0;
    ghost var m := 0;
    while i < threads * size
      invariant i == m * size && 0 <= m
      invariant size > 0 ==> m <= threads
      invariant ChunksUpTo(x, y, z, writer, writes, threads, size, if threadId < m then hi else lo)
      invariant forall k :: 0 <= k < arraySize && !(lo <= k < hi) ==> z[k] == old(z[k])
      decreases threads * size - i
    {
      assert size > 0;
      if m >= threads {
        Arith.MulMono(threads, m, size);
      }
      Arith.DivModOf(size, m, 0);
      if i / size == threadId {
        assert i == lo;
        writer, writes := StoreChunk(x, y, z, threads, size, threadId, writer, writes);
      }
      i := i + size;
      m := m + 1;
    }
    if size > 0 && m <= threadId {
      Arith.MulMono(m, threadId, size);
    }
  }

  /** v_add_optimized_chunks: with size = arraySize / threads, thread t stores
      exactly the chunk [t*size, (t+1)*size); the serial tail loop then stores
      [threads*size, arraySize). Every index is stored once: inside the
      chunks by the thread whose chunk holds it, beyond them by the tail. */
  method VAddChunks(x: array<int>, y: array<int>, z: array<int>, arraySize: nat, threads: nat)
    returns (ghost writer: seq<int>, ghost writes: seq<nat>)
    requires threads >= 1
    requires x.Length == arraySize && y.Length == arraySize && z.Length == arraySize
    requires z != x && z != y
    modifies z
    ensures forall i :: 0 <= i < arraySize ==> z[i] == x[i] + y[i]
    ensures |writer| == arraySize && |writes| == arraySize
    ensures forall i :: 0 <= i < arraySize ==> writes[i] == 1
    ensures forall i :: 0 <= i < arraySize ==>
              if i < threads * (arraySize / threads) then
                0 <= writer[i] < threads && InChunk(i, writer[i], arraySize / threads)
              else writer[i] == SerialTail
    ensures arraySize < threads ==> forall i :: 0 <= i < arraySize ==> writer[i] == SerialTail
  {
    ghost var chunk := arraySize / threads;
    writer := seq(arraySize, _ => Unstored);
    writes := seq(arraySize, _ => 0);
    var totalThread := 1;  // omp_get_num_threads() outside a parallel region
    var size := 1;
    for threadId := 0 to threads
      invariant threadId >= 1 ==> totalThread == threads && size == chunk
      invariant ChunksUpTo(x, y, z, writer, writes, threads, chunk, threadId * chunk)
    {
      totalThread := threads;
      size := arraySize / totalThread;
      writer, writes := VAddChunksThread(x, y, z, arraySize, totalThread, size, threadId, writer, writes);
    }
    // tail case
    ChunkLayout(arraySize, threads, 0);
    assert Partitioned(x, y, z, writer, writes, threads, chunk, threads * chunk, threads * chunk);
    for i := totalThread * size to arraySize
      invariant Partitioned(x, y, z, writer, writes, threads, chunk, threads * chunk, i)
    {
      z[i] := x[i] + y[i];
      writes := writes[i := writes[i] + 1];
      writer := writer[i := SerialTail];
    }
    PartitionComplete(x, y, z, writer, writes, threads, arraySize);
  }

  /** Once the tail has reached arraySize, the partition state gives every
      postcondition of VAddChunks. */
  lemma PartitionComplete(x: array<int>, y: array<int>, z: array<int>, writer: seq<int>, writes: seq<nat>,
                          threads: nat, arraySize: nat)
    requires threads >= 1 && z.Length == arraySize
    requires Partitioned(x, y, z, writer, writes, threads, arraySize / threads,
                         threads * (arraySize / threads), arraySize)
    ensures forall i :: 0 <= i < arraySize ==> z[i] == x[i] + y[i]
    ensures |writer| == arraySize && |writes| == arraySize
    ensures forall i :: 0 <= i < arraySize ==> writes[i] == 1
    ensures forall i :: 0 <= i < arraySize ==>
              if i < threads * (arraySize / threads) then
                0 <= writer[i] < threads && InChunk(i, writer[i], arraySize / threads)
              else writer[i] == SerialTail
    ensures arraySize < threads ==> forall i :: 0 <= i < arraySize ==> writer[i] == SerialTail
  {
    forall k | 0 <= k < arraySize
      ensures z[k] == x[k] + y[k] && writes[k] == 1
    {
      assert Stored(x, y, z, writes, k);
    }
    if arraySize < threads {
      Arith.DivModOf(threads, 0, arraySize);
      assert threads * (arraySize / threads) == 0;
    }
  }

  /** Left-to-right serial sum of xs[i] * ys[i] over lo <= i < hi. */
  function SumProd(xs: seq<int>, ys: seq<int>, lo: nat, hi: nat): (sum: int)
    requires lo <= hi <= |xs| && hi <= |ys|
    decreases hi - lo
  {
    if lo == hi then 0 else SumProd(xs, ys, lo, hi - 1) + xs[hi - 1] * ys[hi - 1]
  }

  /** A serial sum splits at any midpoint into the sums of its two halves. */
  lemma {:induction false} SumProdSplit(xs: seq<int>, ys: seq<int>, lo: nat, mid: nat, hi: nat)
    requires lo <= mid <= hi <= |xs| && hi <= |ys|
    ensures SumProd(xs, ys, lo, hi) == SumProd(xs, ys, lo, mid) + SumProd(xs, ys, mid, hi)
    decreases hi - mid
  {
    if mid < hi {
      SumProdSplit(xs, ys, lo, mid, hi - 1);
    }
  }

  /** The sum of the partial sums of chunks 0, ..., k - 1 of length `size`, in thread order. */
  function ChunkTotal(xs: seq<int>, ys: seq<int>, size: nat, k: nat): (total: int)
    requires k * size <= |xs| && k * size <= |ys|
  {
    if k == 0 then 0
    else
      assert (k - 1) * size <= k * size;
      ChunkTotal(xs, ys, size, k - 1) + SumProd(xs, ys, (k - 1) * size, k * size)
  }

  /** The first k chunk partial sums add up to the serial sum of the first k*size products. */
  lemma {:induction false} ChunkTotalIsPrefix(xs: seq<int>, ys: seq<int>, size: nat, k: nat)
    requires k * size <= |xs| && k * size <= |ys|
    ensures ChunkTotal(xs, ys, size, k) == SumProd(xs, ys, 0, k * size)
  {
    if k > 0 {
      assert (k - 1) * size <= k * size;
      ChunkTotalIsPrefix(xs, ys, size, k - 1);
      SumProdSplit(xs, ys, 0, (k - 1) * size, k * size);
    }
  }

  /** Chunks plus tail: with size = n / threads, the partial sums of the
      threads' chunks plus the serial tail over [threads*size, n) give the
      serial sum over [0, n). */
  lemma ChunksPlusTail(xs: seq<int>, ys: seq<int>, n: nat, threads: nat)
    requires threads >= 1 && n <= |xs| && n <= |ys|
    ensures threads * (n / threads) <= n
    ensures ChunkTotal(xs, ys, n / threads, threads) + SumProd(xs, ys, threads * (n / threads), n)
            == SumProd(xs, ys, 0, n)
  {
    ChunkLayout(n, threads, 0);
    ChunkTotalIsPrefix(xs, ys, n / threads, threads);
    SumProdSplit(xs, ys, 0, threads * (n / threads), n);
  }

  /** The critical-section update of dotp_manual_optimized, which skips a zero
      partial sum: skipping it never changes the global sum. */
  function AddPartial(globalSum: int, sum: int): (r: int)
    ensures r == globalSum + sum
  {
    if sum != 0 then globalSum + sum else globalSum
  }

  /** dotp_naive: each product is added to the shared sum in its own critical
      section; run by one thread at a time it is the serial left-to-right sum,
      the reference every strategy is checked against. */
  method DotpNaive(x: array<int>, y: array<int>, arrSize: nat) returns (globalSum: int)
    requires x.Length == arrSize && y.Length == arrSize
    ensures globalSum == SumProd(x[..], y[..], 0, arrSize)
  {
    globalSum := 0;
    for i := 0 to arrSize
      invariant globalSum == SumProd(x[..], y[..], 0, i)
    {
      globalSum := globalSum + x[i] * y[i];
    }
  }

  /** What thread `threadId` runs inside the parallel region of
      dotp_manual_optimized: its private partial sum over its own chunk. The
      shared `for` hands its iterations i = 0, size, ..., (threads - 1) * size
      out one per thread (static schedule), so this thread gets
      i = threadId * size; with size == 0 the loop has no iterations. */
  method DotpThreadSum(x: array<int>, y: array<int>, arrSize: nat, threads: nat, size: nat, threadId: nat)
    returns (sum: int)
    requires threadId < threads && size == arrSize / threads
    requires x.Length == arrSize && y.Length == arrSize
    ensures (threadId + 1) * size <= arrSize
    ensures sum == SumProd(x[..], y[..], threadId * size, (threadId + 1) * size)
  {
    ChunkLayout(arrSize, threads, threadId);
    sum := 0;
    var i := threadId * size;
    if i < threads * size {
      for j := i to i + size
        invariant sum == SumProd(x[..], y[..], i, j)
      {
        sum := sum + x[j] * y[j];
      }
    }
  }

  /** dotp_manual_optimized: every thread sums the products of its own chunk of
      size arrSize / threads privately and adds that partial sum to the global
      sum once; the serial tail adds the products beyond threads * size. The
      result is the serial sum, and no index at or past arrSize is read. */
  method DotpManualOptimized(x: array<int>, y: array<int>, arrSize: nat, threads: nat)
    returns (globalSum: int)
    requires threads >= 1
    requires x.Length == arrSize && y.Length == arrSize
    ensures globalSum == SumProd(x[..], y[..], 0, arrSize)
  {
    ghost var chunk := arrSize / threads;
    ChunkLayout(arrSize, threads, 0);
    globalSum := 0;
    var totalThread := 1;
    var size := 1;
    for threadId := 0 to threads
      invariant threadId >= 1 ==> totalThread == threads && size == chunk
      invariant globalSum == ChunkTotal(x[..], y[..], chunk, threadId)
    {
      totalThread := threads;
      size := arrSize / totalThread;
      var sum := DotpThreadSum(x, y, arrSize, totalThread, size, threadId);
      globalSum := AddPartial(globalSum, sum);
    }
    // tail case
    for i := totalThread * size to arrSize
      invariant globalSum == ChunkTotal(x[..], y[..], chunk, threads) + SumProd(x[..], y[..], threads * chunk, i)
    {
      globalSum := globalSum + x[i] * y[i];
    }
    ChunksPlusTail(x[..], y[..], arrSize, threads);
  }
}
