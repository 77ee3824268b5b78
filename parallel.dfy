/** The work-splitting arithmetic of the thread pool in dyng/parallel.h.
    The threads, the barrier and the job hand-over are not modelled; the pool
    is reduced to how many workers it has, which is all that get_chunk and
    for_each_interleaved depend on. */
module Parallel {
  import opened Wrappers
  import opened Arithmetic

  /** A pool with `threads` worker threads besides the calling one. */
  datatype Pool = Pool(threads: nat) {

    /** count(): the calling thread plus the workers. */
    function Count(): (c: nat)
      ensures c == threads + 1 && c >= 1
    {
      threads + 1
    }
  }

  /** parallel(count): invalid_argument for zero threads, otherwise a pool
      whose count() is the requested number. */
  function NewPool(count: nat): (r: Result<Pool>)
    ensures r.Err? <==> count == 0
    ensures r.Err? ==> r.error == InvalidArgument
    ensures r.Ok? ==> r.value.Count() == count
  {
    if count == 0 then Err(InvalidArgument) else Ok(Pool(count - 1))
  }

  function Min(a: nat, b: nat): nat
  {
    if a <= b then a else b
  }

  /** Ceiling of a / b: the least c with c * b >= a. */
  function CeilDiv(a: nat, b: nat): (c: nat)
    requires b > 0
    ensures c * b >= a
    ensures c > 0 ==> (c - 1) * b < a
  {
    (a + b - 1) / b
  }

  /** The chunk size: the tasks spread as evenly as possible over count() threads. */
  function ChunkSize(p: Pool, size: nat): nat
  {
    CeilDiv(size, p.Count())
  }

  /** The chunk of a thread: [min(t * c, size), min((t + 1) * c, size)). */
  function Chunk(p: Pool, thread: nat, size: nat): (nat, nat)
  {
    var c := ChunkSize(p, size);
    (Min(thread * c, size), Min((thread + 1) * c, size))
  }

  /** get_chunk: walks the chunks of the threads before `thread`, each clipped
      to the end of the range. The loop always returns on its last pass, so
      the fallback after it is unreachable and not modelled. */
  method GetChunk(p: Pool, thread: nat, size: nat) returns (begin: nat, end: nat)
    ensures (begin, end) == Chunk(p, thread, size)
  {
    var chunk := CeilDiv(size, p.Count());
    var start := 0;
    var i := 0;
    while i < thread
      invariant i <= thread
      invariant start == Min(i * chunk, size)
    {
      var count := chunk;
      if start + count > size {
        count := size - start;
      }
      start := start + count;
      assert (i + 1) * chunk == i * chunk + chunk;
      i := i + 1;
    }
    var count := chunk;
    if start + count > size {
      count := size - start;
    }
    assert (i + 1) * chunk == i * chunk + chunk;
    return start, start + count;
  }

  /** Every chunk lies within the range, and the first one starts at 0. */
  lemma ChunkBounds(p: Pool, thread: nat, size: nat)
    ensures Chunk(p, thread, size).0 <= Chunk(p, thread, size).1 <= size
    ensures Chunk(p, 0, size).0 == 0
  {
    var c := ChunkSize(p, size);
    assert thread * c <= (thread + 1) * c;
  }

  /** Each chunk ends where the next begins, and the chunk of the last
      thread ends at the end of the range. */
  lemma ChunksAdjacent(p: Pool, thread: nat, size: nat)
    ensures Chunk(p, thread, size).1 == Chunk(p, thread + 1, size).0
    ensures Chunk(p, p.Count() - 1, size).1 == size
  {
    var c := ChunkSize(p, size);
    assert (p.Count() - 1 + 1) * c == p.Count() * c;
  }

  /** The chunks tile [0, size): every index belongs to exactly one thread's
      chunk, namely that of thread k / c. */
  lemma ChunksTile(p: Pool, size: nat, k: nat)
    requires k < size
    ensures 0 < ChunkSize(p, size)
    ensures k / ChunkSize(p, size) < p.Count()
    ensures Chunk(p, k / ChunkSize(p, size), size).0 <= k < Chunk(p, k / ChunkSize(p, size), size).1
    ensures forall t: nat :: Chunk(p, t, size).0 <= k < Chunk(p, t, size).1 ==> t == k / ChunkSize(p, size)
  {
    var c := ChunkSize(p, size);
    var t := k / c;
    assert k == c * t + k % c;
    assert (t + 1) * c == t * c + c;
    if t >= p.Count() {
      MulAtLeastOne(c, t - p.Count() + 1);
      assert false;
    }
    forall u: nat | Chunk(p, u, size).0 <= k < Chunk(p, u, size).1 ensures u == t {
      assert (u + 1) * c == u * c + c;
      DivModUnique(k, c, u, k - u * c);
    }
  }

  /** The indices a worker of for_each_interleaved owns: begin, begin + step, ... below n. */
  function Owned(begin: nat, step: nat, n: nat): set<nat>
    requires step > 0
  {
    set j | 0 <= j < n && j % step == begin
  }

  /** for_each_interleaved hands job i the pair (i, count()). */
  function InterleavedJobs(p: Pool): (jobs: seq<(nat, nat)>)
    ensures |jobs| == p.Count()
    ensures forall i :: 0 <= i < |jobs| ==> jobs[i] == (i, p.Count())
  {
    seq(p.Count(), i => (i, p.Count()))
  }

  /** The jobs' index sets partition [0, n): index j is owned by job j % count()
      and by no other. */
  lemma InterleavedPartition(p: Pool, n: nat, j: nat)
    requires j < n
    ensures j % p.Count() < p.Count()
    ensures j in Owned(InterleavedJobs(p)[j % p.Count()].0, p.Count(), n)
    ensures forall i :: 0 <= i < p.Count() && j in Owned(InterleavedJobs(p)[i].0, p.Count(), n) ==> i == j % p.Count()
  {
  }

  /** The worker loop `for (i = begin; i < n; i += step)`: it visits exactly
      the indices the worker owns, in increasing order. */
  method WorkerIndices(begin: nat, step: nat, n: nat) returns (visited: seq<nat>)
    requires begin < step
    ensures forall j :: j in visited <==> j in Owned(begin, step, n)
    ensures forall a, b :: 0 <= a < b < |visited| ==> visited[a] < visited[b]
  {
    visited := [];
    var i := begin;
    DivModUnique(begin, step, 0, begin);
    forall j: nat | j < begin ensures j % step != begin {
      DivModUnique(j, step, 0, j);
    }
    while i < n
      invariant i % step == begin
      invariant forall j: nat :: j in visited <==> j < i && j < n && j % step == begin
      invariant forall a :: 0 <= a < |visited| ==> visited[a] < i
      invariant forall a, b :: 0 <= a < b < |visited| ==> visited[a] < visited[b]
    {
      NextOwned(i, step, begin);
      visited := visited + [i];
      i := i + step;
    }
  }

  /** Between two consecutive owned indices there is none. */
  lemma NextOwned(i: nat, step: nat, begin: nat)
    requires begin < step && i % step == begin
    ensures (i + step) % step == begin
    ensures forall j :: i < j < i + step ==> j % step != begin
  {
    var q := i / step;
    assert i == step * q + begin;
    DivModUnique(i + step, step, q + 1, begin);
    forall j | i < j < i + step ensures j % step != begin {
      if begin + (j - i) < step {
        DivModUnique(j, step, q, begin + (j - i));
      } else {
        DivModUnique(j, step, q + 1, begin + (j - i) - step);
      }
    }
  }
}
