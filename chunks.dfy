/**
 * The work partition of the parallel `Search` family of Vector and NVector.
 *
 * The Go code asks the runtime for its parallelism P (`runtime.GOMAXPROCS(0)`,
 * always at least 1), falls back to a single worker when the container holds
 * fewer than P * ChunkMultiplier elements, and gives worker `ii` the index range
 * [chunk_size * ii, chunk_size * ii + chunk_size), the last worker also taking
 * the remainder `size % chunks`. Here P and ChunkMultiplier are parameters, the
 * arithmetic is a set of functions, and the lemmas show that the ranges cover
 * [0, size) exactly once.
 */
module Chunks {

  /** The initial value of Go's package-level tunable `ChunkMultiplier`. */
  const DefaultChunkMultiplier: int := 4

  /** The bounds of Go's 64-bit `int`. */
  const IntMin: int := -0x8000_0000_0000_0000
  const IntMax: int := 0x7fff_ffff_ffff_ffff

  /**
   * Go's `int` arithmetic: the mathematical result wrapped around modulo 2^64
   * into [IntMin, IntMax].
   */
  function WrapInt(x: int): (r: int)
    ensures IntMin <= r <= IntMax
    ensures (x - r) % 0x1_0000_0000_0000_0000 == 0
    ensures IntMin <= x <= IntMax ==> r == x
  {
    var m := x % 0x1_0000_0000_0000_0000;
    if m > IntMax then m - 0x1_0000_0000_0000_0000 else m
  }

  /**
   * The number of workers (`chunks` in the Go code). The threshold
   * `chunks*ChunkMultiplier` is a Go `int` product, so it wraps around.
   */
  function NumChunks(size: nat, procs: nat, multiplier: int): (chunks: nat)
    requires procs >= 1
    ensures 1 <= chunks <= procs
    ensures size < WrapInt(procs * multiplier) ==> chunks == 1
    ensures size >= WrapInt(procs * multiplier) ==> chunks == procs
  {
    if size < WrapInt(procs * multiplier) then 1 else procs
  }

  /** While the product fits in an `int`, the threshold is the plain product. */
  lemma NumChunksWithoutOverflow(size: nat, procs: nat, multiplier: int)
    requires procs >= 1 && IntMin <= procs * multiplier <= IntMax
    ensures NumChunks(size, procs, multiplier) == if size < procs * multiplier then 1 else procs
  {
  }

  /**
   * A huge multiplier makes the product wrap to a small threshold, so a small
   * container is split among all the processors instead of scanned by one.
   */
  lemma NumChunksWrapsAround()
    ensures NumChunks(5, 2, 0x8000_0000_0000_0000) == 2
  {
    assert WrapInt(2 * 0x8000_0000_0000_0000) == 0;
  }

  /** The first index scanned by worker `ii`. */
  function ChunkStart(size: nat, chunks: nat, ii: nat): nat
    requires chunks >= 1
  {
    (size / chunks) * ii
  }

  /** One past the last index scanned by worker `ii`; the last worker absorbs the remainder. */
  function ChunkEnd(size: nat, chunks: nat, ii: nat): nat
    requires chunks >= 1
  {
    ChunkStart(size, chunks, ii) + size / chunks + (if ii == chunks - 1 then size % chunks else 0)
  }

  /** The worker whose range holds index `j`. */
  function ChunkOf(size: nat, chunks: nat, j: nat): (ii: nat)
    requires chunks >= 1 && j < size
    ensures ii < chunks
  {
    var chunkSize := size / chunks;
    if chunkSize == 0 then chunks - 1
    else if j / chunkSize < chunks - 1 then j / chunkSize
    else chunks - 1
  }

  lemma MulMonotonic(c: nat, a: nat, b: nat)
    requires a <= b
    ensures c * a <= c * b
  {
    assert c * b == c * a + c * (b - a);
  }

  /**
   * The ranges of consecutive workers touch, the first starts at 0 and the last
   * ends at `size`: together they tile [0, size).
   */
  lemma {:induction false} ChunksTile(size: nat, chunks: nat, ii: nat)
    requires chunks >= 1 && ii < chunks
    ensures ChunkStart(size, chunks, 0) == 0
    ensures ChunkStart(size, chunks, ii) <= ChunkEnd(size, chunks, ii)
    ensures ii < chunks - 1 ==> ChunkEnd(size, chunks, ii) == ChunkStart(size, chunks, ii + 1)
    ensures ChunkEnd(size, chunks, chunks - 1) == size
  {
    var cs := size / chunks;
    assert size == cs * chunks + size % chunks;
    assert cs * (ii + 1) == cs * ii + cs;
    assert cs * (chunks - 1) + cs == cs * chunks;
  }

  /** `cs * a` is at most `j` exactly when `a` is at most the quotient `j / cs`. */
  lemma QuotientLower(j: nat, cs: nat, a: nat)
    requires cs >= 1
    ensures cs * a <= j <==> a <= j / cs
  {
    var q := j / cs;
    assert j == cs * q + j % cs;
    if a <= q {
      MulMonotonic(cs, a, q);
    } else {
      MulMonotonic(cs, q + 1, a);
      assert cs * (q + 1) == cs * q + cs;
    }
  }

  /** The only multiple-of-`cs` window holding `j` is the one of its quotient. */
  lemma QuotientUnique(j: nat, cs: nat, a: nat)
    requires cs >= 1
    ensures cs * a <= j < cs * a + cs <==> a == j / cs
  {
    QuotientLower(j, cs, a);
    QuotientLower(j, cs, a + 1);
    assert cs * (a + 1) == cs * a + cs;
  }

  /** Index `j` lies in the range of worker `ii` exactly when `ii` is ChunkOf(j). */
  lemma ChunksPartition(size: nat, chunks: nat, j: nat, ii: nat)
    requires chunks >= 1 && j < size && ii < chunks
    ensures ChunkStart(size, chunks, ii) <= j < ChunkEnd(size, chunks, ii)
            <==> ii == ChunkOf(size, chunks, j)
  {
    var cs := size / chunks;
    var last := chunks - 1;
    ChunksTile(size, chunks, ii);
    if cs == 0 {
      assert ChunkStart(size, chunks, ii) == 0;
    } else if ii < last {
      QuotientUnique(j, cs, ii);
    } else {
      QuotientLower(j, cs, last);
    }
  }

  /**
   * `p` is a hit and no earlier index of its own worker's range is: the index a
   * worker publishes when its scan is not cut short.
   */
  ghost predicate FirstHitOfChunk(hits: seq<bool>, chunks: nat, p: int)
    requires chunks >= 1
  {
    && 0 <= p < |hits|
    && hits[p]
    && NoHit(hits, ChunkStart(|hits|, chunks, ChunkOf(|hits|, chunks, p)), p)
  }

  /**
   * The body of worker `ii`: scan its range from the front and stop at the first
   * hit, which it publishes; -1 when it publishes nothing. After each miss the
   * worker reads the shared `found` flag and gives up once another worker has
   * published; whether that publication is already visible at a given miss is
   * up to the scheduler, so here the worker may or may not stop there.
   */
  method ScanChunk(hits: seq<bool>, chunks: nat, ii: nat, foundSoFar: bool) returns (hit: int)
    requires 1 <= chunks && ii < chunks
    ensures hit == -1 && !foundSoFar ==>
              NoHit(hits, ChunkStart(|hits|, chunks, ii), ChunkEnd(|hits|, chunks, ii))
    ensures hit != -1 ==> FirstHitOfChunk(hits, chunks, hit) && ChunkOf(|hits|, chunks, hit) == ii
  {
    var size := |hits|;
    ChunksTile(size, chunks, ii);
    var lo := ChunkStart(size, chunks, ii);
    var hi := ChunkEnd(size, chunks, ii);
    var index := lo;
    while index < hi
      invariant lo <= index <= hi
      invariant NoHit(hits, lo, index)
    {
      if hits[index] {
        ChunksPartition(size, chunks, index, ii);
        return index;
      }
      var seen: bool :| true;
      if foundSoFar && seen {
        return -1;
      }
      index := index + 1;
    }
    hit := -1;
  }

  /** No index of [lo, hi) that lies in `hits` is a hit. */
  ghost predicate NoHit(hits: seq<bool>, lo: int, hi: int) {
    forall j :: lo <= j < hi && 0 <= j < |hits| ==> !hits[j]
  }

  /** The indices below the start of worker `ii`, or all of them once every worker ran. */
  function Covered(size: nat, chunks: nat, ii: nat): nat
    requires 1 <= chunks && ii <= chunks
  {
    if ii == chunks then size else ChunkStart(size, chunks, ii)
  }

  /**
   * The parallel scan of `Search`/`RefSearch`/`SearchRef`/`RefSearchRef` over the
   * outcomes `hits` of comparing each element with the query.
   *
   * Each worker scans its own range up to its first hit and publishes it. The
   * workers run concurrently, a worker that sees the shared flag already set
   * stops early, and the result is whatever the last publisher under the lock
   * wrote: here the workers run one after the other (see ScanChunk for the
   * early stop) and the result is chosen nondeterministically among the
   * published hits. The found flag is exact, the
   * index is always the first hit of some worker's range, and with a single
   * worker it is the first hit overall.
   */
  method ChunkedScan(hits: seq<bool>, procs: nat, multiplier: int) returns (found: bool, index: int)
    requires procs >= 1
    ensures found <==> exists j :: 0 <= j < |hits| && hits[j]
    ensures !found ==> index == -1
    ensures found ==> FirstHitOfChunk(hits, NumChunks(|hits|, procs, multiplier), index)
    ensures found && NumChunks(|hits|, procs, multiplier) == 1 ==>
              forall j :: 0 <= j < index ==> !hits[j]
  {
    found, index := false, -1;
    if |hits| == 0 {
      return;
    }
    var size := |hits|;
    var chunks := NumChunks(size, procs, multiplier);
    var published: seq<int> := [];
    for ii := 0 to chunks
      invariant forall p :: p in published ==> FirstHitOfChunk(hits, chunks, p)
      invariant published == [] ==> NoHit(hits, 0, Covered(size, chunks, ii))
    {
      ChunksTile(size, chunks, ii);
      var hit := ScanChunk(hits, chunks, ii, published != []);
      if hit != -1 {
        published := published + [hit];
      }
    }
    if published != [] {
      found := true;
      var k :| 0 <= k < |published|;
      index := published[k];
      assert index in published;
      assert FirstHitOfChunk(hits, chunks, index);
      if chunks == 1 {
        assert ChunkOf(size, chunks, index) == 0;
        ChunksTile(size, chunks, 0);
      }
    }
  }
}
