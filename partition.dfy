/**
 How `main` splits the list of books among the worker threads: with
 `bpt = ceil(total / numThreads)` books per thread, thread `i` gets the books
 `[i * bpt, min((i + 1) * bpt, total))`, the loop stopping at the first empty
 slice, and the `j`-th book of a slice gets the id `start + j`.
 */
module Partition {

  import opened Wrappers
  import opened Seqs

  type Positive = n: nat | n >= 1 witness 1

  /** The half-open range of book indexes `[start, end)` one worker gets. */
  datatype Slice = Slice(start: nat, end: nat) {
    function Length(): nat { if start <= end then end - start else 0 }
  }

  function Min(a: nat, b: nat): nat {
    if a <= b then a else b
  }

  /** `std::max(1u, std::thread::hardware_concurrency())`: the hardware
      reports 0 when it cannot tell. */
  function ThreadCount(hardware: nat): (n: Positive)
    ensures hardware >= 1 ==> n == hardware
    ensures hardware == 0 ==> n == 1
  {
    if hardware >= 1 then hardware else 1
  }

  /** `available_parallelism().map(|n| n.get()).unwrap_or(4)`: the count, if
      the platform could tell it, is non-zero by its type. */
  function RustThreadCount(available: Option<Positive>): (n: Positive)
    ensures available.Some? ==> n == available.value
    ensures available.None? ==> n == 4
  {
    available.UnwrapOr(4)
  }

  /** `(total + numThreads - 1) / numThreads`: the ceiling of the quotient,
      that is, the least number of books per thread that lets `numThreads`
      threads take all `total` books. */
  function BooksPerThread(total: nat, numThreads: Positive): (bpt: nat)
    ensures bpt * numThreads >= total
    ensures bpt > 0 ==> (bpt - 1) * numThreads < total
    ensures bpt == 0 <==> total == 0
  {
    (total + numThreads - 1) / numThreads
  }

  /** The same division where the thread count is taken unguarded from the
      hardware, as the oldest program does: a count of 0 is a division by
      zero, which has no result (`None`). */
  function BooksPerThreadUnguarded(total: nat, hardware: nat): (r: Option<nat>)
    ensures hardware == 0 <==> r.None?
    ensures hardware >= 1 ==> r == Some(BooksPerThread(total, hardware))
  {
    if hardware == 0 then None else Some((total + hardware - 1) / hardware)
  }

  /** The oldest program divides by zero on a machine whose concurrency is
      unknown, whatever books it is given. */
  lemma UnguardedDividesByZero(total: nat)
    ensures BooksPerThreadUnguarded(total, 0).None?
  {
  }

  /** With the `max(1u, ...)` guard of the later programs the division is
      always defined and yields the ceiling. */
  lemma GuardedDivisionDefined(total: nat, hardware: nat)
    ensures BooksPerThreadUnguarded(total, ThreadCount(hardware)) == Some(BooksPerThread(total, ThreadCount(hardware)))
    ensures BooksPerThread(total, ThreadCount(hardware)) * ThreadCount(hardware) >= total
  {
  }

  /** The slice the formula of `main` gives thread `i`. */
  function SliceAt(i: nat, bpt: nat, total: nat): Slice {
    Slice(i * bpt, Min(i * bpt + bpt, total))
  }

  /** The slices are non-empty, lie end to end from 0 to `total`, and there
      are none when there are no books. */
  ghost predicate Tiles(slices: seq<Slice>, total: nat) {
    && (slices == [] <==> total == 0)
    && (slices != [] ==> slices[0].start == 0 && slices[|slices| - 1].end == total)
    && (forall k :: 0 <= k < |slices| ==> slices[k].start < slices[k].end)
    && (forall k :: 0 <= k < |slices| - 1 ==> slices[k].end == slices[k + 1].start)
  }

  /** The first `i` slices of the launching loop: the formula's slices for
      threads `0 .. i-1`, each non-empty, end to end from 0. */
  ghost predicate Launched(slices: seq<Slice>, i: nat, bpt: nat, total: nat) {
    && |slices| == i
    && (forall k :: 0 <= k < i ==> slices[k] == SliceAt(k, bpt, total) && slices[k].start < slices[k].end)
    && (forall k :: 0 <= k < i - 1 ==> slices[k].end == slices[k + 1].start)
    && (i > 0 ==> slices[0].start == 0 && slices[i - 1].end == Min(i * bpt, total))
  }

  /** One more thread gets a non-empty slice. */
  lemma LaunchStep(slices: seq<Slice>, i: nat, bpt: nat, total: nat)
    requires Launched(slices, i, bpt, total)
    requires i * bpt < Min(i * bpt + bpt, total)
    ensures Launched(slices + [SliceAt(i, bpt, total)], i + 1, bpt, total)
  {
    var s := SliceAt(i, bpt, total);
    var next := slices + [s];
    assert i * bpt + bpt == (i + 1) * bpt;
    assert s.end == Min((i + 1) * bpt, total);
    assert forall k :: 0 <= k < i ==> next[k] == slices[k];
    assert i > 0 ==> next[i - 1].end == s.start by {
      assert i * bpt <= total;
    }
  }

  /** Whether the loop ran out of threads or met the first empty slice, the
      slices launched so far tile the books. */
  lemma LaunchDone(slices: seq<Slice>, i: nat, numThreads: Positive, total: nat)
    requires Launched(slices, i, BooksPerThread(total, numThreads), total)
    requires var bpt := BooksPerThread(total, numThreads);
             i == numThreads || i * bpt >= Min(i * bpt + bpt, total)
    ensures Tiles(slices, total)
  {
    var bpt := BooksPerThread(total, numThreads);
    if i == numThreads {
      assert numThreads * bpt >= total;
    }
  }

  /** The thread-launching loop of `main`: one slice per thread, stopping at
      the first empty one. */
  method Partition(total: nat, numThreads: Positive) returns (slices: seq<Slice>)
    ensures Tiles(slices, total)
    ensures |slices| <= numThreads
    ensures forall k :: 0 <= k < |slices| ==> slices[k] == SliceAt(k, BooksPerThread(total, numThreads), total)
    ensures forall k :: 0 <= k < |slices| ==> slices[k].Length() <= BooksPerThread(total, numThreads)
  {
    var bpt := BooksPerThread(total, numThreads);
    slices := [];
    var i := 0;
    while i < numThreads
      invariant 0 <= i <= numThreads
      invariant Launched(slices, i, bpt, total)
    {
      var startIdx := i * bpt;
      var endIdx := Min(startIdx + bpt, total);
      if startIdx >= endIdx {
        break;
      }
      LaunchStep(slices, i, bpt, total);
      slices := slices + [Slice(startIdx, endIdx)];
      i := i + 1;
    }
    LaunchDone(slices, i, numThreads, total);
  }

  // ---------------------------------------------------------------------
  // What a tiling guarantees

  /** Every book lies in exactly one slice. */
  lemma {:induction false} TilesCover(slices: seq<Slice>, total: nat, b: nat)
    requires Tiles(slices, total)
    requires b < total
    ensures exists k :: 0 <= k < |slices| && slices[k].start <= b < slices[k].end
    decreases |slices|
  {
    var n := |slices|;
    if b >= slices[n - 1].start {
      assert slices[n - 1].start <= b < slices[n - 1].end;
    } else {
      var init := slices[..n - 1];
      assert Tiles(init, slices[n - 1].start);
      TilesCover(init, slices[n - 1].start, b);
      var k :| 0 <= k < |init| && init[k].start <= b < init[k].end;
      assert slices[k] == init[k];
    }
  }

  /** Slices are ordered: a later slice starts where or after an earlier one
      ends. */
  lemma {:induction false} TilesOrdered(slices: seq<Slice>, total: nat, j: nat, k: nat)
    requires Tiles(slices, total)
    requires j < k < |slices|
    ensures slices[j].end <= slices[k].start
    decreases k - j
  {
    if j + 1 < k {
      TilesOrdered(slices, total, j + 1, k);
    }
  }

  lemma TilesDisjoint(slices: seq<Slice>, total: nat, j: nat, k: nat, b: nat)
    requires Tiles(slices, total)
    requires j < |slices| && k < |slices|
    requires slices[j].start <= b < slices[j].end && slices[k].start <= b < slices[k].end
    ensures j == k
  {
    if j < k {
      TilesOrdered(slices, total, j, k);
    } else if k < j {
      TilesOrdered(slices, total, k, j);
    }
  }

  lemma {:induction false} TilesBounded(slices: seq<Slice>, total: nat, k: nat)
    requires Tiles(slices, total)
    requires k < |slices|
    ensures slices[k].end <= total
  {
    if k < |slices| - 1 {
      TilesOrdered(slices, total, k, |slices| - 1);
    }
  }

  /** The id of the `j`-th book of a slice: `startBookId + i`. */
  function BookId(s: Slice, j: nat): nat {
    s.start + j
  }

  /** Book ids are in `[0, total)` and no two books of any two workers share
      one. */
  lemma BookIdsDistinct(slices: seq<Slice>, total: nat, k1: nat, j1: nat, k2: nat, j2: nat)
    requires Tiles(slices, total)
    requires k1 < |slices| && j1 < slices[k1].Length()
    requires k2 < |slices| && j2 < slices[k2].Length()
    ensures BookId(slices[k1], j1) < total
    ensures BookId(slices[k1], j1) == BookId(slices[k2], j2) <==> k1 == k2 && j1 == j2
  {
    TilesBounded(slices, total, k1);
    if BookId(slices[k1], j1) == BookId(slices[k2], j2) {
      TilesDisjoint(slices, total, k1, k2, BookId(slices[k1], j1));
    }
  }

  /** The books of each slice, in order: what each worker is handed. */
  function Pieces<T>(items: seq<T>, slices: seq<Slice>): seq<seq<T>>
    requires forall k :: 0 <= k < |slices| ==> slices[k].start <= slices[k].end <= |items|
  {
    seq(|slices|, k requires 0 <= k < |slices| => items[slices[k].start..slices[k].end])
  }

  lemma TilesInRange(slices: seq<Slice>, total: nat)
    requires Tiles(slices, total)
    ensures forall k :: 0 <= k < |slices| ==> slices[k].start <= slices[k].end <= total
  {
    forall k | 0 <= k < |slices|
      ensures slices[k].end <= total
    {
      TilesBounded(slices, total, k);
    }
  }

  /** Handed out slice by slice, the books are all the books, in order, each
      once. */
  lemma {:induction false} PiecesFlatten<T>(items: seq<T>, slices: seq<Slice>)
    requires Tiles(slices, |items|)
    ensures forall k :: 0 <= k < |slices| ==> slices[k].start <= slices[k].end <= |items|
    ensures Flatten(Pieces(items, slices)) == items
    decreases |slices|
  {
    TilesInRange(slices, |items|);
    if slices != [] {
      var n := |slices|;
      var last := slices[n - 1];
      var init, prefix := slices[..n - 1], items[..last.start];
      TilesInit(slices, |items|);
      PiecesFlatten(prefix, init);
      PiecesInit(items, slices);
      assert items == prefix + items[last.start..last.end];
    }
  }

  lemma TilesInit(slices: seq<Slice>, total: nat)
    requires Tiles(slices, total) && slices != []
    ensures Tiles(slices[..|slices| - 1], slices[|slices| - 1].start)
  {
    var n := |slices|;
    var init := slices[..n - 1];
    assert forall k :: 0 <= k < |init| ==> init[k] == slices[k];
    if n > 1 {
      assert slices[n - 2].end == slices[n - 1].start;
    }
  }

  lemma PiecesInit<T>(items: seq<T>, slices: seq<Slice>)
    requires Tiles(slices, |items|) && slices != []
    requires forall k :: 0 <= k < |slices| ==> slices[k].start <= slices[k].end <= |items|
    ensures var n := |slices|;
            var init := slices[..n - 1];
            && (forall k :: 0 <= k < |init| ==> init[k].start <= init[k].end <= slices[n - 1].start)
            && Pieces(items, slices)[..n - 1] == Pieces(items[..slices[n - 1].start], init)
  {
    var n := |slices|;
    var init, prefix := slices[..n - 1], items[..slices[n - 1].start];
    forall k | 0 <= k < n - 1
      ensures init[k].end <= slices[n - 1].start
    {
      TilesOrdered(slices, |items|, k, n - 1);
    }
    forall k | 0 <= k < n - 1
      ensures Pieces(items, slices)[k] == Pieces(prefix, init)[k]
    {
      assert prefix[init[k].start..init[k].end] == items[slices[k].start..slices[k].end];
    }
  }
}
