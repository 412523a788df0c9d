/**
 What each program's `main` does once the list of books is known: choose a
 thread count, cut the books into slices, let one worker index each slice
 into its own dictionary, fold the worker dictionaries into a fresh final
 dictionary and prune it once. The threads are sequentialised: every worker
 is run to completion before the fold starts, which is what the joins
 guarantee.
 */
module Coordinator {

  import opened Wrappers
  import opened Seqs
  import opened Entries
  import opened Tokenizer
  import opened Partition
  import opened Ingestion
  import FlatDictionary
  import Sharded
  import RustDictionary

  /** Why a `main` gives up before indexing (with exit status 1). */
  datatype ConfigError = ZeroShards | NoBooks

  datatype Outcome = Failure(error: ConfigError) | Success(index: Dict)

  // ---------------------------------------------------------------------
  // What the workers compute

  ghost predicate InBounds(slices: seq<Slice>, total: nat) {
    forall k :: 0 <= k < |slices| ==> slices[k].start <= slices[k].end <= total
  }

  /** The occurrences worker `k` inserts: the words of its books, the `j`-th
      book of slice `k` numbered `slices[k].start + j`. */
  function WorkerOccurrences(books: seq<Book>, slices: seq<Slice>, split: string -> seq<string>): seq<seq<Occurrence>>
    requires InBounds(slices, |books|)
  {
    seq(|slices|, k requires 0 <= k < |slices| => Occurrences(books[slices[k].start..slices[k].end], slices[k].start, split))
  }

  /** One fresh dictionary per sequence of occurrences, each filled with it. */
  function Indexes(occs: seq<seq<Occurrence>>): seq<Dict> {
    seq(|occs|, k requires 0 <= k < |occs| => InsertAll(map[], occs[k]))
  }

  /** A fresh dictionary filled with the words of one slice. */
  function SliceIndex(books: seq<Book>, s: Slice, split: string -> seq<string>): Dict
    requires s.start <= s.end <= |books|
  {
    InsertAll(map[], Occurrences(books[s.start..s.end], s.start, split))
  }

  /** The per-thread dictionaries once every worker has finished: thread `k`
      holds its slice's words, a thread with no slice an empty dictionary. */
  function WorkerResults(books: seq<Book>, slices: seq<Slice>, numThreads: nat, split: string -> seq<string>): seq<Dict>
    requires InBounds(slices, |books|)
  {
    seq(numThreads, k requires 0 <= k < numThreads =>
      if k < |slices| then SliceIndex(books, slices[k], split)
      else map[])
  }

  /** Read slice after slice, the workers' occurrences are exactly those of
      the whole collection, in order and with the same book ids. */
  lemma {:induction false} WorkersCoverOccurrences(books: seq<Book>, slices: seq<Slice>, split: string -> seq<string>)
    requires Tiles(slices, |books|)
    ensures InBounds(slices, |books|)
    ensures Flatten(WorkerOccurrences(books, slices, split)) == Occurrences(books, 0, split)
    decreases |slices|
  {
    TilesInRange(slices, |books|);
    if slices == [] {
      assert PerBook(books, 0, split) == [];
    } else {
      var n := |slices|;
      var last := slices[n - 1];
      var prefix, rest := books[..last.start], books[last.start..last.end];
      var front := WorkersInit(books, slices, split);
      assert Flatten(front) == Occurrences(prefix, 0, split) by {
        TilesInit(slices, |books|);
        WorkersCoverOccurrences(prefix, slices[..n - 1], split);
      }
      assert books == prefix + rest by {
        assert last.end == |books|;
      }
      JoinLast(prefix, rest, front, last.start, split);
    }
  }

  lemma JoinLast(prefix: seq<Book>, rest: seq<Book>, front: seq<seq<Occurrence>>, start: nat, split: string -> seq<string>)
    requires |prefix| == start
    requires Flatten(front) == Occurrences(prefix, 0, split)
    ensures Flatten(front + [Occurrences(rest, start, split)]) == Occurrences(prefix + rest, 0, split)
  {
    FlattenSnoc(front, Occurrences(rest, start, split));
    OccurrencesAppend(prefix, rest, 0, split);
  }

  /** Workers handed the same books with the same first ids do the same
      work. */
  lemma SameWork(a: seq<Book>, b: seq<Book>, slices: seq<Slice>, split: string -> seq<string>)
    requires InBounds(slices, |a|) && InBounds(slices, |b|)
    requires Pieces(a, slices) == Pieces(b, slices)
    ensures WorkerOccurrences(a, slices, split) == WorkerOccurrences(b, slices, split)
  {
    forall k | 0 <= k < |slices|
      ensures a[slices[k].start..slices[k].end] == b[slices[k].start..slices[k].end]
    {
      assert Pieces(a, slices)[k] == Pieces(b, slices)[k];
    }
  }

  /** The workers of all slices but the last, then the last one. */
  lemma WorkersSnoc(books: seq<Book>, slices: seq<Slice>, split: string -> seq<string>)
    requires InBounds(slices, |books|) && slices != []
    ensures var n := |slices|;
            WorkerOccurrences(books, slices, split)
            == WorkerOccurrences(books, slices[..n - 1], split)
               + [Occurrences(books[slices[n - 1].start..slices[n - 1].end], slices[n - 1].start, split)]
  {
  }

  /** All slices but the last cover the books before the last slice. */
  lemma WorkersInit(books: seq<Book>, slices: seq<Slice>, split: string -> seq<string>)
    returns (front: seq<seq<Occurrence>>)
    requires Tiles(slices, |books|) && slices != []
    requires InBounds(slices, |books|)
    ensures var n := |slices|;
            && InBounds(slices[..n - 1], slices[n - 1].start)
            && front == WorkerOccurrences(books[..slices[n - 1].start], slices[..n - 1], split)
            && WorkerOccurrences(books, slices, split)
               == front + [Occurrences(books[slices[n - 1].start..slices[n - 1].end], slices[n - 1].start, split)]
  {
    var n := |slices|;
    var last, init := slices[n - 1], slices[..n - 1];
    var prefix := books[..last.start];
    PiecesInit(books, slices);
    assert InBounds(init, last.start);
    assert Pieces(books, init) == Pieces(prefix, init) by {
      assert Pieces(books, slices)[..n - 1] == Pieces(books, init);
    }
    SameWork(books, prefix, init, split);
    front := WorkerOccurrences(prefix, init, split);
    WorkersSnoc(books, slices, split);
  }

  /** Filling one dictionary per part and folding them is filling one
      dictionary with all the parts in turn. */
  lemma {:induction false} MergeAllIndexes(occs: seq<seq<Occurrence>>)
    ensures MergeAll(Indexes(occs)) == InsertAll(map[], Flatten(occs))
    decreases |occs|
  {
    if occs != [] {
      var n := |occs|;
      var init, last := occs[..n - 1], occs[n - 1];
      assert MergeAll(Indexes(occs)) == Merge(MergeAll(Indexes(init)), InsertAll(map[], last)) by {
        assert Indexes(occs)[..n - 1] == Indexes(init);
      }
      assert Flatten(occs) == Flatten(init) + last;
      MergeAllIndexes(init);
      InsertAllIsMerge(InsertAll(map[], Flatten(init)), last);
      InsertAllAppend(map[], Flatten(init), last);
    }
  }

  /** Folding every per-thread dictionary, used or not, into a fresh one
      gives the index of the whole collection. */
  lemma FoldWorkers(books: seq<Book>, slices: seq<Slice>, numThreads: nat, split: string -> seq<string>)
    requires Tiles(slices, |books|) && |slices| <= numThreads
    ensures InBounds(slices, |books|)
    ensures MergeAll(WorkerResults(books, slices, numThreads, split)) == Index(books, split)
  {
    WorkersCoverOccurrences(books, slices, split);
    var results, n := WorkerResults(books, slices, numThreads, split), |slices|;
    var used, idle := results[..n], results[n..];
    assert used == Indexes(WorkerOccurrences(books, slices, split));
    assert forall k :: 0 <= k < |idle| ==> idle[k] == map[] by {
      forall k | 0 <= k < |idle|
        ensures idle[k] == map[]
      {
        assert idle[k] == results[n + k];
      }
    }
    assert results == used + idle;
    MergeAllEmpties(used, idle);
    MergeAllIndexes(WorkerOccurrences(books, slices, split));
  }

  // ---------------------------------------------------------------------
  // The rayon `reduce`

  /** One way `reduce` may group the work: the identity `Dictionary::new()`,
      one worker's dictionary, or `acc.merge(&dict)` of two partial
      results. */
  datatype Reduction = Identity | Leaf(result: Dict) | Join(left: Reduction, right: Reduction)

  function Eval(t: Reduction): Dict {
    match t
    case Identity => map[]
    case Leaf(d) => d
    case Join(l, r) => Merge(Eval(l), Eval(r))
  }

  /** The worker dictionaries a grouping folds, left to right. */
  function Leaves(t: Reduction): seq<Dict> {
    match t
    case Identity => []
    case Leaf(d) => [d]
    case Join(l, r) => Leaves(l) + Leaves(r)
  }

  lemma {:induction false} EvalIsFold(t: Reduction)
    ensures Eval(t) == MergeAll(Leaves(t))
  {
    match t
    case Identity =>
    case Leaf(d) =>
      MergeAllSingleton(d);
    case Join(l, r) =>
      EvalIsFold(l);
      EvalIsFold(r);
      MergeAllAppend(Leaves(l), Leaves(r));
  }

  /** However `reduce` groups the merges and wherever it inserts identities,
      a grouping that uses every worker's dictionary once, in any order,
      yields the sequential fold. */
  lemma AnyGroupingAgrees(t: Reduction, ds: seq<Dict>)
    requires multiset(Leaves(t)) == multiset(ds)
    ensures Eval(t) == MergeAll(ds)
  {
    EvalIsFold(t);
    MergeAllPermutation(Leaves(t), ds);
  }

  /** On an index, Rust's `retain(count > 1)` and the C++ erase of count-1
      entries leave the same dictionary: so with the ASCII alphabet the Rust
      program computes what the C++ programs compute. */
  lemma RetainAgreesWithErase(books: seq<Book>, split: string -> seq<string>)
    ensures KeepRepeated(Index(books, split)) == Prune(Index(books, split))
  {
    IndexWellFormed(books, split);
    PruneIsKeepRepeated(Index(books, split));
  }

  /** The Rust result does not depend on the grouping. */
  lemma RustReduceAgrees(t: Reduction, books: seq<Book>, slices: seq<Slice>, alpha: Alphabet)
    requires Tiles(slices, |books|)
    requires InBounds(slices, |books|)
    requires multiset(Leaves(t)) == multiset(WorkerResults(books, slices, |slices|, SplitWith(alpha)))
    ensures KeepRepeated(Eval(t)) == KeepRepeated(Index(books, SplitWith(alpha)))
  {
    AnyGroupingAgrees(t, WorkerResults(books, slices, |slices|, SplitWith(alpha)));
    FoldWorkers(books, slices, |slices|, SplitWith(alpha));
  }

  // ---------------------------------------------------------------------
  // The sharded C++ program

  /** `main` of the sharded program, given the books found, the shard count
      (16 unless given on the command line) and what
      `hardware_concurrency()` reports. The index does not depend on the thread
      count, the shard count or the hash. */
  method ShardedMain(allBooks: seq<Book>, numShards: nat, hardware: nat, hash: string -> nat)
    returns (r: Outcome)
    ensures numShards == 0 ==> r == Failure(ZeroShards)
    ensures numShards >= 1 && allBooks == [] ==> r == Failure(NoBooks)
    ensures numShards >= 1 && allBooks != [] ==> r == Success(Prune(Index(allBooks, SplitWith(Ascii))))
  {
    if numShards == 0 {
      return Failure(ZeroShards);
    }
    if allBooks == [] {
      return Failure(NoBooks);
    }
    var numThreads := ThreadCount(hardware);
    var threadDicts := NewShardedDicts(numThreads, numShards, hash);
    var slices := Partition.Partition(|allBooks|, numThreads);
    FoldWorkers(allBooks, slices, numThreads, SplitWith(Ascii));
    RunShardedWorkers(allBooks, slices, threadDicts);
    var finalDict := new Sharded.ShardedConcurrentDictionary(numShards, hash);
    FoldSharded(finalDict, threadDicts, WorkerResults(allBooks, slices, numThreads, SplitWith(Ascii)));
    finalDict.RemoveSingleOccurrences();
    return Success(finalDict.Flat());
  }

  /** Thread `i` at work: its dictionary receives the words of its slice,
      and no other thread's dictionary changes. */
  method RunShardedWorker(books: seq<Book>, s: Slice, ds: seq<Sharded.ShardedConcurrentDictionary>, i: nat)
    requires s.start <= s.end <= |books| && i < |ds| && ds[i].Valid()
    requires forall k :: 0 <= k < |ds| && k != i ==> ds[k].shards != ds[i].shards
    modifies ds[i].shards
    ensures ds[i].Valid()
    ensures ds[i].Flat() == InsertAll(old(ds[i].Flat()), Occurrences(books[s.start..s.end], s.start, SplitWith(Ascii)))
    ensures old(ds[i].Flat()) == map[] ==> ds[i].Flat() == SliceIndex(books, s, SplitWith(Ascii))
    ensures forall k :: 0 <= k < |ds| && k != i ==> ds[k].shards[..] == old(ds[k].shards[..])
  {
    ProcessBooksSharded(books[s.start..s.end], ds[i], s.start);
  }

  /** Thread `i` runs `processBooks` on slice `i`, with `startIdx` as its
      first book id; the threads without a slice leave their dictionary
      empty. */
  method RunShardedWorkers(books: seq<Book>, slices: seq<Slice>, ds: seq<Sharded.ShardedConcurrentDictionary>)
    requires InBounds(slices, |books|) && |slices| <= |ds|
    requires forall k :: 0 <= k < |ds| ==> ds[k].Valid() && ds[k].Flat() == map[]
    requires forall j, k :: 0 <= j < k < |ds| ==> ds[j].shards != ds[k].shards
    modifies set k | 0 <= k < |ds| :: ds[k].shards
    ensures forall k :: 0 <= k < |ds| ==> ds[k].Valid()
    ensures forall k :: 0 <= k < |ds| ==> ds[k].Flat() == WorkerResults(books, slices, |ds|, SplitWith(Ascii))[k]
  {
    for i := 0 to |slices|
      invariant forall k :: 0 <= k < |ds| ==> ds[k].Valid()
      invariant forall k :: 0 <= k < i ==> ds[k].Flat() == SliceIndex(books, slices[k], SplitWith(Ascii))
      invariant forall k :: i <= k < |ds| ==> ds[k].Flat() == map[]
    {
      RunShardedWorker(books, slices[i], ds, i);
    }
    forall k | 0 <= k < |ds|
      ensures ds[k].Flat() == WorkerResults(books, slices, |ds|, SplitWith(Ascii))[k]
    {
    }
  }

  /** `finalDict.merge(*dictPtr)` for every per-thread dictionary in turn. */
  method FoldSharded(finalDict: Sharded.ShardedConcurrentDictionary, ds: seq<Sharded.ShardedConcurrentDictionary>, ghost results: seq<Dict>)
    requires finalDict.Valid() && finalDict.Flat() == map[]
    requires |results| == |ds|
    requires forall k :: 0 <= k < |ds| ==> ds[k].Valid() && ds[k].Flat() == results[k]
    requires forall k :: 0 <= k < |ds| ==> ds[k].shards.Length == finalDict.shards.Length && ds[k].shards != finalDict.shards
    modifies finalDict.shards
    ensures finalDict.Valid() && finalDict.Flat() == MergeAll(results)
  {
    for i := 0 to |ds|
      invariant finalDict.Valid()
      invariant finalDict.Flat() == MergeAll(results[..i])
    {
      finalDict.Merge(ds[i]);
      assert results[..i + 1][..i] == results[..i];
    }
    assert results[..|ds|] == results;
  }

  /** `threadDicts`: one fresh, empty dictionary per thread, no two sharing
      a shard. */
  method NewShardedDicts(n: nat, numShards: nat, hash: string -> nat)
    returns (ds: seq<Sharded.ShardedConcurrentDictionary>)
    requires numShards >= 1
    ensures |ds| == n
    ensures forall k :: 0 <= k < n ==> fresh(ds[k].shards)
    ensures forall k :: 0 <= k < n ==> ds[k].Valid() && ds[k].shards.Length == numShards && ds[k].Flat() == map[]
    ensures forall j, k :: 0 <= j < k < n ==> ds[j].shards != ds[k].shards
  {
    ds := [];
    for i := 0 to n
      invariant |ds| == i
      invariant forall k :: 0 <= k < i ==> fresh(ds[k].shards)
      invariant forall k :: 0 <= k < i ==> ds[k].Valid() && ds[k].shards.Length == numShards && ds[k].Flat() == map[]
      invariant forall j, k :: 0 <= j < k < i ==> ds[j].shards != ds[k].shards
    {
      var d := new Sharded.ShardedConcurrentDictionary(numShards, hash);
      ds := ds + [d];
    }
  }

  // ---------------------------------------------------------------------
  // The two unsharded C++ programs

  /** `main` of the unsharded program: it refuses an empty list of books,
      then runs the pipeline with `max(1u, hardware_concurrency())`
      threads. */
  method FlatMain(allBooks: seq<Book>, hardware: nat) returns (r: Outcome)
    ensures allBooks == [] ==> r == Failure(NoBooks)
    ensures allBooks != [] ==> r == Success(Prune(Index(allBooks, SplitWith(Ascii))))
  {
    if allBooks == [] {
      return Failure(NoBooks);
    }
    var index := FlatPipeline(allBooks, ThreadCount(hardware));
    return Success(index);
  }

  /** `main` of the oldest program, which has no check for an empty list.
      It takes the thread count from `hardware_concurrency()` unguarded;
      the model uses the guarded count (see `BooksPerThreadUnguarded`). */
  method RootMain(allBooks: seq<Book>, hardware: nat) returns (index: Dict)
    ensures index == Prune(Index(allBooks, SplitWith(Ascii)))
  {
    index := FlatPipeline(allBooks, ThreadCount(hardware));
  }

  /** `dicts(numThreads)`, the partition, one `processBooks` per slice, the
      fold into a fresh `finalDict` and the prune. */
  method FlatPipeline(allBooks: seq<Book>, numThreads: Positive) returns (index: Dict)
    ensures index == Prune(Index(allBooks, SplitWith(Ascii)))
  {
    var dicts := NewFlatDicts(numThreads);
    var slices := Partition.Partition(|allBooks|, numThreads);
    FoldWorkers(allBooks, slices, numThreads, SplitWith(Ascii));
    RunFlatWorkers(allBooks, slices, dicts);
    var finalDict := new FlatDictionary.ConcurrentDictionary();
    FoldFlat(finalDict, dicts, WorkerResults(allBooks, slices, numThreads, SplitWith(Ascii)));
    finalDict.RemoveSingleOccurrences();
    index := finalDict.dict;
  }

  method NewFlatDicts(n: nat) returns (ds: seq<FlatDictionary.ConcurrentDictionary>)
    ensures |ds| == n
    ensures forall k :: 0 <= k < n ==> fresh(ds[k]) && ds[k].dict == map[]
    ensures forall j, k :: 0 <= j < k < n ==> ds[j] != ds[k]
  {
    ds := [];
    for i := 0 to n
      invariant |ds| == i
      invariant forall k :: 0 <= k < i ==> fresh(ds[k]) && ds[k].dict == map[]
      invariant forall j, k :: 0 <= j < k < i ==> ds[j] != ds[k]
    {
      var d := new FlatDictionary.ConcurrentDictionary();
      ds := ds + [d];
    }
  }

  method RunFlatWorkers(books: seq<Book>, slices: seq<Slice>, ds: seq<FlatDictionary.ConcurrentDictionary>)
    requires InBounds(slices, |books|) && |slices| <= |ds|
    requires forall k :: 0 <= k < |ds| ==> ds[k].dict == map[]
    requires forall j, k :: 0 <= j < k < |ds| ==> ds[j] != ds[k]
    modifies set k | 0 <= k < |ds| :: ds[k]
    ensures forall k :: 0 <= k < |ds| ==> ds[k].dict == WorkerResults(books, slices, |ds|, SplitWith(Ascii))[k]
  {
    for i := 0 to |slices|
      invariant forall k :: 0 <= k < i ==> ds[k].dict == SliceIndex(books, slices[k], SplitWith(Ascii))
      invariant forall k :: i <= k < |ds| ==> ds[k].dict == map[]
    {
      var s := slices[i];
      ProcessBooks(books[s.start..s.end], ds[i], s.start);
    }
    forall k | 0 <= k < |ds|
      ensures ds[k].dict == WorkerResults(books, slices, |ds|, SplitWith(Ascii))[k]
    {
    }
  }

  /** `finalDict.merge(dict)` for every per-thread dictionary in turn. */
  method FoldFlat(finalDict: FlatDictionary.ConcurrentDictionary, ds: seq<FlatDictionary.ConcurrentDictionary>, ghost results: seq<Dict>)
    requires finalDict.dict == map[]
    requires |results| == |ds|
    requires forall k :: 0 <= k < |ds| ==> ds[k].dict == results[k] && ds[k] != finalDict
    modifies finalDict
    ensures finalDict.dict == MergeAll(results)
  {
    for i := 0 to |ds|
      invariant finalDict.dict == MergeAll(results[..i])
    {
      finalDict.Merge(ds[i]);
      assert results[..i + 1][..i] == results[..i];
    }
    assert results[..|ds|] == results;
  }

  // ---------------------------------------------------------------------
  // The Rust program

  /** `main` of the Rust program, given the books found, what
      `available_parallelism()` reports and the alphabet. With no books it
      reports and returns without an index. The worker dictionaries are
      combined here left to right; `RustReduceAgrees` shows that any
      grouping `reduce` may choose gives the same. */
  method RustMain(allBooks: seq<Book>, available: Option<Positive>, alpha: Alphabet) returns (r: Option<Dict>)
    ensures allBooks == [] <==> r.None?
    ensures r.Some? ==> r.value == KeepRepeated(Index(allBooks, SplitWith(alpha)))
    ensures r.Some? ==> r.value == Prune(Index(allBooks, SplitWith(alpha)))
  {
    if allBooks == [] {
      return None;
    }
    var numThreads := RustThreadCount(available);
    var slices := Partition.Partition(|allBooks|, numThreads);
    FoldWorkers(allBooks, slices, |slices|, SplitWith(alpha));
    var handles := RunRustWorkers(allBooks, slices, alpha);
    var finalDict := new RustDictionary.Dictionary();
    FoldRust(finalDict, handles, WorkerResults(allBooks, slices, |slices|, SplitWith(alpha)));
    finalDict.RemoveSingleOccurrences();
    RetainAgreesWithErase(allBooks, SplitWith(alpha));
    return Some(finalDict.dict);
  }

  /** One `process_books` per slice, each returning a fresh dictionary. */
  method RunRustWorkers(books: seq<Book>, slices: seq<Slice>, alpha: Alphabet)
    returns (handles: seq<RustDictionary.Dictionary>)
    requires InBounds(slices, |books|)
    ensures |handles| == |slices|
    ensures forall k :: 0 <= k < |slices| ==> handles[k].dict == WorkerResults(books, slices, |slices|, SplitWith(alpha))[k]
  {
    handles := [];
    for i := 0 to |slices|
      invariant |handles| == i
      invariant forall k :: 0 <= k < i ==> handles[k].dict == SliceIndex(books, slices[k], SplitWith(alpha))
    {
      var s := slices[i];
      var d := ProcessBooksRust(books[s.start..s.end], s.start, alpha);
      handles := handles + [d];
    }
    forall k | 0 <= k < |slices|
      ensures handles[k].dict == WorkerResults(books, slices, |slices|, SplitWith(alpha))[k]
    {
    }
  }

  /** The fold into `Dictionary::new()`: `acc.merge(&dict)` for each worker
      dictionary in turn. */
  method FoldRust(acc: RustDictionary.Dictionary, ds: seq<RustDictionary.Dictionary>, ghost results: seq<Dict>)
    requires acc.dict == map[]
    requires |results| == |ds|
    requires forall k :: 0 <= k < |ds| ==> ds[k].dict == results[k] && ds[k] != acc
    modifies acc
    ensures acc.dict == MergeAll(results)
  {
    for i := 0 to |ds|
      invariant acc.dict == MergeAll(results[..i])
    {
      acc.Merge(ds[i]);
      assert results[..i + 1][..i] == results[..i];
    }
    assert results[..|ds|] == results;
  }
}
