# Parallel word-occurrence index, modelled in Dafny

The repository holds four versions of the same program. Each builds an index
of a collection of books, from each word to its number of occurrences and the
ids of the books it occurs in:

- a sharded C++ program, `parallel_dict/parallel_dictionary_cpp/parallel_dictionary.cpp`;
- a Rust program, `parallel_dict/parallel_dictionary_rust/src/main.rs`;
- two unsharded C++ programs, `parallel_dict/parallel_dictionary.cpp` and the
  older `parallel_dictionary.cpp`.

Every version runs the same pipeline, each in its own code:

1. Count the threads.
2. Cut the list of books into contiguous slices of `ceil(total / threads)`
   books, stopping at the first empty slice.
3. Let one worker per slice split every line of its books into lower-cased
   words and insert each word with the id `startIdx + i` of its book.
4. Merge the per-thread dictionaries into a fresh final dictionary.
5. Remove every word seen only once.

The model is sequential. Each dictionary operation is one atomic step, and
every worker runs to completion before the merge starts, which is what the
joins guarantee. All four programs share one specification:

- the flat index `Dict` (`map<string, Entry>`);
- the tokenizer `Words`;
- the occurrence sequence `Occurrences`, the index every worker builds;
- the fold `MergeAll`.

Each program's own code is modelled on top of that and proved against it.

| Dafny file | module | what it models |
|---|---|---|
| `wrappers.dfy` | `Wrappers` | Rust's `Option` |
| `seqs.dfy` | `Seqs` | concatenation of a sequence of sequences |
| `entries.dfy` | `Entries` | `Entry`, the flat `insert`/`merge`/prune; merge algebra; the fold; the index a sequence of inserts builds |
| `dict_loops.dfy` | `DictLoops` | the merge loop and the erase-while-iterating loop the unsharded C++ dictionaries run |
| `flat_dictionary.dfy` | `FlatDictionary` | the unsharded C++ `ConcurrentDictionary` (a class over one map) |
| `rust_dictionary.dfy` | `RustDictionary` | the Rust `Dictionary` (a class over one map) |
| `sharded_dictionary.dfy` | `Sharded` | `ShardedConcurrentDictionary`: an array of `N >= 1` shard maps, an uninterpreted hash, and its union of shards as its abstract value, with the routing invariant |
| `tokenizer.dfy` | `Tokenizer` | `splitToWords` (ASCII) and `split_to_words` (an abstract alphabet), both proved equal to `Words` |
| `partition.dfy` | `Partition` | the thread count, `booksPerThread`, the slice-launching loop, and what its tiling guarantees |
| `ingestion.dfy` | `Ingestion` | `processBooks` / `process_books` for each dictionary kind |
| `coordinator.dfy` | `Coordinator` | each `main` after the book list is known; the Rust `reduce` under any grouping |
| `scenario.dfy` | `Scenario` | the two-book example "The Fox ran." / "The fox the FOX." |

The main results are these:

- Each `main` returns the pruned index of the whole collection. This holds
  for any thread count and any shard count. For the sharded program it also
  holds for any hash.
  - `Coordinator.ShardedMain`, `Coordinator.FlatMain` and
    `Coordinator.RootMain` cover the C++ programs.
  - `Coordinator.RustMain` with `Coordinator.RustReduceAgrees` covers Rust,
    whatever grouping `reduce` picks. Its `retain(count > 1)` is proved to
    give the same dictionary as the C++ erase of count-1 entries
    (`Coordinator.RetainAgreesWithErase`), because every entry of an index
    has count at least 1 (`Ingestion.IndexWellFormed`).
- Sharded `insert`, `merge` and `removeSingleOccurrences` act on the union of
  the shards exactly as the flat operations act on one map, and they keep
  every word in the shard its hash picks.
- Merge has the empty dictionary as identity and is commutative and
  associative. The fold does not depend on the order of the dictionaries.
- Both tokenizers emit the maximal letter runs, lower-cased, in order. No word
  is empty, and no letter is lost.
- The slices tile the books: they cover them all, disjointly and in order, and
  the book ids are distinct and lie in `[0, total)`.

Two details of the code are worth stating, and the model follows the code:

- The comment at `parallel_dict/parallel_dictionary.cpp:114` promises 4
  threads when the hardware count is unknown. The code uses
  `max(1u, hardware_concurrency())`, that is 1 thread.
- The sharded `merge` holds `other`'s shard lock while it writes into this
  dictionary's shard
  (`parallel_dict/parallel_dictionary_cpp/parallel_dictionary.cpp:60-71`).
  It does not check that the two shard counts agree; the model requires that
  they do (see "Left out").

## Model

| member | source | states |
|---|---|---|
| Entries.Insert | parallel_dict/parallel_dictionary.cpp:16-21 | inserting `w` with `id` adds `w` to the keys, makes its count its old count (0 when absent) plus one and its ids its old ids with `id`, and leaves every other word's entry as it was |
| Entries.Prune | parallel_dict/parallel_dictionary.cpp:32-41 | the C++ prune keeps a word exactly when it was present with a count other than 1, with its entry unchanged: every count-1 entry is erased and nothing else changes |
| Entries.KeepRepeated | parallel_dict/parallel_dictionary_rust/src/main.rs:68-70 | the Rust `retain` keeps exactly the entries with count above 1, unchanged |
| Entries.MergeLookup | parallel_dict/parallel_dictionary.cpp:23-30 | in the merge of `a` and `b`, each word's entry is the sum of its counts and the union of its ids in both, a word missing from one side counting as the empty entry |
| Entries.MergeIdentity | parallel_dict/parallel_dictionary_rust/src/main.rs:42-46 | the empty dictionary (`Dictionary::new()`, a fresh `finalDict`) is a left and right identity of merge |
| Entries.MergeCommutative | parallel_dict/parallel_dictionary_rust/src/main.rs:199-208 | merge is commutative |
| Entries.MergeAssociative | parallel_dict/parallel_dictionary_rust/src/main.rs:199-208 | merge is associative |
| Entries.MergeDisjoint | parallel_dict/parallel_dictionary_cpp/parallel_dictionary.cpp:58-72 | merging dictionaries with disjoint words is their map union, which is why disjoint shards can be merged one by one |
| Entries.InsertIsMerge | parallel_dict/parallel_dictionary.cpp:16-30 | one insert is the merge of a one-word dictionary with count 1 and that one id |
| Entries.MergeStep | parallel_dict/parallel_dictionary.cpp:25-29 | folding one more source word into a partial merge combines that word's entry and leaves the rest alone |
| Entries.MergeLoopStep | parallel_dict/parallel_dictionary.cpp:26-28 | the merge loop body (`myEntry.wordCount += …`, id union, default entry when missing) extends the partial merge by one source word |
| Entries.InsertWellFormed | parallel_dict/parallel_dictionary_cpp/parallel_dictionary.cpp:53-55 | an insert keeps every entry at count >= 1 with a non-empty id set |
| Entries.MergeWellFormed | parallel_dict/parallel_dictionary_cpp/parallel_dictionary.cpp:67-69 | a merge of well-formed dictionaries is well-formed |
| Entries.PruneWellFormed | parallel_dict/parallel_dictionary_cpp/parallel_dictionary.cpp:74-87 | pruning keeps a dictionary well-formed |
| Entries.PruneIdempotent | parallel_dict/parallel_dictionary.cpp:32-41 | pruning twice is pruning once |
| Entries.PruneIsKeepRepeated | parallel_dict/parallel_dictionary_rust/src/main.rs:68-70 | on well-formed dictionaries the C++ rule (erase count == 1) and the Rust rule (keep count > 1) agree |
| Entries.PruneRulesDifferOnZero | parallel_dict/parallel_dictionary_rust/src/main.rs:69 | the two rules differ on an entry of count 0, which no dictionary built by inserts holds |
| Entries.MergeAllTallies | parallel_dict/parallel_dictionary_cpp/parallel_dictionary.cpp:252-255 | after folding dictionaries into a fresh one, each word's count is its total over them and its ids the union of theirs |
| Entries.MergeAllKeys | parallel_dict/parallel_dictionary_cpp/parallel_dictionary.cpp:252-255 | the fold holds a word exactly when one of the folded dictionaries does |
| Entries.MergeAllAppend | parallel_dict/parallel_dictionary_rust/src/main.rs:199-208 | folding two runs of dictionaries one after the other is merging the two folds |
| Entries.MergeAllMoveLast | parallel_dict/parallel_dictionary_rust/src/main.rs:199-208 | folding a dictionary in the middle gives the same as folding it last |
| Entries.MergeAllPermutation | parallel_dict/parallel_dictionary_rust/src/main.rs:199-208 | the fold gives the same map for any order of the same dictionaries |
| Entries.MergeAllEmpties | parallel_dict/parallel_dictionary_cpp/parallel_dictionary.cpp:222-226 | the dictionaries of threads that got no slice, left empty, do not change the fold |
| Entries.MergeAllWellFormed | parallel_dict/parallel_dictionary_cpp/parallel_dictionary.cpp:252-255 | a fold of well-formed dictionaries is well-formed |
| Entries.InsertAllTallies | parallel_dict/parallel_dictionary_cpp/parallel_dictionary.cpp:159-164 | after a sequence of inserts into an empty dictionary, a word's count is how many times it was inserted, its ids are the books named by those inserts, and it is present exactly when inserted at least once |
| Entries.RepeatedInsert | parallel_dict/parallel_dictionary_cpp/parallel_dictionary.cpp:48-56 | inserting the same word with the same id `k >= 1` times gives that word alone, with count `k` and that one id |
| Entries.InsertAllAppend | parallel_dict/parallel_dictionary_cpp/parallel_dictionary.cpp:159-164 | inserting two runs of occurrences one after the other is inserting their concatenation |
| Entries.InsertAllIsMerge | parallel_dict/parallel_dictionary.cpp:138-144 | inserting occurrences into a dictionary equals inserting them into a fresh one and merging that in: per-thread dictionaries merged afterwards give what shared inserts would |
| Entries.InsertAllWellFormed | parallel_dict/parallel_dictionary_cpp/parallel_dictionary.cpp:53-55 | any sequence of inserts keeps a dictionary well-formed |
| DictLoops.MergeInto | parallel_dict/parallel_dictionary.cpp:23-30 | the loop over `other`'s entries, visiting them in any order, returns the merge of the two maps |
| DictLoops.EraseSingles | parallel_dict/parallel_dictionary.cpp:32-41 | the erase-while-iterating loop returns the pruned map |
| FlatDictionary.ConcurrentDictionary.constructor | parallel_dict/parallel_dictionary.cpp:50-56 | a default-constructed dictionary is empty |
| FlatDictionary.ConcurrentDictionary.Insert | parallel_dict/parallel_dictionary.cpp:16-21 | the map becomes the flat insert of the word and id into the old map (the same code is at parallel_dictionary.cpp:15-20) |
| FlatDictionary.ConcurrentDictionary.Merge | parallel_dict/parallel_dictionary.cpp:23-30 | for a different `other`, the map becomes the merge of the old map and `other`'s map, and `other` is unchanged (the same code is at parallel_dictionary.cpp:22-29) |
| FlatDictionary.ConcurrentDictionary.RemoveSingleOccurrences | parallel_dict/parallel_dictionary.cpp:32-41 | the map becomes the pruned old map (the same code is at parallel_dictionary.cpp:31-40) |
| RustDictionary.Dictionary.constructor | parallel_dict/parallel_dictionary_rust/src/main.rs:42-46 | `Dictionary::new()` is empty |
| RustDictionary.Dictionary.Insert | parallel_dict/parallel_dictionary_rust/src/main.rs:48-55 | the map becomes the flat insert of the word and id into the old map |
| RustDictionary.Dictionary.Merge | parallel_dict/parallel_dictionary_rust/src/main.rs:57-66 | the map becomes the merge of the old map and `other`'s, and `other` is unchanged |
| RustDictionary.Dictionary.RemoveSingleOccurrences | parallel_dict/parallel_dictionary_rust/src/main.rs:68-70 | the map keeps exactly the entries with count above 1 |
| Sharded.RoutedLookup | parallel_dict/parallel_dictionary_cpp/parallel_dictionary.cpp:114-117 | under routing, a word is in the union of the shards exactly when it is in the shard its hash picks, with that shard's entry |
| Sharded.RoutedUpdate | parallel_dict/parallel_dictionary_cpp/parallel_dictionary.cpp:50-55 | writing a word's entry into the shard its hash picks keeps the routing and updates that word, and only that word, in the union |
| Sharded.RoutedPrune | parallel_dict/parallel_dictionary_cpp/parallel_dictionary.cpp:74-87 | pruning every shard keeps the routing and prunes the union |
| Sharded.RoutedPrefixDisjoint | parallel_dict/parallel_dictionary_cpp/parallel_dictionary.cpp:114-117 | under routing, the shards before shard `i` hold none of shard `i`'s words |
| Sharded.RoutedUnionIsMergeAll | parallel_dict/parallel_dictionary_cpp/parallel_dictionary.cpp:58-72 | the union of routed shards is their fold by merge |
| Sharded.UnionOfEmpties | parallel_dict/parallel_dictionary_cpp/parallel_dictionary.cpp:33-38 | empty shards have an empty union |
| Sharded.MergeShardStep | parallel_dict/parallel_dictionary_cpp/parallel_dictionary.cpp:60-71 | merging one more source shard into the partial result extends the merged part of `other`'s union by that shard |
| Sharded.ShardedConcurrentDictionary.ShardIndex | parallel_dict/parallel_dictionary_cpp/parallel_dictionary.cpp:114-117 | `getShardIndex` is a valid shard index (at least one shard is present) |
| Sharded.ShardedConcurrentDictionary.constructor | parallel_dict/parallel_dictionary_cpp/parallel_dictionary.cpp:33-38 | `numShards >= 1` empty shards: routed, with an empty union |
| Sharded.ShardedConcurrentDictionary.Insert | parallel_dict/parallel_dictionary_cpp/parallel_dictionary.cpp:48-56 | keeps the routing, makes the union the flat insert into the old union, and changes no shard but the word's own |
| Sharded.ShardedConcurrentDictionary.Store | parallel_dict/parallel_dictionary_cpp/parallel_dictionary.cpp:50-55 | writing a word's entry into its shard keeps the routing, sets that word in the union, and changes no other shard |
| Sharded.ShardedConcurrentDictionary.Merge | parallel_dict/parallel_dictionary_cpp/parallel_dictionary.cpp:58-72 | when `other` is a distinct dictionary with the same shard count, the routing is kept, the union becomes the flat merge of the old union and `other`'s, and `other` is unchanged |
| Sharded.ShardedConcurrentDictionary.MergeShard | parallel_dict/parallel_dictionary_cpp/parallel_dictionary.cpp:63-70 | the inner loop over one source shard's entries, in any order, merges that shard into the union and keeps the routing |
| Sharded.ShardedConcurrentDictionary.MergeEntry | parallel_dict/parallel_dictionary_cpp/parallel_dictionary.cpp:64-69 | one iteration of the inner loop extends the merged part of the source shard by one word |
| Sharded.ShardedConcurrentDictionary.AddInto | parallel_dict/parallel_dictionary_cpp/parallel_dictionary.cpp:64-69 | adding an entry into the word's own shard (default entry when missing) adds its count and ids to that word in the union |
| Sharded.ShardedConcurrentDictionary.RemoveSingleOccurrences | parallel_dict/parallel_dictionary_cpp/parallel_dictionary.cpp:74-87 | every shard becomes its pruned old self; the routing is kept and the union becomes the pruned old union |
| Tokenizer.AsciiLower | parallel_dict/parallel_dictionary_cpp/parallel_dictionary.cpp:138-139 | `tolower` maps each upper-case ASCII letter to the lower-case letter at the same place in the alphabet, keeps every letter a letter, and leaves every other character alone |
| Tokenizer.RunLength | parallel_dict/parallel_dictionary_cpp/parallel_dictionary.cpp:132-134 | the run of letters a text starts with is maximal: all letters, then a separator or the end |
| Tokenizer.WordsAtRun | parallel_dict/parallel_dictionary_cpp/parallel_dictionary.cpp:130-141 | a text that starts with a maximal run has that run, lower-cased, as its first word |
| Tokenizer.WordsSplit | parallel_dict/parallel_dictionary_cpp/parallel_dictionary.cpp:126-142 | a separator splits a text into two halves tokenized independently |
| Tokenizer.WordsAreLoweredRuns | parallel_dict/parallel_dictionary_rust/src/main.rs:88-105 | no word is empty, and every character of every word is the lower-case form of a letter |
| Tokenizer.AsciiWordsAreLowerCase | parallel_dict/parallel_dictionary_cpp/parallel_dictionary.cpp:121-144 | with the C++ alphabet every word is a non-empty string of lower-case ASCII letters |
| Tokenizer.NoWordsIffNoLetters | parallel_dict/parallel_dictionary_cpp/parallel_dictionary.cpp:121-144 | a text yields no word exactly when it holds no letter |
| Tokenizer.WordsKeepEveryLetter | parallel_dict/parallel_dictionary_cpp/parallel_dictionary.cpp:121-144 | the words joined together are the text's letters, lower-cased, in order |
| Tokenizer.SkipSeparator | parallel_dict/parallel_dictionary_cpp/parallel_dictionary.cpp:128-129 | skipping one separator does not change the words that follow |
| Tokenizer.EmitRun | parallel_dict/parallel_dictionary_cpp/parallel_dictionary.cpp:135-141 | a maximal run, lower-cased, is the next word |
| Tokenizer.SplitToWords | parallel_dict/parallel_dictionary_cpp/parallel_dictionary.cpp:121-144 | the C++ scanner returns exactly `Words(text)` over ASCII (the same code is at parallel_dict/parallel_dictionary.cpp:61-80) |
| Tokenizer.SkipSeparators | parallel_dict/parallel_dictionary_cpp/parallel_dictionary.cpp:128-129 | the first inner loop stops at the next letter or the end, passing only separators, and loses no words |
| Tokenizer.ScanLetters | parallel_dict/parallel_dictionary_cpp/parallel_dictionary.cpp:132-134 | the second inner loop stops at the end of the run: letters before it, a separator or the end at it |
| Tokenizer.PassSeparator | parallel_dict/parallel_dictionary_rust/src/main.rs:96 | a separator outside a run adds no word |
| Tokenizer.CloseRun | parallel_dict/parallel_dictionary_rust/src/main.rs:96-99 | a separator after a run emits the run, lower-cased, and resumes after the separator |
| Tokenizer.SplitToWordsRust | parallel_dict/parallel_dictionary_rust/src/main.rs:88-105 | the Rust scanner returns exactly `Words(text)` for any alphabet, including a run that ends the text |
| Partition.ThreadCount | parallel_dict/parallel_dictionary_cpp/parallel_dictionary.cpp:218 | `max(1u, hardware_concurrency())`: the reported count, or 1 when it is 0 |
| Partition.RustThreadCount | parallel_dict/parallel_dictionary_rust/src/main.rs:156-158 | the available parallelism, or 4 when it is unknown |
| Partition.BooksPerThread | parallel_dict/parallel_dictionary_cpp/parallel_dictionary.cpp:229 | `(total + n - 1) / n` is the ceiling of `total / n`: enough books per thread to take all of them, and none to spare |
| Partition.BooksPerThreadUnguarded | parallel_dictionary.cpp:100-105 | with the unguarded count the division is undefined exactly when the hardware reports 0, and is the ceiling otherwise |
| Partition.UnguardedDividesByZero | parallel_dictionary.cpp:100-105 | a hardware count of 0 makes the division undefined, whatever the books |
| Partition.GuardedDivisionDefined | parallel_dict/parallel_dictionary.cpp:115-120 | with the `max(1u, …)` guard the division is always defined and covers all the books |
| Partition.LaunchStep | parallel_dict/parallel_dictionary_cpp/parallel_dictionary.cpp:234-241 | a non-empty slice `i` extends the tiling so far |
| Partition.LaunchDone | parallel_dict/parallel_dictionary_cpp/parallel_dictionary.cpp:233-242 | whether the loop ran out of threads or met an empty slice, the slices launched tile the books |
| Partition.Partition | parallel_dict/parallel_dictionary_cpp/parallel_dictionary.cpp:228-242 | the launching loop gives at most `numThreads` slices, slice `i` being `[i*bpt, min((i+1)*bpt, total))` with at most `bpt` books; they tile the books |
| Partition.TilesCover | parallel_dict/parallel_dictionary_cpp/parallel_dictionary.cpp:233-242 | every book lies in some slice |
| Partition.TilesOrdered | parallel_dict/parallel_dictionary_cpp/parallel_dictionary.cpp:233-242 | a later slice starts at or after the end of an earlier one |
| Partition.TilesDisjoint | parallel_dict/parallel_dictionary_cpp/parallel_dictionary.cpp:233-242 | no book lies in two slices |
| Partition.TilesBounded | parallel_dict/parallel_dictionary_cpp/parallel_dictionary.cpp:235 | no slice ends past the last book |
| Partition.BookIdsDistinct | parallel_dict/parallel_dictionary_cpp/parallel_dictionary.cpp:158 | the ids `startIdx + i` lie in `[0, total)`, and two books have the same id exactly when they are the same book of the same slice |
| Partition.PiecesFlatten | parallel_dict/parallel_dictionary_cpp/parallel_dictionary.cpp:239 | the slices handed to the threads, laid end to end, are all the books in order |
| Ingestion.OccurrencesAppend | parallel_dict/parallel_dictionary_rust/src/main.rs:118 | the occurrences of two runs of books are those of the first, then those of the second numbered on from where the first stopped |
| Ingestion.UnopenableAddsNothing | parallel_dict/parallel_dictionary_cpp/parallel_dictionary.cpp:153-156 | a book that cannot be opened adds no occurrence, and the books after it keep their ids |
| Ingestion.LinesIds | parallel_dict/parallel_dictionary_cpp/parallel_dictionary.cpp:158-163 | every word of a book's lines is recorded with that book's id |
| Ingestion.OccurrenceIdsInRange | parallel_dict/parallel_dictionary_cpp/parallel_dictionary.cpp:150-158 | every occurrence from a run of books carries an id from `startBookId` to `startBookId + count - 1` |
| Ingestion.IndexWellFormed | parallel_dict/parallel_dictionary_cpp/parallel_dictionary.cpp:159-164 | every entry of an index has count at least 1 and at least one book id, since it was created by an insert |
| Ingestion.InsertWords | parallel_dict/parallel_dictionary.cpp:95-97 | the loop over the words of one line inserts each word with the book's id, in order |
| Ingestion.InsertLines | parallel_dict/parallel_dictionary.cpp:93-98 | the loop over the lines of an opened book inserts the words of each line |
| Ingestion.InsertBook | parallel_dict/parallel_dictionary.cpp:85-98 | one book: its words if it opened, nothing otherwise |
| Ingestion.ProcessBooks | parallel_dict/parallel_dictionary.cpp:83-100 | `processBooks` inserts the occurrences of its books, numbered from `startBookId` (also parallel_dictionary.cpp:78-91, where an unopened stream yields no line) |
| Ingestion.ShardedInsertWords | parallel_dict/parallel_dictionary_cpp/parallel_dictionary.cpp:161-163 | as `InsertWords`, on the union of the shards, keeping the routing |
| Ingestion.ShardedInsertLines | parallel_dict/parallel_dictionary_cpp/parallel_dictionary.cpp:159-164 | as `InsertLines`, on the union of the shards, keeping the routing |
| Ingestion.ShardedInsertBook | parallel_dict/parallel_dictionary_cpp/parallel_dictionary.cpp:151-164 | as `InsertBook`, on the union of the shards, keeping the routing |
| Ingestion.ProcessBooksSharded | parallel_dict/parallel_dictionary_cpp/parallel_dictionary.cpp:147-166 | `processBooks` of the sharded program inserts the occurrences of its books into the union and keeps the routing |
| Ingestion.RustInsertWords | parallel_dict/parallel_dictionary_rust/src/main.rs:122-124 | the loop over the words of one line inserts each with the book's id |
| Ingestion.RustInsertLines | parallel_dict/parallel_dictionary_rust/src/main.rs:119-126 | the loop over the lines of a book inserts the words of each line |
| Ingestion.RustInsertBook | parallel_dict/parallel_dictionary_rust/src/main.rs:110-126 | one book: its words if it opened, nothing otherwise |
| Ingestion.ProcessBooksRust | parallel_dict/parallel_dictionary_rust/src/main.rs:107-129 | `process_books` returns a fresh dictionary holding exactly the occurrences of its books, numbered from `start_book_id` |
| Coordinator.WorkersCoverOccurrences | parallel_dict/parallel_dictionary_cpp/parallel_dictionary.cpp:233-242 | the workers' occurrences, slice after slice, are those of the whole collection with the same ids |
| Coordinator.MergeAllIndexes | parallel_dict/parallel_dictionary_cpp/parallel_dictionary.cpp:252-255 | filling one dictionary per part and folding them is inserting all parts into one |
| Coordinator.FoldWorkers | parallel_dict/parallel_dictionary_cpp/parallel_dictionary.cpp:221-255 | folding every per-thread dictionary, used or not, into a fresh one gives the index of the whole collection |
| Coordinator.EvalIsFold | parallel_dict/parallel_dictionary_rust/src/main.rs:199-208 | any reduction tree of merges and identities evaluates to the fold of its leaves left to right |
| Coordinator.AnyGroupingAgrees | parallel_dict/parallel_dictionary_rust/src/main.rs:199-208 | a reduction tree using each worker dictionary once, in any order and grouping, gives the sequential fold |
| Coordinator.RustReduceAgrees | parallel_dict/parallel_dictionary_rust/src/main.rs:199-211 | whatever grouping `reduce` picks, the pruned result is the pruned index of the collection |
| Coordinator.ShardedMain | parallel_dict/parallel_dictionary_cpp/parallel_dictionary.cpp:184-258 | zero shards and an empty book list are refused; otherwise the result is the pruned index of the collection, for any thread count, shard count and hash |
| Coordinator.RunShardedWorker | parallel_dict/parallel_dictionary_cpp/parallel_dictionary.cpp:239-241 | thread `i` fills its own dictionary with its slice, and no other thread's dictionary changes |
| Coordinator.RunShardedWorkers | parallel_dict/parallel_dictionary_cpp/parallel_dictionary.cpp:233-249 | after the joins, thread `k`'s dictionary holds the index of slice `k`, or nothing |
| Coordinator.FoldSharded | parallel_dict/parallel_dictionary_cpp/parallel_dictionary.cpp:252-255 | merging the thread dictionaries in turn into a fresh sharded one gives, on its union, their fold |
| Coordinator.NewShardedDicts | parallel_dict/parallel_dictionary_cpp/parallel_dictionary.cpp:222-226 | one fresh, empty, routed dictionary per thread, no two sharing a shard array |
| Coordinator.FlatMain | parallel_dict/parallel_dictionary.cpp:102-144 | an empty book list is refused; otherwise the result is the pruned index of the collection |
| Coordinator.RootMain | parallel_dictionary.cpp:93-129 | the result is the pruned index of the collection, empty for no books |
| Coordinator.FlatPipeline | parallel_dict/parallel_dictionary.cpp:115-144 | partition, workers, fold into a fresh dictionary and prune give the pruned index |
| Coordinator.NewFlatDicts | parallel_dict/parallel_dictionary.cpp:117 | `dicts(numThreads)`: distinct fresh empty dictionaries |
| Coordinator.RunFlatWorkers | parallel_dict/parallel_dictionary.cpp:122-135 | after the joins, thread `k`'s dictionary holds the index of slice `k`, or nothing |
| Coordinator.FoldFlat | parallel_dict/parallel_dictionary.cpp:137-141 | merging the thread dictionaries in turn into a fresh one gives their fold |
| Coordinator.RetainAgreesWithErase | parallel_dict/parallel_dictionary_rust/src/main.rs:68-70 | on the index of any collection, keeping the entries with count above 1 gives the same dictionary as erasing those with count 1 (the C++ rule at parallel_dict/parallel_dictionary_cpp/parallel_dictionary.cpp:74-87) |
| Coordinator.RustMain | parallel_dict/parallel_dictionary_rust/src/main.rs:143-211 | no index exactly when there are no books; otherwise the result is the index of the collection with the entries of count above 1 kept, which is also its pruned index, the result of the C++ programs |
| Coordinator.RunRustWorkers | parallel_dict/parallel_dictionary_rust/src/main.rs:174-194 | one handle per slice, handle `k` holding the index of slice `k` |
| Coordinator.FoldRust | parallel_dict/parallel_dictionary_rust/src/main.rs:199-208 | `acc.merge(&dict)` over the worker dictionaries in turn gives their fold |
| Scenario.WordsOfJoined | parallel_dict/parallel_dictionary_cpp/parallel_dictionary.cpp:121-144 | a line made of letter runs, each followed by a separator, splits into those runs lower-cased |
| Scenario.SplitBookZero | parallel_dict/parallel_dictionary_cpp/parallel_dictionary.cpp:121-144 | "The Fox ran." splits into "the", "fox", "ran" |
| Scenario.SplitBookOne | parallel_dict/parallel_dictionary_cpp/parallel_dictionary.cpp:121-144 | "The fox the FOX." splits into "the", "fox", "the", "fox" |
| Scenario.OneDictionary | parallel_dict/parallel_dictionary_cpp/parallel_dictionary.cpp:147-166 | two one-line books with words `[u, v, w]` and `[u, v, u, v]`, indexed together and pruned, leave `u` and `v` with count 3 in books 0 and 1 |
| Scenario.TwoDictionaries | parallel_dict/parallel_dictionary_cpp/parallel_dictionary.cpp:252-258 | the same books indexed separately and merged into a fresh dictionary in either order, then pruned, leave the same |
| Scenario.FoxOneDictionary | parallel_dict/parallel_dictionary_cpp/parallel_dictionary.cpp:147-166 | "The Fox ran." (book 0) and "The fox the FOX." (book 1) in one dictionary, pruned, give exactly the→(3,{0,1}), fox→(3,{0,1}) |
| Scenario.FoxTwoDictionaries | parallel_dict/parallel_dictionary_cpp/parallel_dictionary.cpp:252-258 | the two books in dictionaries of their own, merged in either order and pruned, give the same |

## Left out

- Threads, `std::async`/futures, `std::thread` joins, rayon's parallel iterator and every mutex and lock: each dictionary operation is one sequential step, and every worker finishes before the merge starts. Lock order and deadlock are concurrency matters.
- The `Logger`, `print`, `to_json`/serde and the progress bar: they only report or format output.
- Directory walking (`getAllBookFiles`, `get_all_book_files`), opening files and reading lines, and command-line parsing (`stoul`, clap): a book is given as the lines of its file, or as a file that cannot be opened, and the shard count and thread count are parameters.
- Reading errors on individual lines in Rust (`if let Ok(line)`): a book is the sequence of lines that were read.
- The concrete `std::hash<std::string>`: the hash is an uninterpreted function, and every result holds for any hash.
- Unicode `is_alphabetic`/`to_lowercase` and byte offsets in Rust: the alphabet is a parameter (a letter predicate and a per-character lower-casing), and text is indexed by character. A lower-casing that changes a character into several characters, or that depends on the neighbouring characters (`to_lowercase` turns a final 'Σ' into 'ς' but any other into 'σ'), is not modelled.
- `isalpha`/`tolower` in locales other than "C": the C++ alphabet is ASCII.
- `int`/`size_t`/`usize` overflow of counts, ids and index arithmetic: counts and ids are unbounded naturals.
- The writes through `const std::string&` in the oldest `splitToWords` (parallel_dictionary.cpp:67) do not compile. That tokenizer uses the non-mutating lower-casing of the other versions.
- Sharded.ShardedConcurrentDictionary.Merge: requires `other` to have the same shard count, because the source indexes `other`'s shards by this dictionary's count. It also requires a different dictionary, because a self-merge takes the same shard lock twice. Every merge in `main` satisfies both.
- FlatDictionary.ConcurrentDictionary.Merge: requires `other` to be a different dictionary. In a self-merge, `bookIds.insert(begin, end)` would insert a set's own range into that set, which the C++ library leaves undefined. Every merge in `main` merges a different dictionary.
- RustDictionary.Dictionary.Merge: requires `other` to be a different dictionary, as the borrow rules enforce.
- Coordinator.RootMain: uses the guarded thread count `max(1, hardware)`. With the count the oldest program uses unguarded, a hardware report of 0 divides by zero (see Findings).
- Coordinator.RustMain: combines the worker dictionaries left to right. `Coordinator.RustReduceAgrees` proves that every grouping rayon may choose gives the same pruned result.

## Findings

| source | as written | input that shows it | evidently intended | confidence | as-written member | corrected member |
|---|---|---|---|---|---|---|
| parallel_dictionary.cpp:100-105 | `numThreads = hardware_concurrency()` is used unguarded as the divisor of `(totalBooks + numThreads - 1) / numThreads` | a platform where `hardware_concurrency()` returns 0 (allowed when the count is not computable), with any list of books | `max(1u, hardware_concurrency())`, as the later versions write it | not executed | Partition.UnguardedDividesByZero | Partition.GuardedDivisionDefined |
