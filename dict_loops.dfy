/**
 The two loops every unsharded dictionary runs over its map: adding another
 map's entries in (`merge`, in C++ and in Rust alike) and erasing the
 entries seen only once while iterating (`removeSingleOccurrences` in C++,
 for the flat dictionary and for each shard of the sharded one).
 */
module DictLoops {

  import opened Entries

  /** For each entry of `src`, in whatever order the map yields them: look
      up (default-constructing if missing) the entry of the same word in
      `acc`, add the count and union the ids into it. */
  method MergeInto(acc: Dict, src: Dict) returns (r: Dict)
    ensures r == Merge(acc, src)
  {
    r := acc;
    var pending := src.Keys;
    ghost var done: Dict := map[];
    assert r == Merge(acc, done) by {
      MergeIdentity(acc);
    }
    while pending != {}
      invariant pending <= src.Keys
      invariant Visited(done, src, pending)
      invariant r == Merge(acc, done)
      decreases |pending|
    {
      var word :| word in pending;
      var entry := src[word];
      var mine := Lookup(r, word);
      var updated := r[word := Entry(mine.count + entry.count, mine.ids + entry.ids)];
      assert updated == Merge(acc, done[word := entry]) by {
        MergeLoopStep(acc, done, r, word, entry);
      }
      assert Visited(done[word := entry], src, pending - {word}) by {
        VisitedStep(done, src, pending, word);
      }
      r := updated;
      done := done[word := entry];
      pending := pending - {word};
    }
    assert done == src by {
      VisitedAll(done, src);
    }
  }

  /** Walk the map, erasing an entry whose count is exactly 1 and stepping
      past any other. */
  method EraseSingles(d: Dict) returns (r: Dict)
    ensures r == Prune(d)
  {
    r := d;
    var unvisited := d.Keys;
    while unvisited != {}
      invariant unvisited <= r.Keys <= d.Keys
      invariant forall w :: w in r ==> r[w] == d[w]
      invariant forall w :: w in d ==> (w in r <==> w in unvisited || d[w].count != 1)
      decreases |unvisited|
    {
      var word :| word in unvisited;
      if r[word].count == 1 {
        r := r - {word};
      }
      unvisited := unvisited - {word};
    }
    assert r.Keys == Prune(d).Keys;
  }
}
