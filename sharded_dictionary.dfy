/**
 The `ShardedConcurrentDictionary` of the sharded C++ program: `N >= 1`
 shards, each its own map (and, in the program, its own lock); word `w` is
 stored only in shard `hash(w) % N`. Its abstract value is the union of the
 shards, and every operation is proved to act on that union as the
 corresponding operation of the flat dictionary.
 */
module Sharded {

  import opened Entries
  import DictLoops

  /** The routing invariant: there is at least one shard, and every word
      lies in the shard its hash selects. */
  ghost predicate Routed(ss: seq<Dict>, hash: string -> nat) {
    |ss| >= 1 && forall k, w :: 0 <= k < |ss| && w in ss[k] ==> hash(w) % |ss| == k
  }

  /** All shards together, as one map. */
  function UnionOf(ss: seq<Dict>): Dict
    decreases |ss|
  {
    if ss == [] then map[] else UnionOf(ss[..|ss| - 1]) + ss[|ss| - 1]
  }

  // ---------------------------------------------------------------------
  // The union of the shards

  lemma {:induction false} UnionOfKeys(ss: seq<Dict>, w: string)
    ensures w in UnionOf(ss) <==> exists k :: 0 <= k < |ss| && w in ss[k]
    decreases |ss|
  {
    if ss != [] {
      var init := ss[..|ss| - 1];
      UnionOfKeys(init, w);
      if w in UnionOf(init) {
        var k :| 0 <= k < |init| && w in init[k];
        assert w in ss[k];
      }
      if exists k :: 0 <= k < |ss| && w in ss[k] {
        var k :| 0 <= k < |ss| && w in ss[k];
        if k < |init| {
          assert w in init[k];
        }
      }
    }
  }

  /** A word found in one shard only has that shard's entry in the union. */
  lemma {:induction false} UnionAt(ss: seq<Dict>, k: nat, w: string)
    requires k < |ss| && w in ss[k]
    requires forall j :: 0 <= j < |ss| && j != k ==> w !in ss[j]
    ensures w in UnionOf(ss) && UnionOf(ss)[w] == ss[k][w]
    decreases |ss|
  {
    var init := ss[..|ss| - 1];
    if k < |init| {
      assert forall j :: 0 <= j < |init| && j != k ==> init[j] == ss[j];
      UnionAt(init, k, w);
    }
  }

  /** Under routing, a word's entry in the union is its entry in its own
      shard. */
  lemma RoutedLookup(ss: seq<Dict>, hash: string -> nat, w: string)
    requires Routed(ss, hash)
    ensures w in UnionOf(ss) <==> w in ss[hash(w) % |ss|]
    ensures w in UnionOf(ss) ==> UnionOf(ss)[w] == ss[hash(w) % |ss|][w]
    ensures Lookup(UnionOf(ss), w) == Lookup(ss[hash(w) % |ss|], w)
  {
    var k := hash(w) % |ss|;
    UnionOfKeys(ss, w);
    if w in ss[k] {
      UnionAt(ss, k, w);
    }
  }

  /** Setting the entry of `w` in the shard the hash selects keeps the
      routing and sets the entry of `w` in the union, leaving every other
      word's entry as it was. */
  lemma RoutedUpdate(ss: seq<Dict>, hash: string -> nat, w: string, x: Entry)
    requires Routed(ss, hash)
    ensures var k := hash(w) % |ss|;
            Routed(ss[k := ss[k][w := x]], hash) && UnionOf(ss[k := ss[k][w := x]]) == UnionOf(ss)[w := x]
  {
    var k := hash(w) % |ss|;
    var ss' := ss[k := ss[k][w := x]];
    assert Routed(ss', hash);
    var l, r := UnionOf(ss'), UnionOf(ss)[w := x];
    forall v
      ensures v in l <==> v in r
      ensures v in l ==> l[v] == r[v]
    {
      RoutedLookup(ss, hash, v);
      RoutedLookup(ss', hash, v);
    }
    assert l == r;
  }

  /** Pruning each shard prunes the union and keeps the routing. */
  lemma RoutedPrune(ss: seq<Dict>, pruned: seq<Dict>, hash: string -> nat)
    requires Routed(ss, hash)
    requires |pruned| == |ss| && forall k :: 0 <= k < |ss| ==> pruned[k] == Prune(ss[k])
    ensures Routed(pruned, hash)
    ensures UnionOf(pruned) == Prune(UnionOf(ss))
  {
    assert Routed(pruned, hash);
    var l, r := UnionOf(pruned), Prune(UnionOf(ss));
    forall v
      ensures v in l <==> v in r
      ensures v in l ==> l[v] == r[v]
    {
      RoutedLookup(ss, hash, v);
      RoutedLookup(pruned, hash, v);
    }
    assert l == r;
  }

  /** Under routing, the shards before shard `i` hold none of its words. */
  lemma RoutedPrefixDisjoint(ss: seq<Dict>, hash: string -> nat, i: nat)
    requires Routed(ss, hash) && i < |ss|
    ensures UnionOf(ss[..i]).Keys !! ss[i].Keys
  {
    forall w | w in ss[i]
      ensures w !in UnionOf(ss[..i])
    {
      assert hash(w) % |ss| == i;
      forall j | 0 <= j < i
        ensures w !in ss[..i][j]
      {
        assert ss[..i][j] == ss[j];
      }
      UnionOfKeys(ss[..i], w);
    }
  }

  lemma UnionOfSnoc(ss: seq<Dict>, i: nat)
    requires i < |ss|
    ensures UnionOf(ss[..i + 1]) == UnionOf(ss[..i]) + ss[i]
  {
    assert ss[..i + 1][..i] == ss[..i];
  }

  lemma {:induction false} UnionOfEmpties(ss: seq<Dict>)
    requires forall k :: 0 <= k < |ss| ==> ss[k] == map[]
    ensures UnionOf(ss) == map[]
    decreases |ss|
  {
    if ss != [] {
      UnionOfEmpties(ss[..|ss| - 1]);
    }
  }

  /** Routed shards are disjoint, so folding them with merge gives their
      union. */
  lemma {:induction false} RoutedUnionIsMergeAll(ss: seq<Dict>, hash: string -> nat, i: nat)
    requires Routed(ss, hash) && i <= |ss|
    ensures UnionOf(ss[..i]) == MergeAll(ss[..i])
    decreases i
  {
    if i > 0 {
      var pre := ss[..i - 1];
      assert UnionOf(ss[..i]) == UnionOf(pre) + ss[i - 1] by {
        UnionOfSnoc(ss, i - 1);
      }
      assert MergeAll(ss[..i]) == Merge(MergeAll(pre), ss[i - 1]) by {
        assert ss[..i][..i - 1] == pre;
      }
      RoutedUnionIsMergeAll(ss, hash, i - 1);
      RoutedPrefixDisjoint(ss, hash, i - 1);
      MergeDisjoint(UnionOf(pre), ss[i - 1]);
    }
  }

  // ---------------------------------------------------------------------
  // The class

  class ShardedConcurrentDictionary {

    /** `shards_`; the number of shards is fixed at construction. */
    const shards: array<Dict>
    /** `std::hash<std::string>`, left uninterpreted. */
    const hash: string -> nat

    ghost predicate Valid()
      reads shards
    {
      Routed(shards[..], hash)
    }

    /** The flat map this dictionary stands for. */
    function Flat(): Dict
      reads shards
    {
      UnionOf(shards[..])
    }

    /** `getShardIndex`: the shard a word is stored in. */
    function ShardIndex(word: string): (k: nat)
      requires shards.Length >= 1
      ensures k < shards.Length
    {
      hash(word) % shards.Length
    }

    /** `numShards` empty shards; with no shard at all the index
        computation would divide by zero, so at least one is required. */
    constructor (numShards: nat, hash: string -> nat)
      requires numShards >= 1
      ensures this.hash == hash && shards.Length == numShards && fresh(shards)
      ensures forall k :: 0 <= k < shards.Length ==> shards[k] == map[]
      ensures Valid() && Flat() == map[]
    {
      this.hash := hash;
      shards := new Dict[numShards](_ => map[]);
      new;
      UnionOfEmpties(shards[..]);
    }

    /** Insert into the shard the word hashes to; no other shard changes. */
    method Insert(word: string, bookId: nat)
      requires Valid()
      modifies shards
      ensures Valid()
      ensures Flat() == Entries.Insert(old(Flat()), word, bookId)
      ensures forall k :: 0 <= k < shards.Length && k != ShardIndex(word) ==> shards[k] == old(shards[k])
    {
      var entry := Lookup(shards[ShardIndex(word)], word);
      var updated := Entry(entry.count + 1, entry.ids + {bookId});
      assert Entries.Insert(Flat(), word, bookId) == Flat()[word := updated] by {
        RoutedLookup(shards[..], hash, word);
      }
      Store(word, updated);
    }

    /** Overwrite the entry of `word` in the shard it hashes to. */
    method Store(word: string, updated: Entry)
      requires Valid()
      modifies shards
      ensures Valid()
      ensures Flat() == old(Flat())[word := updated]
      ensures forall k :: 0 <= k < shards.Length && k != ShardIndex(word) ==> shards[k] == old(shards[k])
    {
      var k := ShardIndex(word);
      RoutedUpdate(shards[..], hash, word, updated);
      shards[k] := shards[k][word := updated];
      assert shards[..] == old(shards[..])[k := old(shards[k])[word := updated]];
    }

    /** For each shard of `other`, in order, add each of its entries into
        the shard of this dictionary its word hashes to. Both must have the
        same number of shards (`other`'s are indexed by this one's count)
        and distinct shards (`other`'s are read while this one's are
        written). */
    method Merge(other: ShardedConcurrentDictionary)
      requires Valid() && other.Valid()
      requires other.shards.Length == shards.Length
      requires other.shards != shards
      modifies shards
      ensures Valid()
      ensures Flat() == Entries.Merge(old(Flat()), other.Flat())
      ensures other.Flat() == old(other.Flat())
    {
      ghost var base := Flat();
      MergeIdentity(base);
      assert other.shards[..0] == [];
      for i := 0 to shards.Length
        invariant Valid()
        invariant Flat() == Entries.Merge(base, UnionOf(other.shards[..i]))
      {
        MergeShard(other.shards[i]);
        MergeShardStep(base, other.shards[..], other.hash, i);
      }
      assert other.shards[..shards.Length] == other.shards[..];
    }

    /** The inner loop of `merge`: add each entry of one shard of the other
        dictionary into the shard of this one its word hashes to. */
    method MergeShard(src: Dict)
      requires Valid()
      modifies shards
      ensures Valid()
      ensures Flat() == Entries.Merge(old(Flat()), src)
    {
      ghost var acc0, done: Dict := Flat(), map[];
      MergeIdentity(acc0);
      var pending := src.Keys;
      while pending != {}
        invariant pending <= src.Keys
        invariant Visited(done, src, pending)
        invariant Valid()
        invariant Flat() == Entries.Merge(acc0, done)
        decreases |pending|
      {
        var word :| word in pending;
        var entry := src[word];
        MergeEntry(acc0, done, word, entry);
        VisitedStep(done, src, pending, word);
        done := done[word := entry];
        pending := pending - {word};
      }
      VisitedAll(done, src);
    }

    /** One step of the inner loop of `merge`, stated against the part
        `done` of the source shard already merged into `acc0`. */
    method MergeEntry(ghost acc0: Dict, ghost done: Dict, word: string, e: Entry)
      requires Valid() && word !in done && Flat() == Entries.Merge(acc0, done)
      modifies shards
      ensures Valid()
      ensures Flat() == Entries.Merge(acc0, done[word := e])
    {
      ghost var acc := Flat();
      AddInto(word, e);
      assert Flat() == Entries.Merge(acc0, done[word := e]) by {
        MergeLoopStep(acc0, done, acc, word, e);
      }
    }

    /** `myEntry.wordCount += entry.wordCount` and the union of the ids, on
        the entry (default-constructed if missing) of the shard `word`
        hashes to. */
    method AddInto(word: string, e: Entry)
      requires Valid()
      modifies shards
      ensures Valid()
      ensures Flat() == old(Flat())[word := Entry(Lookup(old(Flat()), word).count + e.count, Lookup(old(Flat()), word).ids + e.ids)]
    {
      var mine := Lookup(shards[ShardIndex(word)], word);
      RoutedLookup(shards[..], hash, word);
      Store(word, Entry(mine.count + e.count, mine.ids + e.ids));
    }

    /** Erase every entry whose count is exactly 1, shard by shard. */
    method RemoveSingleOccurrences()
      requires Valid()
      modifies shards
      ensures Valid()
      ensures Flat() == Prune(old(Flat()))
      ensures forall k :: 0 <= k < shards.Length ==> shards[k] == Prune(old(shards[k]))
    {
      for i := 0 to shards.Length
        invariant forall k :: 0 <= k < i ==> shards[k] == Prune(old(shards[k]))
        invariant forall k :: i <= k < shards.Length ==> shards[k] == old(shards[k])
      {
        shards[i] := DictLoops.EraseSingles(shards[i]);
      }
      RoutedPrune(old(shards[..]), shards[..], hash);
    }
  }

  /** Folding the whole of source shard `i` into `Merge(base, union of the
      source shards before i)` gives `Merge(base, union of the source shards
      up to and including i)`. */
  lemma MergeShardStep(base: Dict, src: seq<Dict>, hash: string -> nat, i: nat)
    requires Routed(src, hash) && i < |src|
    ensures Entries.Merge(Entries.Merge(base, UnionOf(src[..i])), src[i]) == Entries.Merge(base, UnionOf(src[..i + 1]))
  {
    MergeAssociative(base, UnionOf(src[..i]), src[i]);
    RoutedPrefixDisjoint(src, hash, i);
    MergeDisjoint(UnionOf(src[..i]), src[i]);
    UnionOfSnoc(src, i);
  }
}
