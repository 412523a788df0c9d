/**
 The word-occurrence index shared by every dictionary of the program: a map
 from each word to its entry (occurrence count and the ids of the books it was
 seen in), together with the three operations all variants perform on it
 (insert, merge, remove single occurrences) and their algebra.
 */
module Entries {

  /** One word's aggregate: how often it occurred, and in which books. */
  datatype Entry = Entry(count: nat, ids: set<nat>)

  /** The flat index: each word to its entry. */
  type Dict = map<string, Entry>

  /** One recorded occurrence: a word seen in a book. */
  datatype Occurrence = Occurrence(word: string, bookId: nat)

  /** The entry of `w`, or for a word not yet present the empty entry that
      a default-constructing lookup (`dict[word]` in C++, `or_insert_with`
      in Rust) creates. */
  function Lookup(d: Dict, w: string): Entry {
    if w in d then d[w] else Entry(0, {})
  }

  function Combine(a: Entry, b: Entry): Entry {
    Entry(a.count + b.count, a.ids + b.ids)
  }

  /** Record one occurrence of `w` in book `id`. */
  function Insert(d: Dict, w: string, id: nat): (r: Dict)
    ensures r.Keys == d.Keys + {w}
    ensures r[w] == Entry(Lookup(d, w).count + 1, Lookup(d, w).ids + {id})
    ensures forall v :: v in d && v != w ==> r[v] == d[v]
  {
    var e := Lookup(d, w);
    d[w := Entry(e.count + 1, e.ids + {id})]
  }

  /** Add `b`'s counts and id sets into `a`, word by word. */
  function Merge(a: Dict, b: Dict): Dict {
    map w | w in a.Keys + b.Keys :: Combine(Lookup(a, w), Lookup(b, w))
  }

  /** The C++ pruning: every entry whose count is exactly 1 is erased. */
  function Prune(d: Dict): (r: Dict)
    ensures forall w :: w in r <==> w in d && d[w].count != 1
    ensures forall w :: w in r ==> w in d && r[w] == d[w]
  {
    map w | w in d && d[w].count != 1 :: d[w]
  }

  /** The Rust pruning: only the entries whose count exceeds 1 are retained. */
  function KeepRepeated(d: Dict): (r: Dict)
    ensures forall w :: w in r ==> w in d && r[w] == d[w] && r[w].count > 1
    ensures forall w :: w in d && d[w].count > 1 ==> w in r
  {
    map w | w in d && d[w].count > 1 :: d[w]
  }

  /** Every entry that exists has been inserted at least once. */
  ghost predicate WellFormed(d: Dict) {
    forall w :: w in d ==> d[w].count >= 1 && d[w].ids != {}
  }

  // ---------------------------------------------------------------------
  // Merge: pointwise meaning and algebra

  lemma MergeLookup(a: Dict, b: Dict, w: string)
    ensures Lookup(Merge(a, b), w) == Combine(Lookup(a, w), Lookup(b, w))
  {
    if w !in a && w !in b {
      assert w !in Merge(a, b);
      CombineIdentity(Entry(0, {}));
    }
  }

  lemma CombineIdentity(e: Entry)
    ensures Combine(e, Entry(0, {})) == e && Combine(Entry(0, {}), e) == e
  {
    assert e.ids + {} == e.ids == {} + e.ids;
  }

  lemma CombineCommutative(x: Entry, y: Entry)
    ensures Combine(x, y) == Combine(y, x)
  {
    assert x.ids + y.ids == y.ids + x.ids;
  }

  lemma CombineAssociative(x: Entry, y: Entry, z: Entry)
    ensures Combine(Combine(x, y), z) == Combine(x, Combine(y, z))
  {
    assert (x.ids + y.ids) + z.ids == x.ids + (y.ids + z.ids);
  }

  /** The empty dictionary (`Dictionary::new()`, a fresh `finalDict`) is a
      two-sided identity of merge. */
  lemma MergeIdentity(a: Dict)
    ensures Merge(a, map[]) == a
    ensures Merge(map[], a) == a
  {
    var l, r := Merge(a, map[]), Merge(map[], a);
    assert l.Keys == a.Keys && r.Keys == a.Keys;
    forall w | w in a
      ensures l[w] == a[w] && r[w] == a[w]
    {
      CombineIdentity(a[w]);
    }
  }

  lemma MergeCommutative(a: Dict, b: Dict)
    ensures Merge(a, b) == Merge(b, a)
  {
    var l, r := Merge(a, b), Merge(b, a);
    assert l.Keys == r.Keys;
    forall w | w in l
      ensures l[w] == r[w]
    {
      CombineCommutative(Lookup(a, w), Lookup(b, w));
    }
  }

  lemma MergeAssociative(a: Dict, b: Dict, c: Dict)
    ensures Merge(Merge(a, b), c) == Merge(a, Merge(b, c))
  {
    var ab, bc := Merge(a, b), Merge(b, c);
    var l, r := Merge(ab, c), Merge(a, bc);
    assert l.Keys == r.Keys by {
      assert ab.Keys == a.Keys + b.Keys && bc.Keys == b.Keys + c.Keys;
    }
    forall w | w in l
      ensures l[w] == r[w]
    {
      MergeLookup(a, b, w);
      MergeLookup(b, c, w);
      MergeLookup(ab, c, w);
      MergeLookup(a, bc, w);
      CombineAssociative(Lookup(a, w), Lookup(b, w), Lookup(c, w));
    }
    SameMap(l, r);
  }

  /** Merging dictionaries with disjoint words is plain map union: this is why
      shards, which hold disjoint words, can be merged one at a time. */
  lemma MergeDisjoint(a: Dict, b: Dict)
    requires a.Keys !! b.Keys
    ensures Merge(a, b) == a + b
  {
    var l := Merge(a, b);
    forall w | w in l
      ensures w in a + b && l[w] == (a + b)[w]
    {
      MergeLookup(a, b, w);
    }
  }

  /** Inserting one occurrence is merging a one-word dictionary. */
  lemma InsertIsMerge(d: Dict, w: string, id: nat)
    ensures Insert(d, w, id) == Merge(d, map[w := Entry(1, {id})])
  {
    var l, r := Insert(d, w, id), Merge(d, map[w := Entry(1, {id})]);
    forall v | v in r
      ensures v in l && l[v] == r[v]
    {
      MergeLookup(d, map[w := Entry(1, {id})], v);
    }
  }

  /** One step of a merge loop: folding the entry `e` of one more word `w`
      of the source into a partial result. */
  lemma MergeStep(base: Dict, done: Dict, w: string, e: Entry)
    requires w !in done
    ensures var m := Merge(base, done);
            Merge(base, done[w := e]) == m[w := Combine(Lookup(m, w), e)]
  {
    var m := Merge(base, done);
    var l, r := Merge(base, done[w := e]), m[w := Combine(Lookup(m, w), e)];
    assert l.Keys == r.Keys;
    assert Lookup(m, w) == Lookup(base, w) by {
      var x := Lookup(base, w);
      assert x.ids + {} == x.ids;
    }
    forall v | v in l
      ensures l[v] == r[v]
    {
    }
  }

  /** The body of every merge loop: the entry `e` of a word `w` not yet
      merged is added into the entry `w` has in the partial result `acc`. */
  lemma MergeLoopStep(base: Dict, done: Dict, acc: Dict, w: string, e: Entry)
    requires w !in done
    requires acc == Merge(base, done)
    ensures Merge(base, done[w := e])
         == acc[w := Entry(Lookup(acc, w).count + e.count, Lookup(acc, w).ids + e.ids)]
  {
    MergeStep(base, done, w, e);
  }

  /** The part of `src` a merge loop has visited: its entries for every
      key not `pending`. */
  ghost predicate Visited(done: Dict, src: Dict, pending: set<string>) {
    done.Keys == src.Keys - pending && forall w :: w in done ==> done[w] == src[w]
  }

  lemma VisitedStep(done: Dict, src: Dict, pending: set<string>, w: string)
    requires Visited(done, src, pending) && w in pending && pending <= src.Keys
    ensures w !in done && Visited(done[w := src[w]], src, pending - {w})
  {
  }

  lemma VisitedAll(done: Dict, src: Dict)
    requires Visited(done, src, {})
    ensures done == src
  {
    assert done == src;
  }

  /** Two maps with the same keys and the same values are equal. */
  lemma SameMap(a: Dict, b: Dict)
    requires a.Keys == b.Keys
    requires forall w :: w in a ==> a[w] == b[w]
    ensures a == b
  {
  }

  // ---------------------------------------------------------------------
  // The entry invariant: counts start at 0 and only grow

  lemma InsertWellFormed(d: Dict, w: string, id: nat)
    requires WellFormed(d)
    ensures WellFormed(Insert(d, w, id))
  {
  }

  lemma MergeWellFormed(a: Dict, b: Dict)
    requires WellFormed(a) && WellFormed(b)
    ensures WellFormed(Merge(a, b))
  {
    forall w | w in Merge(a, b)
      ensures Merge(a, b)[w].count >= 1 && Merge(a, b)[w].ids != {}
    {
      MergeLookup(a, b, w);
      if w in a {
        assert a[w].ids <= Merge(a, b)[w].ids;
      } else {
        assert b[w].ids <= Merge(a, b)[w].ids;
      }
    }
  }

  lemma PruneWellFormed(d: Dict)
    requires WellFormed(d)
    ensures WellFormed(Prune(d))
  {
  }

  /** Pruning twice removes nothing more. */
  lemma PruneIdempotent(d: Dict)
    ensures Prune(Prune(d)) == Prune(d)
  {
  }

  /** On well-formed dictionaries the C++ rule (erase count == 1) and the
      Rust rule (retain count > 1) agree; they differ only on a count of 0,
      which no dictionary built by inserts holds. */
  lemma PruneIsKeepRepeated(d: Dict)
    requires WellFormed(d)
    ensures Prune(d) == KeepRepeated(d)
  {
  }

  lemma PruneRulesDifferOnZero()
    ensures Prune(map["w" := Entry(0, {})]) != KeepRepeated(map["w" := Entry(0, {})])
  {
    assert "w" in Prune(map["w" := Entry(0, {})]);
  }

  // ---------------------------------------------------------------------
  // Folding many dictionaries into a fresh accumulator

  /** `finalDict` after merging `ds[0]`, ..., `ds[|ds|-1]` in that order into
      an empty dictionary. */
  function MergeAll(ds: seq<Dict>): Dict
    decreases |ds|
  {
    if ds == [] then map[] else Merge(MergeAll(ds[..|ds| - 1]), ds[|ds| - 1])
  }

  /** The sum over `ds` of the count of `w`. */
  function TotalCount(ds: seq<Dict>, w: string): nat
    decreases |ds|
  {
    if ds == [] then 0 else TotalCount(ds[..|ds| - 1], w) + Lookup(ds[|ds| - 1], w).count
  }

  /** The union over `ds` of the ids of `w`. */
  function AllIds(ds: seq<Dict>, w: string): set<nat>
    decreases |ds|
  {
    if ds == [] then {} else AllIds(ds[..|ds| - 1], w) + Lookup(ds[|ds| - 1], w).ids
  }

  /** After the fold, each word's count is its total over all dictionaries
      and its ids are the union of theirs. */
  lemma {:induction false} MergeAllTallies(ds: seq<Dict>, w: string)
    ensures Lookup(MergeAll(ds), w) == Entry(TotalCount(ds, w), AllIds(ds, w))
    decreases |ds|
  {
    if ds != [] {
      var init, last := ds[..|ds| - 1], ds[|ds| - 1];
      MergeAllTallies(init, w);
      MergeLookup(MergeAll(init), last, w);
    }
  }

  /** The fold holds exactly the words of the dictionaries folded. */
  lemma {:induction false} MergeAllKeys(ds: seq<Dict>, w: string)
    ensures w in MergeAll(ds) <==> exists k :: 0 <= k < |ds| && w in ds[k]
    decreases |ds|
  {
    if ds != [] {
      var init := ds[..|ds| - 1];
      MergeAllKeys(init, w);
      assert w in MergeAll(ds) <==> w in MergeAll(init) || w in ds[|ds| - 1];
      if w in MergeAll(init) {
        var k :| 0 <= k < |init| && w in init[k];
        assert w in ds[k];
      }
      if exists k :: 0 <= k < |ds| && w in ds[k] {
        var k :| 0 <= k < |ds| && w in ds[k];
        if k < |init| {
          assert w in init[k];
        }
      }
    }
  }

  lemma {:induction false} MergeAllAppend(xs: seq<Dict>, ys: seq<Dict>)
    ensures MergeAll(xs + ys) == Merge(MergeAll(xs), MergeAll(ys))
    decreases |ys|
  {
    if ys == [] {
      assert xs + ys == xs;
      MergeIdentity(MergeAll(xs));
    } else {
      var init, last := ys[..|ys| - 1], ys[|ys| - 1];
      assert (xs + ys)[..|xs + ys| - 1] == xs + init;
      MergeAllAppend(xs, init);
      MergeAssociative(MergeAll(xs), MergeAll(init), last);
    }
  }

  lemma MergeAllSingleton(d: Dict)
    ensures MergeAll([d]) == d
  {
    assert [d][..0] == [];
    MergeIdentity(d);
  }

  /** Folding a dictionary in the middle is folding it last. */
  lemma MergeAllMoveLast(before: seq<Dict>, x: Dict, after: seq<Dict>)
    ensures MergeAll(before + [x] + after) == Merge(MergeAll(before + after), x)
  {
    assert before + [x] + after == before + ([x] + after);
    calc {
      MergeAll(before + ([x] + after));
      { MergeAllAppend(before, [x] + after); }
      Merge(MergeAll(before), MergeAll([x] + after));
      { MergeAllAppend([x], after); MergeAllSingleton(x); }
      Merge(MergeAll(before), Merge(x, MergeAll(after)));
      { MergeCommutative(x, MergeAll(after)); }
      Merge(MergeAll(before), Merge(MergeAll(after), x));
      { MergeAssociative(MergeAll(before), MergeAll(after), x); }
      Merge(Merge(MergeAll(before), MergeAll(after)), x);
      { MergeAllAppend(before, after); }
      Merge(MergeAll(before + after), x);
    }
  }

  /** Taking the same element out of two sequences with the same elements
      leaves two sequences with the same elements. */
  lemma MultisetRemove(init: seq<Dict>, x: Dict, ys: seq<Dict>, j: nat)
    requires multiset(init + [x]) == multiset(ys)
    requires j < |ys| && ys[j] == x
    ensures multiset(init) == multiset(ys[..j] + ys[j + 1..])
  {
    var before, after := ys[..j], ys[j + 1..];
    assert ys == before + [x] + after;
    assert multiset(ys) == multiset(before) + multiset{x} + multiset(after);
    assert multiset(before + after) == multiset(before) + multiset(after);
    assert multiset(init + [x]) == multiset(init) + multiset{x};
    assert multiset(init) == multiset(init + [x]) - multiset{x};
    assert multiset(before) + multiset(after) == multiset(ys) - multiset{x};
  }

  /** The fold does not depend on the order of the dictionaries. */
  lemma {:induction false} MergeAllPermutation(xs: seq<Dict>, ys: seq<Dict>)
    requires multiset(xs) == multiset(ys)
    ensures MergeAll(xs) == MergeAll(ys)
    decreases |xs|
  {
    if xs == [] {
      assert |ys| == |multiset(ys)| == 0;
    } else {
      var init, x := xs[..|xs| - 1], xs[|xs| - 1];
      assert xs == init + [x];
      assert x in multiset(ys);
      var j :| 0 <= j < |ys| && ys[j] == x;
      var before, after := ys[..j], ys[j + 1..];
      assert MergeAll(ys) == Merge(MergeAll(before + after), x) by {
        assert ys == before + [x] + after;
        MergeAllMoveLast(before, x, after);
      }
      MultisetRemove(init, x, ys, j);
      MergeAllPermutation(init, before + after);
    }
  }

  /** Unused worker dictionaries (left empty when there are fewer books than
      threads) do not change the fold. */
  lemma {:induction false} MergeAllEmpties(xs: seq<Dict>, es: seq<Dict>)
    requires forall k :: 0 <= k < |es| ==> es[k] == map[]
    ensures MergeAll(xs + es) == MergeAll(xs)
    decreases |es|
  {
    if es == [] {
      assert xs + es == xs;
    } else {
      var fewer := es[..|es| - 1];
      assert MergeAll(xs + es) == Merge(MergeAll(xs + fewer), map[]) by {
        assert (xs + es)[..|xs + es| - 1] == xs + fewer;
      }
      MergeAllEmpties(xs, fewer);
      MergeIdentity(MergeAll(xs + fewer));
    }
  }

  lemma {:induction false} MergeAllWellFormed(ds: seq<Dict>)
    requires forall k :: 0 <= k < |ds| ==> WellFormed(ds[k])
    ensures WellFormed(MergeAll(ds))
    decreases |ds|
  {
    if ds != [] {
      MergeAllWellFormed(ds[..|ds| - 1]);
      MergeWellFormed(MergeAll(ds[..|ds| - 1]), ds[|ds| - 1]);
    }
  }

  // ---------------------------------------------------------------------
  // A dictionary built by a sequence of inserts

  /** `d` after inserting every occurrence of `occ`, in order. */
  function InsertAll(d: Dict, occ: seq<Occurrence>): Dict
    decreases |occ|
  {
    if occ == [] then d
    else
      var last := occ[|occ| - 1];
      Insert(InsertAll(d, occ[..|occ| - 1]), last.word, last.bookId)
  }

  /** How many occurrences of `w` the sequence holds. */
  function CountOf(occ: seq<Occurrence>, w: string): nat
    decreases |occ|
  {
    if occ == [] then 0
    else CountOf(occ[..|occ| - 1], w) + (if occ[|occ| - 1].word == w then 1 else 0)
  }

  /** The books in which the sequence records `w`. */
  function IdsOf(occ: seq<Occurrence>, w: string): set<nat>
    decreases |occ|
  {
    if occ == [] then {}
    else IdsOf(occ[..|occ| - 1], w) + (if occ[|occ| - 1].word == w then {occ[|occ| - 1].bookId} else {})
  }

  lemma InsertAllSnoc(d: Dict, occ: seq<Occurrence>, x: Occurrence)
    ensures InsertAll(d, occ + [x]) == Insert(InsertAll(d, occ), x.word, x.bookId)
  {
    assert (occ + [x])[..|occ|] == occ;
  }

  /** An entry's count is the number of inserts of its word and its ids are
      the distinct books those inserts named; a word is present exactly when
      it was inserted at least once. */
  lemma {:induction false} InsertAllTallies(occ: seq<Occurrence>, w: string)
    ensures Lookup(InsertAll(map[], occ), w) == Entry(CountOf(occ, w), IdsOf(occ, w))
    ensures w in InsertAll(map[], occ) <==> CountOf(occ, w) > 0
    decreases |occ|
  {
    if occ != [] {
      InsertAllTallies(occ[..|occ| - 1], w);
    }
  }

  /** Inserting the same word with the same book id k times (k >= 1)
      yields exactly that word with count k and that one id. */
  lemma RepeatedInsert(w: string, id: nat, k: nat)
    requires k >= 1
    ensures InsertAll(map[], seq(k, _ => Occurrence(w, id))) == map[w := Entry(k, {id})]
  {
    var occ := seq(k, _ => Occurrence(w, id));
    var d := InsertAll(map[], occ);
    forall v | v in d
      ensures v == w
    {
      InsertAllTallies(occ, v);
      if v != w {
        CountOfOther(occ, w, id, v);
      }
    }
    InsertAllTallies(occ, w);
    RepeatedTallies(w, id, k);
  }

  lemma {:induction false} CountOfOther(occ: seq<Occurrence>, w: string, id: nat, v: string)
    requires forall k :: 0 <= k < |occ| ==> occ[k] == Occurrence(w, id)
    requires v != w
    ensures CountOf(occ, v) == 0
    decreases |occ|
  {
    if occ != [] {
      CountOfOther(occ[..|occ| - 1], w, id, v);
    }
  }

  lemma {:induction false} RepeatedTallies(w: string, id: nat, k: nat)
    ensures CountOf(seq(k, _ => Occurrence(w, id)), w) == k
    ensures IdsOf(seq(k, _ => Occurrence(w, id)), w) == if k == 0 then {} else {id}
    decreases k
  {
    if k > 0 {
      assert seq(k, _ => Occurrence(w, id))[..k - 1] == seq(k - 1, _ => Occurrence(w, id));
      RepeatedTallies(w, id, k - 1);
    }
  }

  lemma {:induction false} InsertAllAppend(d: Dict, xs: seq<Occurrence>, ys: seq<Occurrence>)
    ensures InsertAll(d, xs + ys) == InsertAll(InsertAll(d, xs), ys)
    decreases |ys|
  {
    if ys == [] {
      assert xs + ys == xs;
    } else {
      assert (xs + ys)[..|xs + ys| - 1] == xs + ys[..|ys| - 1];
      InsertAllAppend(d, xs, ys[..|ys| - 1]);
    }
  }

  /** Inserting occurrences into `d` is the same as inserting them into a
      fresh dictionary and merging that into `d`: a worker-private dictionary
      merged afterwards gives what shared inserts would have given. */
  lemma {:induction false} InsertAllIsMerge(d: Dict, occ: seq<Occurrence>)
    ensures InsertAll(d, occ) == Merge(d, InsertAll(map[], occ))
    decreases |occ|
  {
    if occ == [] {
      MergeIdentity(d);
    } else {
      var init, last := occ[..|occ| - 1], occ[|occ| - 1];
      var single := map[last.word := Entry(1, {last.bookId})];
      InsertAllIsMerge(d, init);
      calc {
        InsertAll(d, occ);
        Insert(InsertAll(d, init), last.word, last.bookId);
        { InsertIsMerge(InsertAll(d, init), last.word, last.bookId); }
        Merge(Merge(d, InsertAll(map[], init)), single);
        { MergeAssociative(d, InsertAll(map[], init), single); }
        Merge(d, Merge(InsertAll(map[], init), single));
        { InsertIsMerge(InsertAll(map[], init), last.word, last.bookId); }
        Merge(d, InsertAll(map[], occ));
      }
    }
  }

  lemma {:induction false} InsertAllWellFormed(d: Dict, occ: seq<Occurrence>)
    requires WellFormed(d)
    ensures WellFormed(InsertAll(d, occ))
    decreases |occ|
  {
    if occ != [] {
      var last := occ[|occ| - 1];
      InsertAllWellFormed(d, occ[..|occ| - 1]);
      InsertWellFormed(InsertAll(d, occ[..|occ| - 1]), last.word, last.bookId);
    }
  }
}
