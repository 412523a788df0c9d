/**
 A worked example of the whole pipeline: the book "The Fox ran." (id 0) and
 the book "The fox the FOX." (id 1). Of the three words only "the" and "fox"
 occur more than once; each occurs three times, in both books.
 */
module Scenario {

  import opened Seqs
  import opened Entries
  import opened Tokenizer
  import opened Ingestion

  const BookZero: Book := Opened(["The Fox ran."])
  const BookOne: Book := Opened(["The fox the FOX."])

  /** What survives the prune. */
  const Expected: Dict := map["the" := Entry(3, {0, 1}), "fox" := Entry(3, {0, 1})]

  /** Lower-casing three letters, one character at a time. */
  lemma LowerThree(w: string, a: char, b: char, c: char)
    requires |w| == 3
    requires AsciiLower(w[0]) == a && AsciiLower(w[1]) == b && AsciiLower(w[2]) == c
    ensures LowerAll(w, Ascii) == [a, b, c]
  {
  }

  /** A non-empty run of ASCII letters. */
  predicate IsRun(w: string) {
    w != [] && forall i :: 0 <= i < |w| ==> IsAsciiLetter(w[i])
  }

  /** A word followed by a separator and more text. */
  lemma WordThen(w: string, c: char, rest: string)
    requires IsRun(w) && !IsAsciiLetter(c)
    ensures Words(w + [c] + rest, Ascii) == [LowerAll(w, Ascii)] + Words(rest, Ascii)
  {
    WordsSplit(w, c, rest, Ascii);
    WordsOfRun(w, Ascii);
  }

  /** The line made of the runs `ws`, each followed by its separator. */
  function Joined(ws: seq<string>, seps: string): string
    requires |seps| == |ws|
  {
    if ws == [] then [] else ws[0] + [seps[0]] + Joined(ws[1..], seps[1..])
  }

  /** Such a line splits back into its runs, lower-cased. */
  lemma {:induction false} WordsOfJoined(ws: seq<string>, seps: string)
    requires |seps| == |ws|
    requires forall k :: 0 <= k < |ws| ==> IsRun(ws[k]) && !IsAsciiLetter(seps[k])
    ensures Words(Joined(ws, seps), Ascii) == seq(|ws|, k requires 0 <= k < |ws| => LowerAll(ws[k], Ascii))
  {
    if ws != [] {
      WordsOfJoined(ws[1..], seps[1..]);
      WordThen(ws[0], seps[0], Joined(ws[1..], seps[1..]));
    }
  }

  lemma LineZeroJoined()
    ensures "The Fox ran." == Joined(["The", "Fox", "ran"], "  .")
  {
  }

  lemma LineZeroRuns()
    ensures forall k :: 0 <= k < 3 ==> IsRun(["The", "Fox", "ran"][k]) && !IsAsciiLetter("  ."[k])
  {
  }

  lemma LineZeroLowered()
    ensures seq(3, k requires 0 <= k < 3 => LowerAll(["The", "Fox", "ran"][k], Ascii)) == ["the", "fox", "ran"]
  {
    LowerThree("The", 't', 'h', 'e');
    LowerThree("Fox", 'f', 'o', 'x');
    LowerThree("ran", 'r', 'a', 'n');
  }

  lemma LineOneJoined()
    ensures "The fox the FOX." == Joined(["The", "fox", "the", "FOX"], "   .")
  {
  }

  lemma LineOneRuns()
    ensures forall k :: 0 <= k < 4 ==> IsRun(["The", "fox", "the", "FOX"][k]) && !IsAsciiLetter("   ."[k])
  {
  }

  lemma LineOneLowered()
    ensures seq(4, k requires 0 <= k < 4 => LowerAll(["The", "fox", "the", "FOX"][k], Ascii))
         == ["the", "fox", "the", "fox"]
  {
    LowerThree("The", 't', 'h', 'e');
    LowerThree("fox", 'f', 'o', 'x');
    LowerThree("the", 't', 'h', 'e');
    LowerThree("FOX", 'f', 'o', 'x');
  }

  lemma SplitBookZero()
    ensures Words("The Fox ran.", Ascii) == ["the", "fox", "ran"]
  {
    LineZeroJoined();
    LineZeroRuns();
    WordsOfJoined(["The", "Fox", "ran"], "  .");
    LineZeroLowered();
  }

  lemma SplitBookOne()
    ensures Words("The fox the FOX.", Ascii) == ["the", "fox", "the", "fox"]
  {
    LineOneJoined();
    LineOneRuns();
    WordsOfJoined(["The", "fox", "the", "FOX"], "   .");
    LineOneLowered();
  }

  /** A book of one line contributes that line's words. */
  lemma OneLineBook(line: string, id: nat, split: string -> seq<string>)
    ensures Occurrences([Opened([line])], id, split) == Tag(split(line), id)
  {
    assert PerLine([line], id, split) == [Tag(split(line), id)];
    FlattenSingleton(Tag(split(line), id));
    assert PerBook([Opened([line])], id, split) == [Tag(split(line), id)];
  }

  /** The occurrences of a one-line book, once its line is split. */
  lemma OneLineOccurrences(line: string, id: nat, ws: seq<string>)
    requires Words(line, Ascii) == ws
    ensures Occurrences([Opened([line])], id, SplitWith(Ascii)) == Tag(ws, id)
  {
    OneLineBook(line, id, SplitWith(Ascii));
  }

  /** Two different words of one book, each once. */
  lemma IndexPair(u: string, v: string, id: nat)
    requires u != v
    ensures InsertAll(map[], [Occurrence(u, id), Occurrence(v, id)]) == map[u := Entry(1, {id}), v := Entry(1, {id})]
  {
    var a, b := Occurrence(u, id), Occurrence(v, id);
    assert {} + {id} == {id};
    assert InsertAll(map[], [a]) == map[u := Entry(1, {id})] by {
      InsertAllSnoc(map[], [], a);
      assert [] + [a] == [a];
      assert InsertAll(map[], []) == map[];
    }
    InsertAllSnoc(map[], [a], b);
    assert [a] + [b] == [a, b];
  }

  /** Three different words of one book, each once. */
  lemma IndexDistinct(u: string, v: string, w: string, id: nat)
    requires u != v && u != w && v != w
    ensures InsertAll(map[], [Occurrence(u, id), Occurrence(v, id), Occurrence(w, id)])
         == map[u := Entry(1, {id}), v := Entry(1, {id}), w := Entry(1, {id})]
  {
    var a, b, c := Occurrence(u, id), Occurrence(v, id), Occurrence(w, id);
    IndexPair(u, v, id);
    InsertAllSnoc(map[], [a, b], c);
    assert [a, b] + [c] == [a, b, c];
    assert {} + {id} == {id};
  }

  /** Two different words of one book, alternating, each twice. */
  lemma IndexAlternating(u: string, v: string, id: nat)
    requires u != v
    ensures InsertAll(map[], [Occurrence(u, id), Occurrence(v, id), Occurrence(u, id), Occurrence(v, id)])
         == map[u := Entry(2, {id}), v := Entry(2, {id})]
  {
    var a, b := Occurrence(u, id), Occurrence(v, id);
    IndexPair(u, v, id);
    assert {id} + {id} == {id};
    assert InsertAll(map[], [a, b, a]) == map[u := Entry(2, {id}), v := Entry(1, {id})] by {
      InsertAllSnoc(map[], [a, b], a);
      assert [a, b] + [a] == [a, b, a];
    }
    InsertAllSnoc(map[], [a, b, a], b);
    assert [a, b, a] + [b] == [a, b, a, b];
  }

  /** Merging the two books' dictionaries adds up the counts of the
      shared words and unites their ids ... */
  lemma MergeBooks(u: string, v: string, w: string)
    requires u != v && u != w && v != w
    ensures Merge(map[u := Entry(1, {0}), v := Entry(1, {0}), w := Entry(1, {0})],
                  map[u := Entry(2, {1}), v := Entry(2, {1})])
         == map[u := Entry(3, {0, 1}), v := Entry(3, {0, 1}), w := Entry(1, {0})]
  {
    var m := Merge(map[u := Entry(1, {0}), v := Entry(1, {0}), w := Entry(1, {0})],
                   map[u := Entry(2, {1}), v := Entry(2, {1})]);
    assert m.Keys == {u, v, w};
    assert {0} + {1} == {0, 1} && {0} + {} == {0};
  }

  /** ... and pruning then drops the word seen once. */
  lemma PruneBooks(u: string, v: string, w: string)
    requires u != v && u != w && v != w
    ensures Prune(map[u := Entry(3, {0, 1}), v := Entry(3, {0, 1}), w := Entry(1, {0})])
         == map[u := Entry(3, {0, 1}), v := Entry(3, {0, 1})]
  {
    assert Prune(map[u := Entry(3, {0, 1}), v := Entry(3, {0, 1}), w := Entry(1, {0})]).Keys == {u, v};
  }

  /** The two books in general: a first book whose line splits into the
      three different words `u`, `v`, `w`, a second whose line splits into
      `u`, `v`, `u`, `v`. Each book indexed on its own: */
  lemma IndexFirstBook(u: string, v: string, w: string, line: string)
    requires u != v && u != w && v != w
    requires Words(line, Ascii) == [u, v, w]
    ensures InsertAll(map[], Occurrences([Opened([line])], 0, SplitWith(Ascii)))
         == map[u := Entry(1, {0}), v := Entry(1, {0}), w := Entry(1, {0})]
  {
    OneLineOccurrences(line, 0, [u, v, w]);
    assert Tag([u, v, w], 0) == [Occurrence(u, 0), Occurrence(v, 0), Occurrence(w, 0)];
    IndexDistinct(u, v, w, 0);
  }

  lemma IndexSecondBook(u: string, v: string, line: string)
    requires u != v
    requires Words(line, Ascii) == [u, v, u, v]
    ensures InsertAll(map[], Occurrences([Opened([line])], 1, SplitWith(Ascii)))
         == map[u := Entry(2, {1}), v := Entry(2, {1})]
  {
    OneLineOccurrences(line, 1, [u, v, u, v]);
    assert Tag([u, v, u, v], 1) == [Occurrence(u, 1), Occurrence(v, 1), Occurrence(u, 1), Occurrence(v, 1)];
    IndexAlternating(u, v, 1);
  }

  /** Two books indexed together are the merge of the two indexed apart. */
  lemma IndexOfTwo(b0: Book, b1: Book, split: string -> seq<string>)
    ensures Index([b0, b1], split)
         == Merge(InsertAll(map[], Occurrences([b0], 0, split)), InsertAll(map[], Occurrences([b1], 1, split)))
  {
    var x, y := Occurrences([b0], 0, split), Occurrences([b1], 1, split);
    assert Occurrences([b0, b1], 0, split) == x + y by {
      assert [b0, b1] == [b0] + [b1];
      OccurrencesAppend([b0], [b1], 0, split);
    }
    InsertAllAppend(map[], x, y);
    InsertAllIsMerge(InsertAll(map[], x), y);
  }

  /** Folding two dictionaries, in either order, merges them. */
  lemma MergeAllTwo(a: Dict, b: Dict)
    ensures MergeAll([a, b]) == Merge(a, b) && MergeAll([b, a]) == Merge(a, b)
  {
    MergeAllAppend([a], [b]);
    MergeAllAppend([b], [a]);
    MergeAllSingleton(a);
    MergeAllSingleton(b);
    assert [a] + [b] == [a, b] && [b] + [a] == [b, a];
    MergeCommutative(a, b);
  }

  /** ... both books into one dictionary, then pruned: */
  lemma OneDictionary(u: string, v: string, w: string, line0: string, line1: string)
    requires u != v && u != w && v != w
    requires Words(line0, Ascii) == [u, v, w] && Words(line1, Ascii) == [u, v, u, v]
    ensures Prune(Index([Opened([line0]), Opened([line1])], SplitWith(Ascii)))
         == map[u := Entry(3, {0, 1}), v := Entry(3, {0, 1})]
  {
    IndexOfTwo(Opened([line0]), Opened([line1]), SplitWith(Ascii));
    IndexFirstBook(u, v, w, line0);
    IndexSecondBook(u, v, line1);
    MergeBooks(u, v, w);
    PruneBooks(u, v, w);
  }

  /** ... and each book in a dictionary of its own, merged into a fresh
      final dictionary in either order, then pruned. */
  lemma TwoDictionaries(u: string, v: string, w: string, line0: string, line1: string)
    requires u != v && u != w && v != w
    requires Words(line0, Ascii) == [u, v, w] && Words(line1, Ascii) == [u, v, u, v]
    ensures Prune(MergeAll([InsertAll(map[], Occurrences([Opened([line0])], 0, SplitWith(Ascii))),
                            InsertAll(map[], Occurrences([Opened([line1])], 1, SplitWith(Ascii)))]))
         == map[u := Entry(3, {0, 1}), v := Entry(3, {0, 1})]
    ensures Prune(MergeAll([InsertAll(map[], Occurrences([Opened([line1])], 1, SplitWith(Ascii))),
                            InsertAll(map[], Occurrences([Opened([line0])], 0, SplitWith(Ascii)))]))
         == map[u := Entry(3, {0, 1}), v := Entry(3, {0, 1})]
  {
    MergeAllTwo(InsertAll(map[], Occurrences([Opened([line0])], 0, SplitWith(Ascii))),
                InsertAll(map[], Occurrences([Opened([line1])], 1, SplitWith(Ascii))));
    IndexFirstBook(u, v, w, line0);
    IndexSecondBook(u, v, line1);
    MergeBooks(u, v, w);
    PruneBooks(u, v, w);
  }

  /** Both books into one dictionary, through the pipeline's own definition
      of the index, then pruned: exactly "the" and "fox" are left, three
      times each, in books 0 and 1. */
  lemma FoxOneDictionary()
    ensures Prune(Index([BookZero, BookOne], SplitWith(Ascii))) == Expected
  {
    SplitBookZero();
    SplitBookOne();
    OneDictionary("the", "fox", "ran", "The Fox ran.", "The fox the FOX.");
  }

  /** Each book in a dictionary of its own, merged into a fresh final
      dictionary in either order, then pruned: the same result. */
  lemma FoxTwoDictionaries()
    ensures Prune(MergeAll([InsertAll(map[], Occurrences([BookZero], 0, SplitWith(Ascii))),
                            InsertAll(map[], Occurrences([BookOne], 1, SplitWith(Ascii)))])) == Expected
    ensures Prune(MergeAll([InsertAll(map[], Occurrences([BookOne], 1, SplitWith(Ascii))),
                            InsertAll(map[], Occurrences([BookZero], 0, SplitWith(Ascii)))])) == Expected
  {
    SplitBookZero();
    SplitBookOne();
    TwoDictionaries("the", "fox", "ran", "The Fox ran.", "The fox the FOX.");
  }
}
