/**
 What one worker does with its slice of books (`processBooks`,
 `process_books`): read each book line by line, split every line into
 words, and insert each word with the id of its book. A book is given as
 the lines its file holds, or as a file that could not be opened; such a
 book is skipped and contributes nothing.
 */
module Ingestion {

  import opened Entries
  import opened Tokenizer
  import opened Seqs
  import FlatDictionary
  import Sharded
  import RustDictionary

  /** One book file, as the worker finds it. */
  datatype Book = Unopenable | Opened(lines: seq<string>)

  /** How a line is split into words: `splitToWords` over the ASCII
      letters in the C++ programs, `split_to_words` over an alphabet in
      Rust. The occurrence sequence below is defined for any splitter. */
  function SplitWith(alpha: Alphabet): string -> seq<string> {
    line => Words(line, alpha)
  }

  /** The words of one line, each recorded with the book's id. */
  function Tag(words: seq<string>, id: nat): seq<Occurrence> {
    seq(|words|, k requires 0 <= k < |words| => Occurrence(words[k], id))
  }

  /** The tagged words of each line. */
  function PerLine(lines: seq<string>, id: nat, split: string -> seq<string>): seq<seq<Occurrence>> {
    seq(|lines|, j requires 0 <= j < |lines| => Tag(split(lines[j]), id))
  }

  /** Every word of `lines`, in order, recorded with the book's id. */
  function LinesOccurrences(lines: seq<string>, id: nat, split: string -> seq<string>): seq<Occurrence> {
    Flatten(PerLine(lines, id, split))
  }

  function BookOccurrences(book: Book, id: nat, split: string -> seq<string>): seq<Occurrence> {
    match book
    case Unopenable => []
    case Opened(lines) => LinesOccurrences(lines, id, split)
  }

  /** The occurrences of each book, the `j`-th with the id `firstId + j`. */
  function PerBook(books: seq<Book>, firstId: nat, split: string -> seq<string>): seq<seq<Occurrence>> {
    seq(|books|, j requires 0 <= j < |books| => BookOccurrences(books[j], firstId + j, split))
  }

  /** Every word of `books`, in order, the `j`-th book's words recorded
      with the id `firstId + j`. */
  function Occurrences(books: seq<Book>, firstId: nat, split: string -> seq<string>): seq<Occurrence> {
    Flatten(PerBook(books, firstId, split))
  }

  /** The index of a whole collection: every word of every book inserted,
      in order, book `j` with id `j`, into one empty dictionary. */
  function Index(books: seq<Book>, split: string -> seq<string>): Dict {
    InsertAll(map[], Occurrences(books, 0, split))
  }

  /** Every entry of an index has been inserted at least once: a count of
      at least 1 and at least one book id. */
  lemma IndexWellFormed(books: seq<Book>, split: string -> seq<string>)
    ensures WellFormed(Index(books, split))
  {
    InsertAllWellFormed(map[], Occurrences(books, 0, split));
  }

  // ---------------------------------------------------------------------
  // Properties of the occurrence sequence

  lemma TagSnoc(words: seq<string>, k: nat, id: nat)
    requires k < |words|
    ensures Tag(words[..k + 1], id) == Tag(words[..k], id) + [Occurrence(words[k], id)]
  {
  }

  lemma TagAll(words: seq<string>, id: nat)
    ensures Tag(words[..|words|], id) == Tag(words, id)
  {
    assert words[..|words|] == words;
  }

  lemma LinesSnoc(lines: seq<string>, j: nat, id: nat, split: string -> seq<string>)
    requires j < |lines|
    ensures LinesOccurrences(lines[..j + 1], id, split)
         == LinesOccurrences(lines[..j], id, split) + Tag(split(lines[j]), id)
  {
    assert PerLine(lines[..j + 1], id, split) == PerLine(lines[..j], id, split) + [Tag(split(lines[j]), id)];
    FlattenSnoc(PerLine(lines[..j], id, split), Tag(split(lines[j]), id));
  }

  /** The books of `a + b` are those of `a`, then those of `b` numbered on
      from `firstId + |a|`. */
  lemma PerBookAppend(a: seq<Book>, b: seq<Book>, firstId: nat, split: string -> seq<string>)
    ensures PerBook(a + b, firstId, split) == PerBook(a, firstId, split) + PerBook(b, firstId + |a|, split)
  {
    var l, r := PerBook(a + b, firstId, split), PerBook(a, firstId, split) + PerBook(b, firstId + |a|, split);
    forall j | 0 <= j < |l|
      ensures l[j] == r[j]
    {
      if j >= |a| {
        assert (a + b)[j] == b[j - |a|];
        assert firstId + j == firstId + |a| + (j - |a|);
      }
    }
  }

  /** Splitting the books splits their occurrences, the second part's ids
      starting where the first part's end. */
  lemma OccurrencesAppend(a: seq<Book>, b: seq<Book>, firstId: nat, split: string -> seq<string>)
    ensures Occurrences(a + b, firstId, split)
         == Occurrences(a, firstId, split) + Occurrences(b, firstId + |a|, split)
  {
    PerBookAppend(a, b, firstId, split);
    FlattenAppend(PerBook(a, firstId, split), PerBook(b, firstId + |a|, split));
  }

  lemma BooksSnoc(books: seq<Book>, i: nat, firstId: nat, split: string -> seq<string>)
    requires i < |books|
    ensures Occurrences(books[..i + 1], firstId, split)
         == Occurrences(books[..i], firstId, split) + BookOccurrences(books[i], firstId + i, split)
  {
    assert PerBook(books[..i + 1], firstId, split)
        == PerBook(books[..i], firstId, split) + [BookOccurrences(books[i], firstId + i, split)];
    FlattenSnoc(PerBook(books[..i], firstId, split), BookOccurrences(books[i], firstId + i, split));
  }

  /** A book that cannot be opened adds no occurrence; the books after it
      keep their ids. */
  lemma UnopenableAddsNothing(a: seq<Book>, b: seq<Book>, firstId: nat, split: string -> seq<string>)
    ensures Occurrences(a + [Unopenable] + b, firstId, split)
         == Occurrences(a, firstId, split) + Occurrences(b, firstId + |a| + 1, split)
  {
    var head := Occurrences(a, firstId, split);
    assert Occurrences([Unopenable], firstId + |a|, split) == [] by {
      assert PerBook([Unopenable], firstId + |a|, split) == [[]];
      FlattenSingleton<Occurrence>([]);
    }
    assert Occurrences(a + [Unopenable], firstId, split) == head by {
      OccurrencesAppend(a, [Unopenable], firstId, split);
    }
    OccurrencesAppend(a + [Unopenable], b, firstId, split);
  }

  lemma LinesIds(lines: seq<string>, id: nat, split: string -> seq<string>)
    ensures forall o :: o in LinesOccurrences(lines, id, split) ==> o.bookId == id
  {
    forall o | o in LinesOccurrences(lines, id, split)
      ensures o.bookId == id
    {
      var j := FlattenMember(PerLine(lines, id, split), o);
    }
  }

  /** Every occurrence carries the id of one of the books: `firstId + j`
      for some `j < |books|`. */
  lemma OccurrenceIdsInRange(books: seq<Book>, firstId: nat, split: string -> seq<string>)
    ensures forall o :: o in Occurrences(books, firstId, split) ==> firstId <= o.bookId < firstId + |books|
  {
    forall o | o in Occurrences(books, firstId, split)
      ensures firstId <= o.bookId < firstId + |books|
    {
      OccurrenceIdInRange(books, firstId, split, o);
    }
  }

  lemma OccurrenceIdInRange(books: seq<Book>, firstId: nat, split: string -> seq<string>, o: Occurrence)
    requires o in Occurrences(books, firstId, split)
    ensures firstId <= o.bookId < firstId + |books|
  {
    var perBook := PerBook(books, firstId, split);
    var k := FlattenMember(perBook, o);
    assert |perBook| == |books| && perBook[k] == BookOccurrences(books[k], firstId + k, split);
    BookIds(books[k], firstId + k, split, o);
  }

  lemma BookIds(book: Book, id: nat, split: string -> seq<string>, o: Occurrence)
    requires o in BookOccurrences(book, id, split)
    ensures o.bookId == id
  {
    LinesIds(book.lines, id, split);
  }

  // ---------------------------------------------------------------------
  // One step of each worker loop, on the specification

  /** Inserting the `k`-th word extends the words inserted so far by one. */
  lemma WordStep(d0: Dict, words: seq<string>, k: nat, id: nat)
    requires k < |words|
    ensures InsertAll(d0, Tag(words[..k + 1], id)) == Insert(InsertAll(d0, Tag(words[..k], id)), words[k], id)
  {
    TagSnoc(words, k, id);
    InsertAllSnoc(d0, Tag(words[..k], id), Occurrence(words[k], id));
  }

  /** Inserting the words of the `j`-th line extends the lines done so far
      by one. */
  lemma LineStep(d0: Dict, lines: seq<string>, j: nat, id: nat, split: string -> seq<string>)
    requires j < |lines|
    ensures InsertAll(InsertAll(d0, LinesOccurrences(lines[..j], id, split)), Tag(split(lines[j]), id))
         == InsertAll(d0, LinesOccurrences(lines[..j + 1], id, split))
  {
    LinesSnoc(lines, j, id, split);
    InsertAllAppend(d0, LinesOccurrences(lines[..j], id, split), Tag(split(lines[j]), id));
  }

  /** Processing the `i`-th book extends the books done so far by one. */
  lemma BookStep(d0: Dict, books: seq<Book>, i: nat, firstId: nat, split: string -> seq<string>)
    requires i < |books|
    ensures InsertAll(InsertAll(d0, Occurrences(books[..i], firstId, split)), BookOccurrences(books[i], firstId + i, split))
         == InsertAll(d0, Occurrences(books[..i + 1], firstId, split))
  {
    BooksSnoc(books, i, firstId, split);
    InsertAllAppend(d0, Occurrences(books[..i], firstId, split), BookOccurrences(books[i], firstId + i, split));
  }

  lemma InsertNothing(d: Dict)
    ensures InsertAll(d, []) == d
  {
  }

  // ---------------------------------------------------------------------
  // The worker of the two unsharded C++ programs (`processBooks`), one loop
  // level per method

  /** The innermost loop: insert every word of one line. */
  method InsertWords(dict: FlatDictionary.ConcurrentDictionary, words: seq<string>, bookId: nat)
    modifies dict
    ensures dict.dict == InsertAll(old(dict.dict), Tag(words, bookId))
  {
    ghost var d0 := dict.dict;
    for k := 0 to |words|
      invariant dict.dict == InsertAll(d0, Tag(words[..k], bookId))
    {
      WordStep(d0, words, k, bookId);
      dict.Insert(words[k], bookId);
    }
    TagAll(words, bookId);
  }

  /** The loop over the lines of one opened book. */
  method InsertLines(dict: FlatDictionary.ConcurrentDictionary, lines: seq<string>, bookId: nat)
    modifies dict
    ensures dict.dict == InsertAll(old(dict.dict), LinesOccurrences(lines, bookId, SplitWith(Ascii)))
  {
    ghost var d0 := dict.dict;
    for j := 0 to |lines|
      invariant dict.dict == InsertAll(d0, LinesOccurrences(lines[..j], bookId, SplitWith(Ascii)))
    {
      var words := SplitToWords(lines[j]);
      InsertWords(dict, words, bookId);
      LineStep(d0, lines, j, bookId, SplitWith(Ascii));
    }
    assert lines[..|lines|] == lines;
  }

  /** One book: its lines if the file opened, nothing otherwise. */
  method InsertBook(dict: FlatDictionary.ConcurrentDictionary, book: Book, bookId: nat)
    modifies dict
    ensures dict.dict == InsertAll(old(dict.dict), BookOccurrences(book, bookId, SplitWith(Ascii)))
  {
    match book {
      case Unopenable =>
        // the book is skipped (and the failure reported, in the newer versions)
        InsertNothing(dict.dict);
      case Opened(lines) =>
        InsertLines(dict, lines, bookId);
    }
  }

  /** `processBooks`: the `i`-th book of the slice gets the id
      `startBookId + i`; a book that cannot be opened is skipped (and
      reported, in the newer versions; the oldest program has no such check,
      and its unopened stream yields no line). */
  method ProcessBooks(books: seq<Book>, dict: FlatDictionary.ConcurrentDictionary, startBookId: nat)
    modifies dict
    ensures dict.dict == InsertAll(old(dict.dict), Occurrences(books, startBookId, SplitWith(Ascii)))
  {
    ghost var d0 := dict.dict;
    for i := 0 to |books|
      invariant dict.dict == InsertAll(d0, Occurrences(books[..i], startBookId, SplitWith(Ascii)))
    {
      InsertBook(dict, books[i], startBookId + i);
      BookStep(d0, books, i, startBookId, SplitWith(Ascii));
    }
    assert books[..|books|] == books;
  }

  // ---------------------------------------------------------------------
  // The worker of the sharded C++ program

  method ShardedInsertWords(dict: Sharded.ShardedConcurrentDictionary, words: seq<string>, bookId: nat)
    requires dict.Valid()
    modifies dict.shards
    ensures dict.Valid()
    ensures dict.Flat() == InsertAll(old(dict.Flat()), Tag(words, bookId))
  {
    ghost var d0 := dict.Flat();
    for k := 0 to |words|
      invariant dict.Valid()
      invariant dict.Flat() == InsertAll(d0, Tag(words[..k], bookId))
    {
      WordStep(d0, words, k, bookId);
      dict.Insert(words[k], bookId);
    }
    TagAll(words, bookId);
  }

  method ShardedInsertLines(dict: Sharded.ShardedConcurrentDictionary, lines: seq<string>, bookId: nat)
    requires dict.Valid()
    modifies dict.shards
    ensures dict.Valid()
    ensures dict.Flat() == InsertAll(old(dict.Flat()), LinesOccurrences(lines, bookId, SplitWith(Ascii)))
  {
    ghost var d0 := dict.Flat();
    for j := 0 to |lines|
      invariant dict.Valid()
      invariant dict.Flat() == InsertAll(d0, LinesOccurrences(lines[..j], bookId, SplitWith(Ascii)))
    {
      var words := SplitToWords(lines[j]);
      ShardedInsertWords(dict, words, bookId);
      LineStep(d0, lines, j, bookId, SplitWith(Ascii));
    }
    assert lines[..|lines|] == lines;
  }

  /** One book: its lines if the file opened, nothing otherwise. */
  method ShardedInsertBook(dict: Sharded.ShardedConcurrentDictionary, book: Book, bookId: nat)
    requires dict.Valid()
    modifies dict.shards
    ensures dict.Valid()
    ensures dict.Flat() == InsertAll(old(dict.Flat()), BookOccurrences(book, bookId, SplitWith(Ascii)))
  {
    match book {
      case Unopenable =>
        // the failure is reported and the book skipped
        InsertNothing(dict.Flat());
      case Opened(lines) =>
        ShardedInsertLines(dict, lines, bookId);
    }
  }

  /** `processBooks` of the sharded program: the same walk, each word going
      to the shard its hash picks. */
  method ProcessBooksSharded(books: seq<Book>, dict: Sharded.ShardedConcurrentDictionary, startBookId: nat)
    requires dict.Valid()
    modifies dict.shards
    ensures dict.Valid()
    ensures dict.Flat() == InsertAll(old(dict.Flat()), Occurrences(books, startBookId, SplitWith(Ascii)))
  {
    ghost var d0 := dict.Flat();
    for i := 0 to |books|
      invariant dict.Valid()
      invariant dict.Flat() == InsertAll(d0, Occurrences(books[..i], startBookId, SplitWith(Ascii)))
    {
      ShardedInsertBook(dict, books[i], startBookId + i);
      BookStep(d0, books, i, startBookId, SplitWith(Ascii));
    }
    assert books[..|books|] == books;
  }

  // ---------------------------------------------------------------------
  // The worker of the Rust program

  method RustInsertWords(dict: RustDictionary.Dictionary, words: seq<string>, bookId: nat)
    modifies dict
    ensures dict.dict == InsertAll(old(dict.dict), Tag(words, bookId))
  {
    ghost var d0 := dict.dict;
    for k := 0 to |words|
      invariant dict.dict == InsertAll(d0, Tag(words[..k], bookId))
    {
      WordStep(d0, words, k, bookId);
      dict.Insert(words[k], bookId);
    }
    TagAll(words, bookId);
  }

  method RustInsertLines(dict: RustDictionary.Dictionary, lines: seq<string>, bookId: nat, alpha: Alphabet)
    modifies dict
    ensures dict.dict == InsertAll(old(dict.dict), LinesOccurrences(lines, bookId, SplitWith(alpha)))
  {
    ghost var d0 := dict.dict;
    for j := 0 to |lines|
      invariant dict.dict == InsertAll(d0, LinesOccurrences(lines[..j], bookId, SplitWith(alpha)))
    {
      var words := SplitToWordsRust(lines[j], alpha);
      RustInsertWords(dict, words, bookId);
      LineStep(d0, lines, j, bookId, SplitWith(alpha));
    }
    assert lines[..|lines|] == lines;
  }

  /** One book: its lines if the file opened, nothing otherwise. */
  method RustInsertBook(dict: RustDictionary.Dictionary, book: Book, bookId: nat, alpha: Alphabet)
    modifies dict
    ensures dict.dict == InsertAll(old(dict.dict), BookOccurrences(book, bookId, SplitWith(alpha)))
  {
    match book {
      case Unopenable =>
        // the failure is reported and the book skipped
        InsertNothing(dict.dict);
      case Opened(lines) =>
        RustInsertLines(dict, lines, bookId, alpha);
    }
  }

  /** `process_books`: a fresh dictionary per worker, returned to the
      caller. */
  method ProcessBooksRust(books: seq<Book>, startBookId: nat, alpha: Alphabet)
    returns (dict: RustDictionary.Dictionary)
    ensures fresh(dict)
    ensures dict.dict == InsertAll(map[], Occurrences(books, startBookId, SplitWith(alpha)))
  {
    dict := new RustDictionary.Dictionary();
    ghost var d0, split := dict.dict, SplitWith(alpha);
    for i := 0 to |books|
      invariant dict.dict == InsertAll(d0, Occurrences(books[..i], startBookId, split))
    {
      RustInsertBook(dict, books[i], startBookId + i, alpha);
      BookStep(d0, books, i, startBookId, split);
    }
    assert books[..|books|] == books;
  }
}
