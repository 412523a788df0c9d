/**
 Splitting a line of text into words: every maximal run of letters, in order,
 lower-cased; every other character is a separator. The C++ programs use the
 ASCII letters of `isalpha`/`tolower` in the "C" locale; the Rust program uses
 Unicode `is_alphabetic`/`to_lowercase`, which this model takes as a parameter.
 */
module Tokenizer {

  import opened Wrappers
  import opened Seqs

  /** Which characters are letters, and how a letter is lower-cased. */
  datatype Alphabet = Alphabet(isLetter: char -> bool, lower: char -> char)

  /** `isalpha` in the "C" locale. */
  predicate IsAsciiLetter(c: char) {
    'A' <= c <= 'Z' || 'a' <= c <= 'z'
  }

  predicate IsAsciiLowerLetter(c: char) {
    'a' <= c <= 'z'
  }

  /** `tolower` in the "C" locale. */
  function AsciiLower(c: char): (r: char)
    ensures IsAsciiLetter(c) ==> IsAsciiLowerLetter(r)
    ensures 'A' <= c <= 'Z' ==> r as int - 'a' as int == c as int - 'A' as int
    ensures !('A' <= c <= 'Z') ==> r == c
  {
    if 'A' <= c <= 'Z' then (c as int - 'A' as int + 'a' as int) as char else c
  }

  /** The alphabet of the C++ tokenizers. */
  const Ascii := Alphabet(IsAsciiLetter, AsciiLower)

  /** Every character of `s` lower-cased. */
  function LowerAll(s: string, alpha: Alphabet): string {
    seq(|s|, i requires 0 <= i < |s| => alpha.lower(s[i]))
  }

  /** The letters of `s`, in order, with the separators dropped. */
  function Letters(s: string, alpha: Alphabet): string
    decreases |s|
  {
    if s == [] then []
    else (if alpha.isLetter(s[0]) then [s[0]] else []) + Letters(s[1..], alpha)
  }

  /** The length of the run of letters that `s` starts with. */
  function RunLength(s: string, alpha: Alphabet): (n: nat)
    ensures n <= |s|
    ensures forall i :: 0 <= i < n ==> alpha.isLetter(s[i])
    ensures n < |s| ==> !alpha.isLetter(s[n])
    decreases |s|
  {
    if s == [] || !alpha.isLetter(s[0]) then 0 else 1 + RunLength(s[1..], alpha)
  }

  /** The words of `s`: the reference definition both tokenizers are proved
      against. A separator is skipped; a letter starts a maximal run, which
      is emitted lower-cased. */
  function Words(s: string, alpha: Alphabet): seq<string>
    decreases |s|
  {
    if s == [] then []
    else if !alpha.isLetter(s[0]) then Words(s[1..], alpha)
    else
      var n := RunLength(s, alpha);
      [LowerAll(s[..n], alpha)] + Words(s[n..], alpha)
  }

  // ---------------------------------------------------------------------
  // The meaning of Words

  /** A run is determined by where it stops: any prefix of letters followed
      by a separator or the end of the text is the run. */
  lemma {:induction false} RunLengthUnique(s: string, alpha: Alphabet, n: nat)
    requires n <= |s|
    requires forall i :: 0 <= i < n ==> alpha.isLetter(s[i])
    requires n == |s| || !alpha.isLetter(s[n])
    ensures RunLength(s, alpha) == n
    decreases n
  {
    if n > 0 {
      RunLengthUnique(s[1..], alpha, n - 1);
    }
  }

  /** In a text that starts with a maximal run of `n >= 1` letters, that run
      is the first word. */
  lemma WordsAtRun(s: string, alpha: Alphabet, n: nat)
    requires 0 < n <= |s|
    requires forall i :: 0 <= i < n ==> alpha.isLetter(s[i])
    requires n == |s| || !alpha.isLetter(s[n])
    ensures Words(s, alpha) == [LowerAll(s[..n], alpha)] + Words(s[n..], alpha)
  {
    RunLengthUnique(s, alpha, n);
  }

  /** A text of letters only is one word. */
  lemma WordsOfRun(s: string, alpha: Alphabet)
    requires s != []
    requires forall i :: 0 <= i < |s| ==> alpha.isLetter(s[i])
    ensures Words(s, alpha) == [LowerAll(s, alpha)]
  {
    WordsAtRun(s, alpha, |s|);
    assert s[..|s|] == s;
  }

  /** A separator splits a text into two independently tokenized halves. */
  lemma {:induction false} WordsSplit(a: string, c: char, b: string, alpha: Alphabet)
    requires !alpha.isLetter(c)
    ensures Words(a + [c] + b, alpha) == Words(a, alpha) + Words(b, alpha)
    decreases |a|
  {
    var s := a + [c] + b;
    if a == [] {
      assert s[1..] == b;
    } else if !alpha.isLetter(a[0]) {
      assert s[1..] == a[1..] + [c] + b;
      WordsSplit(a[1..], c, b, alpha);
    } else {
      var n := RunLength(a, alpha);
      assert forall i :: 0 <= i < n ==> s[i] == a[i];
      assert s[n] == if n < |a| then a[n] else c;
      WordsAtRun(s, alpha, n);
      assert s[..n] == a[..n];
      if n == |a| {
        assert s[n..] == [c] + b;
        assert s[n..][1..] == b;
        assert a[n..] == [];
      } else {
        assert s[n..] == a[n..] + [c] + b;
        WordsSplit(a[n..], c, b, alpha);
      }
    }
  }

  /** Every word is non-empty, and every character of a word is the
      lower-case form of a letter: whatever property `p` lower-casing gives
      to letters, every character of every word has. */
  lemma {:induction false} WordsAreLoweredRuns(s: string, alpha: Alphabet, p: char -> bool)
    requires forall c :: alpha.isLetter(c) ==> p(alpha.lower(c))
    ensures forall k :: 0 <= k < |Words(s, alpha)| ==> Words(s, alpha)[k] != []
    ensures forall k, i :: 0 <= k < |Words(s, alpha)| && 0 <= i < |Words(s, alpha)[k]| ==>
              p(Words(s, alpha)[k][i])
    decreases |s|
  {
    if s != [] {
      if !alpha.isLetter(s[0]) {
        WordsAreLoweredRuns(s[1..], alpha, p);
      } else {
        var n := RunLength(s, alpha);
        var ws, rest := Words(s, alpha), Words(s[n..], alpha);
        WordsAreLoweredRuns(s[n..], alpha, p);
        assert forall k :: 1 <= k < |ws| ==> ws[k] == rest[k - 1];
      }
    }
  }

  /** With the C++ alphabet every word consists of lower-case ASCII letters. */
  lemma AsciiWordsAreLowerCase(s: string)
    ensures forall k :: 0 <= k < |Words(s, Ascii)| ==> Words(s, Ascii)[k] != []
    ensures forall k, i :: 0 <= k < |Words(s, Ascii)| && 0 <= i < |Words(s, Ascii)[k]| ==>
              IsAsciiLowerLetter(Words(s, Ascii)[k][i])
  {
    WordsAreLoweredRuns(s, Ascii, IsAsciiLowerLetter);
  }

  /** A text yields no words exactly when it holds no letters. */
  lemma {:induction false} NoWordsIffNoLetters(s: string, alpha: Alphabet)
    ensures Words(s, alpha) == [] <==> forall i :: 0 <= i < |s| ==> !alpha.isLetter(s[i])
    decreases |s|
  {
    if s != [] {
      NoWordsIffNoLetters(s[1..], alpha);
      if !alpha.isLetter(s[0]) {
        forall i | 0 <= i < |s[1..]| ensures s[1..][i] == s[i + 1] {}
      }
    }
  }

  lemma LettersAppend(a: string, b: string, alpha: Alphabet)
    ensures Letters(a + b, alpha) == Letters(a, alpha) + Letters(b, alpha)
    decreases |a|
  {
    if a == [] {
      assert a + b == b;
    } else {
      assert (a + b)[1..] == a[1..] + b;
      LettersAppend(a[1..], b, alpha);
    }
  }

  lemma {:induction false} LettersOfRun(s: string, alpha: Alphabet)
    requires forall i :: 0 <= i < |s| ==> alpha.isLetter(s[i])
    ensures Letters(s, alpha) == s
    decreases |s|
  {
    if s != [] {
      LettersOfRun(s[1..], alpha);
    }
  }

  /** Nothing but separators is lost: the words, joined, are the text's
      letters lower-cased, in order. */
  lemma {:induction false} WordsKeepEveryLetter(s: string, alpha: Alphabet)
    ensures Flatten(Words(s, alpha)) == LowerAll(Letters(s, alpha), alpha)
    decreases |s|
  {
    if s != [] {
      if !alpha.isLetter(s[0]) {
        WordsKeepEveryLetter(s[1..], alpha);
      } else {
        var n := RunLength(s, alpha);
        WordsKeepEveryLetter(s[n..], alpha);
        assert s == s[..n] + s[n..];
        LettersAppend(s[..n], s[n..], alpha);
        LettersOfRun(s[..n], alpha);
        FlattenCons(LowerAll(s[..n], alpha), Words(s[n..], alpha));
        assert LowerAll(s[..n] + Letters(s[n..], alpha), alpha)
            == LowerAll(s[..n], alpha) + LowerAll(Letters(s[n..], alpha), alpha);
      }
    }
  }

  /** A separator at `pos` is skipped. */
  lemma SkipSeparator(text: string, pos: nat, alpha: Alphabet)
    requires pos < |text| && !alpha.isLetter(text[pos])
    ensures Words(text[pos..], alpha) == Words(text[pos + 1..], alpha)
  {
    assert text[pos..][1..] == text[pos + 1..];
  }

  /** A maximal run `text[start..end]` is the next word. */
  lemma EmitRun(text: string, start: nat, end: nat, alpha: Alphabet)
    requires start < end <= |text|
    requires forall k :: start <= k < end ==> alpha.isLetter(text[k])
    requires end == |text| || !alpha.isLetter(text[end])
    ensures Words(text[start..], alpha) == [LowerAll(text[start..end], alpha)] + Words(text[end..], alpha)
  {
    var t := text[start..];
    assert forall i :: 0 <= i < end - start ==> t[i] == text[start + i];
    WordsAtRun(t, alpha, end - start);
    assert t[..end - start] == text[start..end];
    assert t[end - start..] == text[end..];
  }

  // ---------------------------------------------------------------------
  // The two scanners

  /** The C++ `splitToWords`: skip separators, collect a run of letters,
      emit it lower-cased, until the end of the text. The text is a value
      and is left as it was. */
  method SplitToWords(text: string) returns (words: seq<string>)
    ensures words == Words(text, Ascii)
  {
    words := [];
    var pos, length := 0, |text|;
    while pos < length
      invariant 0 <= pos <= length
      invariant words + Words(text[pos..], Ascii) == Words(text, Ascii)
      decreases length - pos
    {
      ghost var pos0 := pos;
      pos := SkipSeparators(text, pos);
      var start := pos;
      pos := ScanLetters(text, start);
      if start < pos {
        var word := LowerAll(text[start..pos], Ascii);
        assert Words(text[pos0..], Ascii) == [word] + Words(text[pos..], Ascii) by {
          EmitRun(text, start, pos, Ascii);
        }
        assert (words + [word]) + Words(text[pos..], Ascii) == words + Words(text[pos0..], Ascii);
        words := words + [word];
      } else {
        assert pos == length;
      }
    }
  }

  /** The first inner loop of `splitToWords`: step over separators up to the
      next letter or the end of the text. */
  method SkipSeparators(text: string, from: nat) returns (pos: nat)
    requires from <= |text|
    ensures from <= pos <= |text|
    ensures forall k :: from <= k < pos ==> !IsAsciiLetter(text[k])
    ensures pos == |text| || IsAsciiLetter(text[pos])
    ensures Words(text[pos..], Ascii) == Words(text[from..], Ascii)
  {
    pos := from;
    while pos < |text| && !IsAsciiLetter(text[pos])
      invariant from <= pos <= |text|
      invariant forall k :: from <= k < pos ==> !IsAsciiLetter(text[k])
      invariant Words(text[pos..], Ascii) == Words(text[from..], Ascii)
      decreases |text| - pos
    {
      SkipSeparator(text, pos, Ascii);
      pos := pos + 1;
    }
  }

  /** The second inner loop of `splitToWords`: step over letters up to the
      next separator or the end of the text. */
  method ScanLetters(text: string, start: nat) returns (end: nat)
    requires start <= |text|
    ensures start <= end <= |text|
    ensures forall k :: start <= k < end ==> IsAsciiLetter(text[k])
    ensures end == |text| || !IsAsciiLetter(text[end])
  {
    end := start;
    while end < |text| && IsAsciiLetter(text[end])
      invariant start <= end <= |text|
      invariant forall k :: start <= k < end ==> IsAsciiLetter(text[k])
      decreases |text| - end
    {
      end := end + 1;
    }
  }

  /** A separator outside any run adds no word. */
  lemma PassSeparator(words: seq<string>, text: string, i: nat, alpha: Alphabet)
    requires i < |text| && !alpha.isLetter(text[i])
    requires words + Words(text[i..], alpha) == Words(text, alpha)
    ensures words + Words(text[i + 1..], alpha) == Words(text, alpha)
  {
    SkipSeparator(text, i, alpha);
  }

  /** A separator after the run `text[s..i]` closes it: the run, lowered, is
      the next word and the scan resumes after the separator. */
  lemma CloseRun(words: seq<string>, text: string, s: nat, i: nat, alpha: Alphabet)
    requires s < i < |text| && !alpha.isLetter(text[i])
    requires forall k :: s <= k < i ==> alpha.isLetter(text[k])
    requires words + Words(text[s..], alpha) == Words(text, alpha)
    ensures (words + [LowerAll(text[s..i], alpha)]) + Words(text[i + 1..], alpha) == Words(text, alpha)
  {
    var word := LowerAll(text[s..i], alpha);
    EmitRun(text, s, i, alpha);
    SkipSeparator(text, i, alpha);
    assert (words + [word]) + Words(text[i + 1..], alpha) == words + ([word] + Words(text[i + 1..], alpha));
  }

  /** The Rust `split_to_words`: one pass over the characters, remembering
      where the current run started; a separator or the end of the text
      closes the run. */
  method SplitToWordsRust(text: string, alpha: Alphabet) returns (words: seq<string>)
    ensures words == Words(text, alpha)
  {
    words := [];
    var start: Option<nat> := None;
    for i := 0 to |text|
      invariant start.Some? ==> start.value < i && forall k :: start.value <= k < i ==> alpha.isLetter(text[k])
      invariant start.None? ==> words + Words(text[i..], alpha) == Words(text, alpha)
      invariant start.Some? ==> words + Words(text[start.value..], alpha) == Words(text, alpha)
    {
      var c := text[i];
      if alpha.isLetter(c) {
        if start.None? {
          start := Some(i);
        }
      } else if start.Some? {
        var s := start.value;
        CloseRun(words, text, s, i, alpha);
        words := words + [LowerAll(text[s..i], alpha)];
        start := None;
      } else {
        PassSeparator(words, text, i, alpha);
      }
    }
    if start.Some? {
      var s := start.value;
      EmitRun(text, s, |text|, alpha);
      assert text[s..|text|] == text[s..] && text[|text|..] == [];
      words := words + [LowerAll(text[s..], alpha)];
    } else {
      assert text[|text|..] == [];
    }
  }
}
