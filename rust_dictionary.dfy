/**
 The `Dictionary` of the Rust program: a `HashMap` from word to entry owned
 by one worker at a time, so no lock is needed.
 */
module RustDictionary {

  import opened Entries
  import DictLoops

  class Dictionary {

    /** `dict` */
    var dict: Dict

    /** `Dictionary::new()` */
    constructor ()
      ensures dict == map[]
    {
      dict := map[];
    }

    /** `entry(word).or_insert_with(..)` creates a missing entry with count
        0 and no ids; the count is then incremented and the id added. */
    method Insert(word: string, bookId: nat)
      modifies this
      ensures dict == Entries.Insert(old(dict), word, bookId)
    {
      dict := Entries.Insert(dict, word, bookId);
    }

    /** `merge(&mut self, other: &Dictionary)`: per word of `other`, the
        count is added (`+=`) and the ids extended into the entry here. The
        borrow rules make `other` a different dictionary, which is left as
        it was. */
    method Merge(other: Dictionary)
      requires other != this
      modifies this
      ensures dict == Entries.Merge(old(dict), other.dict)
      ensures other.dict == old(other.dict)
    {
      dict := DictLoops.MergeInto(dict, other.dict);
    }

    /** `retain(|_, entry| entry.word_count > 1)` */
    method RemoveSingleOccurrences()
      modifies this
      ensures dict == KeepRepeated(old(dict))
    {
      dict := KeepRepeated(dict);
    }
  }
}
