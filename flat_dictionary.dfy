/**
 The `ConcurrentDictionary` of the two unsharded C++ programs: one map from
 word to entry, updated in place under a single lock. The lock only makes
 each call atomic, so each method here is one sequential step.
 */
module FlatDictionary {

  import opened Entries
  import DictLoops

  class ConcurrentDictionary {

    /** `dict_` */
    var dict: Dict

    /** A default-constructed dictionary is empty. */
    constructor ()
      ensures dict == map[]
    {
      dict := map[];
    }

    /** `dict_[word]` default-constructs a missing entry (count 0, no ids);
        its count is then incremented and the book id added. */
    method Insert(word: string, bookId: nat)
      modifies this
      ensures dict == Entries.Insert(old(dict), word, bookId)
    {
      dict := Entries.Insert(dict, word, bookId);
    }

    /** Add every entry of `other` into the entry of the same word here.
        Only this dictionary's lock is taken and `other`'s map is read as
        it stands. `other` must be a different dictionary: merging one into
        itself would insert a set's own range into that set. */
    method Merge(other: ConcurrentDictionary)
      requires other != this
      modifies this
      ensures dict == Entries.Merge(old(dict), other.dict)
      ensures other.dict == old(other.dict)
    {
      dict := DictLoops.MergeInto(dict, other.dict);
    }

    /** Erase every entry whose count is exactly 1. */
    method RemoveSingleOccurrences()
      modifies this
      ensures dict == Prune(old(dict))
    {
      dict := DictLoops.EraseSingles(dict);
    }
  }
}
