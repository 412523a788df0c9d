/**
 Concatenating a sequence of sequences: the words of a text glued back
 together, the books of all slices laid end to end, the occurrences of all
 lines and all books in reading order.
 */
module Seqs {

  function Flatten<T>(xss: seq<seq<T>>): seq<T>
    decreases |xss|
  {
    if xss == [] then [] else Flatten(xss[..|xss| - 1]) + xss[|xss| - 1]
  }

  lemma FlattenSnoc<T>(xss: seq<seq<T>>, xs: seq<T>)
    ensures Flatten(xss + [xs]) == Flatten(xss) + xs
  {
    assert (xss + [xs])[..|xss|] == xss;
  }

  lemma FlattenSingleton<T>(xs: seq<T>)
    ensures Flatten([xs]) == xs
  {
    FlattenSnoc([], xs);
    assert [] + [xs] == [xs];
  }

  /** Flattening distributes over concatenation. */
  lemma {:induction false} FlattenAppend<T>(xss: seq<seq<T>>, yss: seq<seq<T>>)
    ensures Flatten(xss + yss) == Flatten(xss) + Flatten(yss)
    decreases |yss|
  {
    if yss == [] {
      assert xss + yss == xss;
    } else {
      var init, last := yss[..|yss| - 1], yss[|yss| - 1];
      assert xss + yss == (xss + init) + [last];
      assert yss == init + [last];
      FlattenSnoc(xss + init, last);
      FlattenAppend(xss, init);
      FlattenSnoc(init, last);
    }
  }

  /** The first sequence comes first. */
  lemma FlattenCons<T>(xs: seq<T>, xss: seq<seq<T>>)
    ensures Flatten([xs] + xss) == xs + Flatten(xss)
  {
    FlattenAppend([xs], xss);
    FlattenSingleton(xs);
  }

  /** Every element of the flattened sequence comes from one of the parts:
      the part `k` returned. */
  lemma {:induction false} FlattenMember<T>(xss: seq<seq<T>>, x: T) returns (k: nat)
    requires x in Flatten(xss)
    ensures k < |xss| && x in xss[k]
    decreases |xss|
  {
    var n := |xss|;
    if x in xss[n - 1] {
      k := n - 1;
    } else {
      k := FlattenMember(xss[..n - 1], x);
      assert xss[..n - 1][k] == xss[k];
    }
  }
}
