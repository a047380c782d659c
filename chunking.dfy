/**
  The paging of the delete screen: the installed containers are split into
  pages with `reduce`, the item at index i going into chunk
  floor(i / 10), which is created when it does not exist yet.
*/
module Chunking {

  /** The argument of the only call, `filteredApps(10)`. */
  const Amount: nat := 10

  function Min(x: int, y: int): int { if x <= y then x else y }

  /** `Math.ceil(n / 10)` for a natural n. */
  function PageCount(n: nat): nat
  {
    (n + Amount - 1) / Amount
  }

  /** One call of the reducer: push `item` onto chunk `c`, creating it when
      `resultArray[c]` is still undefined. */
  function Place<T>(acc: seq<seq<T>>, item: T, c: nat): (r: seq<seq<T>>)
    requires c <= |acc|
  {
    if c < |acc| then acc[c := acc[c] + [item]] else acc + [[item]]
  }

  /** `items.reduce(...)` with chunk index `Math.floor(index / amount)`. */
  function Reduce<T>(items: seq<T>): (r: seq<seq<T>>)
    ensures |r| == PageCount(|items|)
    decreases |items|
  {
    if items == [] then []
    else
      var n := |items| - 1;
      Place(Reduce(items[..n]), items[n], n / Amount)
  }

  /** Chunk i of the reduction holds the items with indexes 10*i .. 10*i + 9
      (fewer in the last chunk). */
  lemma {:induction false} ReduceChunk<T>(items: seq<T>, i: nat)
    requires i < |Reduce(items)|
    ensures i * Amount < |items|
    ensures Reduce(items)[i] == items[i * Amount .. Min((i + 1) * Amount, |items|)]
    decreases |items|
  {
    var n := |items| - 1;
    var pre := items[..n];
    var acc := Reduce(pre);
    var c := n / Amount;
    if i < |acc| {
      ReduceChunk(pre, i);
    }
    if i == c {
      if c < |acc| {
        assert Reduce(items)[i] == acc[i] + [items[n]];
      } else {
        assert Reduce(items)[i] == [items[n]];
      }
    } else {
      assert Reduce(items)[i] == acc[i];
    }
  }

  /** Concatenation of chunks. */
  function Flatten<T>(chunks: seq<seq<T>>): seq<T>
  {
    if chunks == [] then [] else Flatten(chunks[..|chunks| - 1]) + chunks[|chunks| - 1]
  }

  lemma {:induction false} FlattenPrefix<T>(items: seq<T>, k: nat)
    requires k <= |Reduce(items)|
    ensures Flatten(Reduce(items)[..k]) == items[..Min(k * Amount, |items|)]
  {
    var chunks := Reduce(items);
    if k > 0 {
      FlattenPrefix(items, k - 1);
      ReduceChunk(items, k - 1);
      assert chunks[..k][..k - 1] == chunks[..k - 1];
    }
  }

  /** The pages of the delete screen: ceil(n / 10) chunks, none empty, none
      longer than 10, whose concatenation is the installed list. */
  lemma ReduceIsPartition<T>(items: seq<T>)
    ensures |Reduce(items)| == PageCount(|items|)
    ensures Flatten(Reduce(items)) == items
    ensures forall i :: 0 <= i < |Reduce(items)| ==> 0 < |Reduce(items)[i]| <= Amount
  {
    var chunks := Reduce(items);
    FlattenPrefix(items, |chunks|);
    assert chunks[..|chunks|] == chunks;
    forall i | 0 <= i < |chunks| ensures 0 < |chunks[i]| <= Amount {
      ReduceChunk(items, i);
    }
  }
}
