/** Small generic helpers shared by every module of the ingestion model. */
module Util {

  /** Python's `None`-or-value, used for the answers of remote services and lookups. */
  datatype Option<+T> = None | Some(value: T) {
    predicate IsFailure() { None? }

    function PropagateFailure<U>(): Option<U>
      requires None?
    {
      None
    }

    function Extract(): T
      requires Some?
    {
      value
    }
  }

  /** The nested vectors the embedding service answers for one input (`response['embeddings']`). */
  type Vectors = seq<seq<real>>

  /** Sum of the lengths of the inner lists. */
  function TotalLength<T>(xss: seq<seq<T>>): nat
  {
    if xss == [] then 0 else TotalLength(xss[..|xss| - 1]) + |xss[|xss| - 1]|
  }

  /**
   * In-order concatenation of a list of lists, the comprehension
   * `[x for sub in xss for x in sub]` that flattens embeddings and page images.
   */
  function Flatten<T>(xss: seq<seq<T>>): seq<T>
  {
    if xss == [] then [] else Flatten(xss[..|xss| - 1]) + xss[|xss| - 1]
  }

  /** Flattening distributes over concatenation of the outer lists. */
  lemma {:induction false} FlattenAppend<T>(xss: seq<seq<T>>, yss: seq<seq<T>>)
    ensures Flatten(xss + yss) == Flatten(xss) + Flatten(yss)
  {
    if yss == [] {
      assert xss + yss == xss;
    } else {
      assert (xss + yss)[..|xss + yss| - 1] == xss + yss[..|yss| - 1];
      FlattenAppend(xss, yss[..|yss| - 1]);
    }
  }

  /** The flattened list is exactly as long as all inner lists together. */
  lemma {:induction false} FlattenLength<T>(xss: seq<seq<T>>)
    ensures |Flatten(xss)| == TotalLength(xss)
  {
    if xss != [] {
      FlattenLength(xss[..|xss| - 1]);
    }
  }

  /**
   * Element `j` of inner list `i` sits in the flattened list right after
   * everything that precedes list `i`: the order of the nesting is kept.
   */
  lemma {:induction false} FlattenAt<T>(xss: seq<seq<T>>, i: nat, j: nat)
    requires i < |xss| && j < |xss[i]|
    ensures TotalLength(xss[..i]) + j < |Flatten(xss)|
    ensures Flatten(xss)[TotalLength(xss[..i]) + j] == xss[i][j]
  {
    var n := |xss|;
    FlattenLength(xss[..n - 1]);
    FlattenLength(xss[..i]);
    assert xss[..n][..n - 1] == xss[..n - 1];
    if i == n - 1 {
      assert xss[..i] == xss[..n - 1];
    } else {
      assert xss[..n - 1][..i] == xss[..i];
      FlattenAt(xss[..n - 1], i, j);
    }
  }

  /** Concatenation regroups freely; stated once so proofs need not re-derive it elementwise. */
  lemma ConcatAssoc<T>(x: seq<T>, y: seq<T>, z: seq<T>)
    ensures x + (y + z) == x + y + z
  {
  }

  function Min(a: int, b: int): int
  {
    if a <= b then a else b
  }
}
