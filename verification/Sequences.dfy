/** Notions shared by several of the models. */
module Sequences {

  datatype Option<T> = None | Some(value: T)

  /** The sequence without its element at position `k`. */
  function Removed<T>(s: seq<T>, k: nat): (r: seq<T>)
    requires k < |s|
    ensures |r| == |s| - 1
    ensures forall i :: 0 <= i < |r| ==> r[i] == s[if i < k then i else i + 1]
  {
    s[..k] + s[k + 1..]
  }

  /** Removing an element other than the last keeps the last. */
  lemma {:induction false} RemovedBeforeLast<T>(s: seq<T>, k: nat)
    requires k < |s| - 1
    ensures Removed(s, k) == Removed(s[..|s| - 1], k) + [s[|s| - 1]]
    ensures s == s[..|s| - 1] + [s[|s| - 1]]
  {
  }
}
