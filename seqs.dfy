/** Small facts about sequence slicing and concatenation, each proved on its
    own so that the string proofs can cite them instead of re-deriving them
    element by element. */
module Seqs {

  lemma TakeDrop<T>(s: seq<T>, k: nat)
    requires k <= |s|
    ensures s == s[..k] + s[k..]
  {
  }

  lemma AppendAssoc<T>(a: seq<T>, b: seq<T>, c: seq<T>)
    ensures a + b + c == a + (b + c)
  {
  }

  lemma AppendEmpty<T>(a: seq<T>)
    ensures a + [] == a && [] + a == a
  {
  }

  /** Dropping the head of a concatenation whose left part is non-empty. */
  lemma AppendTail<T>(a: seq<T>, b: seq<T>)
    requires |a| > 0
    ensures (a + b)[0] == a[0] && (a + b)[1..] == a[1..] + b
  {
  }

  /** Dropping the last element of a concatenation whose right part is
      non-empty. */
  lemma AppendInit<T>(a: seq<T>, b: seq<T>)
    requires |b| > 0
    ensures (a + b)[|a + b| - 1] == b[|b| - 1]
    ensures (a + b)[..|a + b| - 1] == a + b[..|b| - 1]
  {
  }

  /** A sequence is its head followed by its tail. */
  lemma HeadTail<T>(s: seq<T>)
    requires |s| > 0
    ensures s == [s[0]] + s[1..]
  {
  }

  /** The parts on either side of a marked element of `a + [x] + b`. */
  lemma SliceAround<T>(a: seq<T>, x: T, b: seq<T>)
    ensures (a + [x] + b)[..|a|] == a
    ensures (a + [x] + b)[|a|] == x
    ensures (a + [x] + b)[|a| + 1..] == b
  {
  }

  /** Cutting `a + [x] + b` at a position `i` inside `a`. */
  lemma SliceInside<T>(a: seq<T>, x: T, b: seq<T>, i: nat)
    requires i < |a|
    ensures (a + [x] + b)[..i] == a[..i]
    ensures (a + [x] + b)[i + 1..] == a[i + 1..] + [x] + b
  {
    assert (a + [x] + b)[i + 1..] == a[i + 1..] + [x] + b;
  }

  /** A sequence cut around its element `i`. */
  lemma CutAt<T>(s: seq<T>, i: nat)
    requires i < |s|
    ensures s == s[..i] + [s[i]] + s[i + 1..]
  {
  }
}
