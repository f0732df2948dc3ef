/** Small shared vocabulary: optional values, bytes, and flattening a
    sequence of sequences (a file written chunk by chunk, a body sent
    write by write). */
module Basics {

  datatype Option<+T> = None | Some(value: T)

  /** A Go `byte`. */
  type Byte = b: int | 0 <= b < 256

  /** The concatenation of all the pieces, in order. */
  function Flatten<T>(pieces: seq<seq<T>>): (all: seq<T>)
    ensures |all| == 0 <==> forall i :: 0 <= i < |pieces| ==> pieces[i] == []
  {
    if pieces == [] then [] else pieces[0] + Flatten(pieces[1..])
  }

  /** A piece in front adds its elements in front. */
  lemma FlattenCons<T>(x: seq<T>, rest: seq<seq<T>>)
    ensures Flatten([x] + rest) == x + Flatten(rest)
  {
    assert ([x] + rest)[1..] == rest;
  }

  /** A slice in front of pieces that make up the adjacent slice makes up
      the slice spanning both. */
  lemma FlattenFront<T>(s: seq<T>, lo: nat, mid: nat, hi: nat, rest: seq<seq<T>>)
    requires lo <= mid <= hi <= |s|
    requires Flatten(rest) == s[mid..hi]
    ensures Flatten([s[lo..mid]] + rest) == s[lo..hi]
  {
    FlattenCons(s[lo..mid], rest);
    assert s[lo..mid] + s[mid..hi] == s[lo..hi];
  }

  function Min(a: int, b: int): (m: int)
    ensures m <= a && m <= b && (m == a || m == b)
  {
    if a <= b then a else b
  }

  /** A slice grows by one element at its upper end. */
  lemma SliceExtend<T>(s: seq<T>, lo: nat, hi: nat)
    requires lo <= hi < |s|
    ensures s[lo..hi + 1] == s[lo..hi] + [s[hi]]
  {
  }

  /** A non-empty sequence is its front followed by its last element. */
  lemma SplitLast<T>(s: seq<T>)
    requires s != []
    ensures s[..|s| - 1] + [s[|s| - 1]] == s
  {
  }

  lemma SliceToEnd<T>(s: seq<T>, lo: nat)
    requires lo <= |s|
    ensures s[lo..|s|] == s[lo..]
  {
  }

  /** Dropping the last element of `a + b`, for a non-empty `b`. */
  lemma FrontOfAppend<T>(a: seq<T>, b: seq<T>)
    requires b != []
    ensures (a + b)[..|a + b| - 1] == a + b[..|b| - 1]
  {
  }

  lemma TailOfCons<T>(x: T, t: seq<T>)
    ensures ([x] + t)[1..] == t
  {
  }

  /** A second update of the same key replaces the first. */
  lemma UpdateTwice<K, V>(m: map<K, V>, k: K, a: V, b: V)
    ensures m[k := a][k := b] == m[k := b]
  {
  }

  /** Removing a key forgets what it was last updated to. */
  lemma RemoveUpdated<K, V>(m: map<K, V>, k: K, a: V)
    ensures m[k := a] - {k} == m - {k}
  {
  }

  lemma AppendAssoc<T>(a: seq<T>, b: seq<T>, c: seq<T>)
    ensures a + (b + c) == (a + b) + c
  {
  }
}
