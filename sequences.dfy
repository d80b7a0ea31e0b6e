/** Facts about slicing and appending sequences, for any element type. */
module Sequences {

  /** Appending a growing prefix of `b` to `a`, stated once for every element type. */
  lemma AppendPrefix<T>(a: seq<T>, b: seq<T>, i: nat)
    requires i <= |b|
    ensures i == 0 ==> a + b[..i] == a
    ensures i == |b| ==> a + b[..i] == a + b
    ensures i < |b| ==> a + b[..i + 1] == (a + b[..i]) + [b[i]]
    ensures a + b == (a + b[..i]) + b[i..]
  {
    if i == 0 {
      assert b[..i] == [];
    }
    if i == |b| {
      assert b[..i] == b;
    }
    assert b == b[..i] + b[i..];
  }

  /** Appending one element to a prefix of `s` gives the next prefix. */
  lemma PrefixStep<T>(s: seq<T>, i: nat)
    requires i < |s|
    ensures s[..i + 1] == s[..i] + [s[i]]
  {
  }

  /** Equal sequences with a common prefix and suffix agree in the middle. */
  lemma SameMiddle<T>(r: seq<T>, p: seq<T>, x: seq<T>, y: seq<T>, q: seq<T>)
    requires r + ((p + x) + q) == r + ((p + y) + q)
    ensures x == y
  {
    var whole := r + ((p + x) + q);
    assert |x| == |y|;
    assert whole[|r| + |p|..|r| + |p| + |x|] == x;
    assert (r + ((p + y) + q))[|r| + |p|..|r| + |p| + |y|] == y;
  }

  /** `x` is the prefix of `x + y` of its own length. */
  lemma PrefixOfAppend<T>(x: seq<T>, y: seq<T>)
    ensures (x + y)[..|x|] == x
  {
  }

  /** `e` is the suffix of `h + (x + e)` of its own length. */
  lemma SuffixOfAppend<T>(h: seq<T>, x: seq<T>, e: seq<T>)
    ensures (h + (x + e))[|h + (x + e)| - |e|..] == e
  {
  }

  /** `s` is `a`, then `head`, then anything, and ends in `tail`. */
  ghost predicate Framed<T>(s: seq<T>, a: seq<T>, head: seq<T>, tail: seq<T>) {
    && |a| + |head| + |tail| <= |s|
    && s[..|a|] == a
    && s[|a|..|a| + |head|] == head
    && s[|s| - |tail|..] == tail
  }

  /** `a`, `head`, anything, `tail`, appended in that order, are framed so. */
  lemma FramedAppend<T>(a: seq<T>, head: seq<T>, rest: seq<T>, tail: seq<T>)
    ensures Framed(a + (head + (rest + tail)), a, head, tail)
  {
    var s := a + (head + (rest + tail));
    assert s[|a|..|a| + |head|] == head;
    assert s[|s| - |tail|..] == tail;
  }

  /** Appending is associative. */
  lemma SeqAssoc<T>(a: seq<T>, b: seq<T>, c: seq<T>)
    ensures a + (b + c) == (a + b) + c
  {
  }
}
