/**
 * Vocabulary shared by the two deque models: the element slot with its
 * null sentinel, the .NET exceptions the deques let escape, the
 * sequence-level operations their contracts are written in, and a model
 * of `Array.Copy`.
 */
module DequeCommon {

  /** An element slot. `None` stands for C#'s `null`, which is also
      `default(T)` for the reference types the deques are used with. */
  datatype Option<V> = None | Some(value: V)

  /** The exceptions the deques throw. */
  datatype Error =
    | ArgumentOutOfRange   // System.ArgumentOutOfRangeException
    | IndexOutOfRange      // System.IndexOutOfRangeException
    | ArgumentNull         // System.ArgumentNullException
    | Argument             // System.ArgumentException (a range Array.Copy refuses)

  /** The outcome of a call that returns nothing but may throw. */
  datatype Outcome = Pass | Fail(error: Error)

  /** The outcome of a call that returns a value or throws. */
  datatype Result<R> = Ok(value: R) | Err(error: Error)

  /** `n` null slots: the contents of a freshly allocated array. */
  function Nones<V>(n: nat): (r: seq<Option<V>>)
    ensures |r| == n && forall k :: 0 <= k < n ==> r[k] == None
  {
    seq(n, _ => None)
  }

  function Min(a: int, b: int): (r: int)
    ensures r <= a && r <= b && (r == a || r == b)
  {
    if a < b then a else b
  }

  /** `s` with `x` placed at position `i`, the later elements moved up by one. */
  function Inserted<T>(s: seq<T>, i: int, x: T): (r: seq<T>)
    requires 0 <= i <= |s|
    ensures |r| == |s| + 1 && r[i] == x
    ensures forall k :: 0 <= k < i ==> r[k] == s[k]
    ensures forall k :: i < k < |r| ==> r[k] == s[k - 1]
  {
    s[..i] + [x] + s[i..]
  }

  /** `s` without its element at position `i`, the later elements moved down by one. */
  function Removed<T>(s: seq<T>, i: int): (r: seq<T>)
    requires 0 <= i < |s|
    ensures |r| == |s| - 1
    ensures forall k :: 0 <= k < i ==> r[k] == s[k]
    ensures forall k :: i <= k < |r| ==> r[k] == s[k + 1]
  {
    s[..i] + s[i + 1..]
  }

  /** Removing what was just inserted gives the sequence back. */
  lemma RemovedInserted<T>(s: seq<T>, i: int, x: T)
    requires 0 <= i <= |s|
    ensures Removed(Inserted(s, i, x), i) == s
  {
    var r := Removed(Inserted(s, i, x), i);
    assert forall k :: 0 <= k < |s| ==> r[k] == s[k];
  }

  /** Re-inserting what was just removed gives the sequence back. */
  lemma InsertedRemoved<T>(s: seq<T>, i: int)
    requires 0 <= i < |s|
    ensures Inserted(Removed(s, i), i, s[i]) == s
  {
    var r := Inserted(Removed(s, i), i, s[i]);
    assert forall k :: 0 <= k < |s| ==> r[k] == s[k];
  }

  /**
   * The least position of `x` in `s`, or -1 when `x` does not occur:
   * the answer of `IndexOf` on the logical contents of either deque.
   */
  function FirstIndex<T(==)>(s: seq<T>, x: T): (r: int)
    ensures -1 <= r < |s|
    ensures r == -1 <==> x !in s
    ensures 0 <= r ==> s[r] == x && x !in s[..r]
  {
    if |s| == 0 then -1
    else if s[0] == x then 0
    else
      var r := FirstIndex(s[1..], x);
      assert s[1..][..if r < 0 then 0 else r] == s[1..if r < 0 then 1 else r + 1];
      if r < 0 then -1 else r + 1
  }

  /** A first occurrence is THE first occurrence: `FirstIndex` is the only answer. */
  lemma FirstIndexUnique<T>(s: seq<T>, x: T, i: int)
    requires 0 <= i < |s| && s[i] == x && x !in s[..i]
    ensures FirstIndex(s, x) == i
  {
  }

  /**
   * `d` with `piece` written over it from position `at` on: the contents of
   * a destination array after `Array.Copy` put `piece` there.
   */
  function Overwritten<T>(d: seq<T>, at: int, piece: seq<T>): (r: seq<T>)
    requires 0 <= at && at + |piece| <= |d|
    ensures |r| == |d|
    ensures forall k :: 0 <= k < |d| ==> r[k] == if at <= k < at + |piece| then piece[k - at] else d[k]
    ensures r[at..at + |piece|] == piece
  {
    d[..at] + piece + d[at + |piece|..]
  }

  /** Two copies that abut act as one copy of the joined pieces. */
  lemma OverwrittenTwice<T>(d: seq<T>, at: int, p1: seq<T>, p2: seq<T>)
    requires 0 <= at && at + |p1| + |p2| <= |d|
    ensures Overwritten(Overwritten(d, at, p1), at + |p1|, p2) == Overwritten(d, at, p1 + p2)
  {
    var l := Overwritten(Overwritten(d, at, p1), at + |p1|, p2);
    var r := Overwritten(d, at, p1 + p2);
    forall k | 0 <= k < |d| ensures l[k] == r[k] {
      if at + |p1| <= k < at + |p1| + |p2| {
        assert (p1 + p2)[k - at] == p2[k - at - |p1|];
      }
    }
  }

  /**
   * `Array.Copy(src, srcIndex, dst, dstIndex, length)` for a range that
   * `Array.Copy` accepts. When `src` and `dst` are the same array the copy
   * behaves as if the source range were saved first (memmove): it runs
   * backwards when the destination lies above the source.
   */
  method ArrayCopy<T>(src: array<T>, srcIndex: int, dst: array<T>, dstIndex: int, length: int)
    requires 0 <= srcIndex && 0 <= dstIndex && 0 <= length
    requires srcIndex + length <= src.Length && dstIndex + length <= dst.Length
    modifies dst
    ensures dst[..] == Overwritten(old(dst[..]), dstIndex, old(src[srcIndex..srcIndex + length]))
  {
    if src == dst && srcIndex < dstIndex {
      CopyDown(src, srcIndex, dstIndex, length);
    } else {
      CopyUp(src, srcIndex, dst, dstIndex, length);
    }
  }

  /** The copy loop from the highest index down, for a destination above the source in one array. */
  method CopyDown<T>(a: array<T>, srcIndex: int, dstIndex: int, length: int)
    requires 0 <= srcIndex < dstIndex && 0 <= length && dstIndex + length <= a.Length
    modifies a
    ensures a[..] == Overwritten(old(a[..]), dstIndex, old(a[srcIndex..srcIndex + length]))
  {
    ghost var d0 := a[..];
    ghost var piece := a[srcIndex..srcIndex + length];
    var k := length;
    while k > 0
      invariant 0 <= k <= length
      invariant forall i :: 0 <= i < a.Length ==>
                  a[i] == if dstIndex + k <= i < dstIndex + length then piece[i - dstIndex] else d0[i]
    {
      k := k - 1;
      a[dstIndex + k] := a[srcIndex + k];
    }
    assert forall i :: 0 <= i < a.Length ==> a[..][i] == Overwritten(d0, dstIndex, piece)[i];
  }

  /** The copy loop from the lowest index up, for distinct arrays or a destination not above the source. */
  method CopyUp<T>(src: array<T>, srcIndex: int, dst: array<T>, dstIndex: int, length: int)
    requires 0 <= srcIndex && 0 <= dstIndex && 0 <= length
    requires srcIndex + length <= src.Length && dstIndex + length <= dst.Length
    requires src == dst ==> dstIndex <= srcIndex
    modifies dst
    ensures dst[..] == Overwritten(old(dst[..]), dstIndex, old(src[srcIndex..srcIndex + length]))
  {
    ghost var d0 := dst[..];
    ghost var piece := src[srcIndex..srcIndex + length];
    var k := 0;
    while k < length
      invariant 0 <= k <= length
      invariant forall i :: 0 <= i < dst.Length ==>
                  dst[i] == if dstIndex <= i < dstIndex + k then piece[i - dstIndex] else d0[i]
      invariant src != dst ==> forall i :: 0 <= i < src.Length ==> src[i] == old(src[i])
    {
      dst[dstIndex + k] := src[srcIndex + k];
      k := k + 1;
    }
    assert forall i :: 0 <= i < dst.Length ==> dst[..][i] == Overwritten(d0, dstIndex, piece)[i];
  }
}
