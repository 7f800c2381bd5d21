// Client sequences over both deques: each method builds a queue, runs a
// sequence of the public operations and states what the caller observes.
// They record that the operations' contracts compose across calls.

module DequeScenarios {
  import opened DequeCommon
  import opened CircularDeque
  import opened GrowableDeque

  /** The prefix of `xs` one longer is the prefix with the next element appended. */
  lemma PrefixGrows<T>(xs: seq<T>, i: int)
    requires 0 <= i < |xs|
    ensures xs[..i + 1] == xs[..i] + [xs[i]]
  {
  }

  /** Taking the next element of `s` after the first `n` moves it from the rest to the taken prefix. */
  lemma DrainStep<T>(s: seq<T>, n: int)
    requires 0 <= n < |s|
    ensures s[..n] + [s[n]] == s[..n + 1] && s[n..][1..] == s[n + 1..] && s[n..][0] == s[n]
  {
  }

  /** Taking the last of the first `m` elements of `s` leaves the first `m - 1`. */
  lemma DrainBackStep<T>(s: seq<T>, m: int)
    requires 0 < m <= |s|
    ensures s[..m][..m - 1] == s[..m - 1] && s[..m][m - 1] == s[m - 1]
  {
  }

  /** A ring of the given capacity after `xs` was pushed at the back: the newest `capacity` of them. */
  method RingFilled(capacity: int, xs: seq<Option<int>>) returns (q: CircularDoubleEndedQueue<int>)
    requires 3 <= capacity
    ensures fresh(q) && fresh(q.items) && q.Consistent() && q.Capacity() == capacity
    ensures q.Contents() == Newest(xs, capacity)
  {
    q := new CircularDoubleEndedQueue<int>(capacity);
    var i := 0;
    while i < |xs|
      invariant 0 <= i <= |xs|
      invariant fresh(q) && fresh(q.items) && q.Consistent() && q.Capacity() == capacity
      invariant q.Contents() == Newest(xs[..i], capacity)
    {
      PrefixGrows(xs, i);
      RingPushNewest(q, xs[..i], xs[i]);
      i := i + 1;
    }
    assert xs[..i] == xs;
  }

  /** One back push on a ring holding the newest elements of `t` leaves the newest elements of `t + [x]`. */
  method RingPushNewest(q: CircularDoubleEndedQueue<int>, ghost t: seq<Option<int>>, x: Option<int>)
    requires q.Consistent() && q.Contents() == Newest(t, q.Capacity())
    modifies q, q.items
    ensures q.items == old(q.items) && q.Consistent()
    ensures q.Contents() == Newest(t + [x], q.Capacity())
  {
    q.Enqueue(x);
    PushBackKeepsNewest(Newest(t, q.Capacity()), x, q.Capacity());
    NewestTwice(t, [x], q.Capacity());
  }

  /** Popping a consistent ring from the front until it is empty yields its contents in order. */
  method RingDrain(q: CircularDoubleEndedQueue<int>) returns (ys: seq<Option<int>>)
    requires q.Consistent()
    modifies q, q.items
    ensures ys == old(q.Contents()) && q.Consistent() && q.Count() == 0
  {
    ghost var s := q.Contents();
    ys := [];
    while q.Count() > 0
      invariant q.items == old(q.items) && q.Consistent()
      invariant |ys| <= |s| && ys == s[..|ys|] && q.Contents() == s[|ys|..]
      decreases q.Count()
    {
      var y := q.Dequeue();
      DrainStep(s, |ys|);
      ys := ys + [y];
    }
    assert s[..|ys|] == s;
  }

  /**
   * Pushing `xs` at the back of a ring of the given capacity and then
   * popping from the front until it is empty yields the newest `capacity`
   * elements in arrival order: all of `xs` when they fit.
   */
  method RingPushThenDrain(capacity: int, xs: seq<Option<int>>) returns (ys: seq<Option<int>>)
    requires 3 <= capacity
    ensures ys == Newest(xs, capacity)
    ensures |xs| <= capacity ==> ys == xs
  {
    var q := RingFilled(capacity, xs);
    ys := RingDrain(q);
  }

  /** A growable queue of the smallest capacity after `xs` was pushed at the back: all of them, in order. */
  method GrowableFilled(xs: seq<Option<int>>) returns (q: DoubleEndedQueue<int>)
    ensures fresh(q) && fresh(q.items) && q.Valid() && q.Contents() == xs
  {
    q := new DoubleEndedQueue<int>(3);
    var i := 0;
    while i < |xs|
      invariant 0 <= i <= |xs|
      invariant fresh(q) && fresh(q.items) && q.Valid()
      invariant q.Contents() == xs[..i]
    {
      PrefixGrows(xs, i);
      q.Enqueue(xs[i]);
      i := i + 1;
    }
    assert xs[..i] == xs;
  }

  /** Popping a growable queue from the front until it is empty yields its contents in order. */
  method GrowableDrain(q: DoubleEndedQueue<int>) returns (ys: seq<Option<int>>)
    requires q.Valid()
    modifies q, q.items
    ensures ys == old(q.Contents()) && q.Valid() && q.Count() == 0
  {
    ghost var s := q.Contents();
    ys := [];
    while q.Count() > 0
      invariant q.items == old(q.items) && q.Valid()
      invariant |ys| <= |s| && ys == s[..|ys|] && q.Contents() == s[|ys|..]
      decreases q.Count()
    {
      var y := q.Dequeue();
      DrainStep(s, |ys|);
      ys := ys + [y];
    }
    assert s[..|ys|] == s;
  }

  /** Popping a growable queue from the back until it is empty yields its contents last first. */
  method GrowableDrainBack(q: DoubleEndedQueue<int>) returns (ys: seq<Option<int>>)
    requires q.Valid()
    modifies q, q.items
    ensures q.Valid() && q.Count() == 0 && |ys| == |old(q.Contents())|
    ensures forall k :: 0 <= k < |ys| ==> ys[k] == old(q.Contents())[|ys| - 1 - k]
  {
    ghost var s := q.Contents();
    ys := [];
    while q.Count() > 0
      invariant q.items == old(q.items) && q.Valid()
      invariant |ys| <= |s| && q.Contents() == s[..|s| - |ys|]
      invariant forall k :: 0 <= k < |ys| ==> ys[k] == s[|s| - 1 - k]
      decreases q.Count()
    {
      var y := q.DequeueBack();
      DrainBackStep(s, |s| - |ys|);
      ys := ys + [y];
    }
  }

  /**
   * Pushing `xs` at the back of a growable queue that starts at the smallest
   * capacity, and then popping from the front, yields `xs` in order and
   * leaves the queue empty, however often the capacity was adjusted.
   */
  method GrowablePushThenDrain(xs: seq<Option<int>>) returns (ys: seq<Option<int>>, left: int)
    ensures ys == xs && left == 0
  {
    var q := GrowableFilled(xs);
    ys := GrowableDrain(q);
    left := q.Count();
  }

  /**
   * Pushing `xs` at the back of a growable queue and popping from the back
   * yields `xs` reversed: the queue is also a stack.
   */
  method GrowablePushThenPopBack(xs: seq<Option<int>>) returns (ys: seq<Option<int>>)
    ensures ys == Reversed(xs)
  {
    var q := GrowableFilled(xs);
    ys := GrowableDrainBack(q);
    ReversedAt(xs);
  }

  /**
   * Writing a value at a live position of a growable queue filled with `xs`
   * and reading that position back gives the value, and only that position
   * changes.
   */
  method GrowableSetThenGet(xs: seq<Option<int>>, index: int, v: int) returns (r: Result<Option<int>>, after: seq<Option<int>>)
    requires 0 <= index < |xs|
    ensures r == Ok(Some(v)) && after == xs[index := Some(v)]
  {
    var q := GrowableFilled(xs);
    var _ := q.Set(index, Some(v));
    r := q.Get(index);
    var a := q.ToArray();
    after := a[..];
  }

  /**
   * The same round trip on a ring large enough for `xs`: the value written
   * at a live position is the value read there, and only that position
   * changes.
   */
  method RingSetThenGet(xs: seq<Option<int>>, index: int, v: int) returns (r: Result<Option<int>>, after: seq<Option<int>>)
    requires 0 <= index < |xs|
    ensures r == Ok(Some(v)) && after == xs[index := Some(v)]
  {
    var q := RingFilled(|xs| + 3, xs);
    var _ := q.Set(index, Some(v));
    r := q.Get(index);
    var a := q.ToArray();
    after := a[..];
  }
}
