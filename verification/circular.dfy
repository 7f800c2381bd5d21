/**
 * The fixed-capacity deque of
 * src/CSharpCollections/DoubleEndedQueue/CircularDoubleEndedQueue.cs.
 *
 * The elements live in a ring of slots: logical position i is the slot
 * (front + i) % Capacity, `count` is kept in a field, and `back` is the slot
 * the next back push writes. Pushing onto a full ring overwrites the element
 * at the opposite end, so the capacity never changes.
 */
module CircularDeque {
  import opened DequeCommon

  /** The capacity the parameterless constructor uses. */
  const DefaultCapacity: int := 32

  // ---------------------------------------------------------------------
  // Reading a ring
  // ---------------------------------------------------------------------

  /**
   * Slot `x` of a ring of `n` slots. Every slot index the deque computes is
   * below twice the capacity, so reducing it subtracts the capacity at most once.
   */
  function Wrap(x: int, n: int): (r: int)
    requires 0 <= x < 2 * n
    ensures 0 <= r < n
  {
    if x < n then x else x - n
  }

  /** The source reduces slot indices with `%`; on those indices `%` is `Wrap`. */
  lemma ModWrap(x: int, n: int)
    requires 0 <= x < 2 * n
    ensures x % n == Wrap(x, n)
  {
  }

  /** Reducing and then stepping one slot on is stepping and then reducing. */
  lemma NextSlot(x: int, n: int)
    requires 0 <= x && x + 1 < 2 * n
    ensures Wrap(Wrap(x, n) + 1, n) == Wrap(x + 1, n)
  {
  }

  /** The `count` slots of `a` read from slot `front` on, wrapping at the end. */
  function Ring<T>(a: seq<T>, front: int, count: int): (r: seq<T>)
    requires 0 <= front < |a| && 0 <= count <= |a|
    ensures |r| == count
    ensures forall i :: 0 <= i < count ==> r[i] == a[Wrap(front + i, |a|)]
  {
    seq(count, i requires 0 <= i < count => a[Wrap(front + i, |a|)])
  }

  /** Writing the slot of logical position j changes the view at j and nowhere else. */
  lemma RingWrite<T>(a: seq<T>, front: int, count: int, j: int, v: T)
    requires 0 <= front < |a| && 0 <= j < count <= |a|
    ensures Ring(a[Wrap(front + j, |a|) := v], front, count) == Ring(a, front, count)[j := v]
  {
    var l := Ring(a[Wrap(front + j, |a|) := v], front, count);
    var r := Ring(a, front, count)[j := v];
    assert forall i | 0 <= i < count :: l[i] == r[i];
  }

  /** Writing a slot beyond the view leaves the view as it was. */
  lemma RingWriteOutside<T>(a: seq<T>, front: int, count: int, m: int, v: T)
    requires 0 <= front < |a| && 0 <= count <= m < |a|
    ensures Ring(a[Wrap(front + m, |a|) := v], front, count) == Ring(a, front, count)
  {
    var l := Ring(a[Wrap(front + m, |a|) := v], front, count);
    var r := Ring(a, front, count);
    assert forall i | 0 <= i < count :: l[i] == r[i];
  }

  /** Filling the slot right after the view extends the view at its back. */
  lemma RingWriteBack<T>(a: seq<T>, front: int, count: int, x: T)
    requires 0 <= front < |a| && 0 <= count < |a|
    ensures Ring(a[Wrap(front + count, |a|) := x], front, count + 1) == Ring(a, front, count) + [x]
  {
    var l := Ring(a[Wrap(front + count, |a|) := x], front, count + 1);
    var r := Ring(a, front, count) + [x];
    assert forall i | 0 <= i < count + 1 :: l[i] == r[i];
  }

  /** The slot before `front`, wrapping from the first slot to the last. */
  function Before(front: int, n: int): (r: int)
    requires 0 <= front < n
    ensures 0 <= r < n && Wrap(r + 1, n) == front
  {
    if front == 0 then n - 1 else front - 1
  }

  /** Filling the slot right before the view and starting there extends the view at its front. */
  lemma RingWriteFront<T>(a: seq<T>, front: int, count: int, x: T)
    requires 0 <= front < |a| && 0 <= count < |a|
    ensures Ring(a[Before(front, |a|) := x], Before(front, |a|), count + 1) == [x] + Ring(a, front, count)
  {
    var l := Ring(a[Before(front, |a|) := x], Before(front, |a|), count + 1);
    var r := [x] + Ring(a, front, count);
    assert forall i | 0 <= i < count + 1 :: l[i] == r[i];
  }

  /** Dropping the first element of the view moves its start one slot on. */
  lemma RingTail<T>(a: seq<T>, front: int, count: int)
    requires 0 <= front < |a| && 0 < count <= |a|
    ensures Ring(a, front, count)[1..] == Ring(a, Wrap(front + 1, |a|), count - 1)
  {
    var l := Ring(a, front, count)[1..];
    var r := Ring(a, Wrap(front + 1, |a|), count - 1);
    assert forall i | 0 <= i < count - 1 :: l[i] == r[i];
  }

  /** A prefix of the view is the shorter view from the same slot. */
  lemma RingPrefix<T>(a: seq<T>, front: int, count: int, m: int)
    requires 0 <= front < |a| && 0 <= m <= count <= |a|
    ensures Ring(a, front, count)[..m] == Ring(a, front, m)
  {
    var l := Ring(a, front, count)[..m];
    var r := Ring(a, front, m);
    assert forall i | 0 <= i < m :: l[i] == r[i];
  }

  /** A view that does not pass the end of the array is a slice; one that does is two. */
  lemma RingSplit<T>(a: seq<T>, front: int, count: int)
    requires 0 <= front < |a| && 0 <= count <= |a|
    ensures front + count <= |a| ==> Ring(a, front, count) == a[front..front + count]
    ensures front + count > |a| ==> Ring(a, front, count) == a[front..] + a[..front + count - |a|]
  {
    var r := Ring(a, front, count);
    if front + count <= |a| {
      var t := a[front..front + count];
      assert forall i | 0 <= i < count :: r[i] == t[i];
    } else {
      var t := a[front..] + a[..front + count - |a|];
      assert forall i | 0 <= i < count :: r[i] == t[i];
    }
  }

  /**
   * A back push on a ring whose back slot `b` is in step with its front and
   * count: the new front, count and back slot are again in step, and the
   * view is `PushBack` of the old one.
   */
  lemma RingEnqueue<T>(a: seq<T>, front: int, count: int, x: T, nf: int, nc: int)
    requires 0 <= front < |a| && 0 <= count <= |a|
    requires nf == (if count == |a| then Wrap(Wrap(front + count, |a|) + 1, |a|) else front)
    requires nc == (if count == |a| then count else count + 1)
    ensures Ring(a[Wrap(front + count, |a|) := x], nf, nc) == PushBack(Ring(a, front, count), x, |a|)
    ensures Wrap(Wrap(front + count, |a|) + 1, |a|) == Wrap(nf + nc, |a|)
  {
    var n := |a|;
    if count < n {
      RingWriteBack(a, front, count, x);
    } else {
      var s := Ring(a, front, n);
      var f := Wrap(front + 1, n);
      assert Wrap(f + (n - 1), n) == front;
      RingWriteBack(a, f, n - 1, x);
      RingTail(a, front, n);
      assert PushBack(s, x, n) == s[1..] + [x];
    }
  }

  /**
   * A front push: the slot before the front takes `x` and becomes the front,
   * the back slot stays in step, and the view is `PushFront` of the old one.
   */
  lemma RingEnqueueFront<T>(a: seq<T>, front: int, count: int, x: T)
    requires 0 <= front < |a| && 0 <= count <= |a|
    ensures var n := |a|; var f := Before(front, n);
            && Ring(a[f := x], f, Min(count + 1, n)) == PushFront(Ring(a, front, count), x, n)
            && (count < n ==> Wrap(f + count + 1, n) == Wrap(front + count, n))
  {
    var n := |a|;
    var s := Ring(a, front, count);
    if count < n {
      RingWriteFront(a, front, count, x);
      assert PushFront(s, x, n) == [x] + s;
    } else {
      RingWriteFront(a, front, n - 1, x);
      RingPrefix(a, front, n, n - 1);
      assert PushFront(s, x, n) == [x] + s[..n - 1];
    }
  }


  // ---------------------------------------------------------------------
  // The deque laws of a fixed-capacity ring
  // ---------------------------------------------------------------------

  /** The newest `capacity` elements of `t`. */
  function Newest<T>(t: seq<T>, capacity: int): (r: seq<T>)
    requires 0 <= capacity
    ensures |r| == Min(capacity, |t|)
  {
    t[|t| - Min(capacity, |t|)..]
  }

  /** The oldest `capacity` elements of `t`, counted from the front. */
  function Oldest<T>(t: seq<T>, capacity: int): (r: seq<T>)
    requires 0 <= capacity
    ensures |r| == Min(capacity, |t|)
  {
    t[..Min(capacity, |t|)]
  }

  /**
   * The contents after pushing `x` at the back of a ring of the given
   * capacity holding `s`: the newest `capacity` elements are kept, so a
   * full ring loses its front element.
   */
  function PushBack<T>(s: seq<T>, x: T, capacity: int): (r: seq<T>)
    requires 0 < capacity && |s| <= capacity
    ensures |r| == Min(|s| + 1, capacity) && r[|r| - 1] == x
  {
    if |s| < capacity then s + [x] else s[1..] + [x]
  }

  /** A back push keeps the newest `capacity` elements of the old contents followed by `x`. */
  lemma PushBackKeepsNewest<T>(s: seq<T>, x: T, capacity: int)
    requires 0 < capacity && |s| <= capacity
    ensures PushBack(s, x, capacity) == Newest(s + [x], capacity)
  {
    if |s| == capacity {
      assert (s + [x])[1..] == s[1..] + [x];
    }
  }

  /**
   * The contents after pushing `x` at the front of a ring of the given
   * capacity holding `s`: the `capacity` elements nearest the front are kept,
   * so a full ring loses its back element.
   */
  function PushFront<T>(s: seq<T>, x: T, capacity: int): (r: seq<T>)
    requires 0 < capacity && |s| <= capacity
    ensures |r| == Min(|s| + 1, capacity) && r[0] == x
  {
    if |s| < capacity then [x] + s else [x] + s[..|s| - 1]
  }

  /** A front push keeps `x` followed by the oldest elements of the old contents, up to `capacity`. */
  lemma PushFrontKeepsOldest<T>(s: seq<T>, x: T, capacity: int)
    requires 0 < capacity && |s| <= capacity
    ensures PushFront(s, x, capacity) == Oldest([x] + s, capacity)
  {
    if |s| == capacity {
      assert ([x] + s)[..capacity] == [x] + s[..|s| - 1];
    }
  }

  /** Pushing `vs` one after the other at the back. */
  function PushAllBack<T>(s: seq<T>, vs: seq<T>, capacity: int): (r: seq<T>)
    requires 0 < capacity && |s| <= capacity
    decreases |vs|
  {
    if vs == [] then s else PushAllBack(PushBack(s, vs[0], capacity), vs[1..], capacity)
  }

  /** Pushing `vs` one after the other at the front. */
  function PushAllFront<T>(s: seq<T>, vs: seq<T>, capacity: int): (r: seq<T>)
    requires 0 < capacity && |s| <= capacity
    decreases |vs|
  {
    if vs == [] then s else PushAllFront(PushFront(s, vs[0], capacity), vs[1..], capacity)
  }

  /** `s` back to front: the order in which front pushes leave the elements they push. */
  function Reversed<T>(s: seq<T>): (r: seq<T>)
    ensures |r| == |s|
  {
    if s == [] then [] else Reversed(s[1..]) + [s[0]]
  }

  /** Position i of the reversal is position |s|-1-i of the original. */
  lemma {:induction false} ReversedAt<T>(s: seq<T>)
    ensures forall i :: 0 <= i < |s| ==> Reversed(s)[i] == s[|s| - 1 - i]
  {
    if s != [] {
      ReversedAt(s[1..]);
      var r := Reversed(s);
      assert r == Reversed(s[1..]) + [s[0]];
      forall i | 0 <= i < |s|
        ensures r[i] == s[|s| - 1 - i]
      {
        if i < |s| - 1 {
          assert r[i] == Reversed(s[1..])[i] == s[1..][|s| - 2 - i];
        }
      }
    }
  }

  lemma NewestTwice<T>(t: seq<T>, u: seq<T>, capacity: int)
    requires 0 <= capacity
    ensures Newest(Newest(t, capacity) + u, capacity) == Newest(t + u, capacity)
  {
  }

  lemma OldestTwice<T>(u: seq<T>, t: seq<T>, capacity: int)
    requires 0 <= capacity
    ensures Oldest(u + Oldest(t, capacity), capacity) == Oldest(u + t, capacity)
  {
  }

  /**
   * Eviction law: after pushing `vs` at the back of a ring holding `s`, the
   * ring holds the newest `capacity` elements of `s + vs`, oldest first.
   */
  lemma {:induction false} PushAllBackKeepsNewest<T>(s: seq<T>, vs: seq<T>, capacity: int)
    requires 0 < capacity && |s| <= capacity
    ensures PushAllBack(s, vs, capacity) == Newest(s + vs, capacity)
    decreases |vs|
  {
    if vs != [] {
      PushAllBackKeepsNewest(PushBack(s, vs[0], capacity), vs[1..], capacity);
      PushBackKeepsNewest(s, vs[0], capacity);
      NewestTwice(s + [vs[0]], vs[1..], capacity);
      AppendFirst(s, vs);
    }
  }

  /** Appending the first element and then the rest is appending the whole. */
  lemma AppendFirst<T>(s: seq<T>, vs: seq<T>)
    requires vs != []
    ensures s + [vs[0]] + vs[1..] == s + vs
  {
    assert vs == [vs[0]] + vs[1..];
  }

  /**
   * After pushing `vs` at the front of a ring holding `s`, the ring holds
   * the first `capacity` elements of `vs` reversed followed by `s`.
   */
  lemma {:induction false} PushAllFrontKeepsOldest<T>(s: seq<T>, vs: seq<T>, capacity: int)
    requires 0 < capacity && |s| <= capacity
    ensures PushAllFront(s, vs, capacity) == Oldest(Reversed(vs) + s, capacity)
    decreases |vs|
  {
    if vs != [] {
      var p := PushFront(s, vs[0], capacity);
      PushAllFrontKeepsOldest(p, vs[1..], capacity);
      PushFrontKeepsOldest(s, vs[0], capacity);
      OldestTwice(Reversed(vs[1..]), [vs[0]] + s, capacity);
      ReversedThenFront(vs, s);
    }
  }

  /** Reversing the rest and then putting the first element in front of `s` is reversing the whole. */
  lemma ReversedThenFront<T>(vs: seq<T>, s: seq<T>)
    requires vs != []
    ensures Reversed(vs[1..]) + ([vs[0]] + s) == Reversed(vs) + s
  {
    var r1 := Reversed(vs[1..]);
    assert Reversed(vs) == r1 + [vs[0]];
    var l, r := r1 + ([vs[0]] + s), (r1 + [vs[0]]) + s;
    forall i | 0 <= i < |l|
      ensures l[i] == r[i]
    {
      if i < |r1| {
        assert l[i] == r1[i] == r[i];
      }
    }
  }



  /** Order law: up to the capacity nothing is evicted, so back pushes keep arrival order. */
  lemma PushAllBackInOrder<T>(vs: seq<T>, capacity: int)
    requires 0 < capacity && |vs| <= capacity
    ensures PushAllBack([], vs, capacity) == vs
  {
    PushAllBackKeepsNewest([], vs, capacity);
    assert [] + vs == vs;
  }

  /**
   * The logical contents after `RemoveAt(index)` on a ring holding `s` whose
   * back index is in step. The end positions drop one element; the middle
   * path on a full ring also clears the front element.
   */
  function RingRemoved<T>(s: seq<Option<T>>, index: int, capacity: int): (r: seq<Option<T>>)
    requires 0 <= index < |s| <= capacity
    ensures |r| == |s| - 1
  {
    if 0 < index < |s| - 1 && |s| == capacity then Removed(s[0 := None], index) else Removed(s, index)
  }

  /** Removal obeys the deque law except on a full ring, where the front element is lost as well. */
  lemma RingRemovedLaw<T>(s: seq<Option<T>>, index: int, capacity: int)
    requires 0 <= index < |s| <= capacity
    ensures RingRemoved(s, index, capacity) == Removed(s, index)
            <==> |s| < capacity || index == 0 || index == |s| - 1 || s[0] == None
  {
    if 0 < index < |s| - 1 && |s| == capacity && s[0] != None {
      assert RingRemoved(s, index, capacity)[0] != Removed(s, index)[0];
    }
  }

  /** Clearing the front slot and moving the front one slot on removes position 0. */
  lemma RingDropFront<T>(a: seq<Option<T>>, front: int, count: int)
    requires 0 <= front < |a| && 0 < count <= |a|
    ensures Ring(a[front := None], Wrap(front + 1, |a|), count - 1) == Ring(a, front, count)[1..]
    ensures Ring(a, front, count)[1..] == RingRemoved(Ring(a, front, count), 0, |a|)
  {
    RingTail(a, front, count);
    assert Wrap(Wrap(front + 1, |a|) + (|a| - 1), |a|) == front;
    RingWriteOutside(a, Wrap(front + 1, |a|), count - 1, |a| - 1, None);
  }

  /** Clearing the slot of the last position removes that position. */
  lemma RingDropBack<T>(a: seq<Option<T>>, front: int, count: int)
    requires 0 <= front < |a| && 0 < count <= |a|
    ensures Ring(a[Wrap(front + count - 1, |a|) := None], front, count - 1) == Ring(a, front, count)[..count - 1]
    ensures Ring(a, front, count)[..count - 1] == RingRemoved(Ring(a, front, count), count - 1, |a|)
  {
    RingWriteOutside(a, front, count - 1, count - 1, None);
    RingPrefix(a, front, count, count - 1);
  }

  /**
   * The whole ring, read from the front slot, after the middle path of
   * `RemoveAt(index)` shifted positions index+1..count down by one and
   * cleared the slot `count` positions after the front.
   */
  function RingAfterMiddleRemove<T>(w: seq<Option<T>>, index: int, count: int): (r: seq<Option<T>>)
    requires 0 < index < count <= |w|
    ensures |r| == |w|
    ensures count < |w| ==> forall k :: 0 <= k < |w| ==>
              r[k] == if k < index then w[k] else if k < count then w[k + 1] else if k == count then None else w[k]
    ensures count == |w| ==> forall k :: 0 <= k < |w| ==>
              r[k] == if k == 0 then None else if k < index then w[k] else if k < |w| - 1 then w[k + 1] else w[0]
  {
    if count < |w| then w[..index] + w[index + 1..count + 1] + [None] + w[count + 1..]
    else [None] + w[1..index] + w[index + 1..] + [w[0]]
  }

  /** The live part of `RingAfterMiddleRemove` is `RingRemoved`. */
  lemma AfterMiddleRemoveLive<T>(w: seq<Option<T>>, index: int, c: int)
    requires 0 < index < c - 1 && c <= |w|
    ensures RingAfterMiddleRemove(w, index, c)[..c - 1] == RingRemoved(w[..c], index, |w|)
  {
    var r := RingAfterMiddleRemove(w, index, c)[..c - 1];
    var u := w[..c];
    if c == |w| {
      u := u[0 := None];
      assert u[0] == None;
    }
    assert forall k | 0 < k < c :: u[k] == w[k];
    var t := Removed(u, index);
    assert t == RingRemoved(w[..c], index, |w|);
    forall k | 0 <= k < c - 1
      ensures r[k] == t[k]
    {
      if k < index {
        assert t[k] == u[k];
      } else {
        assert t[k] == u[k + 1];
      }
    }
  }


  /**
   * The logical contents after `Insert(index, x)` on a ring holding `s`,
   * where `spare` is the slot right after the live ones. The ends are the
   * two pushes. The middle path moves positions index..|s|-2 up by one and
   * writes `x` at `index`, so the element at |s|-1 is overwritten; a ring
   * with room then counts one more element, the stale `spare` slot.
   */
  function RingInserted<T>(s: seq<T>, index: int, x: T, capacity: int, spare: T): (r: seq<T>)
    requires 0 <= index <= |s| <= capacity && 0 < capacity
    ensures |r| == Min(|s| + 1, capacity)
  {
    if index == 0 then PushFront(s, x, capacity)
    else if index == |s| then PushBack(s, x, capacity)
    else Inserted(s, index, x)[..|s|] + (if |s| < capacity then [spare] else [])
  }

  /**
   * Insertion obeys the list law exactly when the ring has room and either
   * the position is an end or the stale spare slot happens to hold the last
   * element.
   */
  lemma RingInsertedLaw<T>(s: seq<T>, index: int, x: T, capacity: int, spare: T)
    requires 0 <= index <= |s| <= capacity && 0 < capacity
    ensures RingInserted(s, index, x, capacity, spare) == Inserted(s, index, x)
            <==> |s| < capacity && (index == 0 || index == |s| || spare == s[|s| - 1])
  {
    var r := RingInserted(s, index, x, capacity, spare);
    if |s| < capacity && 0 < index < |s| {
      if spare == s[|s| - 1] {
        assert forall k | 0 <= k < |s| + 1 :: r[k] == Inserted(s, index, x)[k];
      } else {
        assert r[|s|] != Inserted(s, index, x)[|s|];
      }
    }
  }

  /**
   * One step of the middle insert's loop, moving position index+m up to
   * index+m+1; `start` is the slot of position `index`.
   */
  lemma ShiftUpStep<T>(a: seq<T>, front: int, w: seq<T>, index: int, m: int, c: int, start: int)
    requires 0 <= front < |a| == |w| && 0 <= index && 0 <= m && index + m + 1 < c <= |a|
    requires start == Wrap(front + index, |a|)
    requires Ring(a, front, |a|) == w[..index + m + 2] + w[index + m + 1..c - 1] + w[c..]
    ensures start + m + 1 < 2 * |a|
    ensures Ring(a[Wrap(start + m + 1, |a|) := a[Wrap(start + m, |a|)]], front, |a|)
            == w[..index + m + 1] + w[index + m..c - 1] + w[c..]
  {
    var n := |a|;
    assert Wrap(start + m, n) == Wrap(front + index + m, n);
    assert Wrap(start + m + 1, n) == Wrap(front + index + m + 1, n);
    assert Ring(a, front, n)[index + m] == a[Wrap(front + index + m, n)];
    RingWrite(a, front, n, index + m + 1, w[index + m]);
    var l := (w[..index + m + 2] + w[index + m + 1..c - 1] + w[c..])[index + m + 1 := w[index + m]];
    var r := w[..index + m + 1] + w[index + m..c - 1] + w[c..];
    assert forall k | 0 <= k < n :: l[k] == r[k];
  }

  /**
   * The middle insert's final write: once the loop has run, writing `x` at
   * the slot of position `index` leaves the ring as insert-then-drop-position-c,
   * and its first Min(c+1, capacity) positions are `RingInserted`.
   */
  lemma InsertedSlots<T>(a: seq<T>, front: int, w: seq<T>, index: int, c: int, x: T, start: int)
    requires 0 <= front < |a| == |w| && 0 < index < c <= |a|
    requires start == Wrap(front + index, |a|)
    requires Ring(a, front, |a|) == w[..index + 1] + w[index..c - 1] + w[c..]
    ensures Ring(a[start := x], front, |a|) == Removed(Inserted(w, index, x), c)
    ensures Ring(a[start := x], front, Min(c + 1, |a|)) == RingInserted(w[..c], index, x, |a|, w[Wrap(c, |a|)])
  {
    var n := |a|;
    RingWrite(a, front, n, index, x);
    var l := (w[..index + 1] + w[index..c - 1] + w[c..])[index := x];
    var r := Removed(Inserted(w, index, x), c);
    assert forall k | 0 <= k < n :: l[k] == r[k];
    RingPrefix(a[start := x], front, n, Min(c + 1, n));
    var t := RingInserted(w[..c], index, x, n, w[Wrap(c, n)]);
    assert forall k | 0 <= k < Min(c + 1, n) :: r[k] == t[k];
  }

  /** The copy `CopyTo` makes: one slice up to the end of the slots, and one from their start if the view wraps. */
  lemma RingCopy<T>(a: seq<T>, front: int, len: int, d: seq<T>, index: int, toCopy: int)
    requires 0 <= front < |a| && 0 < len <= |a| && 0 <= index && index + len <= |d|
    requires toCopy == Min(len, |a| - front)
    ensures front + len <= |a| ==>
              Overwritten(d, index, a[front..front + toCopy]) == Overwritten(d, index, Ring(a, front, len))
    ensures front + len > |a| ==>
              Overwritten(Overwritten(d, index, a[front..front + toCopy]), index + toCopy, a[0..len - toCopy])
              == Overwritten(d, index, Ring(a, front, len))
  {
    if front + len <= |a| {
      RingSplit(a, front, len);
      assert a[front..front + toCopy] == Ring(a, front, len);
    } else {
      RingCopyWrapped(a, front, len, d, index);
    }
  }

  /** The wrapped case of `RingCopy`: the part up to the end of the slots, then the part from their start. */
  lemma RingCopyWrapped<T>(a: seq<T>, front: int, len: int, d: seq<T>, index: int)
    requires 0 <= front < |a| < front + len && len <= |a| && 0 <= index && index + len <= |d|
    ensures Overwritten(Overwritten(d, index, a[front..]), index + (|a| - front), a[0..len - (|a| - front)])
            == Overwritten(d, index, Ring(a, front, len))
  {
    var p1, p2 := a[front..], a[..front + len - |a|];
    assert a[0..len - (|a| - front)] == p2;
    OverwrittenTwice(d, index, p1, p2);
    RingSplit(a, front, len);
  }


  /** Where each position of the middle removal's shifted view comes from. */
  lemma ShiftedDownAt<T>(ext: seq<T>, index: int, j: int, n: int)
    requires 0 <= index <= j <= n < |ext|
    ensures var s := ext[..index] + ext[index + 1..j + 1] + ext[j..n];
            |s| == n && forall k :: 0 <= k < n ==> s[k] == if k < index then ext[k] else if k < j then ext[k + 1] else ext[k]
  {
  }

  /** Before the middle removal's loop runs, its shifted view is the ring itself. */
  lemma ShiftedDownNothing<T>(w: seq<T>, index: int)
    requires 0 <= index < |w|
    ensures var ext := w + [w[0]]; ext[..index] + ext[index + 1..index + 1] + ext[index..|w|] == w
  {
    var ext := w + [w[0]];
    ShiftedDownAt(ext, index, index, |w|);
    assert forall k | 0 <= k < |w| :: ext[k] == w[k];
  }

  /**
   * One step of the middle removal's loop, at position j: over the ring
   * extended by its first slot, the slot of position j takes the value of
   * the next slot round the ring.
   */
  lemma ShiftDownStep<T>(a: seq<T>, front: int, ext: seq<T>, index: int, j: int, cur: int)
    requires 0 <= front < |a| && 0 < index <= j < |a| && |ext| == |a| + 1 && ext[|a|] == ext[0]
    requires cur == Wrap(front + j, |a|)
    requires Ring(a, front, |a|) == ext[..index] + ext[index + 1..j + 1] + ext[j..|a|]
    ensures a[Wrap(cur + 1, |a|)] == ext[j + 1]
    ensures Ring(a[cur := a[Wrap(cur + 1, |a|)]], front, |a|)
            == ext[..index] + ext[index + 1..(j + 1) + 1] + ext[j + 1..|a|]
  {
    var n := |a|;
    var w := ext[..index] + ext[index + 1..j + 1] + ext[j..n];
    if j + 1 < n {
      assert Wrap(cur + 1, n) == Wrap(front + j + 1, n);
      assert Ring(a, front, n)[j + 1] == w[j + 1];
    } else {
      assert Wrap(cur + 1, n) == Wrap(front + 0, n);
      assert Ring(a, front, n)[0] == w[0];
    }
    RingWrite(a, front, n, j, ext[j + 1]);
    var r := ext[..index] + ext[index + 1..j + 2] + ext[j + 1..n];
    assert forall k | 0 <= k < n :: w[j := ext[j + 1]][k] == r[k];
  }

  /**
   * The middle removal's final state: after the loop, clearing the slot
   * `c` positions on leaves the ring `RingAfterMiddleRemove`, whose first
   * c-1 positions are `RingRemoved`.
   */
  lemma MiddleRemoveSlots<T>(a: seq<Option<T>>, front: int, w: seq<Option<T>>, ext: seq<Option<T>>,
                              index: int, c: int, j: int, cur: int)
    requires 0 <= front < |a| && 0 < index < c - 1 && c <= |a| == |w| && ext == w + [w[0]] && j == c
    requires cur == Wrap(front + j, |a|)
    requires Ring(a, front, |a|) == ext[..index] + ext[index + 1..j + 1] + ext[j..|a|]
    ensures Ring(a[cur := None], front, |a|) == RingAfterMiddleRemove(w, index, c)
    ensures RingAfterMiddleRemove(w, index, c)[..c - 1] == RingRemoved(w[..c], index, |w|)
  {
    var n := |a|;
    var p := if c < n then c else 0;
    assert cur == Wrap(front + p, n);
    RingWrite(a, front, n, p, None);
    ShiftedThenCleared(w, ext, index, c);
    AfterMiddleRemoveLive(w, index, c);
  }

  /** The shifted view with position `c` (position 0 on a full ring) cleared is `RingAfterMiddleRemove`. */
  lemma ShiftedThenCleared<T>(w: seq<Option<T>>, ext: seq<Option<T>>, index: int, c: int)
    requires 0 < index < c - 1 && c <= |w| && ext == w + [w[0]]
    ensures (ext[..index] + ext[index + 1..c + 1] + ext[c..|w|])[if c < |w| then c else 0 := None]
            == RingAfterMiddleRemove(w, index, c)
  {
    var n := |w|;
    var p := if c < n then c else 0;
    var s := ext[..index] + ext[index + 1..c + 1] + ext[c..n];
    ShiftedDownAt(ext, index, c, n);
    assert forall k | 0 <= k < n :: ext[k] == w[k];
    assert ext[n] == w[0];
    var l := s[p := None];
    var r := RingAfterMiddleRemove(w, index, c);
    forall k | 0 <= k < n
      ensures l[k] == r[k]
    {
      if k < index {
      } else if k < c {
        assert s[k] == ext[k + 1];
      }
    }
  }



  // ---------------------------------------------------------------------
  // The ring buffer
  // ---------------------------------------------------------------------

  class CircularDoubleEndedQueue<V(==)> {
    /** The ring of slots; its length is the capacity. */
    var items: array<Option<V>>
    /** The slot of the front element, the next one a front pop returns. */
    var front: int
    /** The slot the next back push writes. */
    var back: int
    /** The number of live elements. */
    var count: int

    /** The bounds every operation keeps, and relies on for its array accesses. */
    ghost predicate Valid()
      reads this
    {
      3 <= items.Length && 0 <= front < items.Length && 0 <= back < items.Length
      && 0 <= count <= items.Length
    }

    /**
     * `back` is the slot right after the last live element. Every operation
     * keeps this except the middle path of `RemoveAt`, which leaves `back`
     * one slot too far; the operations that use `back` obey the deque laws
     * only from a state where this holds.
     */
    ghost predicate Consistent()
      reads this
    {
      Valid() && back == Wrap(front + count, items.Length)
    }

    /**
     * On a consistent ring `back` meets `front` exactly when the ring is
     * empty or full: the full case is the one in which the pushes move the
     * other index along.
     */
    lemma BackMeetsFront()
      requires Consistent()
      ensures back == front <==> count == 0 || count == Capacity()
    {
    }

    /** The length of the slot array. */
    function Capacity(): (r: int)
      reads this
      ensures Valid() ==> 3 <= r
    {
      items.Length
    }

    /** The number of elements, at most the capacity. */
    function Count(): (r: int)
      reads this
      ensures Valid() ==> 0 <= r <= Capacity()
    {
      count
    }

    /** Every slot of the ring, read from the front slot on. */
    ghost function Slots(): (s: seq<Option<V>>)
      reads this, items
      requires Valid()
      ensures |s| == Capacity()
    {
      Ring(items[..], front, items.Length)
    }

    /** The logical contents, front to back. */
    ghost function Contents(): (s: seq<Option<V>>)
      reads this, items
      requires Valid()
      ensures |s| == count
    {
      Ring(items[..], front, count)
    }

    constructor (capacity: int)
      requires 3 <= capacity
      ensures Consistent() && fresh(items)
      ensures Capacity() == capacity && Contents() == [] && front == 0
      ensures forall k :: 0 <= k < capacity ==> items[k] == None
    {
      items := new Option<V>[capacity](_ => None);
      front, back, count := 0, 0, 0;
    }

    constructor Default()
      ensures Consistent() && fresh(items)
      ensures Capacity() == DefaultCapacity && Contents() == [] && front == 0
      ensures forall k :: 0 <= k < DefaultCapacity ==> items[k] == None
    {
      items := new Option<V>[DefaultCapacity](_ => None);
      front, back, count := 0, 0, 0;
    }

    /** The constructor's guard: a capacity below 3 is refused. */
    static method Create(capacity: int) returns (r: Result<CircularDoubleEndedQueue<V>>)
      ensures r.Err? <==> capacity < 3
      ensures r.Err? ==> r.error == ArgumentOutOfRange
      ensures r.Ok? ==> fresh(r.value) && fresh(r.value.items) && r.value.Consistent()
                        && r.value.Capacity() == capacity && r.value.Contents() == []
    {
      if capacity < 3 {
        return Err(ArgumentOutOfRange);
      }
      var q := new CircularDoubleEndedQueue<V>(capacity);
      return Ok(q);
    }

    /** Push at the back; a full ring drops its front element. */
    method Enqueue(x: Option<V>)
      requires Valid()
      modifies this, items
      ensures Valid() && items == old(items)
      ensures items[..] == old(items[..])[old(back) := x]
      ensures back == Wrap(old(back) + 1, Capacity())
      ensures old(count) < Capacity() ==> front == old(front) && count == old(count) + 1
      ensures old(count) == Capacity() ==> front == back && count == old(count)
      ensures old(Consistent()) ==> Consistent() && Contents() == PushBack(old(Contents()), x, Capacity())
    {
      ghost var a, f, c := items[..], front, count;
      WriteBack(x);
      if old(Consistent()) {
        RingEnqueue(a, f, c, x, front, count);
      }
    }

    /**
     * The statements of `Enqueue`: `x` goes to the `back` slot, `back` moves
     * on, and either the count grows or, on a full ring, the front follows
     * the back.
     */
    method WriteBack(x: Option<V>)
      requires Valid()
      modifies this, items
      ensures Valid() && items == old(items)
      ensures items[..] == old(items[..])[old(back) := x]
      ensures back == Wrap(old(back) + 1, Capacity())
      ensures old(count) < Capacity() ==> front == old(front) && count == old(count) + 1
      ensures old(count) == Capacity() ==> front == back && count == old(count)
    {
      items[back] := x;
      back := back + 1;
      if back == items.Length {
        back := 0;
      }
      if count == items.Length {
        // Full: the front follows the back.
        front := back;
        return;
      }
      count := count + 1;
    }

    /** `ICollection<T>.Add`: the same as `Enqueue`. */
    method Add(x: Option<V>)
      requires Valid()
      modifies this, items
      ensures Valid() && items == old(items)
      ensures items[..] == old(items[..])[old(back) := x]
      ensures back == Wrap(old(back) + 1, Capacity())
      ensures old(count) < Capacity() ==> front == old(front) && count == old(count) + 1
      ensures old(count) == Capacity() ==> front == back && count == old(count)
      ensures old(Consistent()) ==> Consistent() && Contents() == PushBack(old(Contents()), x, Capacity())
    {
      Enqueue(x);
    }

    /** Push at the front; a full ring drops its back element. */
    method EnqueueFront(x: Option<V>)
      requires Valid()
      modifies this, items
      ensures Valid() && items == old(items)
      ensures front == Before(old(front), Capacity())
      ensures items[..] == old(items[..])[front := x]
      ensures old(count) < Capacity() ==> back == old(back) && count == old(count) + 1
      ensures old(count) == Capacity() ==> back == front && count == old(count)
      ensures Contents() == PushFront(old(Contents()), x, Capacity())
      ensures old(Consistent()) ==> Consistent()
    {
      RingEnqueueFront(items[..], front, count, x);
      front := front - 1;
      if front < 0 {
        front := items.Length - 1;
      }
      items[front] := x;
      if count == items.Length {
        back := front;
        return;
      }
      count := count + 1;
    }

    /** Pop the front element; an empty ring reports false and the default value. */
    method TryDequeue() returns (found: bool, obj: Option<V>)
      requires Valid()
      modifies this, items
      ensures Valid() && items == old(items) && back == old(back)
      ensures found <==> old(count) > 0
      ensures found ==> obj == old(Contents())[0] && Contents() == old(Contents())[1..]
      ensures found ==> items[..] == old(items[..])[old(front) := None]
                        && front == Wrap(old(front) + 1, Capacity()) && count == old(count) - 1
      ensures !found ==> obj == None && unchanged(this) && unchanged(items)
      ensures old(Consistent()) ==> Consistent()
    {
      if count > 0 {
        obj := items[front];
        ClearFront();
        return true, obj;
      }
      return false, None;
    }

    /** The removal statements of `TryDequeue`: the front slot is cleared, `front` moves on, one element fewer. */
    method ClearFront()
      requires Valid() && 0 < count
      modifies this, items
      ensures Valid() && items == old(items) && back == old(back)
      ensures items[..] == old(items[..])[old(front) := None]
      ensures front == Wrap(old(front) + 1, Capacity()) && count == old(count) - 1
      ensures Contents() == old(Contents())[1..] == RingRemoved(old(Contents()), 0, Capacity())
      ensures old(Consistent()) ==> Consistent()
    {
      RingDropFront(items[..], front, count);
      items[front] := None;
      front := front + 1;
      if front == items.Length {
        front := 0;
      }
      count := count - 1;
    }

    /** Pop the front element, or the default value when the ring is empty. */
    method Dequeue() returns (obj: Option<V>)
      requires Valid()
      modifies this, items
      ensures Valid() && items == old(items)
      ensures obj == if old(count) > 0 then old(Contents())[0] else None
      ensures Contents() == if old(count) > 0 then old(Contents())[1..] else old(Contents())
      ensures old(count) > 0 ==>
                items[..] == old(items[..])[old(front) := None] && back == old(back)
                && front == Wrap(old(front) + 1, Capacity()) && count == old(count) - 1
      ensures old(count) == 0 ==> unchanged(this) && unchanged(items)
      ensures old(Consistent()) ==> Consistent()
    {
      var _, o := TryDequeue();
      obj := o;
    }

    /** Pop the back element; an empty ring reports false and the default value. */
    method TryDequeueBack() returns (found: bool, obj: Option<V>)
      requires Valid()
      modifies this, items
      ensures Valid() && items == old(items) && front == old(front)
      ensures found <==> old(count) > 0
      ensures found ==> back == Before(old(back), Capacity())
                        && obj == old(items[..])[back] && items[..] == old(items[..])[back := None]
                        && count == old(count) - 1
      ensures !found ==> obj == None && unchanged(this) && unchanged(items)
      ensures found && old(Consistent()) ==> obj == old(Contents())[old(count) - 1]
                                              && Contents() == old(Contents())[..old(count) - 1]
      ensures old(Consistent()) ==> Consistent()
    {
      if count > 0 {
        obj := ClearBack();
        return true, obj;
      }
      return false, None;
    }

    /**
     * The removal statements of `TryDequeueBack`: `back` moves back one
     * slot, whose value is returned and cleared, one element fewer.
     */
    method ClearBack() returns (obj: Option<V>)
      requires Valid() && 0 < count
      modifies this, items
      ensures Valid() && items == old(items) && front == old(front)
      ensures back == Before(old(back), Capacity()) && count == old(count) - 1
      ensures obj == old(items[..])[back] && items[..] == old(items[..])[back := None]
      ensures old(Consistent()) ==>
                Consistent() && obj == old(Contents())[old(count) - 1]
                && Contents() == old(Contents())[..old(count) - 1] == RingRemoved(old(Contents()), old(count) - 1, Capacity())
    {
      if Consistent() {
        RingDropBack(items[..], front, count);
      }
      back := back - 1;
      if back < 0 {
        back := items.Length - 1;
      }
      obj := items[back];
      items[back] := None;
      count := count - 1;
    }

    /** Pop the back element, or the default value when the ring is empty. */
    method DequeueBack() returns (obj: Option<V>)
      requires Valid()
      modifies this, items
      ensures Valid() && items == old(items)
      ensures old(count) == 0 ==> obj == None && unchanged(this) && unchanged(items)
      ensures old(count) > 0 ==>
                front == old(front) && back == Before(old(back), Capacity())
                && obj == old(items[..])[back] && items[..] == old(items[..])[back := None]
                && count == old(count) - 1
      ensures old(Consistent()) ==>
                Consistent()
                && obj == (if old(count) > 0 then old(Contents())[old(count) - 1] else None)
                && Contents() == old(Contents())[..if old(count) > 0 then old(count) - 1 else 0]
    {
      var _, o := TryDequeueBack();
      obj := o;
    }

    /** The front element, or the default value when the ring is empty. */
    function Peek(): (r: Option<V>)
      reads this, items
      requires Valid()
      ensures r == if count == 0 then None else Contents()[0]
    {
      if count < 1 then None else items[front]
    }

    /** The element before the `back` slot, or the default value when the ring is empty. */
    function PeekBack(): (r: Option<V>)
      reads this, items
      requires Valid()
      ensures count == 0 ==> r == None
      ensures Consistent() && count > 0 ==> r == Contents()[count - 1]
    {
      if count < 1 then None
      else
        items[if back - 1 >= 0 then back - 1 else items.Length - 1]
    }

    /** The indexer's getter. */
    function Get(index: int): (r: Result<Option<V>>)
      reads this, items
      requires Valid()
      ensures r.Err? <==> index < 0 || count <= index
      ensures r.Err? ==> r.error == IndexOutOfRange
      ensures r.Ok? ==> r.value == Contents()[index]
    {
      if index >= count || index < 0 then Err(IndexOutOfRange)
      else
        ModWrap(front + index, items.Length);
        Ok(items[(front + index) % items.Length])
    }

    /**
     * The indexer's setter. `-1` and `Count` push at the front and back; a
     * null value at a live position removes that element instead.
     */
    method Set(index: int, value: Option<V>) returns (outcome: Outcome)
      requires Valid()
      modifies this, items
      ensures Valid() && items == old(items)
      ensures outcome.Fail? <==> index < -1 || old(count) < index
      ensures outcome.Fail? ==> outcome.error == IndexOutOfRange
      ensures outcome.Fail? || (value == None && (index == -1 || index == old(count))) ==>
                unchanged(this) && unchanged(items)
      ensures index == -1 && value != None ==> Contents() == PushFront(old(Contents()), value, Capacity())
      ensures index == old(count) && value != None && old(Consistent()) ==>
                Contents() == PushBack(old(Contents()), value, Capacity())
      ensures index == old(count) && value != None ==>
                items[..] == old(items[..])[old(back) := value] && back == Wrap(old(back) + 1, Capacity())
                && (old(count) < Capacity() ==> front == old(front) && count == old(count) + 1)
                && (old(count) == Capacity() ==> front == back && count == old(count))
      ensures index == -1 && value != None ==>
                front == Before(old(front), Capacity()) && items[..] == old(items[..])[front := value]
                && (old(count) < Capacity() ==> back == old(back) && count == old(count) + 1)
                && (old(count) == Capacity() ==> back == front && count == old(count))
      ensures 0 <= index < old(count) && value == None && (index < old(count) - 1 || old(Consistent())) ==>
                Contents() == RingRemoved(old(Contents()), index, Capacity())
      ensures 0 <= index < old(count) && value == None ==> count == old(count) - 1
      ensures index == 0 < old(count) && value == None ==>
                items[..] == old(items[..])[old(front) := None]
                && front == Wrap(old(front) + 1, Capacity()) && back == old(back)
      ensures 0 < index == old(count) - 1 && value == None ==>
                front == old(front) && back == Before(old(back), Capacity())
                && items[..] == old(items[..])[back := None]
      ensures 0 < index < old(count) - 1 && value == None ==>
                front == old(front) && back == old(back)
                && Slots() == RingAfterMiddleRemove(old(Slots()), index, old(count))
      ensures 0 <= index < old(count) && value != None ==>
                front == old(front) && back == old(back) && count == old(count)
                && items[..] == old(items[..])[Wrap(old(front) + index, Capacity()) := value]
                && Contents() == old(Contents())[index := value]
      ensures old(Consistent()) && !(0 < index < old(count) - 1 && value == None) ==> Consistent()
    {
      if index > count || index < -1 {
        return Fail(IndexOutOfRange);
      }
      if index == count {
        if value == None {
          return Pass;
        }
        Enqueue(value);
        return Pass;
      }
      if index == -1 {
        if value == None {
          return Pass;
        }
        EnqueueFront(value);
        return Pass;
      }
      if value == None {
        RemoveAt(index);
        return Pass;
      }
      ModWrap(front + index, items.Length);
      RingWrite(items[..], front, count, index, value);
      items[(front + index) % items.Length] := value;
      return Pass;
    }

    /** Empties the ring into a fresh array of the same capacity. */
    method Clear()
      requires Valid()
      modifies this
      ensures Consistent() && fresh(items) && Capacity() == old(Capacity())
      ensures front == 0 && Contents() == []
      ensures forall k :: 0 <= k < items.Length ==> items[k] == None
    {
      items := new Option<V>[items.Length](_ => None);
      front := 0;
      back := front;
      count := 0;
    }

    /** Membership, by `IndexOf`. */
    method Contains(x: Option<V>) returns (r: bool)
      requires Valid()
      ensures r <==> x in Contents()
    {
      var i := IndexOf(x);
      return i >= 0;
    }

    /** The enumerator's sequence: `count` slots from the front, the slot index wrapping to 0. */
    method Enumerate() returns (r: seq<Option<V>>)
      requires Valid()
      ensures r == Contents()
    {
      var n := count;
      var index := front;
      r := [];
      while n > 0
        invariant 0 <= n <= count && 0 <= index <= items.Length
        invariant index == front + count - n || index == front + count - n - items.Length
        invariant r == Contents()[..count - n]
      {
        if index >= items.Length {
          index := 0;
        }
        n := n - 1;
        r := r + [items[index]];
        index := index + 1;
      }
    }

    /**
     * `CopyTo`: as many elements as fit from `index` on, front first, in
     * one `Array.Copy` up to the end of the slot array and a second one for
     * the part that wrapped to its start.
     */
    method CopyTo(target: array?<Option<V>>, index: int) returns (outcome: Outcome)
      requires Valid() && target != items
      modifies target
      ensures target == null ==> outcome == Fail(ArgumentNull)
      ensures target != null ==>
                && (outcome.Fail? <==> target.Length - index <= 0 || (index < 0 && 0 < count))
                && (outcome.Fail? ==> outcome.error == ArgumentOutOfRange && target[..] == old(target[..]))
                && (outcome.Pass? && count == 0 ==> target[..] == old(target[..]))
                && (outcome.Pass? && 0 < count ==>
                      0 <= index
                      && target[..] == Overwritten(old(target[..]), index, Contents()[..Min(count, target.Length - index)]))
    {
      if target == null {
        return Fail(ArgumentNull);
      }
      var remaining := target.Length - index;
      if remaining <= 0 {
        return Fail(ArgumentOutOfRange);
      }
      var len := count;
      if len > 0 {
        if remaining < len {
          len := remaining;
        }
        if len > 0 {
          var toCopy := len;
          if toCopy > items.Length - front {
            toCopy := items.Length - front;
          }
          if index < 0 {
            // Array.Copy refuses a negative destination index.
            return Fail(ArgumentOutOfRange);
          }
          RingPrefix(items[..], front, count, len);
          CopyRing(items, front, len, toCopy, target, index);
        }
      }
      return Pass;
    }

    /**
     * The two `Array.Copy` calls of `CopyTo`: `toCopy` slots from `front` up
     * to the end of the slot array, then the rest of the `len` slots from
     * its start.
     */
    static method CopyRing(items: array<Option<V>>, front: int, len: int, toCopy: int,
                           target: array<Option<V>>, index: int)
      requires 0 <= front < items.Length && 0 < len <= items.Length && target != items
      requires 0 <= index && index + len <= target.Length
      requires toCopy == Min(len, items.Length - front)
      modifies target
      ensures target[..] == Overwritten(old(target[..]), index, Ring(items[..], front, len))
    {
      ghost var d := target[..];
      ghost var a := items[..];
      RingCopy(a, front, len, d, index, toCopy);
      ArrayCopy(items, front, target, index, toCopy);
      var rest := len - toCopy;
      if rest > 0 {
        ghost var mid := target[..];
        assert items[0..0 + rest] == a[0..len - toCopy];
        ArrayCopy(items, 0, target, index + toCopy, rest);
        assert target[..] == Overwritten(mid, index + toCopy, a[0..len - toCopy]);
      }
    }

    /** A new array holding the contents, front first. */
    method ToArray() returns (r: array<Option<V>>)
      requires Valid()
      ensures count > 0 ==> fresh(r)
      ensures r[..] == Contents()
    {
      if count < 1 {
        r := new Option<V>[0];
        return;
      }
      r := new Option<V>[count](_ => None);
      var _ := CopyTo(r, 0);
    }

    /** The position of the first element equal to `x`, or -1. */
    method IndexOf(x: Option<V>) returns (r: int)
      requires Valid()
      ensures r == FirstIndex(Contents(), x)
    {
      var i := 0;
      while i < count
        invariant 0 <= i <= count
        invariant x !in Contents()[..i]
      {
        ModWrap(front + i, items.Length);
        if items[(front + i) % items.Length] == x {
          FirstIndexUnique(Contents(), x, i);
          return i;
        }
        assert Contents()[..i + 1] == Contents()[..i] + [Contents()[i]];
        i := i + 1;
      }
      assert Contents()[..count] == Contents();
      return -1;
    }

    /**
     * `Insert(index, item)`. A null item is ignored; a position outside
     * 0..Count is refused; the ends are the two pushes; in the middle the
     * elements from `index` on move one slot up, the last one is overwritten
     * by its predecessor, and a ring with room then counts the slot after.
     */
    method Insert(index: int, item: Option<V>) returns (outcome: Outcome)
      requires Valid()
      modifies this, items
      ensures Valid() && items == old(items)
      ensures outcome.Fail? <==> item != None && (index < 0 || old(count) < index)
      ensures outcome.Fail? ==> outcome.error == ArgumentOutOfRange
      ensures outcome.Fail? || item == None ==> unchanged(this) && unchanged(items)
      ensures outcome.Pass? && item != None && (index == 0 || index < old(count) || old(Consistent())) ==>
                Contents() == RingInserted(old(Contents()), index, item, Capacity(),
                                           old(Slots())[Wrap(old(count), Capacity())])
      ensures index == 0 && item != None ==>
                front == Before(old(front), Capacity()) && items[..] == old(items[..])[front := item]
                && (old(count) < Capacity() ==> back == old(back) && count == old(count) + 1)
                && (old(count) == Capacity() ==> back == front && count == old(count))
      ensures 0 < index == old(count) && item != None ==>
                items[..] == old(items[..])[old(back) := item] && back == Wrap(old(back) + 1, Capacity())
                && (old(count) < Capacity() ==> front == old(front) && count == old(count) + 1)
                && (old(count) == Capacity() ==> front == back && count == old(count))
      ensures 0 < index < old(count) && item != None ==>
                front == old(front) && count == Min(old(count) + 1, Capacity())
                && Slots() == Removed(Inserted(old(Slots()), index, item), old(count))
                && (old(count) < Capacity() ==> back == Wrap(old(back) + 1, Capacity()))
                && (old(count) == Capacity() ==> back == old(back))
      ensures old(Consistent()) ==> Consistent()
    {
      if item == None {
        return Pass;
      }
      if index < 0 || index > count {
        return Fail(ArgumentOutOfRange);
      }
      if index == 0 {
        EnqueueFront(item);
        return Pass;
      }
      if index == count {
        Enqueue(item);
        return Pass;
      }
      InsertInMiddle(index, item);
      return Pass;
    }

    /**
     * The middle path of `Insert`: positions index..count-2 move one slot
     * up, `item` is written at `index`, and a ring with room counts one more
     * slot and moves `back` on.
     */
    method InsertInMiddle(index: int, item: Option<V>)
      requires Valid() && 0 < index < count
      modifies this, items
      ensures Valid() && items == old(items) && front == old(front)
      ensures count == Min(old(count) + 1, Capacity())
      ensures Slots() == Removed(Inserted(old(Slots()), index, item), old(count))
      ensures Contents() == RingInserted(old(Contents()), index, item, Capacity(),
                                         old(Slots())[Wrap(old(count), Capacity())])
      ensures old(count) < Capacity() ==> back == Wrap(old(back) + 1, Capacity())
      ensures old(count) == Capacity() ==> back == old(back)
      ensures old(Consistent()) ==> Consistent()
    {
      ghost var w := Slots();
      ghost var c := count;
      ghost var n := items.Length;
      RingPrefix(items[..], front, n, c);
      ModWrap(front + index, n);
      var startIndex := (front + index) % items.Length;
      ShiftUp(items, front, index, count, startIndex, w);
      WriteInserted(items, front, index, count, startIndex, item, w);
      GrowAfterInsert();
      assert old(Slots()) == w && old(Contents()) == w[..c];
    }

    /** The end of the middle insert: a ring with room counts one more slot and moves `back` on. */
    method GrowAfterInsert()
      requires Valid()
      modifies this
      ensures Valid() && items == old(items) && front == old(front)
      ensures count == Min(old(count) + 1, Capacity())
      ensures old(count) < Capacity() ==> back == Wrap(old(back) + 1, Capacity())
      ensures old(count) == Capacity() ==> back == old(back)
      ensures old(Consistent()) ==> Consistent()
    {
      if count < items.Length {
        if Consistent() {
          NextSlot(front + count, items.Length);
        }
        count := count + 1;
        ModWrap(back + 1, items.Length);
        back := (back + 1) % items.Length;
      }
    }

    /**
     * The loop of the middle insert: from the highest position down,
     * positions index..count-2 are copied one slot up round the ring.
     */
    static method ShiftUp(items: array<Option<V>>, front: int, index: int, count: int, startIndex: int,
                          ghost w: seq<Option<V>>)
      requires 0 <= front < items.Length && 0 < index < count <= items.Length
      requires startIndex == Wrap(front + index, items.Length)
      requires Ring(items[..], front, items.Length) == w
      modifies items
      ensures Ring(items[..], front, items.Length) == w[..index + 1] + w[index..count - 1] + w[count..]
    {
      ghost var n := items.Length;
      var moveSize := count - index - 1;
      assert w == w[..index + moveSize + 1] + w[index + moveSize..count - 1] + w[count..];
      while moveSize > 0
        invariant 0 <= moveSize <= count - index - 1
        invariant Ring(items[..], front, n) == w[..index + moveSize + 1] + w[index + moveSize..count - 1] + w[count..]
      {
        moveSize := moveSize - 1;
        ghost var a := items[..];
        ModWrap(startIndex + moveSize + 1, n);
        ModWrap(startIndex + moveSize, n);
        items[(startIndex + moveSize + 1) % items.Length] := items[(startIndex + moveSize) % items.Length];
        assert items[..] == a[Wrap(startIndex + moveSize + 1, n) := a[Wrap(startIndex + moveSize, n)]];
        ShiftUpStep(a, front, w, index, moveSize, count, startIndex);
      }
    }

    /** The final write of the middle insert: `item` goes to the slot of position `index`. */
    static method WriteInserted(items: array<Option<V>>, front: int, index: int, count: int, startIndex: int,
                                item: Option<V>, ghost w: seq<Option<V>>)
      requires 0 <= front < items.Length == |w| && 0 < index < count <= items.Length
      requires startIndex == Wrap(front + index, items.Length)
      requires Ring(items[..], front, items.Length) == w[..index + 1] + w[index..count - 1] + w[count..]
      modifies items
      ensures Ring(items[..], front, items.Length) == Removed(Inserted(w, index, item), count)
      ensures Ring(items[..], front, Min(count + 1, items.Length))
              == RingInserted(w[..count], index, item, items.Length, w[Wrap(count, items.Length)])
    {
      ghost var a := items[..];
      items[startIndex] := item;
      assert items[..] == a[startIndex := item];
      InsertedSlots(a, front, w, index, count, item, startIndex);
    }

    /**
     * `RemoveAt(index)`. A position outside the live ones is ignored; the
     * ends are the two pops; in the middle the elements after `index` move
     * one slot down, reading one slot past the live ones, and the slot
     * `count` positions on is cleared, with `back` left where it was.
     */
    method RemoveAt(index: int)
      requires Valid()
      modifies this, items
      ensures Valid() && items == old(items)
      ensures !(0 <= index < old(count)) ==> unchanged(this) && unchanged(items)
      ensures 0 <= index < old(count) ==> count == old(count) - 1
      ensures 0 <= index < old(count) && (index < old(count) - 1 || old(Consistent())) ==>
                Contents() == RingRemoved(old(Contents()), index, Capacity())
      ensures index == 0 < old(count) ==>
                items[..] == old(items[..])[old(front) := None]
                && front == Wrap(old(front) + 1, Capacity()) && back == old(back)
      ensures 0 < index == old(count) - 1 ==>
                front == old(front) && back == Before(old(back), Capacity())
                && items[..] == old(items[..])[back := None]
      ensures 0 < index < old(count) - 1 ==>
                front == old(front) && back == old(back)
                && Slots() == RingAfterMiddleRemove(old(Slots()), index, old(count))
      ensures old(Consistent()) && 0 < index < old(count) - 1 ==>
                back == Wrap(front + count + 1, Capacity()) && !Consistent()
      ensures old(Consistent()) && !(0 < index < old(count) - 1) ==> Consistent()
    {
      if index < 0 || index >= count || count < 1 {
        return;
      }
      if index == 0 {
        ClearFront();
        return;
      }
      if index == count - 1 {
        var _ := ClearBack();
        return;
      }
      RemoveInMiddle(index);
    }

    /**
     * The middle path of `RemoveAt`: the `count - index` positions from
     * `index` on take the value of the next slot round the ring, the slot
     * `count` positions on is cleared, and `back` is left where it was.
     */
    method RemoveInMiddle(index: int)
      requires Valid() && 0 < index < count - 1
      modifies this, items
      ensures Valid() && items == old(items) && front == old(front) && back == old(back)
      ensures count == old(count) - 1
      ensures Slots() == RingAfterMiddleRemove(old(Slots()), index, old(count))
      ensures Contents() == RingRemoved(old(Contents()), index, Capacity())
    {
      ghost var n := items.Length;
      ghost var w := Slots();
      ghost var c := count;
      RingPrefix(items[..], front, n, c);
      ModWrap(front + index, n);
      var startIndex := (front + index) % items.Length;
      ShiftedDownNothing(w, index);
      var currentIndex := ShiftDown(items, front, index, count, startIndex, w + [w[0]]);
      ghost var a := items[..];
      items[currentIndex] := None;
      assert items[..] == a[currentIndex := None];
      MiddleRemoveSlots(a, front, w, w + [w[0]], index, c, c, currentIndex);
      RingPrefix(items[..], front, n, c - 1);
      count := count - 1;
      assert old(Slots()) == w && old(Contents()) == w[..c];
    }

    /**
     * The loop of the middle removal: from position `index` on, `count - index`
     * positions take the value of the next slot round the ring. Returns the
     * slot `count` positions after the front.
     */
    static method ShiftDown(items: array<Option<V>>, front: int, index: int, count: int, startIndex: int,
                            ghost ext: seq<Option<V>>) returns (currentIndex: int)
      requires 0 <= front < items.Length && 0 < index < count - 1 && count <= items.Length
      requires |ext| == items.Length + 1 && ext[items.Length] == ext[0]
      requires startIndex == Wrap(front + index, items.Length)
      requires Ring(items[..], front, items.Length) == ext[..index] + ext[index + 1..index + 1] + ext[index..items.Length]
      modifies items
      ensures currentIndex == Wrap(front + count, items.Length)
      ensures Ring(items[..], front, items.Length) == ext[..index] + ext[index + 1..count + 1] + ext[count..items.Length]
    {
      ghost var n := items.Length;
      var moveSize := count - index;
      currentIndex := startIndex;
      ghost var j := index;
      while moveSize > 0
        invariant 0 <= moveSize <= count - index && j == count - moveSize
        invariant currentIndex == Wrap(front + j, n)
        invariant Ring(items[..], front, n) == ext[..index] + ext[index + 1..j + 1] + ext[j..n]
      {
        MoveDown(items, front, ext, index, j, currentIndex);
        j := j + 1;
        moveSize := moveSize - 1;
        currentIndex := currentIndex + 1;
        if currentIndex >= items.Length {
          currentIndex := 0;
        }
      }
    }

    /** One step of the middle removal's loop: slot `currentIndex` takes the value of the next slot. */
    static method MoveDown(items: array<Option<V>>, front: int, ghost ext: seq<Option<V>>, ghost index: int,
                           ghost j: int, currentIndex: int)
      requires 0 <= front < items.Length && 0 < index <= j < items.Length
      requires |ext| == items.Length + 1 && ext[items.Length] == ext[0]
      requires currentIndex == Wrap(front + j, items.Length)
      requires Ring(items[..], front, items.Length) == ext[..index] + ext[index + 1..j + 1] + ext[j..items.Length]
      modifies items
      ensures Ring(items[..], front, items.Length) == ext[..index] + ext[index + 1..(j + 1) + 1] + ext[j + 1..items.Length]
    {
      ghost var a := items[..];
      ModWrap(currentIndex + 1, items.Length);
      items[currentIndex] := items[(currentIndex + 1) % items.Length];
      assert items[..] == a[currentIndex := a[Wrap(currentIndex + 1, items.Length)]];
      ShiftDownStep(a, front, ext, index, j, currentIndex);
    }

    /** Removes the first element equal to `x`, by `IndexOf` and `RemoveAt`. */
    method Remove(x: Option<V>) returns (removed: bool)
      requires Valid()
      modifies this, items
      ensures Valid() && items == old(items)
      ensures removed <==> x in old(Contents())
      ensures !removed ==> unchanged(this) && unchanged(items)
      ensures removed && (old(Consistent()) || FirstIndex(old(Contents()), x) < old(count) - 1) ==>
                Contents() == RingRemoved(old(Contents()), FirstIndex(old(Contents()), x), Capacity())
      ensures removed ==> count == old(count) - 1
      ensures removed && FirstIndex(old(Contents()), x) == 0 ==>
                items[..] == old(items[..])[old(front) := None]
                && front == Wrap(old(front) + 1, Capacity()) && back == old(back)
      ensures removed && 0 < FirstIndex(old(Contents()), x) == old(count) - 1 ==>
                front == old(front) && back == Before(old(back), Capacity())
                && items[..] == old(items[..])[back := None]
      ensures removed && 0 < FirstIndex(old(Contents()), x) < old(count) - 1 ==>
                front == old(front) && back == old(back)
                && Slots() == RingAfterMiddleRemove(old(Slots()), FirstIndex(old(Contents()), x), old(count))
                && (old(Consistent()) ==> !Consistent())
      ensures old(Consistent()) && !(removed && 0 < FirstIndex(old(Contents()), x) < old(count) - 1) ==> Consistent()
    {
      var index := IndexOf(x);
      if index >= 0 {
        RemoveAt(index);
        return true;
      }
      return false;
    }
  }
}
