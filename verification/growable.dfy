/**
 * The growable deque of
 * src/CSharpCollections/DoubleEndedQueue/DoubleEndedQueue.cs.
 *
 * The elements are the slice items[front..back] of a plain array, with
 * slack on both sides. A push that uses up one side of the slack calls
 * `AdjustCapacity`, which either moves the live range down to a quarter of
 * the array or doubles the array; nothing is ever dropped.
 */
module GrowableDeque {
  import opened DequeCommon

  /** The capacity the parameterless constructor uses. */
  const DefaultCapacity: int := 32

  /** Where the live range sits after a reallocation: the array length and the front slot. */
  datatype Layout = Layout(capacity: int, front: int)

  /**
   * The layout `AdjustCapacity` picks for `count` elements in an array of
   * `capacity` slots: less than half full, the same array with the range
   * moved to a quarter of it; otherwise twice the array, the range starting
   * at half the old capacity. Either way both ends get a free slot again.
   */
  function AdjustedLayout(count: int, capacity: int): (r: Layout)
    requires 3 <= capacity && 1 <= count <= capacity - 1
    ensures r.capacity == capacity <==> count < capacity / 2
    ensures r.capacity == capacity || r.capacity == 2 * capacity
    ensures 1 <= r.front && r.front + count <= r.capacity - 1
  {
    if count < capacity / 2 then Layout(capacity, capacity / 4)
    else Layout(2 * capacity, capacity / 2)
  }

  /**
   * The layout `TrimExcess` picks: the range starts at slot 1 and a
   * non-empty queue keeps exactly one free slot after it; the array never
   * has fewer than 3 slots.
   */
  function TrimmedLayout(count: int): (r: Layout)
    requires 0 <= count
    ensures 3 <= r.capacity && r.front == 1
    ensures 0 < count ==> r.front + count == r.capacity - 1
    ensures count == 0 ==> r.capacity == 3
  {
    if count > 0 then Layout(count + 2, 1) else Layout(3, 1)
  }

  /** A back push written into slot `b` extends the slice ending at `b`. */
  lemma SliceWriteBack<T>(a: seq<T>, f: int, b: int, x: T)
    requires 0 <= f <= b < |a|
    ensures a[b := x][f..b + 1] == a[f..b] + [x]
  {
  }

  /**
   * The slots after the middle path of `Insert`, before any reallocation:
   * the slots from `f + i` up to `b` copied one slot up, then `x` written at
   * `f + i`.
   */
  function ShiftedUpSlots<T>(a: seq<T>, f: int, b: int, i: int, x: T): (r: seq<T>)
    requires 0 <= f && 0 <= i <= b - f && b < |a|
    ensures |r| == |a|
  {
    Overwritten(a, f + i + 1, a[f + i..b])[f + i := x]
  }

  /** The middle insert of the growable deque is the list insertion on the live slice, grown by one. */
  lemma ShiftUpInserted<T>(a: seq<T>, f: int, b: int, i: int, x: T)
    requires 0 <= f && 0 <= i <= b - f && b < |a|
    ensures ShiftedUpSlots(a, f, b, i, x)[f..b + 1] == Inserted(a[f..b], i, x)
  {
    var l := ShiftedUpSlots(a, f, b, i, x)[f..b + 1];
    var r := Inserted(a[f..b], i, x);
    var o := Overwritten(a, f + i + 1, a[f + i..b]);
    forall k | 0 <= k < b + 1 - f
      ensures l[k] == r[k]
    {
      if k > i {
        assert l[k] == o[f + k];
        assert o[f + k] == a[f + i..b][k - i - 1];
      }
    }
  }

  /**
   * The slots after the middle path of `RemoveAt` when its copy stays in
   * the array: the `b - i` slots from `f + i + 1` on (slack included) copied
   * one slot down, then slot `b - 1` cleared to `d`.
   */
  function ShiftedDownSlots<T>(a: seq<T>, f: int, b: int, i: int, d: T): (r: seq<T>)
    requires 0 <= f && 0 <= i < b - f && f + b + 1 <= |a|
    ensures |r| == |a|
  {
    Overwritten(a, f + i, a[f + i + 1..f + b + 1])[b - 1 := d]
  }

  /** The middle removal of the growable deque is the list removal on the live slice, shrunk by one. */
  lemma ShiftDownRemoved<T>(a: seq<T>, f: int, b: int, i: int, d: T)
    requires 0 <= f && 0 < i < b - f - 1 && f + b + 1 <= |a|
    ensures ShiftedDownSlots(a, f, b, i, d)[f..b - 1] == Removed(a[f..b], i)
  {
    var l := ShiftedDownSlots(a, f, b, i, d)[f..b - 1];
    var r := Removed(a[f..b], i);
    var o := Overwritten(a, f + i, a[f + i + 1..f + b + 1]);
    forall k | 0 <= k < b - 1 - f
      ensures l[k] == r[k]
    {
      assert l[k] == o[f + k];
      if k >= i {
        assert o[f + k] == a[f + i + 1..f + b + 1][k - i];
      }
    }
  }

  // ---------------------------------------------------------------------
  // The growable deque
  // ---------------------------------------------------------------------

  class DoubleEndedQueue<V(==)> {
    /** The slots; the live elements are items[front..back]. */
    var items: array<Option<V>>
    /** The slot of the front element, the next one a front pop returns. */
    var front: int
    /** The slot the next back push writes. */
    var back: int
    /** The capacity given at construction, which `Clear` goes back to. */
    const initialCapacity: int

    /**
     * Between calls the live range leaves at least one free slot on each
     * side, so the slots a front push and a back push write are in bounds.
     */
    ghost predicate Valid()
      reads this
    {
      3 <= initialCapacity && 3 <= items.Length && 1 <= front <= back <= items.Length - 1
    }

    /** The length of the slot array. */
    function Capacity(): (r: int)
      reads this
      ensures Valid() ==> 3 <= r
    {
      items.Length
    }

    /** The number of elements; between calls at most two fewer than the slots. */
    function Count(): (r: int)
      reads this
      ensures Valid() ==> 0 <= r <= Capacity() - 2
    {
      back - front
    }

    /** The logical contents, front to back. */
    ghost function Contents(): (s: seq<Option<V>>)
      reads this, items
      requires Valid()
      ensures |s| == Count()
    {
      items[front..back]
    }

    /** The constructor; its body is the statements of `Clear`. */
    constructor (capacity: int)
      requires 3 <= capacity
      ensures Valid() && fresh(items) && initialCapacity == capacity
      ensures Capacity() == capacity && front == capacity / 2 && Contents() == []
      ensures forall k :: 0 <= k < capacity ==> items[k] == None
    {
      initialCapacity := capacity;
      items := new Option<V>[capacity](_ => None);
      front := capacity / 2;
      back := front;
    }

    constructor Default()
      ensures Valid() && fresh(items) && initialCapacity == DefaultCapacity
      ensures Capacity() == DefaultCapacity && front == DefaultCapacity / 2 && Contents() == []
      ensures forall k :: 0 <= k < DefaultCapacity ==> items[k] == None
    {
      initialCapacity := DefaultCapacity;
      items := new Option<V>[DefaultCapacity](_ => None);
      front := DefaultCapacity / 2;
      back := front;
    }

    /** The constructor's guard: a capacity below 3 is refused. */
    static method Create(capacity: int) returns (r: Result<DoubleEndedQueue<V>>)
      ensures r.Err? <==> capacity < 3
      ensures r.Err? ==> r.error == ArgumentOutOfRange
      ensures r.Ok? ==> fresh(r.value) && fresh(r.value.items) && r.value.Valid()
                        && r.value.Capacity() == capacity && r.value.Contents() == []
    {
      if capacity < 3 {
        return Err(ArgumentOutOfRange);
      }
      var q := new DoubleEndedQueue<V>(capacity);
      return Ok(q);
    }

    /**
     * Called by a push that used up the slack at one end: moves the live
     * range to the layout `AdjustedLayout` picks, keeping every element.
     */
    method AdjustCapacity()
      requires 3 <= initialCapacity && 3 <= items.Length
      requires 0 <= front <= back <= items.Length && 1 <= back - front <= items.Length - 1
      modifies this, items
      ensures Valid() && back - front == old(back - front)
      ensures Capacity() == AdjustedLayout(old(back - front), old(items.Length)).capacity
      ensures front == AdjustedLayout(old(back - front), old(items.Length)).front
      ensures Capacity() == old(Capacity()) ==> items == old(items)
      ensures Capacity() != old(Capacity()) ==> fresh(items)
      ensures items[..] == Overwritten(if Capacity() == old(Capacity()) then old(items[..]) else Nones(Capacity()),
                                       front, old(items[front..back]))
      ensures items[front..back] == old(items[front..back])
    {
      if back - front < items.Length / 2 {
        MoveToQuarter();
      } else {
        MoveToDoubled();
      }
    }

    /** The first branch of `AdjustCapacity`: the range moves down to a quarter of the same array. */
    method MoveToQuarter()
      requires 3 <= items.Length && 0 <= front <= back <= items.Length && back - front < items.Length / 2
      modifies this, items
      ensures items == old(items) && front == items.Length / 4 && back == front + old(back - front)
      ensures items[..] == Overwritten(old(items[..]), front, old(items[front..back]))
    {
      var prevCount := back - front;
      ArrayCopy(items, front, items, items.Length / 4, prevCount);
      front := items.Length / 4;
      back := front + prevCount;
    }

    /** The second branch of `AdjustCapacity`: the range moves to half-way into an array twice as long. */
    method MoveToDoubled()
      requires 0 <= front <= back <= items.Length
      modifies this
      ensures fresh(items) && items.Length == 2 * old(items.Length)
      ensures front == old(items.Length) / 2 && back == front + old(back - front)
      ensures items[..] == Overwritten(Nones(items.Length), front, old(items[front..back]))
    {
      var prevCount := back - front;
      ghost var piece := items[front..back];
      var newItems := new Option<V>[items.Length * 2](_ => None);
      assert newItems[..] == Nones(items.Length * 2);
      ArrayCopy(items, front, newItems, items.Length / 2, prevCount);
      assert newItems[..] == Overwritten(Nones(items.Length * 2), items.Length / 2, piece);
      front := items.Length / 2;
      back := front + prevCount;
      items := newItems;
    }

    /** Push at the back, adjusting the capacity when the back slack is used up. */
    method Enqueue(x: Option<V>)
      requires Valid()
      modifies this, items
      ensures items == old(items) || fresh(items)
      ensures Valid() && Contents() == old(Contents()) + [x]
      ensures old(back) + 1 < old(Capacity()) ==>
                items == old(items) && front == old(front) && items[..] == old(items[..])[old(back) := x]
      ensures old(back) + 1 == old(Capacity()) ==>
                Capacity() == AdjustedLayout(old(Count()) + 1, old(Capacity())).capacity
                && front == AdjustedLayout(old(Count()) + 1, old(Capacity())).front
                && (Capacity() == old(Capacity()) ==> items == old(items))
                && (Capacity() != old(Capacity()) ==> fresh(items))
    {
      SliceWriteBack(items[..], front, back, x);
      items[back] := x;
      back := back + 1;
      if back >= items.Length {
        AdjustCapacity();
      }
    }

    /** `ICollection<T>.Add`: the same as `Enqueue`. */
    method Add(x: Option<V>)
      requires Valid()
      modifies this, items
      ensures items == old(items) || fresh(items)
      ensures Valid() && Contents() == old(Contents()) + [x]
      ensures old(back) + 1 < old(Capacity()) ==>
                items == old(items) && front == old(front) && items[..] == old(items[..])[old(back) := x]
      ensures old(back) + 1 == old(Capacity()) ==>
                Capacity() == AdjustedLayout(old(Count()) + 1, old(Capacity())).capacity
                && front == AdjustedLayout(old(Count()) + 1, old(Capacity())).front
                && (Capacity() == old(Capacity()) ==> items == old(items))
                && (Capacity() != old(Capacity()) ==> fresh(items))
    {
      Enqueue(x);
    }

    /** Push at the front, adjusting the capacity when the front slack is used up. */
    method EnqueueFront(x: Option<V>)
      requires Valid()
      modifies this, items
      ensures items == old(items) || fresh(items)
      ensures Valid() && Contents() == [x] + old(Contents())
      ensures old(front) > 1 ==>
                items == old(items) && back == old(back) && front == old(front) - 1
                && items[..] == old(items[..])[front := x]
      ensures old(front) == 1 ==>
                Capacity() == AdjustedLayout(old(Count()) + 1, old(Capacity())).capacity
                && front == AdjustedLayout(old(Count()) + 1, old(Capacity())).front
                && (Capacity() == old(Capacity()) ==> items == old(items))
                && (Capacity() != old(Capacity()) ==> fresh(items))
    {
      front := front - 1;
      items[front] := x;
      assert items[front..back] == [x] + old(Contents());
      if front <= 0 {
        AdjustCapacity();
      }
    }

    /** Pop the front element; an empty queue reports false and the default value. */
    method TryDequeue() returns (found: bool, obj: Option<V>)
      requires Valid()
      modifies this, items
      ensures Valid() && items == old(items) && back == old(back)
      ensures found <==> old(Count()) > 0
      ensures found ==> obj == old(Contents())[0] && Contents() == old(Contents())[1..]
                        && front == old(front) + 1 && items[..] == old(items[..])[old(front) := None]
      ensures !found ==> obj == None && unchanged(this) && unchanged(items)
    {
      if front < back {
        obj := items[front];
        items[front] := None;
        front := front + 1;
        return true, obj;
      }
      obj := None;
      return false, obj;
    }

    /** Pop the front element, or the default value when the queue is empty. */
    method Dequeue() returns (obj: Option<V>)
      requires Valid()
      modifies this, items
      ensures Valid() && items == old(items)
      ensures obj == if old(Count()) > 0 then old(Contents())[0] else None
      ensures Contents() == if old(Count()) > 0 then old(Contents())[1..] else old(Contents())
      ensures old(Count()) > 0 ==>
                front == old(front) + 1 && back == old(back) && items[..] == old(items[..])[old(front) := None]
      ensures old(Count()) == 0 ==> unchanged(this) && unchanged(items)
    {
      var _, o := TryDequeue();
      obj := o;
    }

    /** Pop the back element; an empty queue reports false and the default value. */
    method TryDequeueBack() returns (found: bool, obj: Option<V>)
      requires Valid()
      modifies this, items
      ensures Valid() && items == old(items) && front == old(front)
      ensures found <==> old(Count()) > 0
      ensures found ==> obj == old(Contents())[old(Count()) - 1] && Contents() == old(Contents())[..old(Count()) - 1]
                        && back == old(back) - 1 && items[..] == old(items[..])[back := None]
      ensures !found ==> obj == None && unchanged(this) && unchanged(items)
    {
      if back > front {
        obj := items[back - 1];
        back := back - 1;
        items[back] := None;
        return true, obj;
      }
      obj := None;
      return false, obj;
    }

    /** Pop the back element, or the default value when the queue is empty. */
    method DequeueBack() returns (obj: Option<V>)
      requires Valid()
      modifies this, items
      ensures Valid() && items == old(items)
      ensures obj == if old(Count()) > 0 then old(Contents())[old(Count()) - 1] else None
      ensures Contents() == if old(Count()) > 0 then old(Contents())[..old(Count()) - 1] else old(Contents())
      ensures old(Count()) > 0 ==>
                front == old(front) && back == old(back) - 1 && items[..] == old(items[..])[back := None]
      ensures old(Count()) == 0 ==> unchanged(this) && unchanged(items)
    {
      var _, o := TryDequeueBack();
      obj := o;
    }

    /** The front element, or the default value when the queue is empty. */
    function Peek(): (r: Option<V>)
      reads this, items
      requires Valid()
      ensures r == if Count() == 0 then None else Contents()[0]
    {
      if back == front then None else items[front]
    }

    /** The back element, or the default value when the queue is empty. */
    function PeekBack(): (r: Option<V>)
      reads this, items
      requires Valid()
      ensures r == if Count() == 0 then None else Contents()[Count() - 1]
    {
      if back == front then None else items[back - 1]
    }

    /** The indexer's getter. */
    function Get(index: int): (r: Result<Option<V>>)
      reads this, items
      requires Valid()
      ensures r.Err? <==> index < 0 || Count() <= index
      ensures r.Err? ==> r.error == IndexOutOfRange
      ensures r.Ok? ==> r.value == Contents()[index]
    {
      if index >= Count() || index < 0 then Err(IndexOutOfRange)
      else Ok(items[front + index])
    }

    /**
     * The indexer's setter. `-1` and `Count` push at the front and back; a
     * null value at a live position removes that element instead, through
     * `RemoveAt` and its failure.
     */
    method Set(index: int, value: Option<V>) returns (outcome: Outcome)
      requires Valid()
      modifies this, items
      ensures items == old(items) || fresh(items)
      ensures Valid()
      ensures outcome.Fail? <==>
                index < -1 || old(Count()) < index
                || (value == None && 0 < index < old(Count()) - 1 && old(front) + old(back) + 1 > old(Capacity()))
      ensures outcome.Fail? ==>
                outcome.error == (if index < -1 || old(Count()) < index then IndexOutOfRange else Argument)
      ensures outcome.Fail? || (value == None && (index == -1 || index == old(Count()))) ==>
                unchanged(this) && unchanged(items)
      ensures outcome.Pass? && value != None && index == old(Count()) ==> Contents() == old(Contents()) + [value]
      ensures outcome.Pass? && value != None && index == -1 ==> Contents() == [value] + old(Contents())
      ensures outcome.Pass? && value == None && 0 <= index < old(Count()) ==>
                Contents() == Removed(old(Contents()), index)
                && items == old(items)
                && (index == 0 ==> front == old(front) + 1 && back == old(back))
                && (0 < index ==> front == old(front) && back == old(back) - 1)
      ensures value != None && index == old(Count()) && old(back) + 1 < old(Capacity()) ==>
                items == old(items) && front == old(front) && items[..] == old(items[..])[old(back) := value]
      ensures value != None && index == -1 && old(front) > 1 ==>
                items == old(items) && back == old(back) && front == old(front) - 1
                && items[..] == old(items[..])[front := value]
      ensures value != None && ((index == old(Count()) && old(back) + 1 == old(Capacity()))
                                || (index == -1 && old(front) == 1)) ==>
                Capacity() == AdjustedLayout(old(Count()) + 1, old(Capacity())).capacity
                && front == AdjustedLayout(old(Count()) + 1, old(Capacity())).front
                && (Capacity() == old(Capacity()) ==> items == old(items))
                && (Capacity() != old(Capacity()) ==> fresh(items))
      ensures value != None && 0 <= index < old(Count()) ==>
                outcome.Pass? && items == old(items) && front == old(front) && back == old(back)
                && Contents() == old(Contents())[index := value]
    {
      if index > Count() || index < -1 {
        return Fail(IndexOutOfRange);
      }
      if index == Count() {
        if value == None {
          return Pass;
        }
        Enqueue(value);
        return Pass;
      }
      if index == -1 {
        if value == None {
          return Pass;
        }
        EnqueueFront(value);
        return Pass;
      }
      if value == None {
        outcome := RemoveAt(index);
        return;
      }
      items[front + index] := value;
      assert items[front..back] == old(Contents())[index := value];
      return Pass;
    }

    /** Back to an empty array of the initial capacity, the range in its middle. */
    method Clear()
      requires Valid()
      modifies this
      ensures Valid() && fresh(items)
      ensures Capacity() == initialCapacity && front == initialCapacity / 2 && Contents() == []
      ensures forall k :: 0 <= k < items.Length ==> items[k] == None
    {
      items := new Option<V>[initialCapacity](_ => None);
      front := initialCapacity / 2;
      back := front;
    }

    /** Membership, by `IndexOf`. */
    method Contains(x: Option<V>) returns (r: bool)
      requires Valid()
      ensures r <==> x in Contents()
    {
      var i := IndexOf(x);
      return i >= 0;
    }

    /** The enumerator's sequence: the slots from `front` up to `back`. */
    method Enumerate() returns (r: seq<Option<V>>)
      requires Valid()
      ensures r == Contents()
    {
      r := [];
      var i := front;
      while i < back
        invariant front <= i <= back
        invariant r == items[front..i]
      {
        r := r + [items[i]];
        i := i + 1;
      }
    }

    /**
     * `CopyTo`: as many elements as fit from `index` on, front first, in
     * one `Array.Copy`.
     */
    method CopyTo(target: array?<Option<V>>, index: int) returns (outcome: Outcome)
      requires Valid() && target != items
      modifies target
      ensures target == null ==> outcome == Fail(ArgumentNull)
      ensures target != null ==>
                && (outcome.Fail? <==> target.Length - index <= 0 || (index < 0 && 0 < Count()))
                && (outcome.Fail? ==> outcome.error == ArgumentOutOfRange && target[..] == old(target[..]))
                && (outcome.Pass? && Count() == 0 ==> target[..] == old(target[..]))
                && (outcome.Pass? && 0 < Count() ==>
                      0 <= index
                      && target[..] == Overwritten(old(target[..]), index, Contents()[..Min(Count(), target.Length - index)]))
    {
      if target == null {
        return Fail(ArgumentNull);
      }
      var remaining := target.Length - index;
      if remaining <= 0 {
        return Fail(ArgumentOutOfRange);
      }
      var count := Count();
      if count > 0 {
        if remaining < count {
          count := remaining;
        }
        if count > 0 {
          if index < 0 {
            // Array.Copy refuses a negative destination index.
            return Fail(ArgumentOutOfRange);
          }
          assert items[front..front + count] == Contents()[..count];
          ArrayCopy(items, front, target, index, count);
        }
      }
      return Pass;
    }

    /** A new array holding the contents, front first. */
    method ToArray() returns (r: array<Option<V>>)
      requires Valid()
      ensures fresh(r) && r[..] == Contents()
    {
      var count := Count();
      r := new Option<V>[count](_ => None);
      if count > 0 {
        ArrayCopy(items, front, r, 0, count);
      }
    }

    /** Reallocates to the layout `TrimmedLayout` picks, keeping the contents. */
    method TrimExcess()
      requires Valid()
      modifies this
      ensures Valid() && fresh(items) && Contents() == old(Contents())
      ensures Capacity() == TrimmedLayout(old(Count())).capacity && front == TrimmedLayout(old(Count())).front
      ensures items[..] == Overwritten(Nones(Capacity()), front, old(Contents()))
    {
      var count := Count();
      if count > 0 {
        var trimmed := new Option<V>[count + 2](_ => None);
        assert trimmed[..] == Nones(count + 2);
        ArrayCopy(items, front, trimmed, 1, count);
        items := trimmed;
        front := 1;
        back := front + count;
      } else {
        items := new Option<V>[3](_ => None);
        front := 1;
        back := front;
        assert items[..] == Nones(3);
      }
    }

    /** The position of the first element equal to `x`, or -1. */
    method IndexOf(x: Option<V>) returns (r: int)
      requires Valid()
      ensures r == FirstIndex(Contents(), x)
    {
      var i := front;
      while i < back
        invariant front <= i <= back
        invariant x !in items[front..i]
      {
        if items[i] == x {
          assert Contents()[..i - front] == items[front..i];
          FirstIndexUnique(Contents(), x, i - front);
          return i - front;
        }
        assert items[front..i + 1] == items[front..i] + [items[i]];
        i := i + 1;
      }
      return -1;
    }

    /**
     * `Insert(index, item)`. A null item is ignored; a negative position,
     * or one past `Count` on a non-empty queue, is refused; the ends are the
     * two pushes; in the middle the elements from `index` on are copied one
     * slot up. On an empty queue a positive position passes the guard and
     * `Array.Copy` refuses the negative length instead.
     */
    method Insert(index: int, item: Option<V>) returns (outcome: Outcome)
      requires Valid()
      modifies this, items
      ensures items == old(items) || fresh(items)
      ensures Valid()
      ensures outcome.Fail? <==> item != None && (index < 0 || old(Count()) < index)
      ensures outcome.Fail? ==> outcome.error == ArgumentOutOfRange
      ensures outcome.Fail? || item == None ==> unchanged(this) && unchanged(items)
      ensures outcome.Pass? && item != None ==> Contents() == Inserted(old(Contents()), index, item)
      ensures item != None && index == 0 && old(front) > 1 ==>
                items == old(items) && back == old(back) && front == old(front) - 1
                && items[..] == old(items[..])[front := item]
      ensures item != None && 0 < index == old(Count()) && old(back) + 1 < old(Capacity()) ==>
                items == old(items) && front == old(front) && items[..] == old(items[..])[old(back) := item]
      ensures item != None && 0 < index < old(Count()) && old(back) + 1 < old(Capacity()) ==>
                items == old(items) && front == old(front) && back == old(back) + 1
                && items[..] == ShiftedUpSlots(old(items[..]), old(front), old(back), index, item)
      ensures item != None && ((index == 0 && old(front) == 1)
                               || (0 < index <= old(Count()) && old(back) + 1 == old(Capacity()))) ==>
                Capacity() == AdjustedLayout(old(Count()) + 1, old(Capacity())).capacity
                && front == AdjustedLayout(old(Count()) + 1, old(Capacity())).front
                && (Capacity() == old(Capacity()) ==> items == old(items))
                && (Capacity() != old(Capacity()) ==> fresh(items))
    {
      if item == None {
        return Pass;
      }
      if index < 0 || (index > Count() && Count() > 0) {
        return Fail(ArgumentOutOfRange);
      }
      if index == 0 {
        EnqueueFront(item);
        return Pass;
      }
      if index == Count() {
        Enqueue(item);
        assert old(Contents()) + [item] == Inserted(old(Contents()), index, item);
        return Pass;
      }
      if Count() - index < 0 {
        // Array.Copy refuses a negative length.
        return Fail(ArgumentOutOfRange);
      }
      InsertInMiddle(index, item);
      return Pass;
    }

    /**
     * The middle path of `Insert`: the elements from `index` on are copied
     * one slot up and `item` written, and when that used up the back slack
     * `AdjustCapacity` lays the array out again.
     */
    method InsertInMiddle(index: int, item: Option<V>)
      requires Valid() && 0 < index < Count()
      modifies this, items
      ensures items == old(items) || fresh(items)
      ensures Valid() && Contents() == Inserted(old(Contents()), index, item)
      ensures old(back) + 1 < old(Capacity()) ==>
                items == old(items) && front == old(front) && back == old(back) + 1
                && items[..] == ShiftedUpSlots(old(items[..]), old(front), old(back), index, item)
      ensures old(back) + 1 == old(Capacity()) ==>
                Capacity() == AdjustedLayout(old(Count()) + 1, old(Capacity())).capacity
                && front == AdjustedLayout(old(Count()) + 1, old(Capacity())).front
                && (Capacity() == old(Capacity()) ==> items == old(items))
                && (Capacity() != old(Capacity()) ==> fresh(items))
    {
      ShiftUp(index, item);
      if back >= items.Length {
        AdjustCapacity();
      }
    }

    /**
     * `RemoveAt(index)`. A position outside the live ones is ignored; the
     * ends clear one slot; in the middle `Array.Copy` moves `back - index`
     * slots down from position `index + 1`, which runs past the end of the
     * array, and is refused, when front + back + 1 exceeds the capacity.
     */
    method RemoveAt(index: int) returns (outcome: Outcome)
      requires Valid()
      modifies this, items
      ensures Valid() && items == old(items)
      ensures outcome.Fail? <==> 0 < index < old(Count()) - 1 && old(front) + old(back) + 1 > old(Capacity())
      ensures outcome.Fail? ==> outcome.error == Argument
      ensures outcome.Fail? || !(0 <= index < old(Count())) ==> unchanged(this) && unchanged(items)
      ensures outcome.Pass? && 0 <= index < old(Count()) ==> Contents() == Removed(old(Contents()), index)
      ensures outcome.Pass? && 0 < index < old(Count()) - 1 ==>
                front == old(front) && back == old(back) - 1
                && items[..] == ShiftedDownSlots(old(items[..]), old(front), old(back), index, None)
      ensures index == 0 < old(Count()) ==>
                front == old(front) + 1 && back == old(back) && items[..] == old(items[..])[old(front) := None]
      ensures 0 < index == old(Count()) - 1 ==>
                front == old(front) && back == old(back) - 1 && items[..] == old(items[..])[back := None]
    {
      if front == back || index < 0 || index >= Count() {
        return Pass;
      }
      if index == 0 {
        items[front] := None;
        front := front + 1;
        return Pass;
      }
      if index == Count() - 1 {
        back := back - 1;
        items[back] := None;
        return Pass;
      }
      if front + index + 1 + (back - index) > items.Length {
        // Array.Copy refuses a source range that runs past the end of the array.
        return Fail(Argument);
      }
      ShiftDown(index);
      return Pass;
    }

    /** The middle path of `Insert` before the capacity check: copy up, write, grow the range. */
    method ShiftUp(index: int, item: Option<V>)
      requires Valid() && 0 < index < Count()
      modifies this, items
      ensures items == old(items) && front == old(front) && back == old(back) + 1 && back <= items.Length
      ensures items[..] == ShiftedUpSlots(old(items[..]), front, old(back), index, item)
      ensures items[front..back] == Inserted(old(Contents()), index, item)
    {
      ghost var a := items[..];
      var f, b := front, back;
      assert old(Contents()) == a[f..b];
      WriteShiftedUp(items, f, b, index, item, a);
      back := b + 1;
    }

    /** The array writes of `ShiftUp`. */
    static method WriteShiftedUp(a: array<Option<V>>, f: int, b: int, index: int, item: Option<V>, ghost a0: seq<Option<V>>)
      requires 0 <= f && 0 < index < b - f && b < a.Length && a[..] == a0
      modifies a
      ensures a[..] == ShiftedUpSlots(a0, f, b, index, item)
      ensures a[f..b + 1] == Inserted(a0[f..b], index, item)
    {
      ghost var copied := Overwritten(a0, f + index + 1, a0[f + index..b]);
      assert a[f + index..f + index + (b - f - index)] == a0[f + index..b];
      ArrayCopy(a, f + index, a, f + index + 1, b - f - index);
      assert a[..] == copied;
      a[f + index] := item;
      assert a[..] == copied[f + index := item];
      assert a[f..b + 1] == Inserted(a0[f..b], index, item) by {
        assert a[f..b + 1] == a[..][f..b + 1];
        ShiftUpInserted(a0, f, b, index, item);
      }
    }

    /** The middle path of `RemoveAt` once `Array.Copy` accepted the range: copy down, clear, shrink the range. */
    method ShiftDown(index: int)
      requires Valid() && 0 < index < Count() - 1 && front + back + 1 <= items.Length
      modifies items, `back
      ensures back == old(back) - 1
      ensures items[..] == ShiftedDownSlots(old(items[..]), front, old(back), index, None)
      ensures Valid() && Contents() == Removed(old(Contents()), index)
    {
      ghost var a := items[..];
      var f, b := front, back;
      assert old(Contents()) == a[f..b];
      WriteShiftedDown(items, f, b, index, a);
      back := b - 1;
    }

    /** The array writes of `ShiftDown`. */
    static method WriteShiftedDown(a: array<Option<V>>, f: int, b: int, index: int, ghost a0: seq<Option<V>>)
      requires 0 <= f && 0 < index < b - f - 1 && f + b + 1 <= a.Length && a[..] == a0
      modifies a
      ensures a[..] == ShiftedDownSlots(a0, f, b, index, None)
      ensures a[f..b - 1] == Removed(a0[f..b], index)
    {
      ghost var copied := Overwritten(a0, f + index, a0[f + index + 1..f + b + 1]);
      assert a[f + index + 1..f + index + 1 + (b - index)] == a0[f + index + 1..f + b + 1];
      ArrayCopy(a, f + index + 1, a, f + index, b - index);
      assert a[..] == copied;
      a[b - 1] := None;
      assert a[..] == copied[b - 1 := None];
      assert a[f..b - 1] == Removed(a0[f..b], index) by {
        assert a[f..b - 1] == a[..][f..b - 1];
        ShiftDownRemoved(a0, f, b, index, None);
      }
    }

    /** Removes the first element equal to `x`, by `IndexOf` and `RemoveAt`. */
    method Remove(x: Option<V>) returns (r: Result<bool>)
      requires Valid()
      modifies this, items
      ensures Valid()
      ensures r == Ok(false) <==> x !in old(Contents())
      ensures r.Err? <==>
                0 < FirstIndex(old(Contents()), x) < old(Count()) - 1 && old(front) + old(back) + 1 > old(Capacity())
      ensures r.Err? ==> r.error == Argument
      ensures r != Ok(true) ==> unchanged(this) && unchanged(items)
      ensures r == Ok(true) ==> Contents() == Removed(old(Contents()), FirstIndex(old(Contents()), x))
                                && items == old(items)
      ensures r == Ok(true) && FirstIndex(old(Contents()), x) == 0 ==>
                front == old(front) + 1 && back == old(back) && items[..] == old(items[..])[old(front) := None]
      ensures r == Ok(true) && 0 < FirstIndex(old(Contents()), x) == old(Count()) - 1 ==>
                front == old(front) && back == old(back) - 1 && items[..] == old(items[..])[back := None]
      ensures r == Ok(true) && 0 < FirstIndex(old(Contents()), x) < old(Count()) - 1 ==>
                front == old(front) && back == old(back) - 1
                && items[..] == ShiftedDownSlots(old(items[..]), old(front), old(back), FirstIndex(old(Contents()), x), None)
    {
      ghost var s := Contents();
      var index := IndexOf(x);
      assert index == FirstIndex(old(Contents()), x) && |s| == old(Count());
      if index >= 0 {
        var outcome := RemoveAt(index);
        if outcome.Fail? {
          return Err(outcome.error);
        }
        assert Contents() == Removed(s, index);
        return Ok(true);
      }
      assert x !in s;
      return Ok(false);
    }
  }
}
