/** `util/circular_buffer.rs`: a fixed-capacity ring buffer whose `push`
    overwrites the oldest item once the buffer is full, and whose iteration
    yields the items oldest first. */
module CircularBuffers {

  /** The last `n` items of `s`, or all of `s` when it has at most `n`. */
  function LastN<T>(s: seq<T>, n: nat): (r: seq<T>)
    ensures |r| == if |s| <= n then |s| else n
  {
    if |s| <= n then s else s[|s| - n..]
  }

  /** Keeping the last `n` items, then appending and keeping the last `n`
      again, is the same as appending first. */
  lemma LastNAppend<T>(s: seq<T>, t: seq<T>, n: nat)
    ensures LastN(LastN(s, n) + t, n) == LastN(s + t, n)
  {
    if |s| > n {
      var d := |s| - n;
      assert s + t == s[..d] + (s[d..] + t);
      var a, b := LastN(s[d..] + t, n), LastN(s + t, n);
      assert |a| == |b| == n;
      forall k | 0 <= k < n
        ensures a[k] == b[k]
      {
        assert a[k] == (s[d..] + t)[|t| + k];
        assert b[k] == (s + t)[d + |t| + k];
      }
    }
  }

  class CircularBuffer<T(==)> {
    /** The stored items; they occupy at most `capacity` slots. */
    var buffer: seq<T>
    /** The slot the next overwrite goes to, which holds the oldest item once full. */
    var tail: nat
    /** `Vec::capacity()` of the backing vector, fixed for the buffer's lifetime. */
    const capacity: nat

    /** The buffer never holds more than its capacity, and the tail moves away
        from 0 only once the buffer is full, staying a valid slot. */
    ghost predicate Valid()
      reads this
    {
      |buffer| <= capacity &&
      (tail == 0 || tail < |buffer|) &&
      (|buffer| < capacity ==> tail == 0)
    }

    /** `with_capacity`: an empty buffer; a zero capacity is refused.
        `Vec::with_capacity` reserves at least the requested capacity, and
        `reserved` is what it reserves. */
    constructor WithCapacity(requested: nat, reserved: nat)
      requires requested > 0 && reserved >= requested
      ensures Valid() && capacity == reserved
      ensures buffer == [] && tail == 0
      ensures Iter() == []
    {
      capacity := reserved;
      buffer := [];
      tail := 0;
    }

    /** `fill_with`: the items of a vector whose capacity, `reserved`, is at
        least their count; the buffer is full only when the two are equal. */
    constructor FillWith(items: seq<T>, reserved: nat)
      requires reserved >= |items|
      ensures Valid() && capacity == reserved
      ensures buffer == items && tail == 0
      ensures reserved > 0 ==> Iter() == items
    {
      capacity := reserved;
      buffer := items;
      tail := 0;
      new;
      if reserved > 0 {
        assert Iter() == buffer[0..] + (if |buffer| == reserved then buffer[..0] else []);
      }
    }

    /** `is_full`: every slot holds an item. */
    function IsFull(): (r: bool)
      reads this
      requires Valid()
      ensures r <==> Len() == capacity
    {
      |buffer| == capacity
    }

    /** `len`: the number of items held, never more than the capacity. */
    function Len(): (n: nat)
      reads this
      requires Valid()
      ensures n <= capacity
      ensures capacity > 0 ==> n == |Iter()|
    {
      if |buffer| != capacity then |buffer| else capacity
    }

    /** `head_unchecked`: one past the newest item, which is the tail slot again. */
    function HeadUnchecked(): (r: nat)
      reads this
      requires Valid() && capacity > 0
      ensures r == tail && r < capacity
    {
      (tail + capacity) % capacity
    }

    /** `slices`: the stored items split at the tail, oldest part first. */
    function Slices(): (r: (seq<T>, seq<T>))
      reads this
      requires Valid() && capacity > 0
      ensures |buffer| < capacity ==> r.0 == buffer && r.1 == []
      ensures |buffer| == capacity ==> r.0 == buffer[tail..] && r.1 == buffer[..tail]
    {
      if |buffer| != capacity then (buffer, [])
      else (buffer[tail..], buffer[..HeadUnchecked()])
    }

    /** `iter`: the two slices one after the other. */
    function Iter(): (r: seq<T>)
      reads this
      requires Valid() && capacity > 0
      ensures |r| == |buffer|
    {
      Slices().0 + Slices().1
    }

    /** Iteration yields every stored item exactly once. */
    lemma IterPermutes()
      requires Valid() && capacity > 0
      ensures multiset(Iter()) == multiset(buffer)
    {
      if |buffer| == capacity {
        assert buffer == buffer[..tail] + buffer[tail..];
      }
    }

    /** `push`: appends while there is room; once full, overwrites the oldest
        item and advances the tail. Iteration then yields the last `capacity`
        items ever pushed, oldest first. */
    method Push(item: T)
      requires Valid() && capacity > 0
      modifies this
      ensures Valid()
      ensures old(|buffer|) < capacity ==> buffer == old(buffer) + [item] && tail == 0
      ensures old(|buffer|) == capacity ==>
        buffer == old(buffer)[old(tail) := item] && tail == (old(tail) + 1) % capacity
      ensures Iter() == LastN(old(Iter()) + [item], capacity)
    {
      ghost var before := Iter();
      if |buffer| != capacity {
        assert before == buffer + [];
        buffer := buffer + [item];
        if |buffer| == capacity {
          assert Iter() == buffer[0..] + buffer[..0];
        }
        assert Iter() == buffer;
        assert LastN(before + [item], capacity) == buffer;
      } else {
        assert before == buffer[tail..] + buffer[..tail];
        var oldBuffer, oldTail := buffer, tail;
        buffer := buffer[tail := item];
        tail := (tail + 1) % capacity;
        OverwriteOldest(oldBuffer, oldTail, item, buffer, tail);
        assert Iter() == buffer[tail..] + buffer[..tail];
        assert Iter() == LastN(before + [item], capacity);
      }
    }

    /** `PartialEq`: two buffers are equal when they iterate the same items,
        whatever their storage order. */
    function Equals(other: CircularBuffer<T>): (r: bool)
      reads this, other
      requires Valid() && capacity > 0 && other.Valid() && other.capacity > 0
      ensures r ==> Len() == other.Len()
      ensures r ==> multiset(buffer) == multiset(other.buffer)
    {
      IterPermutes();
      other.IterPermutes();
      Iter() == other.Iter()
    }
  }

  lemma PrefixStep<T>(start: seq<T>, items: seq<T>, i: nat)
    requires i < |items|
    ensures start + items[..i + 1] == start + items[..i] + [items[i]]
  {
    assert items[..i + 1] == items[..i] + [items[i]];
  }

  /** Overwriting the oldest slot of a full buffer and advancing the tail
      drops the oldest item and appends the new one in iteration order. */
  lemma OverwriteOldest<T>(b: seq<T>, t: nat, x: T, b': seq<T>, t': nat)
    requires t < |b| && b' == b[t := x] && t' == (t + 1) % |b|
    ensures b'[t'..] + b'[..t'] == LastN(b[t..] + b[..t] + [x], |b|)
  {
    var n := |b|;
    var before := b[t..] + b[..t] + [x];
    assert LastN(before, n) == before[1..];
    if t + 1 < n {
      assert (t + 1) % n == t + 1;
      assert b'[t + 1..] == b[t + 1..];
      assert b'[..t + 1] == b[..t] + [x];
      assert before[1..] == b[t + 1..] + b[..t] + [x] by {
        assert b[t..] == [b[t]] + b[t + 1..];
      }
    } else {
      assert (t + 1) % n == 0;
      assert b' == b[..t] + [x];
      assert before[1..] == b[..t] + [x] by {
        assert b[t..] == [b[t]];
      }
    }
  }

  /** The four enumeration cases of a buffer of capacity 2: nothing pushed,
      one item, two items, and three items (the first one overwritten). */
  method EnumerationExamples() returns (empty: seq<int>, partial: seq<int>, full: seq<int>, overfull: seq<int>)
    ensures empty == [] && partial == [0] && full == [0, 1] && overfull == [1, 2]
  {
    var b := new CircularBuffer<int>.WithCapacity(2, 2);
    empty := b.Iter();
    b.Push(0);
    partial := b.Iter();
    b.Push(1);
    full := b.Iter();
    b.Push(2);
    overfull := b.Iter();
  }

  /** A buffer of capacity 2 after pushing 0, 1 and 2: the first slot has
      been overwritten and the tail has moved to the second. */
  method OverwrittenBuffer() returns (b: CircularBuffer<int>)
    ensures fresh(b) && b.Valid() && b.capacity == 2
    ensures |b.buffer| == 2 && b.buffer[0] == 2 && b.Iter() == [1, 2]
  {
    b := new CircularBuffer<int>.WithCapacity(2, 2);
    b.Push(0);
    b.Push(1);
    var full := b.Iter();
    assert full == [0, 1];
    b.Push(2);
    assert b.Iter() == LastN(full + [2], 2);
  }

  /** Equality ignores storage order: a buffer that has overwritten its first
      slot equals a freshly filled one with the same items in iteration order. */
  method EqualityExample() returns (rotated: CircularBuffer<int>, filled: CircularBuffer<int>)
    ensures rotated.Valid() && filled.Valid() && rotated.capacity == filled.capacity == 2
    ensures rotated.buffer != filled.buffer && rotated.Equals(filled)
  {
    rotated := OverwrittenBuffer();
    filled := new CircularBuffer<int>.FillWith([1, 2], 2);
    assert rotated.buffer[0] != filled.buffer[0];
  }
}
