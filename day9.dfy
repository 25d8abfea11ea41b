/** `day9.rs`: a window of the most recent values kept in a circular buffer,
    and the search for the first value that is not the sum of two distinct
    values of the window before it. Values are `i64` in the source; here they
    are unbounded integers. */
module Day9 {
  import opened Results
  import opened Text
  import opened CircularBuffers

  const PREAMBLE_LENGTH: nat := 25

  /** `util::tuples` (whose source is not part of this model): every pair of
      distinct positions once, the earlier position first. */
  function Tuples(s: seq<int>): seq<(int, int)> {
    if s == [] then [] else TupleTo(s[0], s[1..]) + Tuples(s[1..])
  }

  /** `tuple_to`: `first` paired with each item of `second`, in order. */
  function TupleTo(first: int, second: seq<int>): (r: seq<(int, int)>)
    ensures |r| == |second|
    ensures forall k :: 0 <= k < |second| ==> r[k] == (first, second[k])
  {
    seq(|second|, k requires 0 <= k < |second| => (first, second[k]))
  }

  /** Each item of `u` paired with each item of `v`, `u` in the outer loop. */
  function CrossPairs(u: seq<int>, v: seq<int>): seq<(int, int)> {
    if u == [] then [] else TupleTo(u[0], v) + CrossPairs(u[1..], v)
  }

  /** Every listed tuple is a pair of values at positions `i < j`. */
  lemma {:induction false} TuplesMember(s: seq<int>, p: (int, int)) returns (i: nat, j: nat)
    requires p in Tuples(s)
    ensures i < j < |s| && p.0 == s[i] && p.1 == s[j]
    decreases |s|
  {
    var first, rest := TupleTo(s[0], s[1..]), Tuples(s[1..]);
    assert Tuples(s) == first + rest;
    if p in first {
      var k :| 0 <= k < |first| && first[k] == p;
      assert p.0 == s[0] && p.1 == s[k + 1];
      i, j := 0, k + 1;
    } else {
      assert p in rest;
      var a, b := TuplesMember(s[1..], p);
      assert p.0 == s[a + 1] && p.1 == s[b + 1];
      i, j := a + 1, b + 1;
    }
  }

  /** The values at any positions `i < j` are listed. */
  lemma {:induction false} TuplesHas(s: seq<int>, i: nat, j: nat)
    requires i < j < |s|
    ensures (s[i], s[j]) in Tuples(s)
    decreases |s|
  {
    var first := TupleTo(s[0], s[1..]);
    if i == 0 {
      assert first[j - 1] == (s[0], s[j]);
    } else {
      TuplesHas(s[1..], i - 1, j - 1);
    }
  }

  /** Every cross pair is an item of `u` paired with an item of `v`. */
  lemma {:induction false} CrossMember(u: seq<int>, v: seq<int>, p: (int, int)) returns (i: nat, j: nat)
    requires p in CrossPairs(u, v)
    ensures i < |u| && j < |v| && p.0 == u[i] && p.1 == v[j]
    decreases |u|
  {
    var first, rest := TupleTo(u[0], v), CrossPairs(u[1..], v);
    assert CrossPairs(u, v) == first + rest;
    if p in first {
      var k :| 0 <= k < |first| && first[k] == p;
      assert p.0 == u[0] && p.1 == v[k];
      i, j := 0, k;
    } else {
      assert p in rest;
      var a, b := CrossMember(u[1..], v, p);
      assert p.0 == u[a + 1] && p.1 == v[b];
      i, j := a + 1, b;
    }
  }

  /** Every item of `u` paired with every item of `v` is a cross pair. */
  lemma {:induction false} CrossHas(u: seq<int>, v: seq<int>, i: nat, j: nat)
    requires i < |u| && j < |v|
    ensures (u[i], v[j]) in CrossPairs(u, v)
    decreases |u|
  {
    var first := TupleTo(u[0], v);
    if i == 0 {
      assert first[j] == (u[0], v[j]);
    } else {
      CrossHas(u[1..], v, i - 1, j);
    }
  }

  /** `chain_tuples`: the pairs within each slice, then the pairs across them
      in both orders. */
  function ChainTuples(u: seq<int>, v: seq<int>): seq<(int, int)> {
    Tuples(u) + Tuples(v) + CrossPairs(u, v) + CrossPairs(v, u)
  }

  /** `next` is the sum of the values at two distinct positions of `s`. */
  predicate PairSum(s: seq<int>, next: int) {
    exists i, j | 0 <= i < |s| && 0 <= j < |s| :: i != j && s[i] + s[j] == next
  }

  /** Two distinct positions of `s` holding the two values of `p`. */
  lemma PairAt(s: seq<int>, i: nat, j: nat, x: int, y: int)
    requires i < |s| && j < |s| && i != j && s[i] == x && s[j] == y
    ensures PairSum(s, x + y)
  {
  }

  /** A pair within the first slice, at positions of the concatenation. */
  lemma LeftPairSum(u: seq<int>, v: seq<int>, p: (int, int))
    requires p in Tuples(u)
    ensures PairSum(u + v, p.0 + p.1)
  {
    var i, j := TuplesMember(u, p);
    PairAt(u + v, i, j, p.0, p.1);
  }

  /** A pair within the second slice, at positions of the concatenation. */
  lemma RightPairSum(u: seq<int>, v: seq<int>, p: (int, int))
    requires p in Tuples(v)
    ensures PairSum(u + v, p.0 + p.1)
  {
    var i, j := TuplesMember(v, p);
    PairAt(u + v, |u| + i, |u| + j, p.0, p.1);
  }

  /** A pair across the slices, first slice first, at positions of the
      concatenation. */
  lemma CrossPairSum(u: seq<int>, v: seq<int>, p: (int, int))
    requires p in CrossPairs(u, v)
    ensures PairSum(u + v, p.0 + p.1)
  {
    var i, j := CrossMember(u, v, p);
    assert (u + v)[|u| + j] == v[j];
    PairAt(u + v, i, |u| + j, p.0, p.1);
  }

  /** A pair across the slices, second slice first, at positions of the
      concatenation. */
  lemma BackPairSum(u: seq<int>, v: seq<int>, p: (int, int))
    requires p in CrossPairs(v, u)
    ensures PairSum(u + v, p.0 + p.1)
  {
    var j, i := CrossMember(v, u, p);
    assert (u + v)[|u| + j] == v[j];
    PairAt(u + v, |u| + j, i, p.0, p.1);
  }

  /** A chained pair of the two slices is a pair of values at two distinct
      positions of their concatenation. */
  lemma ChainedPairIsPairSum(u: seq<int>, v: seq<int>, p: (int, int))
    requires p in ChainTuples(u, v)
    ensures PairSum(u + v, p.0 + p.1)
  {
    var a, b, c, d := Tuples(u), Tuples(v), CrossPairs(u, v), CrossPairs(v, u);
    assert ChainTuples(u, v) == a + b + c + d;
    if p in a {
      LeftPairSum(u, v, p);
    } else if p in b {
      RightPairSum(u, v, p);
    } else if p in c {
      CrossPairSum(u, v, p);
    } else {
      BackPairSum(u, v, p);
    }
  }

  /** Two distinct positions of the concatenation of the slices hold a chained
      pair, possibly in the other order. */
  lemma PairSumIsChained(u: seq<int>, v: seq<int>, i: nat, j: nat)
    requires i < j < |u + v|
    ensures ((u + v)[i], (u + v)[j]) in ChainTuples(u, v) || ((u + v)[j], (u + v)[i]) in ChainTuples(u, v)
  {
    var w := u + v;
    var a, b, c, d := Tuples(u), Tuples(v), CrossPairs(u, v), CrossPairs(v, u);
    assert ChainTuples(u, v) == a + b + c + d;
    if j < |u| {
      TuplesHas(u, i, j);
      assert (w[i], w[j]) == (u[i], u[j]) && (u[i], u[j]) in a;
    } else if i >= |u| {
      TuplesHas(v, i - |u|, j - |u|);
      assert (w[i], w[j]) == (v[i - |u|], v[j - |u|]) && (v[i - |u|], v[j - |u|]) in b;
    } else {
      CrossHas(u, v, i, j - |u|);
      assert (w[i], w[j]) == (u[i], v[j - |u|]) && (u[i], v[j - |u|]) in c;
    }
  }

  /** Some chained pair of the two slices sums to `next` exactly when two
      distinct positions of their concatenation do. */
  lemma ChainTuplesSum(u: seq<int>, v: seq<int>, next: int)
    ensures (exists p :: p in ChainTuples(u, v) && p.0 + p.1 == next) <==> PairSum(u + v, next)
  {
    var w := u + v;
    if p :| p in ChainTuples(u, v) && p.0 + p.1 == next {
      ChainedPairIsPairSum(u, v, p);
    }
    if PairSum(w, next) {
      var i, j :| 0 <= i < |w| && 0 <= j < |w| && i != j && w[i] + w[j] == next;
      if i < j {
        PairSumIsChained(u, v, i, j);
      } else {
        PairSumIsChained(u, v, j, i);
      }
    }
  }

  /** `is_valid`: `next` is the sum of two buffered values at distinct positions. */
  function IsValid(buffer: CircularBuffer<int>, next: int): (r: bool)
    reads buffer
    requires buffer.Valid() && buffer.capacity > 0
    ensures r <==> PairSum(buffer.Iter(), next)
  {
    var (u, v) := buffer.Slices();
    ChainTuplesSum(u, v, next);
    exists p | p in ChainTuples(u, v) :: p.0 + p.1 == next
  }

  /** `build_buffer`: a buffer asked for `|init|` slots, with `reserved`
      slots reserved, fed with `init`; it iterates exactly `init`, and is full
      exactly when the allocation is exact. */
  method BuildBuffer<T(==)>(init: seq<T>, reserved: nat) returns (output: CircularBuffer<T>)
    requires |init| > 0 && reserved >= |init|
    ensures fresh(output) && output.Valid()
    ensures output.capacity == reserved && output.Iter() == init
    ensures output.IsFull() <==> reserved == |init|
  {
    output := new CircularBuffer<T>.WithCapacity(|init|, reserved);
    var i := 0;
    while i < |init|
      invariant 0 <= i <= |init|
      invariant fresh(output) && output.Valid() && output.capacity == reserved
      invariant output.Iter() == init[..i]
    {
      output.Push(init[i]);
      assert init[..i + 1] == init[..i] + [init[i]];
      i := i + 1;
    }
    assert init[..i] == init;
  }

  /** The number of leading items of `rest` each of which is a pair sum of the
      window formed by the last `cap` values before it. */
  function ValidPrefix(window: seq<int>, rest: seq<int>, cap: nat): (k: nat)
    ensures k <= |rest|
    decreases |rest|
  {
    if rest == [] || !PairSum(window, rest[0]) then 0
    else 1 + ValidPrefix(LastN(window + [rest[0]], cap), rest[1..], cap)
  }

  /** The first item of `rest` that is not a pair sum of its window, if any. */
  function FirstInvalid(window: seq<int>, rest: seq<int>, cap: nat): Option<int> {
    var k := ValidPrefix(window, rest, cap);
    if k < |rest| then Some(rest[k]) else None
  }

  /** The last `cap` values seen before item `i` of `rest`. */
  function WindowBefore(window: seq<int>, rest: seq<int>, i: nat, cap: nat): seq<int>
    requires i <= |rest|
  {
    LastN(window + rest[..i], cap)
  }

  /** Sliding the window over the first item and then looking `i - 1` items
      further is looking `i` items further from the start. */
  lemma WindowBeforeShift(window: seq<int>, rest: seq<int>, i: nat, cap: nat)
    requires 1 <= i <= |rest|
    ensures WindowBefore(LastN(window + [rest[0]], cap), rest[1..], i - 1, cap) == WindowBefore(window, rest, i, cap)
  {
    LastNAppend(window + [rest[0]], rest[1..][..i - 1], cap);
    assert window + [rest[0]] + rest[1..][..i - 1] == window + rest[..i];
  }

  /** What the prefix means: each of its items is a pair sum of the last `cap`
      values before it, and the item right after it is not. */
  lemma {:induction false} ValidPrefixMeaning(window: seq<int>, rest: seq<int>, cap: nat)
    requires |window| <= cap
    ensures var k := ValidPrefix(window, rest, cap);
      (forall i :: 0 <= i < k ==> PairSum(WindowBefore(window, rest, i, cap), rest[i])) &&
      (k < |rest| ==> !PairSum(WindowBefore(window, rest, k, cap), rest[k]))
    decreases |rest|
  {
    var k := ValidPrefix(window, rest, cap);
    assert WindowBefore(window, rest, 0, cap) == window by {
      assert window + rest[..0] == window;
    }
    if rest != [] && PairSum(window, rest[0]) {
      var next := LastN(window + [rest[0]], cap);
      var k' := ValidPrefix(next, rest[1..], cap);
      ValidPrefixMeaning(next, rest[1..], cap);
      assert k == 1 + k';
      forall i | 0 <= i < k
        ensures PairSum(WindowBefore(window, rest, i, cap), rest[i])
      {
        if i > 0 {
          WindowBeforeShift(window, rest, i, cap);
          assert rest[1..][i - 1] == rest[i];
        }
      }
      if k < |rest| {
        WindowBeforeShift(window, rest, k, cap);
        assert rest[1..][k'] == rest[k];
      }
    }
  }

  lemma WindowBeforeStep(window: seq<int>, rest: seq<int>, i: nat, cap: nat)
    requires i < |rest|
    ensures LastN(WindowBefore(window, rest, i, cap) + [rest[i]], cap) == WindowBefore(window, rest, i + 1, cap)
  {
    LastNAppend(window + rest[..i], [rest[i]], cap);
    PrefixStep(window, rest, i);
  }

  lemma ValidPrefixStep(window: seq<int>, rest: seq<int>, i: nat, cap: nat)
    requires i < |rest|
    ensures PairSum(window, rest[i]) ==>
      ValidPrefix(window, rest[i..], cap) == 1 + ValidPrefix(LastN(window + [rest[i]], cap), rest[i + 1..], cap)
    ensures !PairSum(window, rest[i]) ==> ValidPrefix(window, rest[i..], cap) == 0
  {
    assert rest[i..][0] == rest[i];
    assert rest[i..][1..] == rest[i + 1..];
  }

  /** `consume`: pushes every item that is a pair sum of the buffer and stops
      at the first one that is not, returning it. */
  method Consume(state: CircularBuffer<int>, rest: seq<int>) returns (r: Option<int>)
    requires state.Valid() && (state.capacity > 0 || |rest| == 0)
    modifies state
    ensures state.Valid()
    ensures |rest| == 0 ==> r == None && state.buffer == old(state.buffer) && state.tail == old(state.tail)
    ensures state.capacity > 0 ==> r == FirstInvalid(old(state.Iter()), rest, state.capacity)
    ensures state.capacity > 0 ==>
      state.Iter() == WindowBefore(old(state.Iter()), rest, ValidPrefix(old(state.Iter()), rest, state.capacity), state.capacity)
  {
    if |rest| == 0 {
      return None;
    }
    ghost var start := state.Iter();
    ghost var cap := state.capacity;
    ghost var total := ValidPrefix(start, rest, cap);
    assert WindowBefore(start, rest, 0, cap) == start by {
      assert start + rest[..0] == start;
    }
    var i := 0;
    while i < |rest|
      invariant 0 <= i <= |rest|
      invariant state.Valid() && state.capacity == cap > 0
      invariant state.Iter() == WindowBefore(start, rest, i, cap)
      invariant total == i + ValidPrefix(state.Iter(), rest[i..], cap)
    {
      var item := rest[i];
      ValidPrefixStep(state.Iter(), rest, i, cap);
      if IsValid(state, item) {
        WindowBeforeStep(start, rest, i, cap);
        state.Push(item);
        i := i + 1;
      } else {
        assert total == i;
        return Some(item);
      }
    }
    assert rest[i..] == [];
    assert total == |rest|;
    return None;
  }

  /** Reading more items after the first invalid one does not change it:
      `consume` returns before it looks at them. */
  lemma {:induction false} FirstInvalidExtend(window: seq<int>, rest: seq<int>, more: seq<int>, cap: nat)
    requires FirstInvalid(window, rest, cap).Some?
    ensures ValidPrefix(window, rest + more, cap) == ValidPrefix(window, rest, cap)
    ensures FirstInvalid(window, rest + more, cap) == FirstInvalid(window, rest, cap)
    decreases |rest|
  {
    var all := rest + more;
    assert all[0] == rest[0];
    if PairSum(window, rest[0]) {
      assert all[1..] == rest[1..] + more;
      FirstInvalidExtend(LastN(window + [rest[0]], cap), rest[1..], more, cap);
    }
  }

  /** The length of the preamble of a text of `count` lines. */
  function PreambleLength(count: nat): (n: nat)
    ensures n <= count && n <= PREAMBLE_LENGTH
    ensures n == PREAMBLE_LENGTH || n == count
  {
    if count < PREAMBLE_LENGTH then count else PREAMBLE_LENGTH
  }

  /** The number of lines from line `i` on that parse as integers, up to the
      first that does not. */
  function ParsableRun(lines: seq<string>, i: nat): (k: nat)
    requires i <= |lines|
    ensures i + k <= |lines|
    decreases |lines| - i
  {
    if i == |lines| || !Parsable(lines[i]) then 0 else 1 + ParsableRun(lines, i + 1)
  }

  /** The run is as long as it can be: every line in it parses, and the line
      after it, if any, does not. */
  lemma {:induction false} ParsableRunMeaning(lines: seq<string>, i: nat)
    requires i <= |lines|
    ensures forall j :: i <= j < i + ParsableRun(lines, i) ==> Parsable(lines[j])
    ensures i + ParsableRun(lines, i) < |lines| ==> !Parsable(lines[i + ParsableRun(lines, i)])
    decreases |lines| - i
  {
    var k := ParsableRun(lines, i);
    if i < |lines| && Parsable(lines[i]) {
      ParsableRunMeaning(lines, i + 1);
      assert k == 1 + ParsableRun(lines, i + 1);
      forall j | i <= j < i + k
        ensures Parsable(lines[j])
      {
      }
    } else {
      assert k == 0;
    }
  }

  /** A line `parse::<i64>()` accepts. */
  predicate Parsable(line: string) {
    ParseSigned(line).Some?
  }

  /** The values `part1` can read: the preamble, which `collect` parses
      eagerly, then the lines after it up to the first that does not parse. */
  function ReadValues(lines: seq<string>): (r: seq<int>)
    requires forall i :: 0 <= i < PreambleLength(|lines|) ==> ParseSigned(lines[i]).Some?
    ensures |r| == PreambleLength(|lines|) + ParsableRun(lines, PreambleLength(|lines|))
    ensures forall i :: 0 <= i < |r| ==> ParseSigned(lines[i]) == Some(r[i])
  {
    var n := PreambleLength(|lines|);
    var m := n + ParsableRun(lines, n);
    ParsableRunMeaning(lines, n);
    ParseAllSigned(lines[..m])
  }

  /** `part1` does not panic: the preamble parses, and `consume` either
      returns on a value before the first line that does not parse or there
      is no such line. The lines after the value it returns are never parsed. */
  predicate Unwraps(lines: seq<string>, reserved: nat) {
    (forall i :: 0 <= i < PreambleLength(|lines|) ==> ParseSigned(lines[i]).Some?) &&
    var values := ReadValues(lines);
    var n := PreambleLength(|lines|);
    |values| == |lines| || FirstInvalid(values[..n], values[n..], reserved).Some?
  }

  /** `part1`: the first 25 lines are collected into a vector that fills the
      buffer, and the remaining lines are parsed one at a time as `consume`
      asks for them. `collect` gives that vector a capacity, `reserved`, of at
      least the values it holds; the buffer keeps the last `reserved` values,
      so the window is exactly the last 25 values only when the allocation is
      exact. When every line parses, the result is that over all the values. */
  method Part1(s: string, reserved: nat) returns (r: Option<int>)
    requires Unwraps(Lines(s), reserved)
    requires reserved >= PREAMBLE_LENGTH || reserved >= |Lines(s)|
    ensures var values := ReadValues(Lines(s));
      var n := PreambleLength(|Lines(s)|);
      r == FirstInvalid(values[..n], values[n..], reserved)
    ensures (forall i :: 0 <= i < |Lines(s)| ==> ParseSigned(Lines(s)[i]).Some?) ==>
      var values := ParseAllSigned(Lines(s));
      var n := PreambleLength(|values|);
      r == FirstInvalid(values[..n], values[n..], reserved)
  {
    var lines := Lines(s);
    var values := ReadValues(lines);
    var n := PreambleLength(|lines|);
    var buffer := new CircularBuffer<int>.FillWith(values[..n], reserved);
    r := Consume(buffer, values[n..]);
    if forall i :: 0 <= i < |lines| ==> ParseSigned(lines[i]).Some? {
      ParsableRunMeaning(lines, n);
      assert values == ParseAllSigned(lines);
    }
  }

  /** The buffer filled with 0, 1, 2 validates 3 (1 + 2) but not 5. */
  method IsValidExamples() returns (three: bool, five: bool)
    ensures three && !five
  {
    var buffer := new CircularBuffer<int>.FillWith([0, 1, 2], 3);
    three := IsValid(buffer, 3);
    five := IsValid(buffer, 5);
    SmallPairSums([0, 1, 2]);
  }

  lemma SmallPairSums(s: seq<int>)
    requires s == [0, 1, 2]
    ensures PairSum(s, 3) && !PairSum(s, 5)
  {
    assert s[1] + s[2] == 3;
    assert forall i :: 0 <= i < |s| ==> s[i] <= 2;
  }

  /** An item that is the sum of the values at positions `a` and `b` of a
      full window is accepted, and the window slides past it. */
  lemma SlidePast(window: seq<int>, rest: seq<int>, a: nat, b: nat)
    requires |window| > 0 && rest != []
    requires a < |window| && b < |window| && a != b && window[a] + window[b] == rest[0]
    ensures ValidPrefix(window, rest, |window|) == 1 + ValidPrefix(window[1..] + [rest[0]], rest[1..], |window|)
  {
    assert PairSum(window, rest[0]);
    assert LastN(window + [rest[0]], |window|) == window[1..] + [rest[0]];
  }

  lemma ExampleAccepts0()
    ensures ValidPrefix([35, 20, 15, 25, 47], [40, 62, 55, 65, 95, 102, 117, 150, 182, 127, 219, 299, 277, 309, 576], 5) == 1 + ValidPrefix([20, 15, 25, 47, 40], [62, 55, 65, 95, 102, 117, 150, 182, 127, 219, 299, 277, 309, 576], 5)
  {
    var w, rest := [35, 20, 15, 25, 47], [40, 62, 55, 65, 95, 102, 117, 150, 182, 127, 219, 299, 277, 309, 576];
    SlidePast(w, rest, 2, 3);
    assert w[1..] + [rest[0]] == [20, 15, 25, 47, 40];
    assert rest[1..] == [62, 55, 65, 95, 102, 117, 150, 182, 127, 219, 299, 277, 309, 576];
  }

  lemma ExampleAccepts1()
    ensures ValidPrefix([20, 15, 25, 47, 40], [62, 55, 65, 95, 102, 117, 150, 182, 127, 219, 299, 277, 309, 576], 5) == 1 + ValidPrefix([15, 25, 47, 40, 62], [55, 65, 95, 102, 117, 150, 182, 127, 219, 299, 277, 309, 576], 5)
  {
    var w, rest := [20, 15, 25, 47, 40], [62, 55, 65, 95, 102, 117, 150, 182, 127, 219, 299, 277, 309, 576];
    SlidePast(w, rest, 1, 3);
    assert w[1..] + [rest[0]] == [15, 25, 47, 40, 62];
    assert rest[1..] == [55, 65, 95, 102, 117, 150, 182, 127, 219, 299, 277, 309, 576];
  }

  lemma ExampleAccepts2()
    ensures ValidPrefix([15, 25, 47, 40, 62], [55, 65, 95, 102, 117, 150, 182, 127, 219, 299, 277, 309, 576], 5) == 1 + ValidPrefix([25, 47, 40, 62, 55], [65, 95, 102, 117, 150, 182, 127, 219, 299, 277, 309, 576], 5)
  {
    var w, rest := [15, 25, 47, 40, 62], [55, 65, 95, 102, 117, 150, 182, 127, 219, 299, 277, 309, 576];
    SlidePast(w, rest, 0, 3);
    assert w[1..] + [rest[0]] == [25, 47, 40, 62, 55];
    assert rest[1..] == [65, 95, 102, 117, 150, 182, 127, 219, 299, 277, 309, 576];
  }

  lemma ExampleAccepts3()
    ensures ValidPrefix([25, 47, 40, 62, 55], [65, 95, 102, 117, 150, 182, 127, 219, 299, 277, 309, 576], 5) == 1 + ValidPrefix([47, 40, 62, 55, 65], [95, 102, 117, 150, 182, 127, 219, 299, 277, 309, 576], 5)
  {
    var w, rest := [25, 47, 40, 62, 55], [65, 95, 102, 117, 150, 182, 127, 219, 299, 277, 309, 576];
    SlidePast(w, rest, 0, 2);
    assert w[1..] + [rest[0]] == [47, 40, 62, 55, 65];
    assert rest[1..] == [95, 102, 117, 150, 182, 127, 219, 299, 277, 309, 576];
  }

  lemma ExampleAccepts4()
    ensures ValidPrefix([47, 40, 62, 55, 65], [95, 102, 117, 150, 182, 127, 219, 299, 277, 309, 576], 5) == 1 + ValidPrefix([40, 62, 55, 65, 95], [102, 117, 150, 182, 127, 219, 299, 277, 309, 576], 5)
  {
    var w, rest := [47, 40, 62, 55, 65], [95, 102, 117, 150, 182, 127, 219, 299, 277, 309, 576];
    SlidePast(w, rest, 1, 3);
    assert w[1..] + [rest[0]] == [40, 62, 55, 65, 95];
    assert rest[1..] == [102, 117, 150, 182, 127, 219, 299, 277, 309, 576];
  }

  lemma ExampleAccepts5()
    ensures ValidPrefix([40, 62, 55, 65, 95], [102, 117, 150, 182, 127, 219, 299, 277, 309, 576], 5) == 1 + ValidPrefix([62, 55, 65, 95, 102], [117, 150, 182, 127, 219, 299, 277, 309, 576], 5)
  {
    var w, rest := [40, 62, 55, 65, 95], [102, 117, 150, 182, 127, 219, 299, 277, 309, 576];
    SlidePast(w, rest, 0, 1);
    assert w[1..] + [rest[0]] == [62, 55, 65, 95, 102];
    assert rest[1..] == [117, 150, 182, 127, 219, 299, 277, 309, 576];
  }

  lemma ExampleAccepts6()
    ensures ValidPrefix([62, 55, 65, 95, 102], [117, 150, 182, 127, 219, 299, 277, 309, 576], 5) == 1 + ValidPrefix([55, 65, 95, 102, 117], [150, 182, 127, 219, 299, 277, 309, 576], 5)
  {
    var w, rest := [62, 55, 65, 95, 102], [117, 150, 182, 127, 219, 299, 277, 309, 576];
    SlidePast(w, rest, 0, 1);
    assert w[1..] + [rest[0]] == [55, 65, 95, 102, 117];
    assert rest[1..] == [150, 182, 127, 219, 299, 277, 309, 576];
  }

  lemma ExampleAccepts7()
    ensures ValidPrefix([55, 65, 95, 102, 117], [150, 182, 127, 219, 299, 277, 309, 576], 5) == 1 + ValidPrefix([65, 95, 102, 117, 150], [182, 127, 219, 299, 277, 309, 576], 5)
  {
    var w, rest := [55, 65, 95, 102, 117], [150, 182, 127, 219, 299, 277, 309, 576];
    SlidePast(w, rest, 0, 2);
    assert w[1..] + [rest[0]] == [65, 95, 102, 117, 150];
    assert rest[1..] == [182, 127, 219, 299, 277, 309, 576];
  }

  lemma ExampleAccepts8()
    ensures ValidPrefix([65, 95, 102, 117, 150], [182, 127, 219, 299, 277, 309, 576], 5) == 1 + ValidPrefix([95, 102, 117, 150, 182], [127, 219, 299, 277, 309, 576], 5)
  {
    var w, rest := [65, 95, 102, 117, 150], [182, 127, 219, 299, 277, 309, 576];
    SlidePast(w, rest, 0, 3);
    assert w[1..] + [rest[0]] == [95, 102, 117, 150, 182];
    assert rest[1..] == [127, 219, 299, 277, 309, 576];
  }

  /** 127 is not a pair sum of its window: every value of the window is at least 95. */
  lemma ExampleRejects()
    ensures ValidPrefix([95, 102, 117, 150, 182], [127, 219, 299, 277, 309, 576], 5) == 0
  {
    var last := [95, 102, 117, 150, 182];
    assert !PairSum(last, 127) by {
      assert forall i :: 0 <= i < |last| ==> last[i] >= 95;
    }
  }

  /** The worked example with a five-value preamble: 127 is the first value
      that is not the sum of two of the five before it. */
  lemma ExampleFirstInvalid()
    ensures FirstInvalid([35, 20, 15, 25, 47], [40, 62, 55, 65, 95, 102, 117, 150, 182, 127, 219, 299, 277, 309, 576], 5) == Some(127)
  {
    ExampleAccepts0();
    ExampleAccepts1();
    ExampleAccepts2();
    ExampleAccepts3();
    ExampleAccepts4();
    ExampleAccepts5();
    ExampleAccepts6();
    ExampleAccepts7();
    ExampleAccepts8();
    ExampleRejects();
  }

  /** `validates_example`: consuming the candidates against the preamble
      stops at 127. */
  method ValidatesExample() returns (r: Option<int>)
    ensures r == Some(127)
  {
    var preamble := new CircularBuffer<int>.FillWith([35, 20, 15, 25, 47], 5);
    r := Consume(preamble, [40, 62, 55, 65, 95, 102, 117, 150, 182, 127, 219, 299, 277, 309, 576]);
    ExampleFirstInvalid();
  }
}
