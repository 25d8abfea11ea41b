/** `day10.rs`: the joltage adapter chain. The outlet (0) joins the adapters,
    the chain is sorted, the device (three above the largest) is appended, and
    the differences between neighbours are counted. */
module Day10 {
  import opened Results
  import opened Text

  /** Non-decreasing order. */
  predicate Sorted(s: seq<int>) {
    forall i, j :: 0 <= i < j < |s| ==> s[i] <= s[j]
  }

  /** `x` placed into a sorted list before the first larger-or-equal entry. */
  function Insert(x: int, s: seq<int>): (r: seq<int>)
    requires Sorted(s)
    ensures Sorted(r)
    ensures multiset(r) == multiset(s) + multiset{x}
    ensures |r| == |s| + 1
    ensures forall k :: 0 <= k < |r| ==> r[k] == x || r[k] in s
  {
    if |s| == 0 then [x]
    else if x <= s[0] then [x] + s
    else
      var rest := Insert(x, s[1..]);
      InsertBehind(s, x, rest);
      [s[0]] + rest
  }

  /** Putting the least entry of a sorted list in front of `x` inserted
      into the others gives `x` inserted into the whole list. */
  lemma InsertBehind(s: seq<int>, x: int, rest: seq<int>)
    requires Sorted(s) && |s| > 0 && s[0] < x
    requires Sorted(rest) && multiset(rest) == multiset(s[1..]) + multiset{x}
    requires forall k :: 0 <= k < |rest| ==> rest[k] == x || rest[k] in s[1..]
    ensures Sorted([s[0]] + rest)
    ensures multiset([s[0]] + rest) == multiset(s) + multiset{x}
    ensures forall k :: 0 <= k < |rest| + 1 ==> ([s[0]] + rest)[k] == x || ([s[0]] + rest)[k] in s
  {
    var tail := s[1..];
    assert s == [s[0]] + tail;
    forall k | 0 <= k < |rest|
      ensures s[0] <= rest[k]
    {
      if rest[k] != x {
        var j :| 0 <= j < |tail| && tail[j] == rest[k];
        assert s[j + 1] == rest[k];
      }
    }
  }

  /** `sort`: the entries in non-decreasing order (as an insertion sort). */
  function Sort(s: seq<int>): (r: seq<int>)
    ensures Sorted(r)
    ensures multiset(r) == multiset(s)
    ensures |r| == |s|
  {
    if |s| == 0 then []
    else
      assert s == s[..|s| - 1] + [s[|s| - 1]];
      Insert(s[|s| - 1], Sort(s[..|s| - 1]))
  }

  /** The first entry of a sorted list is its least. */
  lemma SortedFirst(a: seq<int>, x: int)
    requires Sorted(a) && x in multiset(a)
    ensures a[0] <= x
  {
    var j :| 0 <= j < |a| && a[j] == x;
  }

  /** Taking off the first entry keeps the list sorted and its other entries. */
  lemma SortedTail(a: seq<int>)
    requires Sorted(a) && |a| > 0
    ensures Sorted(a[1..])
    ensures multiset(a) == multiset{a[0]} + multiset(a[1..])
  {
    assert a == [a[0]] + a[1..];
  }

  /** Taking the same entry from two equal collections leaves equal ones. */
  lemma Cancel(x: int, a: multiset<int>, b: multiset<int>)
    requires multiset{x} + a == multiset{x} + b
    ensures a == b
  {
    forall y
      ensures a[y] == b[y]
    {
      assert (multiset{x} + a)[y] == (multiset{x} + b)[y];
    }
  }

  /** Lists with the same first entry and the same rest are equal. */
  lemma HeadTail(a: seq<int>, b: seq<int>)
    requires |a| > 0 && |b| > 0 && a[0] == b[0] && a[1..] == b[1..]
    ensures a == b
  {
    assert a == [a[0]] + a[1..] && b == [b[0]] + b[1..];
  }

  /** A sorted list is the only sorted arrangement of its entries. */
  lemma {:induction false} SortedUnique(a: seq<int>, b: seq<int>)
    requires Sorted(a) && Sorted(b) && multiset(a) == multiset(b)
    ensures a == b
    decreases |a|
  {
    assert |b| == |multiset(b)| == |multiset(a)| == |a|;
    if |a| > 0 {
      SortedFirst(a, b[0]);
      SortedFirst(b, a[0]);
      SortedTail(a);
      SortedTail(b);
      Cancel(a[0], multiset(a[1..]), multiset(b[1..]));
      SortedUnique(a[1..], b[1..]);
      HeadTail(a, b);
    }
  }

  /** Appending an entry no smaller than the last keeps a list sorted. */
  lemma SortedSnoc(s: seq<int>, x: int)
    requires Sorted(s) && |s| > 0 && s[|s| - 1] <= x
    ensures Sorted(s + [x])
  {
    var r := s + [x];
    forall i, j | 0 <= i < j < |r|
      ensures r[i] <= r[j]
    {
      if j == |s| {
        assert r[i] <= s[|s| - 1];
      }
    }
  }

  /** The outlet, the adapters in order, then the device. */
  function Chain(input: seq<int>): (r: seq<int>)
    ensures |r| == |input| + 2
    ensures Sorted(r)
    ensures multiset(r[..|r| - 1]) == multiset(input) + multiset{0}
    ensures r[|r| - 1] == r[|r| - 2] + 3
  {
    var sorted := Sort(input + [0]);
    assert multiset(input + [0]) == multiset(input) + multiset{0};
    var r := sorted + [sorted[|sorted| - 1] + 3];
    SortedSnoc(sorted, sorted[|sorted| - 1] + 3);
    assert r[..|r| - 1] == sorted;
    r
  }

  /** The last entry of a sorted list is its greatest. */
  lemma SortedLast(a: seq<int>, x: int)
    requires Sorted(a) && x in multiset(a)
    ensures x <= a[|a| - 1]
  {
    var j :| 0 <= j < |a| && a[j] == x;
  }

  /** The largest of the outlet and the adapters, three below the device. */
  lemma ChainLast(input: seq<int>)
    ensures var c := Chain(input);
      (c[|c| - 2] == 0 || c[|c| - 2] in input) &&
      0 <= c[|c| - 2] && forall k :: 0 <= k < |input| ==> input[k] <= c[|c| - 2]
  {
    var c := Chain(input);
    var s := c[..|c| - 1];
    var m := multiset(s);
    assert Sorted(s);
    assert s[|s| - 1] == c[|c| - 2];
    assert s[|s| - 1] in m;
    SortedLast(s, 0);
    forall k | 0 <= k < |input|
      ensures input[k] <= c[|c| - 2]
    {
      assert input[k] in m;
      SortedLast(s, input[k]);
    }
  }

  /** The differences between neighbours of a chain. */
  function Diffs(c: seq<int>): (r: seq<int>)
    requires |c| > 0
    ensures |r| == |c| - 1
    ensures forall k :: 0 <= k < |r| ==> c[k] + r[k] == c[k + 1]
  {
    seq(|c| - 1, k requires 0 <= k < |c| - 1 => c[k + 1] - c[k])
  }

  /** The sum of a list of integers. */
  function Total(s: seq<int>): int {
    if |s| == 0 then 0 else Total(s[..|s| - 1]) + s[|s| - 1]
  }

  /** The differences add up to the span of the chain. */
  lemma {:induction false} DiffsSpan(c: seq<int>)
    requires |c| > 0
    ensures Total(Diffs(c)) == c[|c| - 1] - c[0]
    decreases |c|
  {
    if |c| > 1 {
      var init := c[..|c| - 1];
      var d := Diffs(c);
      DiffsSpan(init);
      assert d[..|d| - 1] == Diffs(init);
      assert d[|d| - 1] == c[|c| - 1] - init[|init| - 1];
    }
  }

  /** No difference in a sorted chain is negative. */
  lemma DiffsSorted(c: seq<int>)
    requires |c| > 0 && Sorted(c)
    ensures forall k :: 0 <= k < |Diffs(c)| ==> Diffs(c)[k] >= 0
  {
    var d := Diffs(c);
    forall k | 0 <= k < |d|
      ensures d[k] >= 0
    {
      assert c[k] <= c[k + 1];
    }
  }

  /** The count of every difference, as the loop's `HashMap` holds it. */
  function Tally(s: seq<int>): (r: map<int, nat>)
    ensures forall d :: d in r <==> d in s
    ensures forall d :: d in r ==> r[d] == multiset(s)[d]
  {
    if |s| == 0 then map[]
    else
      var init := s[..|s| - 1];
      var d := s[|s| - 1];
      assert s == init + [d];
      var m := Tally(init);
      m[d := if d in m then m[d] + 1 else 1]
  }

  /** Counting one more difference adds one to its count. */
  lemma TallySnoc(s: seq<int>, d: int)
    ensures Tally(s + [d]) == Tally(s)[d := if d in Tally(s) then Tally(s)[d] + 1 else 1]
  {
    assert (s + [d])[..|s|] == s;
  }

  /** The counting loop of `get_chain`: the count of every difference
      between neighbours. */
  method CountDiffs(chain: seq<int>) returns (dict: map<int, nat>)
    requires |chain| > 0
    ensures dict == Tally(Diffs(chain))
  {
    var diffs := Diffs(chain);
    dict := map[];
    var i := 0;
    while i < |chain| - 1
      invariant 0 <= i <= |chain| - 1
      invariant dict == Tally(diffs[..i])
    {
      var diff := chain[i + 1] - chain[i];
      assert diff == diffs[i];
      assert diffs[..i + 1] == diffs[..i] + [diff];
      TallySnoc(diffs[..i], diff);
      if diff in dict {
        dict := dict[diff := dict[diff] + 1];
      } else {
        dict := dict[diff := 1];
      }
      i := i + 1;
    }
    assert diffs[..i] == diffs;
  }

  /** `get_chain`: the number of differences of 1 and of 3 in the chain; the
      lookup of 1 panics (`Err`) when no difference of 1 occurs. */
  method GetChain(input: seq<int>) returns (r: Result<(nat, nat)>)
    ensures r.Ok? <==> 1 in Diffs(Chain(input))
    ensures r.Ok? ==> r.value == (multiset(Diffs(Chain(input)))[1], multiset(Diffs(Chain(input)))[3])
  {
    var chain := Chain(input);
    var dict := CountDiffs(chain);
    ThreeCounted(input);
    if 1 !in dict {
      return Err;
    }
    r := Ok((dict[1], dict[3]));
  }

  /** `part1`: the lines parsed as adapters, then the product of the numbers
      of differences of 1 and of 3; every line must parse (`unwrap`), and the
      product fails when `get_chain` does. */
  method Part1(s: string) returns (r: Result<int>)
    requires forall i :: 0 <= i < |Lines(s)| ==> ParseSigned(Lines(s)[i]).Some?
    ensures var d := Diffs(Chain(ParseAllSigned(Lines(s))));
      (r.Ok? <==> 1 in d) && (r.Ok? ==> r.value == (multiset(d)[1] as int) * (multiset(d)[3] as int))
  {
    var input := ParseAllSigned(Lines(s));
    var counts := GetChain(input);
    if counts.Err? {
      return Err;
    }
    var (one, three) := counts.value;
    r := Ok((one as int) * (three as int));
  }

  /** The last difference, to the device, is 3, so the lookup of 3 never
      fails; there is one difference per adapter plus one. */
  lemma ThreeCounted(input: seq<int>)
    ensures 3 in Diffs(Chain(input))
    ensures |multiset(Diffs(Chain(input)))| == |input| + 1
  {
    var c := Chain(input);
    var d := Diffs(c);
    assert d[|d| - 1] == 3;
  }

  /** The adapters of the puzzle's first example. */
  function ExampleInput(): seq<int> {
    [16, 10, 15, 5, 1, 11, 7, 19, 6, 12, 4]
  }

  /** No entry occurs twice. */
  predicate Distinct(s: seq<int>) {
    forall i, j :: 0 <= i < j < |s| ==> s[i] != s[j]
  }

  /** In a list without repeats, an entry is counted once. */
  lemma {:induction false} DistinctCount(s: seq<int>, x: int)
    requires Distinct(s)
    ensures multiset(s)[x] == if x in s then 1 else 0
    decreases |s|
  {
    if |s| > 0 {
      var rest := s[1..];
      assert s == [s[0]] + rest;
      assert Distinct(rest);
      DistinctCount(rest, x);
      assert s[0] !in rest;
    }
  }

  /** Two lists without repeats holding the same entries are arrangements of
      each other. */
  lemma SameEntries(a: seq<int>, b: seq<int>)
    requires Distinct(a) && Distinct(b)
    requires forall k :: 0 <= k < |a| ==> a[k] in b
    requires forall k :: 0 <= k < |b| ==> b[k] in a
    ensures multiset(a) == multiset(b)
  {
    forall x
      ensures multiset(a)[x] == multiset(b)[x]
    {
      DistinctCount(a, x);
      DistinctCount(b, x);
    }
  }

  /** A list each of whose entries is at most the next is sorted. */
  lemma {:induction false} SortedSteps(s: seq<int>)
    requires forall k :: 0 <= k < |s| - 1 ==> s[k] <= s[k + 1]
    ensures Sorted(s)
    decreases |s|
  {
    if |s| > 1 {
      var init := s[..|s| - 1];
      SortedSteps(init);
      forall i, j | 0 <= i < j < |s|
        ensures s[i] <= s[j]
      {
        if j == |s| - 1 && i < j - 1 {
          assert init[i] <= init[j - 1];
        } else if j < |s| - 1 {
          assert init[i] <= init[j];
        }
      }
    }
  }

  /** The first example's entries and the outlet, in order. */
  lemma ExampleSorted(input: seq<int>, t: seq<int>)
    requires input == ExampleInput()
    requires t == [0, 1, 4, 5, 6, 7, 10, 11, 12, 15, 16, 19]
    ensures Sorted(t) && multiset(t) == multiset(input) + multiset{0}
  {
    var u := input + [0];
    assert u == [16, 10, 15, 5, 1, 11, 7, 19, 6, 12, 4, 0];
    SortedSteps(t);
    SameEntries(t, u);
  }

  /** The chain of any adapters is their one sorted arrangement with the
      outlet, then the device. */
  lemma ChainOf(input: seq<int>, t: seq<int>)
    requires Sorted(t) && multiset(t) == multiset(input) + multiset{0}
    ensures |t| > 0 && Chain(input) == t + [t[|t| - 1] + 3]
  {
    var r := Chain(input);
    var s := r[..|r| - 1];
    assert Sorted(s);
    SortedUnique(s, t);
    assert r == s + [r[|r| - 1]];
  }

  /** The first example's chain: the outlet, the adapters in order, and the
      device at 22. */
  lemma ExampleChain(input: seq<int>, t: seq<int>)
    requires input == ExampleInput()
    requires t == [0, 1, 4, 5, 6, 7, 10, 11, 12, 15, 16, 19]
    ensures Chain(input) == t + [22]
  {
    ExampleSorted(input, t);
    ChainOf(input, t);
  }

  /** Counting in two pieces. */
  lemma CountSplit(d: seq<int>, a: seq<int>, b: seq<int>, x: int)
    requires d == a + b
    ensures multiset(d)[x] == multiset(a)[x] + multiset(b)[x]
  {
  }

  lemma ExampleFirstSix(a: seq<int>)
    requires a == [1, 3, 1, 1, 1, 3]
    ensures multiset(a)[1] == 4 && multiset(a)[3] == 2
  {
  }

  lemma ExampleLastSix(b: seq<int>)
    requires b == [1, 1, 3, 1, 3, 3]
    ensures multiset(b)[1] == 3 && multiset(b)[3] == 3
  {
  }

  /** The first example's chain has seven differences of 1 and five of 3. */
  lemma ExampleDiffs(t: seq<int>)
    requires t == [0, 1, 4, 5, 6, 7, 10, 11, 12, 15, 16, 19]
    ensures 1 in Diffs(t + [22])
    ensures multiset(Diffs(t + [22]))[1] == 7 && multiset(Diffs(t + [22]))[3] == 5
  {
    var d := Diffs(t + [22]);
    assert d[0] == 1;
    var a, b := d[..6], d[6..];
    assert a == [1, 3, 1, 1, 1, 3];
    assert b == [1, 1, 3, 1, 3, 3];
    ExampleFirstSix(a);
    ExampleLastSix(b);
    assert d == a + b;
    CountSplit(d, a, b, 1);
    CountSplit(d, a, b, 3);
  }

  /** The first example gives (7, 5). */
  method ExampleGetChain() returns (r: Result<(nat, nat)>)
    ensures r == Ok((7, 5))
  {
    var input := ExampleInput();
    var t := [0, 1, 4, 5, 6, 7, 10, 11, 12, 15, 16, 19];
    ExampleChain(input, t);
    ExampleDiffs(t);
    r := GetChain(input);
  }
}
