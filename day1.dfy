/** `day1.rs`: the expense report. The report lists one signed number per
    line; the solvers look for two (or three) entries that sum to a target
    and multiply them. */
module Day1 {
  import opened Results
  import opened Text

  /** Every line parsed as an `i32`; an error when any line does not parse
      (`collect` into a `Result<Vec<_>, _>`). */
  function ParseNumbers(s: string): (r: Result<seq<int>>)
    ensures r.Ok? <==> forall k :: 0 <= k < |Lines(s)| ==> ParseSigned(Lines(s)[k]).Some?
    ensures r.Ok? ==> |r.value| == |Lines(s)|
    ensures r.Ok? ==> forall k :: 0 <= k < |r.value| ==> Some(r.value[k]) == ParseSigned(Lines(s)[k])
  {
    var lines := Lines(s);
    if forall k :: 0 <= k < |lines| ==> ParseSigned(lines[k]).Some? then Ok(ParseAllSigned(lines)) else Err
  }

  /** Entries `i <= j` (possibly the same entry) summing to the target. */
  ghost predicate PairAt(v: seq<int>, sum: int, i: nat, j: nat) {
    i <= j < |v| && v[i] + v[j] == sum
  }

  ghost predicate HasPair(v: seq<int>, sum: int) {
    exists i: nat, j: nat :: PairAt(v, sum, i, j)
  }

  /** The pair the nested search meets first: the smallest `i`, then the
      smallest `j`. */
  ghost predicate IsFirstPair(v: seq<int>, sum: int, i: nat, j: nat) {
    PairAt(v, sum, i, j) &&
    forall p: nat, q: nat :: PairAt(v, sum, p, q) ==> i < p || (i == p && j <= q)
  }

  /** `r` holds the values of the first pair. */
  ghost predicate PairResult(v: seq<int>, sum: int, r: seq<int>) {
    exists i: nat, j: nat :: IsFirstPair(v, sum, i, j) && r == [v[i], v[j]]
  }

  /** The nested search of `find_pair` over the parsed entries. */
  method SearchPair(v: seq<int>, sum: int) returns (r: Option<seq<int>>)
    ensures r.Some? ==> PairResult(v, sum, r.value)
    ensures r.None? <==> !HasPair(v, sum)
  {
    var i := 0;
    while i < |v|
      invariant 0 <= i <= |v|
      invariant forall p: nat, q: nat :: p < i ==> !PairAt(v, sum, p, q)
    {
      var j := i;
      while j < |v|
        invariant i <= j <= |v|
        invariant forall q: nat :: q < j ==> !PairAt(v, sum, i, q)
      {
        if v[j] + v[i] == sum {
          assert IsFirstPair(v, sum, i, j);
          return Some([v[i], v[j]]);
        }
        j := j + 1;
      }
      i := i + 1;
    }
    return None;
  }

  /** `find_pair`: the first two entries, in order, that sum to `sum`; an
      error when a line does not parse, when there are fewer than two
      entries, or when no pair sums to `sum`. */
  method FindPair(s: string, sum: int) returns (r: Result<seq<int>>)
    ensures r.Ok? ==> ParseNumbers(s).Ok? && PairResult(ParseNumbers(s).value, sum, r.value)
    ensures r.Err? <==>
              ParseNumbers(s).Err? || |ParseNumbers(s).value| < 2 || !HasPair(ParseNumbers(s).value, sum)
  {
    var parsed := ParseNumbers(s);
    if parsed.Err? {
      return Err;
    }
    var v := parsed.value;
    if |v| < 2 {
      return Err;
    }
    var found := SearchPair(v, sum);
    if found.None? {
      return Err;
    }
    return Ok(found.value);
  }

  /** The pair sums to the target. */
  lemma PairSums(v: seq<int>, sum: int, r: seq<int>)
    requires PairResult(v, sum, r)
    ensures |r| == 2 && r[0] + r[1] == sum
  {
  }

  /** No pair sums to the target: then no two entries, in either order,
      do. */
  lemma NoPairAtAll(v: seq<int>, sum: int)
    requires !HasPair(v, sum)
    ensures forall p, q :: 0 <= p < |v| && 0 <= q < |v| ==> v[p] + v[q] != sum
  {
    forall p, q | 0 <= p < |v| && 0 <= q < |v|
      ensures v[p] + v[q] != sum
    {
      if p <= q {
        assert !PairAt(v, sum, p, q);
      } else {
        assert !PairAt(v, sum, q, p);
      }
    }
  }

  /** Entries `a`, `a + j` and `c`, with `c >= j`: the triples the nested
      search of `find_triplet` visits. The innermost loop runs over
      `vec[n_idx..]`, where `n_idx` counts from the middle entry's own
      slice `vec[m_idx..]`, so `c` starts at `j` and not at `a + j`. */
  ghost predicate TripleAt(v: seq<int>, sum: int, a: nat, j: nat, c: nat) {
    a + j < |v| && j <= c < |v| && v[a] + v[a + j] + v[c] == sum
  }

  ghost predicate HasTriple(v: seq<int>, sum: int) {
    exists a: nat, j: nat, c: nat :: TripleAt(v, sum, a, j, c)
  }

  /** The triple the nested search meets first. */
  ghost predicate IsFirstTriple(v: seq<int>, sum: int, a: nat, j: nat, c: nat) {
    TripleAt(v, sum, a, j, c) &&
    forall a': nat, j': nat, c': nat :: TripleAt(v, sum, a', j', c') ==>
      a < a' || (a == a' && (j < j' || (j == j' && c <= c')))
  }

  /** `r` holds the first triple's values, middle entry first, as
      `vec![*n, *m, *o]`. */
  ghost predicate TripleResult(v: seq<int>, sum: int, r: seq<int>) {
    exists a: nat, j: nat, c: nat :: IsFirstTriple(v, sum, a, j, c) && r == [v[a + j], v[a], v[c]]
  }

  /** The nested search of `find_triplet` over the parsed entries. */
  method SearchTriple(v: seq<int>, sum: int) returns (r: Option<seq<int>>)
    ensures r.Some? ==> TripleResult(v, sum, r.value)
    ensures r.None? <==> !HasTriple(v, sum)
  {
    var a := 0;
    while a < |v|
      invariant 0 <= a <= |v|
      invariant forall a': nat, j': nat, c': nat :: a' < a ==> !TripleAt(v, sum, a', j', c')
    {
      var j := 0;
      while a + j < |v|
        invariant a + j <= |v|
        invariant forall j': nat, c': nat :: j' < j ==> !TripleAt(v, sum, a, j', c')
      {
        var c := j;
        while c < |v|
          invariant j <= c <= |v|
          invariant forall c': nat :: c' < c ==> !TripleAt(v, sum, a, j, c')
        {
          if v[a] + v[a + j] + v[c] == sum {
            assert IsFirstTriple(v, sum, a, j, c);
            return Some([v[a + j], v[a], v[c]]);
          }
          c := c + 1;
        }
        j := j + 1;
      }
      a := a + 1;
    }
    return None;
  }

  /** `find_triplet`: the first triple the nested search meets that sums to
      `sum`; an error when a line does not parse, when there are fewer than
      three entries, or when no triple is found. */
  method FindTriplet(s: string, sum: int) returns (r: Result<seq<int>>)
    ensures r.Ok? ==> ParseNumbers(s).Ok? && TripleResult(ParseNumbers(s).value, sum, r.value)
    ensures r.Err? <==>
              ParseNumbers(s).Err? || |ParseNumbers(s).value| < 3 || !HasTriple(ParseNumbers(s).value, sum)
  {
    var parsed := ParseNumbers(s);
    if parsed.Err? {
      return Err;
    }
    var v := parsed.value;
    if |v| < 3 {
      return Err;
    }
    var found := SearchTriple(v, sum);
    if found.None? {
      return Err;
    }
    return Ok(found.value);
  }

  /** The triple consists of entries of the report and sums to the target. */
  lemma TripleSums(v: seq<int>, sum: int, r: seq<int>)
    requires TripleResult(v, sum, r)
    ensures |r| == 3 && r[0] + r[1] + r[2] == sum
    ensures r[0] in v && r[1] in v && r[2] in v
  {
  }

  /** Every ordered triple `p <= q <= r` is among those searched; so when
      the search finds nothing, no three entries sum to the target, in any
      order. */
  lemma NoTripleAtAll(v: seq<int>, sum: int)
    requires !HasTriple(v, sum)
    ensures forall p, q, r :: 0 <= p < |v| && 0 <= q < |v| && 0 <= r < |v| ==> v[p] + v[q] + v[r] != sum
  {
    forall p, q, r | 0 <= p < |v| && 0 <= q < |v| && 0 <= r < |v|
      ensures v[p] + v[q] + v[r] != sum
    {
      if p <= q <= r {
        assert !TripleAt(v, sum, p, q - p, r);
      } else if p <= r <= q {
        assert !TripleAt(v, sum, p, r - p, q);
      } else if q <= p <= r {
        assert !TripleAt(v, sum, q, p - q, r);
      } else if q <= r <= p {
        assert !TripleAt(v, sum, q, r - q, p);
      } else if r <= p <= q {
        assert !TripleAt(v, sum, r, p - r, q);
      } else {
        assert !TripleAt(v, sum, r, q - r, p);
      }
    }
  }

  /** The product of the values, folded from 1. */
  function Product(xs: seq<int>): int {
    if |xs| == 0 then 1 else Product(xs[..|xs| - 1]) * xs[|xs| - 1]
  }

  /** Products multiply over concatenation. */
  lemma {:induction false} ProductAppend(a: seq<int>, b: seq<int>)
    ensures Product(a + b) == Product(a) * Product(b)
    decreases |b|
  {
    if |b| == 0 {
      assert a + b == a;
    } else {
      ProductAppend(a, b[..|b| - 1]);
      assert (a + b)[..|a + b| - 1] == a + b[..|b| - 1];
    }
  }

  /** `compute`: the product of the values the search found, or its error. */
  function Compute(found: Result<seq<int>>): (r: Result<int>)
    ensures r.Ok? <==> found.Ok?
  {
    match found
    case Err => Err
    case Ok(values) => Ok(Product(values))
  }

  /** The product of a pair and of a triple. */
  lemma ProductSmall(a: int, b: int, c: int)
    ensures Product([a, b]) == a * b
    ensures Product([a, b, c]) == a * b * c
  {
    assert [a][..0] == [] && Product([a]) == a;
    assert [a, b][..1] == [a] && Product([a, b]) == a * b;
    assert [a, b, c][..2] == [a, b];
  }

  /** Entries written one per line, as the report lists them. */
  function ShowNumbers(v: seq<int>): string {
    Join(ShowInts(v), "\n")
  }

  /** Writing the entries and parsing the report gives them back. */
  lemma ParseShowNumbers(v: seq<int>)
    requires |v| >= 1
    ensures ParseNumbers(ShowNumbers(v)) == Ok(v)
  {
    var pieces := ShowInts(v);
    forall k | 0 <= k < |v|
      ensures pieces[k] != "" && '\n' !in pieces[k] && pieces[k][|pieces[k]| - 1] != '\r'
      ensures ParseSigned(pieces[k]) == Some(v[k])
    {
      ShowIntChars(v[k], '\n');
      ParseShowInt(v[k]);
    }
    LinesJoin(pieces);
    var s := ShowNumbers(v);
    assert Lines(s) == pieces;
    var r := ParseNumbers(s);
    assert r.Ok?;
    assert |r.value| == |v|;
    assert forall k :: 0 <= k < |v| ==> r.value[k] == v[k];
    assert r.value == v;
  }

  /** A report of two lines. */
  lemma LinesTwo(a: string, b: string)
    requires '\n' !in a && b != "" && '\n' !in b
    ensures Lines(a + "\n" + b) == [StripCarriageReturn(a), b]
  {
    LinesCons(a, b);
    LinesOne(b);
  }

  /** Two lines that are numbers parse to those two numbers. */
  lemma ParseTwoLines(a: string, b: string, x: int, y: int)
    requires '\n' !in a && b != "" && '\n' !in b
    requires ParseSigned(StripCarriageReturn(a)) == Some(x) && ParseSigned(b) == Some(y)
    ensures ParseNumbers(a + "\n" + b) == Ok([x, y])
  {
    var s := a + "\n" + b;
    LinesTwo(a, b);
    var lines := Lines(s);
    assert |lines| == 2 && lines[0] == StripCarriageReturn(a) && lines[1] == b;
    assert ParseSigned(lines[0]) == Some(x) && ParseSigned(lines[1]) == Some(y);
    var r := ParseNumbers(s);
    assert r.Ok?;
    assert |r.value| == 2 && Some(r.value[0]) == ParseSigned(lines[0]) && Some(r.value[1]) == ParseSigned(lines[1]);
    assert r.value == [x, y];
  }

  /** `"1\r\n2"`: two entries, the carriage return dropped with the line end. */
  lemma ParseCarriageReturn(s: string, a: string, b: string)
    requires a == "1\r" && b == "2" && s == a + "\n" + b
    ensures ParseNumbers(s) == Ok([1, 2])
  {
    assert StripCarriageReturn(a) == "1";
    assert ParseSigned("1") == Some(1) && ParseSigned("2") == Some(2);
    ParseTwoLines(a, b, 1, 2);
  }

  /** With the target 3, `"1\r\n2"` gives the pair 1, 2. */
  method PairOfTwo() returns (r: Result<seq<int>>)
    ensures r == Ok([1, 2])
  {
    var a, b := "1\r", "2";
    var s := a + "\n" + b;
    ParseCarriageReturn(s, a, b);
    r := FindPair(s, 3);
    var v := [1, 2];
    assert PairAt(v, 3, 0, 1);
    assert forall i: nat, j: nat :: IsFirstPair(v, 3, i, j) ==> i == 0 && j == 1;
  }

  /** An empty report has too few entries. */
  method PairOfNone() returns (r: Result<seq<int>>)
    ensures r.Err?
  {
    r := FindPair("", 2020);
  }

  /** `"asdf\r\nasdf"` does not parse. */
  lemma ParseWords(s: string, a: string, b: string)
    requires a == "asdf\r" && b == "asdf" && s == a + "\n" + b
    ensures ParseNumbers(s).Err?
  {
    LinesTwo(a, b);
    var lines := Lines(s);
    assert lines[1] == b;
    assert ParseSigned(b).None?;
  }

  /** A line that is not a number is an error. */
  method PairOfWords() returns (r: Result<seq<int>>)
    ensures r.Err?
  {
    var a := "asdf\r";
    var s := a + "\n" + "asdf";
    ParseWords(s, a, "asdf");
    r := FindPair(s, 2020);
  }

  /** The puzzle's report. */
  function ExampleValues(): seq<int> {
    [1721, 979, 366, 299, 675, 1456]
  }

  /** In the example, 1721 and 299 are the first pair summing to 2020. */
  lemma ExampleFirstPair(v: seq<int>, r: seq<int>)
    requires v == ExampleValues() && PairResult(v, 2020, r)
    ensures r == [1721, 299]
  {
    var i: nat, j: nat :| IsFirstPair(v, 2020, i, j) && r == [v[i], v[j]];
    assert PairAt(v, 2020, 0, 3);
    assert i == 0 && j == 3;
  }

  /** In the example, 979, 366 and 675 are the first triple the search meets. */
  lemma ExampleFirstTriple(v: seq<int>, r: seq<int>)
    requires v == ExampleValues() && TripleResult(v, 2020, r)
    ensures r == [366, 979, 675]
    ensures multiset(r) == multiset{366, 675, 979}
  {
    var a: nat, j: nat, c: nat :| IsFirstTriple(v, 2020, a, j, c) && r == [v[a + j], v[a], v[c]];
    assert TripleAt(v, 2020, 1, 1, 4);
    assert forall k :: 0 <= k < |v| ==> v[k] >= 299;
    assert a == 1 && j == 1 && c == 4;
  }

  /** The example gives the pair 1721, 299, whose product is 514579. */
  method ExamplePair() returns (r: Result<seq<int>>, product: Result<int>)
    ensures r == Ok([1721, 299])
    ensures product == Ok(514579)
  {
    var v := ExampleValues();
    ParseShowNumbers(v);
    assert PairAt(v, 2020, 0, 3);
    r := FindPair(ShowNumbers(v), 2020);
    ExampleFirstPair(v, r.value);
    product := Compute(r);
    ProductSmall(1721, 299, 1);
  }

  /** The example holds a triple summing to 2020. */
  lemma ExampleHasTriple(v: seq<int>)
    requires v == ExampleValues()
    ensures |v| >= 3 && HasTriple(v, 2020)
  {
    assert TripleAt(v, 2020, 1, 1, 4);
  }

  /** The example gives the triple 979, 366, 675: sorted, 366, 675, 979. */
  method ExampleTriple() returns (r: Result<seq<int>>)
    ensures r == Ok([366, 979, 675])
    ensures multiset(r.value) == multiset{366, 675, 979}
  {
    var v := ExampleValues();
    ParseShowNumbers(v);
    ExampleHasTriple(v);
    r := FindTriplet(ShowNumbers(v), 2020);
    ExampleFirstTriple(v, r.value);
  }
}
