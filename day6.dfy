/** `day6.rs`: customs declaration forms. The answers of a group are the
    lowercase letters its members wrote, groups separated by a blank line;
    a group's count is the number of distinct letters. */
module Day6 {
  import opened Results
  import opened Text
  import opened Integers

  /** `u8::is_ascii_whitespace`: space, tab, line feed, form feed and
      carriage return (not vertical tab). */
  predicate IsAsciiWhitespace(c: char) {
    c == ' ' || c == '\t' || c == '\n' || c as int == 12 || c == '\r'
  }

  /** `u8::is_ascii_lowercase`. */
  predicate IsAsciiLowercase(c: char) {
    'a' <= c <= 'z'
  }

  /** A byte the form may hold: whitespace is skipped, a letter is an answer. */
  predicate Allowed(c: char) {
    IsAsciiWhitespace(c) || IsAsciiLowercase(c)
  }

  /** The set of letters answered in a group, or an error at a byte that is
      neither whitespace nor a lowercase letter (`collect` into a
      `Result<HashSet<_>, _>`). */
  function Answers(t: string): (r: Result<set<char>>)
    ensures r.Ok? <==> forall k :: 0 <= k < |t| ==> Allowed(t[k])
    decreases |t|
  {
    if |t| == 0 then Ok({})
    else
      var rest := Answers(t[1..]);
      assert forall k :: 1 <= k < |t| ==> t[k] == t[1..][k - 1];
      if IsAsciiWhitespace(t[0]) then rest
      else if IsAsciiLowercase(t[0]) then (if rest.Ok? then Ok({t[0]} + rest.value) else Err)
      else Err
  }

  /** The answered letters are exactly the lowercase letters of the group. */
  lemma {:induction false} AnswersMeaning(t: string)
    requires Answers(t).Ok?
    ensures forall c :: c in Answers(t).value <==> IsAsciiLowercase(c) && c in t
    decreases |t|
  {
    if |t| > 0 {
      AnswersMeaning(t[1..]);
      assert t == [t[0]] + t[1..];
    }
  }

  /** A set of characters drawn from `n` consecutive code points starting
      at 'a' has at most `n` members. */
  lemma {:induction false} CharsBelow(s: set<char>, n: nat)
    requires forall c :: c in s ==> 'a' as int <= c as int < 'a' as int + n
    ensures |s| <= n
    decreases n
  {
    if n == 0 {
      assert s == {};
    } else {
      var low := set c | c in s && c as int < 'a' as int + n - 1;
      var high := s - low;
      CharsBelow(low, n - 1);
      if high != {} {
        var x :| x in high;
        assert high == {x};
      }
      assert s == low + high;
    }
  }

  /** `to_groups`, one group: the number of distinct letters, at most 26. */
  function Group(t: string): (r: Result<nat>)
    ensures r.Ok? <==> forall k :: 0 <= k < |t| ==> Allowed(t[k])
    ensures r.Ok? ==> r.value <= 26
  {
    match Answers(t)
    case Err => Err
    case Ok(letters) =>
      AnswersMeaning(t);
      CharsBelow(letters, 26);
      Ok(|letters|)
  }

  /** The count of a group is the number of distinct lowercase letters in it. */
  lemma GroupMeaning(t: string)
    requires forall k :: 0 <= k < |t| ==> Allowed(t[k])
    ensures Group(t) == Ok(|set c | c in t && IsAsciiLowercase(c)|)
  {
    AnswersMeaning(t);
    assert Answers(t).value == set c | c in t && IsAsciiLowercase(c);
  }

  /** `to_groups`: the text split at blank lines, one count per group. */
  function ToGroups(s: string): (r: seq<Result<nat>>)
    ensures |r| == |Split(s, "\n\n")|
    ensures forall k {:trigger r[k]} :: 0 <= k < |r| ==> r[k] == Group(Split(s, "\n\n")[k])
  {
    var groups := Split(s, "\n\n");
    seq(|groups|, k requires 0 <= k < |groups| => Group(groups[k]))
  }

  /** `part1` demands every group be well formed; otherwise `unwrap` panics. */
  predicate Part1Defined(s: string) {
    AllOk(Group, Split(s, "\n\n"))
  }

  /** `part1`: the sum of the group counts. */
  function Part1(s: string): nat
    requires Part1Defined(s)
  {
    Sum(CollectOk(Group, Split(s, "\n\n")))
  }

  /** No group counts more than 26, so the sum is at most 26 per group. */
  lemma {:induction false} SumBounded(xs: seq<nat>, bound: nat)
    requires forall k :: 0 <= k < |xs| ==> xs[k] <= bound
    ensures Sum(xs) <= bound * |xs|
    decreases |xs|
  {
    if |xs| > 0 {
      SumBounded(xs[..|xs| - 1], bound);
    }
  }

  lemma Part1Bounded(s: string)
    requires Part1Defined(s)
    ensures Part1(s) <= 26 * |ToGroups(s)|
  {
    SumBounded(CollectOk(Group, Split(s, "\n\n")), 26);
  }

  /** The puzzle's five groups. */
  function ExampleGroups(): seq<string> {
    ["abc", "a\nb\nc", "ab\nac", "a\na\na\na", "b"]
  }

  lemma ExampleSplits(groups: seq<string>)
    requires groups == ExampleGroups()
    ensures Split(Join(groups, "\n\n"), "\n\n") == groups
  {
    assert forall k :: 0 <= k < |groups| ==> NoBlankLine(groups[k]);
    SplitJoinGroups(groups);
  }

  /** The answers of a group that starts with a letter or with whitespace. */
  lemma AnswersCons(c: char, t: string)
    requires Answers(t).Ok?
    ensures IsAsciiLowercase(c) ==> Answers([c] + t) == Ok({c} + Answers(t).value)
    ensures IsAsciiWhitespace(c) ==> Answers([c] + t) == Answers(t)
  {
    assert ([c] + t)[1..] == t;
  }

  lemma CountABC(g: string)
    requires g == "abc"
    ensures Group(g) == Ok(3)
  {
    var a, b, c := 'a', 'b', 'c';
    AnswersCons(c, []);
    AnswersCons(b, [c]);
    AnswersCons(a, [b, c]);
    assert [a, b, c] == g;
    assert |{a} + ({b} + ({c} + {}))| == 3;
  }

  lemma CountColumn(g: string)
    requires g == "a\nb\nc"
    ensures Group(g) == Ok(3)
  {
    var a, b, c, n := 'a', 'b', 'c', '\n';
    AnswersCons(c, []);
    AnswersCons(n, [c]);
    AnswersCons(b, [n, c]);
    AnswersCons(n, [b, n, c]);
    AnswersCons(a, [n, b, n, c]);
    assert [a, n, b, n, c] == g;
    assert |{a} + ({b} + ({c} + {}))| == 3;
  }

  lemma CountTwoLines(g: string)
    requires g == "ab\nac"
    ensures Group(g) == Ok(3)
  {
    var a, b, c, n := 'a', 'b', 'c', '\n';
    AnswersCons(c, []);
    AnswersCons(a, [c]);
    AnswersCons(n, [a, c]);
    AnswersCons(b, [n, a, c]);
    AnswersCons(a, [b, n, a, c]);
    assert [a, b, n, a, c] == g;
    assert {a} + ({b} + ({a} + ({c} + {}))) == {a, b, c};
    assert |{a, b, c}| == 3;
  }

  lemma CountRepeated(g: string)
    requires g == "a\na\na\na"
    ensures Group(g) == Ok(1)
  {
    var a, n := 'a', '\n';
    AnswersCons(a, []);
    AnswersCons(n, [a]);
    AnswersCons(a, [n, a]);
    AnswersCons(n, [a, n, a]);
    AnswersCons(a, [n, a, n, a]);
    AnswersCons(n, [a, n, a, n, a]);
    AnswersCons(a, [n, a, n, a, n, a]);
    assert [a, n, a, n, a, n, a] == g;
    assert {a} + ({a} + ({a} + ({a} + {}))) == {a};
  }

  lemma CountSingle(g: string)
    requires g == "b"
    ensures Group(g) == Ok(1)
  {
    AnswersCons('b', []);
    assert ['b'] + [] == g;
    assert {'b'} + {} == {'b'};
  }

  /** Five well-formed groups: their counts, and the sum of them. */
  lemma FiveGroups(groups: seq<string>, a: nat, b: nat, c: nat, d: nat, e: nat)
    requires |groups| == 5
    requires Group(groups[0]) == Ok(a) && Group(groups[1]) == Ok(b) && Group(groups[2]) == Ok(c)
    requires Group(groups[3]) == Ok(d) && Group(groups[4]) == Ok(e)
    ensures AllOk(Group, groups) && CollectOk(Group, groups) == [a, b, c, d, e]
    ensures Sum(CollectOk(Group, groups)) == a + b + c + d + e
  {
    var counts := CollectOk(Group, groups);
    assert counts == [a, b, c, d, e];
    var c1, c2, c3, c4 := counts[..1], counts[..2], counts[..3], counts[..4];
    assert c1[..0] == [] && Sum(c1) == a;
    assert c2[..1] == c1 && Sum(c2) == a + b;
    assert c3[..2] == c2 && Sum(c3) == a + b + c;
    assert c4[..3] == c3 && Sum(c4) == a + b + c + d;
    assert counts[..4] == c4;
  }

  /** The example gives the counts 3, 3, 3, 1, 1, and `part1` their sum, 11. */
  lemma ExampleGroupsCounted(s: string, groups: seq<string>)
    requires groups == ExampleGroups() && s == Join(groups, "\n\n")
    ensures ToGroups(s) == [Ok(3), Ok(3), Ok(3), Ok(1), Ok(1)]
    ensures Part1Defined(s) && Part1(s) == 11
  {
    ExampleSplits(groups);
    CountABC(groups[0]);
    CountColumn(groups[1]);
    CountTwoLines(groups[2]);
    CountRepeated(groups[3]);
    CountSingle(groups[4]);
    FiveGroups(groups, 3, 3, 3, 1, 1);
    var r := ToGroups(s);
    assert r[0] == Ok(3) && r[1] == Ok(3) && r[2] == Ok(3) && r[3] == Ok(1) && r[4] == Ok(1);
  }
}
