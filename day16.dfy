/** `day16.rs`: ticket field rules of two inclusive ranges each, the notes
    that list the rules, your ticket and the nearby tickets, and the error
    rate of part 1: the sum of the nearby ticket values no rule accepts. */
module Day16 {
  import opened Results
  import opened Text
  import opened Util
  import opened Integers

  /** `RangeInclusive<usize>`: `lo..=hi`, which is empty when `lo > hi`. */
  datatype Range = Range(lo: nat, hi: nat)

  datatype Rule = Rule(name: string, range1: Range, range2: Range)

  datatype Problem = Problem(rules: seq<Rule>, myTicket: seq<nat>)

  /** `RangeInclusive::contains`. */
  predicate InRange(r: Range, x: nat) {
    r.lo <= x <= r.hi
  }

  /** `Rule::validates`. */
  predicate Validates(r: Rule, x: nat) {
    InRange(r.range1, x) || InRange(r.range2, x)
  }

  /** A rule whose second range starts inside or right after the first, and
      ends no earlier, accepts exactly one interval. */
  lemma ValidatesMerged(r: Rule, x: nat)
    requires r.range1.lo <= r.range2.lo <= r.range1.hi + 1 && r.range1.hi <= r.range2.hi
    ensures Validates(r, x) <==> r.range1.lo <= x <= r.range2.hi
  {
  }

  /** A value between the two ranges of a rule is refused. */
  lemma ValidatesGap(r: Rule, x: nat)
    requires r.range1.hi < x < r.range2.lo
    ensures !Validates(r, x)
  {
  }

  /** The rule `0..=1 or 10..=11` accepts 0 and 10 and refuses 2 and 12. */
  lemma ValidatesExample()
    ensures var r := Rule("asdf", Range(0, 1), Range(10, 11));
      Validates(r, 0) && Validates(r, 10) && !Validates(r, 2) && !Validates(r, 12)
  {
  }

  /** `parse_range`: two numbers around the first `-`. */
  function ParseRange(s: string): (r: Result<Range>)
    ensures !Contains(s, "-") ==> r.Err?
    ensures r.Ok? ==> (SplitTuple2(s, "-").Some? &&
      ParseUnsigned(SplitTuple2(s, "-").value.0) == Some(r.value.lo) &&
      ParseUnsigned(SplitTuple2(s, "-").value.1) == Some(r.value.hi))
  {
    match SplitTuple2(s, "-")
    case None => Err
    case Some((lower, upper)) =>
      match (ParseUnsigned(lower), ParseUnsigned(upper))
      case (Some(lo), Some(hi)) => Ok(Range(lo, hi))
      case _ => Err
  }

  /** `Rule::from_str`: the name before the first `": "`, then two ranges
      around the first `" or "` after it. */
  function ParseRule(s: string): (r: Result<Rule>)
    ensures !Contains(s, ": ") ==> r.Err?
    ensures r.Ok? ==> SplitTuple2(s, ": ").Some? && SplitTuple2(s, ": ").value.0 == r.value.name
    ensures r.Ok? ==> Contains(SplitTuple2(s, ": ").value.1, " or ")
  {
    match SplitTuple2(s, ": ")
    case None => Err
    case Some((name, ranges)) =>
      match SplitTuple2(ranges, " or ")
      case None => Err
      case Some((range1, range2)) =>
        var r1 :- ParseRange(range1);
        var r2 :- ParseRange(range2);
        Ok(Rule(name, r1, r2))
  }

  function ShowRange(r: Range): string {
    ShowNat(r.lo) + "-" + ShowNat(r.hi)
  }

  /** A rule as a line of the notes. */
  function ShowRule(r: Rule): string {
    r.name + ": " + ShowRange(r.range1) + " or " + ShowRange(r.range2)
  }

  lemma NoSign(n: nat)
    ensures '-' !in ShowNat(n) && ' ' !in ShowNat(n) && ',' !in ShowNat(n)
  {
    var s := ShowNat(n);
    assert forall k :: 0 <= k < |s| ==> IsDigit(s[k]);
  }

  /** Writing a range and parsing it gives it back. */
  lemma ParseShowRange(r: Range)
    ensures ParseRange(ShowRange(r)) == Ok(r)
    ensures ' ' !in ShowRange(r)
  {
    NoSign(r.lo);
    NoSign(r.hi);
    SplitTuple2At(ShowNat(r.lo), "-", ShowNat(r.hi));
    ParseShowNat(r.lo);
    ParseShowNat(r.hi);
  }

  /** `": "` cannot start inside a name that does not contain it when the
      name is followed by `": "`. */
  lemma NameEnds(name: string, rest: string)
    requires !Contains(name, ": ")
    ensures forall i: nat :: i < |name| ==> !OccursAt(name + ": " + rest, ": ", i)
  {
    var s := name + ": " + rest;
    forall i: nat | i < |name|
      ensures !OccursAt(s, ": ", i)
    {
      if i + 1 < |name| {
        assert s[i..i + 2] == name[i..i + 2];
        assert !OccursAt(name, ": ", i);
      } else if i + 2 <= |s| {
        assert s[i..i + 2][1] == s[i + 1] == ':';
      }
    }
  }

  /** Writing a rule whose name does not contain `": "` and parsing it gives
      it back. */
  lemma ParseShowRule(r: Rule)
    requires !Contains(r.name, ": ")
    ensures ParseRule(ShowRule(r)) == Ok(r)
  {
    var a, b := ShowRange(r.range1), ShowRange(r.range2);
    var ranges := a + " or " + b;
    assert ShowRule(r) == r.name + ": " + ranges;
    NameEnds(r.name, ranges);
    SplitTuple2Of(r.name, ": ", ranges);
    ParseShowRange(r.range1);
    ParseShowRange(r.range2);
    SplitTuple2At(a, " or ", b);
  }

  /** `"class: 1-3 or 5-7"` is the rule `class` of `1..=3` and `5..=7`. */
  lemma ParseRuleExample()
    ensures ParseRule("class: 1-3 or 5-7") == Ok(Rule("class", Range(1, 3), Range(5, 7)))
  {
    var r := Rule("class", Range(1, 3), Range(5, 7));
    AbsentFirst("class", ": ");
    ParseShowRule(r);
    SpelledRule(r);
  }

  lemma SpelledRule(r: Rule)
    requires r == Rule("class", Range(1, 3), Range(5, 7))
    ensures ShowRule(r) == "class: 1-3 or 5-7"
  {
    assert ShowNat(1) == "1" && ShowNat(3) == "3" && ShowNat(5) == "5" && ShowNat(7) == "7";
  }

  /** A text without `" or "` has no second range. */
  lemma ParseRuleWithoutOr()
    ensures ParseRule("class: 1-3").Err?
  {
    var ranges := "1-3";
    AbsentFirst(ranges, " or ");
    AbsentFirst("class", ": ");
    NameEnds("class", ranges);
    SplitTuple2Of("class", ": ", ranges);
    assert "class" + ": " + ranges == "class: 1-3";
  }

  /** `Ticket::from_str`: comma-separated numbers, every one of which must
      parse. */
  function ParseTicket(s: string): (r: Result<seq<nat>>)
    ensures r.Ok? <==> AllNumbers(Split(s, ","))
    ensures r.Ok? ==> |r.value| == |Split(s, ",")| >= 1
    ensures r.Ok? ==> forall k :: 0 <= k < |r.value| ==> ParseUnsigned(Split(s, ",")[k]) == Some(r.value[k])
  {
    var pieces := Split(s, ",");
    if AllNumbers(pieces) then
      Ok(seq(|pieces|, k requires 0 <= k < |pieces| => ParseUnsigned(pieces[k]).value))
    else Err
  }

  /** Every piece parses as a number. */
  predicate AllNumbers(pieces: seq<string>) {
    forall k :: 0 <= k < |pieces| ==> ParseUnsigned(pieces[k]).Some?
  }

  /** A ticket as a line of the notes. */
  function ShowTicket(values: seq<nat>): string {
    Join(seq(|values|, k requires 0 <= k < |values| => ShowNat(values[k])), ",")
  }

  /** Writing a ticket and parsing it gives it back. */
  lemma ParseShowTicket(values: seq<nat>)
    requires |values| >= 1
    ensures ParseTicket(ShowTicket(values)) == Ok(values)
  {
    var pieces := seq(|values|, k requires 0 <= k < |values| => ShowNat(values[k]));
    forall k | 0 <= k < |pieces|
      ensures ',' !in pieces[k] && ParseUnsigned(pieces[k]) == Some(values[k])
    {
      NoSign(values[k]);
      ParseShowNat(values[k]);
    }
    SplitJoin(pieces, ",");
    assert Split(ShowTicket(values), ",") == pieces;
    assert AllNumbers(pieces);
    var parsed := seq(|pieces|, k requires 0 <= k < |pieces| => ParseUnsigned(pieces[k]).value);
    assert parsed == values;
  }

  /** Every line read as a rule; only those before the first empty line are
      used. */
  function RuleLines(lines: seq<string>): (r: seq<Result<Rule>>)
    ensures |r| == |lines| && forall k {:trigger r[k]} :: 0 <= k < |lines| ==> r[k] == ParseRule(lines[k])
  {
    seq(|lines|, k requires 0 <= k < |lines| => ParseRule(lines[k]))
  }

  /** The loop of `parse_rules` from line `i` on, `parsed` being the lines
      read as rules: the rules up to the first empty line, and the line after
      it; the end of the lines before an empty one, or a line that is not a
      rule, is an error. */
  function ReadRules<T>(lines: seq<string>, parsed: seq<Result<T>>, i: nat): Result<(seq<T>, nat)>
    requires |parsed| == |lines|
    decreases |lines| - i
  {
    if i >= |lines| then Err
    else if lines[i] == "" then Ok(([], i + 1))
    else
      match parsed[i]
      case Err => Err
      case Ok(rule) => Prepend([rule], ReadRules(lines, parsed, i + 1))
  }

  /** Rules read before those of `r`. */
  function Prepend<T>(rules: seq<T>, r: Result<(seq<T>, nat)>): Result<(seq<T>, nat)> {
    match r
    case Err => Err
    case Ok((rest, next)) => Ok((rules + rest, next))
  }

  lemma PrependAssoc<T>(a: seq<T>, b: seq<T>, r: Result<(seq<T>, nat)>)
    ensures Prepend(a, Prepend(b, r)) == Prepend(a + b, r)
  {
    if r.Ok? {
      assert a + (b + r.value.0) == (a + b) + r.value.0;
    }
  }

  lemma PrependEmpty<T>(r: Result<(seq<T>, nat)>)
    ensures Prepend([], r) == r
  {
    if r.Ok? {
      assert [] + r.value.0 == r.value.0;
    }
  }

  /** What the rules read from line `i` are: the lines before the first empty
      one, each parsed, and reading resumes after that empty line. */
  lemma {:induction false} ReadRulesMeaning<T>(lines: seq<string>, parsed: seq<Result<T>>, i: nat)
    requires |parsed| == |lines| && ReadRules(lines, parsed, i).Ok?
    ensures i < ReadRules(lines, parsed, i).value.1 <= |lines|
    ensures lines[ReadRules(lines, parsed, i).value.1 - 1] == ""
    ensures |ReadRules(lines, parsed, i).value.0| == ReadRules(lines, parsed, i).value.1 - 1 - i
    ensures forall j :: i <= j < ReadRules(lines, parsed, i).value.1 - 1 ==>
      lines[j] != "" && parsed[j] == Ok(ReadRules(lines, parsed, i).value.0[j - i])
    decreases |lines| - i
  {
    if lines[i] != "" {
      ReadRulesMeaning(lines, parsed, i + 1);
      var rule := parsed[i].value;
      var rest := ReadRules(lines, parsed, i + 1).value.0;
      var next := ReadRules(lines, parsed, i + 1).value.1;
      var rules := [rule] + rest;
      assert ReadRules(lines, parsed, i).value == (rules, next);
      forall j | i <= j < next - 1
        ensures lines[j] != "" && parsed[j] == Ok(rules[j - i])
      {
        if j > i {
          assert rules[j - i] == rest[j - (i + 1)];
        }
      }
    }
  }

  /** Rules read from the first line on are the lines before the first empty
      one, each parsed. */
  lemma ReadRulesFromStart<T>(lines: seq<string>, parsed: seq<Result<T>>)
    requires |parsed| == |lines| && ReadRules(lines, parsed, 0).Ok?
    ensures 0 < ReadRules(lines, parsed, 0).value.1 <= |lines|
    ensures lines[ReadRules(lines, parsed, 0).value.1 - 1] == ""
    ensures |ReadRules(lines, parsed, 0).value.0| == ReadRules(lines, parsed, 0).value.1 - 1
    ensures forall k :: 0 <= k < |ReadRules(lines, parsed, 0).value.0| ==>
      lines[k] != "" && parsed[k] == Ok(ReadRules(lines, parsed, 0).value.0[k])
  {
    ReadRulesMeaning(lines, parsed, 0);
    var rules := ReadRules(lines, parsed, 0).value.0;
    forall k | 0 <= k < |rules|
      ensures lines[k] != "" && parsed[k] == Ok(rules[k])
    {
      assert rules[k - 0] == rules[k];
    }
  }

  /** Every line from `i` up to an empty line at `blank` being a rule, the
      rules are read up to it. */
  lemma {:induction false} ReadRulesBlank<T>(lines: seq<string>, parsed: seq<Result<T>>, i: nat, blank: nat)
    requires |parsed| == |lines|
    requires i <= blank < |lines| && lines[blank] == ""
    requires forall k :: i <= k < blank ==> lines[k] != "" && parsed[k].Ok?
    ensures ReadRules(lines, parsed, i).Ok? && ReadRules(lines, parsed, i).value.1 == blank + 1
    decreases blank - i
  {
    if i < blank {
      ReadRulesBlank(lines, parsed, i + 1, blank);
    }
  }

  /** Without an empty line from `i` on, reading the rules fails. */
  lemma {:induction false} ReadRulesEof<T>(lines: seq<string>, parsed: seq<Result<T>>, i: nat)
    requires |parsed| == |lines|
    requires forall k :: i <= k < |lines| ==> lines[k] != ""
    ensures ReadRules(lines, parsed, i).Err?
    decreases |lines| - i
  {
    if i < |lines| {
      ReadRulesEof(lines, parsed, i + 1);
    }
  }

  /** `parse_rules`: the `while let` loop that pushes each parsed rule until
      the empty line. */
  method ParseRules(lines: seq<string>) returns (r: Result<(seq<Rule>, nat)>)
    ensures r == ReadRules(lines, RuleLines(lines), 0)
  {
    ghost var parsed := RuleLines(lines);
    var rules: seq<Rule> := [];
    var i := 0;
    PrependEmpty(ReadRules(lines, parsed, 0));
    while i < |lines|
      invariant ReadRules(lines, parsed, 0) == Prepend(rules, ReadRules(lines, parsed, i))
      decreases |lines| - i
    {
      if lines[i] == "" {
        assert rules + [] == rules;
        return Ok((rules, i + 1));
      }
      var rule := ParseRule(lines[i]);
      assert rule == parsed[i];
      if rule.Err? {
        return Err;
      }
      PrependAssoc(rules, [rule.value], ReadRules(lines, parsed, i + 1));
      rules := rules + [rule.value];
      i := i + 1;
    }
    return Err;
  }

  /** `Problem::from_str` over the lines: the rules, then `your ticket:`, your
      ticket, an empty line and `nearby tickets:`; any line missing or
      different is an error. */
  function ProblemOf(lines: seq<string>): Result<Problem> {
    match ReadRules(lines, RuleLines(lines), 0)
    case Err => Err
    case Ok((rules, i)) => ProblemAfterRules(lines, rules, i)
  }

  /** The part of `Problem::from_str` after the rules, which end at line `i`. */
  function ProblemAfterRules(lines: seq<string>, rules: seq<Rule>, i: nat): Result<Problem> {
    if i >= |lines| || lines[i] != "your ticket:" then Err
    else if i + 1 >= |lines| then Err
    else
      match ParseTicket(lines[i + 1])
      case Err => Err
      case Ok(ticket) =>
        if i + 2 >= |lines| || lines[i + 2] != "" then Err
        else if i + 3 >= |lines| || lines[i + 3] != "nearby tickets:" then Err
        else Ok(Problem(rules, ticket))
  }

  /** Notes that parse have their rules read first. */
  lemma ProblemOfRules(lines: seq<string>)
    requires ProblemOf(lines).Ok?
    ensures ReadRules(lines, RuleLines(lines), 0).Ok?
    ensures var (rules, i) := ReadRules(lines, RuleLines(lines), 0).value;
      ProblemOf(lines) == ProblemAfterRules(lines, rules, i)
  {
  }

  /** After the rules, the notes parse exactly when line `i` holds
      `your ticket:`, followed by a ticket, an empty line and
      `nearby tickets:`. */
  lemma ProblemAfterRulesShape(lines: seq<string>, rules: seq<Rule>, i: nat)
    ensures ProblemAfterRules(lines, rules, i).Ok? <==>
      i + 3 < |lines| && lines[i] == "your ticket:" && ParseTicket(lines[i + 1]).Ok? &&
      lines[i + 2] == "" && lines[i + 3] == "nearby tickets:"
    ensures ProblemAfterRules(lines, rules, i).Ok? ==>
      ProblemAfterRules(lines, rules, i) == Ok(Problem(rules, ParseTicket(lines[i + 1]).value))
  {
  }

  /** `Problem::from_str`, reading the lines one after the other. */
  method ParseProblem(s: string) returns (r: Result<Problem>)
    ensures r == ProblemOf(Lines(s))
  {
    var lines := Lines(s);
    var read := ParseRules(lines);
    if read.Err? {
      return Err;
    }
    var (rules, i) := read.value;
    assert ProblemOf(lines) == ProblemAfterRules(lines, rules, i);
    if i >= |lines| || lines[i] != "your ticket:" {
      return Err;
    }
    if i + 1 >= |lines| {
      return Err;
    }
    var ticket := ParseTicket(lines[i + 1]);
    if ticket.Err? {
      return Err;
    }
    if i + 2 >= |lines| || lines[i + 2] != "" {
      return Err;
    }
    if i + 3 >= |lines| || lines[i + 3] != "nearby tickets:" {
      return Err;
    }
    return Ok(Problem(rules, ticket.value));
  }

  /** The notes up to and including `nearby tickets:`. */
  function ShowProblem(p: Problem): seq<string> {
    seq(|p.rules|, k requires 0 <= k < |p.rules| => ShowRule(p.rules[k])) +
      ["", "your ticket:", ShowTicket(p.myTicket), "", "nearby tickets:"]
  }

  /** Rules whose names do not contain `": "` and a ticket of at least one
      value, written as notes, parse back to themselves, whatever follows. */
  lemma ParseShowProblem(p: Problem, nearby: seq<string>)
    requires forall k :: 0 <= k < |p.rules| ==> !Contains(p.rules[k].name, ": ")
    requires |p.myTicket| >= 1
    ensures ProblemOf(ShowProblem(p) + nearby) == Ok(p)
  {
    var shown := seq(|p.rules|, k requires 0 <= k < |p.rules| => ShowRule(p.rules[k]));
    var lines := ShowProblem(p) + nearby;
    var n := |p.rules|;
    LinesAround(shown, "", "your ticket:", ShowTicket(p.myTicket), "", "nearby tickets:", nearby);
    forall k | 0 <= k < n
      ensures lines[k] != "" && ParseRule(lines[k]) == Ok(p.rules[k])
    {
      ParseShowRule(p.rules[k]);
    }
    ReadShownRules(lines, RuleLines(lines), p.rules);
    ParseShowTicket(p.myTicket);
    ProblemAfterRulesShape(lines, p.rules, n + 1);
  }

  /** The positions of five lines written between others. */
  lemma LinesAround<T>(before: seq<T>, a: T, b: T, c: T, d: T, e: T, after: seq<T>)
    ensures var l := before + [a, b, c, d, e] + after;
      |l| == |before| + 5 + |after| &&
      (forall k :: 0 <= k < |before| ==> l[k] == before[k]) &&
      l[|before|] == a && l[|before| + 1] == b && l[|before| + 2] == c &&
      l[|before| + 3] == d && l[|before| + 4] == e
  {
  }

  /** Lines that start with the rules, each written out, then an empty line,
      are read back as those rules. */
  lemma ReadShownRules(lines: seq<string>, parsed: seq<Result<Rule>>, rules: seq<Rule>)
    requires |parsed| == |lines| && |rules| < |lines| && lines[|rules|] == ""
    requires forall k :: 0 <= k < |rules| ==> lines[k] != "" && parsed[k] == Ok(rules[k])
    ensures ReadRules(lines, parsed, 0) == Ok((rules, |rules| + 1))
  {
    ReadRulesBlank(lines, parsed, 0, |rules|);
    ReadRulesFromStart(lines, parsed);
    var read := ReadRules(lines, parsed, 0).value.0;
    assert |read| == |rules|;
    forall k | 0 <= k < |rules|
      ensures read[k] == rules[k]
    {
      assert parsed[k] == Ok(read[k]);
    }
    assert read == rules;
  }

  /** The index of the first line after the first `nearby tickets:`, or the
      end of the lines when there is none. */
  function NearbyFrom(lines: seq<string>, i: nat): (r: nat)
    requires i <= |lines|
    ensures i <= r <= |lines|
    decreases |lines| - i
  {
    if i == |lines| then i
    else if lines[i] == "nearby tickets:" then i + 1
    else NearbyFrom(lines, i + 1)
  }

  /** `skip_while(|l| l != "nearby tickets:").skip(1)`: the lines skipped hold
      no header but the last one; when the header is missing all lines are
      skipped. */
  lemma {:induction false} NearbyFromMeaning(lines: seq<string>, i: nat)
    requires i <= |lines|
    ensures var r := NearbyFrom(lines, i);
      (i < r && lines[r - 1] == "nearby tickets:" ==>
        forall k :: i <= k < r - 1 ==> lines[k] != "nearby tickets:") &&
      (!(i < r && lines[r - 1] == "nearby tickets:") ==>
        r == |lines| && forall k :: i <= k < |lines| ==> lines[k] != "nearby tickets:")
    decreases |lines| - i
  {
    if i < |lines| && lines[i] != "nearby tickets:" {
      NearbyFromMeaning(lines, i + 1);
    }
  }

  /** `get_tickets`: every line after the first `nearby tickets:` parsed as a
      ticket; none when that line is missing. */
  function GetTickets(lines: seq<string>): (r: seq<Result<seq<nat>>>)
    ensures |r| == |lines| - NearbyFrom(lines, 0)
    ensures forall k {:trigger r[k]} :: 0 <= k < |r| ==> r[k] == ParseTicket(lines[NearbyFrom(lines, 0) + k])
  {
    var start := NearbyFrom(lines, 0);
    seq(|lines| - start, k requires 0 <= k < |lines| - start => ParseTicket(lines[start + k]))
  }

  /** When the notes parse, the nearby tickets are exactly the lines after
      the `nearby tickets:` line that ends the problem: no earlier line is
      that header. */
  lemma NearbyAfterProblem(lines: seq<string>)
    requires ProblemOf(lines).Ok?
    ensures NearbyFrom(lines, 0) == ReadRules(lines, RuleLines(lines), 0).value.1 + 4
  {
    var parsed := RuleLines(lines);
    ProblemOfRules(lines);
    ReadRulesFromStart(lines, parsed);
    var (rules, i) := ReadRules(lines, parsed, 0).value;
    ProblemAfterRulesShape(lines, rules, i);
    HeaderAfterTicket(lines, parsed, i);
    NearbyFromAt(lines, 0, i + 3);
  }

  /** Rules read up to line `i`, then the lines `your ticket:`, a ticket and
      an empty line: none of these lines is the `nearby tickets:` header. */
  lemma HeaderAfterTicket(lines: seq<string>, parsed: seq<Result<Rule>>, i: nat)
    requires |parsed| == |lines| && forall k {:trigger parsed[k]} :: 0 <= k < |lines| ==> parsed[k] == ParseRule(lines[k])
    requires 0 < i && i + 3 < |lines| && lines[i - 1] == ""
    requires forall k :: 0 <= k < i - 1 ==> parsed[k].Ok?
    requires lines[i] == "your ticket:" && ParseTicket(lines[i + 1]).Ok?
    requires lines[i + 2] == ""
    ensures forall k :: 0 <= k < i + 3 ==> lines[k] != "nearby tickets:"
  {
    forall k | 0 <= k < i - 1
      ensures lines[k] != "nearby tickets:"
    {
      assert parsed[k].Ok?;
      NotHeader(lines[k], true);
    }
    NotHeader(lines[i - 1], false);
    NotHeader(lines[i], false);
    NotHeader(lines[i + 1], true);
    NotHeader(lines[i + 2], false);
  }

  /** A rule, a ticket, an empty line and `your ticket:` are not the
      `nearby tickets:` header. */
  lemma NotHeader(line: string, parses: bool)
    requires parses ==> ParseRule(line).Ok? || ParseTicket(line).Ok?
    requires !parses ==> line == "" || line == "your ticket:"
    ensures line != "nearby tickets:"
  {
    if line == "nearby tickets:" {
      NoRuleHeader();
      NoTicketHeader();
    }
  }

  lemma NoRuleHeader()
    ensures ParseRule("nearby tickets:").Err?
  {
    var a := "nearby tickets";
    assert ':' !in a;
    var s := a + ":";
    assert s == "nearby tickets:";
    forall i: nat | i <= |s|
      ensures !OccursAt(s, ": ", i)
    {
      if i + 2 <= |s| {
        assert s[i..i + 2][0] == s[i] == a[i];
      }
    }
    assert !Contains(s, ": ");
  }

  lemma NoTicketHeader()
    ensures ParseTicket("nearby tickets:").Err?
  {
    var s := "nearby tickets:";
    assert ',' !in s;
    SplitCharAbsent(s, ',');
    assert ParseUnsigned(s).None? by {
      assert !IsDigit(s[0]);
    }
  }

  lemma {:induction false} NearbyFromAt(lines: seq<string>, i: nat, h: nat)
    requires i <= h < |lines| && lines[h] == "nearby tickets:"
    requires forall k :: i <= k < h ==> lines[k] != "nearby tickets:"
    ensures NearbyFrom(lines, i) == h + 1
    decreases h - i
  {
    if i < h {
      NearbyFromAt(lines, i + 1, h);
    }
  }

  /** No rule accepts `x`. */
  predicate Unvalidatable(rules: seq<Rule>, x: nat) {
    forall k :: 0 <= k < |rules| ==> !Validates(rules[k], x)
  }

  /** `get_unvalidatable_fields`: the values of the ticket that no rule
      accepts, in the ticket's order. */
  function UnvalidatableFields(rules: seq<Rule>, ticket: seq<nat>): (r: seq<nat>)
    ensures |r| <= |ticket|
    ensures forall k :: 0 <= k < |r| ==> r[k] in ticket && Unvalidatable(rules, r[k])
  {
    if |ticket| == 0 then []
    else
      var last := ticket[|ticket| - 1];
      UnvalidatableFields(rules, ticket[..|ticket| - 1]) + (if Unvalidatable(rules, last) then [last] else [])
  }

  /** Every value no rule accepts is kept. */
  lemma {:induction false} UnvalidatableKept(rules: seq<Rule>, ticket: seq<nat>, x: nat)
    requires x in ticket && Unvalidatable(rules, x)
    ensures x in UnvalidatableFields(rules, ticket)
    decreases |ticket|
  {
    if ticket[|ticket| - 1] != x {
      assert x in ticket[..|ticket| - 1];
      UnvalidatableKept(rules, ticket[..|ticket| - 1], x);
    }
  }

  /** Filtering keeps the order: the values kept from two tickets joined
      are those kept from the first, then those kept from the second. */
  lemma {:induction false} UnvalidatableAppend(rules: seq<Rule>, a: seq<nat>, b: seq<nat>)
    ensures UnvalidatableFields(rules, a + b) ==
      UnvalidatableFields(rules, a) + UnvalidatableFields(rules, b)
    decreases |b|
  {
    if |b| == 0 {
      assert a + b == a;
    } else {
      UnvalidatableAppend(rules, a, b[..|b| - 1]);
      assert (a + b)[..|a + b| - 1] == a + b[..|b| - 1];
    }
  }

  /** The error rate of a list of tickets: the sum of their unvalidatable
      values. */
  function ErrorRate(rules: seq<Rule>, tickets: seq<seq<nat>>): nat {
    if |tickets| == 0 then 0
    else ErrorRate(rules, tickets[..|tickets| - 1]) + Sum(UnvalidatableFields(rules, tickets[|tickets| - 1]))
  }

  /** A ticket whose every value some rule accepts keeps none. */
  lemma {:induction false} UnvalidatableNone(rules: seq<Rule>, ticket: seq<nat>)
    requires forall k :: 0 <= k < |ticket| ==> !Unvalidatable(rules, ticket[k])
    ensures UnvalidatableFields(rules, ticket) == []
    decreases |ticket|
  {
    if |ticket| > 0 {
      UnvalidatableNone(rules, ticket[..|ticket| - 1]);
    }
  }

  /** Tickets whose every value some rule accepts add nothing to the error
      rate. */
  lemma {:induction false} ErrorRateValid(rules: seq<Rule>, tickets: seq<seq<nat>>)
    requires forall t, k :: 0 <= t < |tickets| && 0 <= k < |tickets[t]| ==> !Unvalidatable(rules, tickets[t][k])
    ensures ErrorRate(rules, tickets) == 0
    decreases |tickets|
  {
    if |tickets| > 0 {
      ErrorRateValid(rules, tickets[..|tickets| - 1]);
      var last := tickets[|tickets| - 1];
      UnvalidatableNone(rules, last);
    }
  }

  /** Every nearby ticket parses, as `part1` unwraps each. */
  predicate TicketsParse(lines: seq<string>) {
    forall k :: 0 <= k < |GetTickets(lines)| ==> GetTickets(lines)[k].Ok?
  }

  function TicketValues(lines: seq<string>): (r: seq<seq<nat>>)
    requires TicketsParse(lines)
    ensures |r| == |GetTickets(lines)| && forall k :: 0 <= k < |r| ==> GetTickets(lines)[k] == Ok(r[k])
  {
    var ts := GetTickets(lines);
    seq(|ts|, k requires 0 <= k < |ts| => ts[k].value)
  }

  /** `part1`: the error rate of the nearby tickets under the rules of the
      notes, which must parse. */
  method Part1(s: string) returns (rate: nat)
    requires ProblemOf(Lines(s)).Ok? && TicketsParse(Lines(s))
    ensures rate == ErrorRate(ProblemOf(Lines(s)).value.rules, TicketValues(Lines(s)))
  {
    var problem := ParseProblem(s);
    rate := ErrorRate(problem.value.rules, TicketValues(Lines(s)));
  }

  function ExampleRules(): seq<Rule> {
    [Rule("class", Range(1, 3), Range(5, 7)),
     Rule("row", Range(6, 11), Range(33, 44)),
     Rule("seat", Range(13, 40), Range(45, 50))]
  }

  function ExampleNearby(): seq<seq<nat>> {
    [[7, 3, 47], [40, 4, 50], [55, 2, 20], [38, 6, 12]]
  }

  /** The example's notes parse to its three rules and the ticket 7,1,14,
      whatever nearby tickets follow. */
  lemma ParseExample(nearby: seq<string>)
    ensures ProblemOf(ShowProblem(Problem(ExampleRules(), [7, 1, 14])) + nearby) ==
      Ok(Problem(ExampleRules(), [7, 1, 14]))
  {
    var rules := ExampleRules();
    forall k | 0 <= k < |rules|
      ensures !Contains(rules[k].name, ": ")
    {
      AbsentFirst(rules[k].name, ": ");
    }
    ParseShowProblem(Problem(rules, [7, 1, 14]), nearby);
  }

  /** Over three rules, a value is unvalidatable when none of the three
      accepts it. */
  lemma UnvalidatableThree(rules: seq<Rule>, x: nat)
    requires |rules| == 3
    ensures Unvalidatable(rules, x) <==>
      !Validates(rules[0], x) && !Validates(rules[1], x) && !Validates(rules[2], x)
  {
  }

  /** The fields kept from a ticket of three values. */
  lemma UnvalidatableOfThree(rules: seq<Rule>, t: seq<nat>)
    requires |t| == 3
    ensures UnvalidatableFields(rules, t) ==
      (if Unvalidatable(rules, t[0]) then [t[0]] else []) +
      (if Unvalidatable(rules, t[1]) then [t[1]] else []) +
      (if Unvalidatable(rules, t[2]) then [t[2]] else [])
  {
    var t1, t2 := t[..1], t[..2];
    assert t2[..1] == t1 && t1[..0] == [] && t1[0] == t[0] && t2[1] == t[1];
    assert UnvalidatableFields(rules, t1) == (if Unvalidatable(rules, t[0]) then [t[0]] else []);
    assert UnvalidatableFields(rules, t2) == UnvalidatableFields(rules, t1) + (if Unvalidatable(rules, t[1]) then [t[1]] else []);
  }

  /** The error rate of four tickets. */
  lemma ErrorRateOfFour(rules: seq<Rule>, ts: seq<seq<nat>>)
    requires |ts| == 4
    ensures ErrorRate(rules, ts) ==
      Sum(UnvalidatableFields(rules, ts[0])) + Sum(UnvalidatableFields(rules, ts[1])) +
      Sum(UnvalidatableFields(rules, ts[2])) + Sum(UnvalidatableFields(rules, ts[3]))
  {
    var t1, t2, t3 := ts[..1], ts[..2], ts[..3];
    assert t3[..2] == t2 && t2[..1] == t1 && t1[..0] == [];
    assert t1[0] == ts[0] && t2[1] == ts[1] && t3[2] == ts[2];
    assert ErrorRate(rules, t1) == Sum(UnvalidatableFields(rules, ts[0]));
    assert ErrorRate(rules, t2) == ErrorRate(rules, t1) + Sum(UnvalidatableFields(rules, ts[1]));
    assert ErrorRate(rules, t3) == ErrorRate(rules, t2) + Sum(UnvalidatableFields(rules, ts[2]));
  }

  /** The example rules together accept `1..=3`, `5..=11` and `13..=50`:
      they refuse exactly 0, 4, 12 and everything above 50. */
  lemma ExampleValues(rules: seq<Rule>, x: nat)
    requires rules == ExampleRules()
    ensures Unvalidatable(rules, x) <==> x == 0 || x == 4 || x == 12 || x > 50
  {
    UnvalidatableThree(rules, x);
    assert Validates(rules[0], x) <==> 1 <= x <= 3 || 5 <= x <= 7;
    assert Validates(rules[1], x) <==> 6 <= x <= 11 || 33 <= x <= 44;
    assert Validates(rules[2], x) <==> 13 <= x <= 40 || 45 <= x <= 50;
  }

  /** The example's nearby tickets keep 4, 55 and 12, so the error rate is 71. */
  lemma ErrorRateExample()
    ensures UnvalidatableFields(ExampleRules(), [7, 3, 47]) == []
    ensures UnvalidatableFields(ExampleRules(), [40, 4, 50]) == [4]
    ensures UnvalidatableFields(ExampleRules(), [55, 2, 20]) == [55]
    ensures UnvalidatableFields(ExampleRules(), [38, 6, 12]) == [12]
    ensures ErrorRate(ExampleRules(), ExampleNearby()) == 71
  {
    ExampleKept(ExampleRules());
    ExampleRate(ExampleRules(), ExampleNearby());
  }

  /** The values the example rules refuse. */
  predicate ExampleRefused(x: nat) {
    x == 0 || x == 4 || x == 12 || x > 50
  }

  /** The values kept from a ticket of three values under the example rules. */
  lemma ExampleTicket(rules: seq<Rule>, a: nat, b: nat, c: nat)
    requires rules == ExampleRules()
    ensures UnvalidatableFields(rules, [a, b, c]) ==
      (if ExampleRefused(a) then [a] else []) +
      (if ExampleRefused(b) then [b] else []) +
      (if ExampleRefused(c) then [c] else [])
  {
    ExampleValues(rules, a);
    ExampleValues(rules, b);
    ExampleValues(rules, c);
    var t := [a, b, c];
    UnvalidatableOfThree(rules, t);
    assert t[0] == a && t[1] == b && t[2] == c;
  }

  lemma ExampleKept(rules: seq<Rule>)
    requires rules == ExampleRules()
    ensures UnvalidatableFields(rules, [7, 3, 47]) == []
    ensures UnvalidatableFields(rules, [40, 4, 50]) == [4]
    ensures UnvalidatableFields(rules, [55, 2, 20]) == [55]
    ensures UnvalidatableFields(rules, [38, 6, 12]) == [12]
  {
    ExampleTicket(rules, 7, 3, 47);
    ExampleTicket(rules, 40, 4, 50);
    ExampleTicket(rules, 55, 2, 20);
    ExampleTicket(rules, 38, 6, 12);
  }

  lemma ExampleRate(rules: seq<Rule>, ts: seq<seq<nat>>)
    requires rules == ExampleRules() && ts == ExampleNearby()
    ensures ErrorRate(rules, ts) == 71
  {
    ExampleKept(rules);
    ErrorRateOfFour(rules, ts);
    assert Sum([4]) == 4 && Sum([55]) == 55 && Sum([12]) == 12 && Sum([]) == 0;
  }
}
