/** `day2.rs`: password policy lines `lower-upper control: password`, and the
    two ways of judging a password against its policy. */
module Day2 {
  import opened Results
  import opened Text

  /** A parsed line: the line itself, the two bounds, the control character and
      where the password starts in the line. */
  datatype Policy = Policy(source: string, lower: nat, upper: nat, control: char, passwordIndex: nat)

  /** The `single` helper: a segment of exactly one character. */
  function Single(segment: string): (r: Result<char>)
    ensures r.Ok? <==> |segment| == 1
    ensures r.Ok? ==> segment == [r.value]
  {
    if |segment| == 1 then Ok(segment[0]) else Err
  }

  /** The delimiters of a policy line: the first ':', the first '-' before it,
      and the first ' ' after that '-' and before the ':'. */
  function Delimiters(s: string): (r: Option<(nat, nat, nat)>)
    ensures r.Some? ==> r.value.0 < r.value.2 < r.value.1 < |s|
    ensures r.Some? ==> s[r.value.0] == '-' && s[r.value.2] == ' ' && s[r.value.1] == ':'
  {
    FoundChar(s, ':');
    match Find(s, ":")
    case None => None
    case Some(colon) =>
      FoundChar(s[..colon], '-');
      match Find(s[..colon], "-")
      case None => None
      case Some(hyphen) =>
        assert s[..colon][hyphen] == s[hyphen];
        FoundChar(s[hyphen..colon], ' ');
        match Find(s[hyphen..colon], " ")
        case None => None
        case Some(offset) =>
          assert s[hyphen..colon][offset] == s[hyphen + offset];
          Some((hyphen, colon, hyphen + offset))
  }

  /** The fields between the delimiters: the two bounds must be numbers and
      exactly one character must lie between the space and the ':'. */
  function Fields(s: string, hyphen: nat, colon: nat, space: nat): Result<Policy>
    requires hyphen < space < colon <= |s|
  {
    var lower :- OkOr(ParseUnsigned(s[..hyphen]));
    var upper :- OkOr(ParseUnsigned(s[hyphen + 1..space]));
    var control :- Single(s[space + 1..colon]);
    Ok(Policy(s, lower, upper, control, colon + 2))
  }

  /** The fields are read when both bounds are numbers and exactly one
      character lies between the space and the ':'. */
  lemma FieldsMeaning(s: string, hyphen: nat, colon: nat, space: nat)
    requires hyphen < space < colon <= |s|
    ensures Fields(s, hyphen, colon, space).Ok? <==>
      (ParseUnsigned(s[..hyphen]).Some? && ParseUnsigned(s[hyphen + 1..space]).Some? && space + 2 == colon)
    ensures Fields(s, hyphen, colon, space).Ok? ==>
      Fields(s, hyphen, colon, space).value == Policy(s, ParseUnsigned(s[..hyphen]).value,
        ParseUnsigned(s[hyphen + 1..space]).value, s[colon - 1], colon + 2)
  {
  }

  lemma FieldsShape(s: string, hyphen: nat, colon: nat, space: nat, p: Policy)
    requires hyphen < space < colon < |s| && s[colon] == ':'
    requires Fields(s, hyphen, colon, space) == Ok(p)
    ensures p.source == s && 3 <= p.passwordIndex <= |s| + 1
    ensures s[p.passwordIndex - 2] == ':' && s[p.passwordIndex - 3] == p.control
  {
    FieldsMeaning(s, hyphen, colon, space);
    assert p.passwordIndex == colon + 2 && p.control == s[colon - 1];
  }

  /** `Policy::parse`: the line, its bounds, its control character and the
      start of its password, two characters after the ':'; a missing ':', '-'
      or space is an error. */
  function Parse(s: string): Result<Policy> {
    match Delimiters(s)
    case None => Err
    case Some((hyphen, colon, space)) => Fields(s, hyphen, colon, space)
  }

  /** A line without ':' is refused. */
  lemma ParseNeedsColon(s: string)
    ensures !Contains(s, ":") ==> Parse(s).Err?
  {
    if Parse(s).Ok? {
      var colon := Delimiters(s).value.1;
      assert OccursAt(s, ":", colon);
    }
  }

  /** The delimiters behind a parsed policy. */
  lemma ParsedDelimiters(s: string, p: Policy) returns (hyphen: nat, colon: nat, space: nat)
    requires Parse(s) == Ok(p)
    ensures hyphen < space < colon < |s| && s[colon] == ':'
    ensures Fields(s, hyphen, colon, space) == Ok(p)
  {
    hyphen, colon, space := Delimiters(s).value.0, Delimiters(s).value.1, Delimiters(s).value.2;
  }

  /** A parsed policy keeps its line, its control character sits just before
      the ':', and the ':' two places before the password. */
  lemma ParseMeaning(s: string, p: Policy)
    requires Parse(s) == Ok(p)
    ensures p.source == s && 3 <= p.passwordIndex <= |s| + 1
    ensures s[p.passwordIndex - 2] == ':' && s[p.passwordIndex - 3] == p.control
  {
    var hyphen, colon, space := ParsedDelimiters(s, p);
    FieldsShape(s, hyphen, colon, space, p);
  }

  /** A policy whose password start lies inside its line (it is one past the
      end when the line stops right after the ':'). */
  predicate HasPassword(p: Policy) {
    p.passwordIndex <= |p.source|
  }

  /** `Policy::password`: the rest of the line after ": ". */
  function Password(p: Policy): (pw: string)
    requires HasPassword(p)
    ensures |pw| == |p.source| - p.passwordIndex
  {
    p.source[p.passwordIndex..]
  }

  /** Occurrences of `c` in `s`. */
  function Occurrences(s: string, c: char): (n: nat)
    ensures n <= |s|
  {
    if s == [] then 0 else (if s[0] == c then 1 else 0) + Occurrences(s[1..], c)
  }

  /** Counting occurrences agrees with the multiplicity in the multiset of characters. */
  lemma {:induction false} OccurrencesMultiset(s: string, c: char)
    ensures Occurrences(s, c) == multiset(s)[c]
  {
    if s != [] {
      OccurrencesMultiset(s[1..], c);
      assert s == [s[0]] + s[1..];
      assert multiset(s) == multiset([s[0]]) + multiset(s[1..]);
    }
  }

  /** `PartOne::is_valid`: the control character occurs between `lower` and
      `upper` times, inclusive. */
  predicate PartOneValid(p: Policy)
    requires HasPassword(p)
  {
    var count := Occurrences(Password(p), p.control);
    p.lower <= count <= p.upper
  }

  /** The 1-based positions `lower` and `upper` both lie in the password, as
      the slicing and `unwrap` of `PartTwo::is_valid` require. */
  predicate HasPositions(p: Policy) {
    HasPassword(p) && 1 <= p.lower <= |Password(p)| && 1 <= p.upper <= |Password(p)|
  }

  /** `PartTwo::is_valid`: the last character of the password up to `upper`,
      and the first one from `lower`, compared with the control character. */
  predicate PartTwoValid(p: Policy)
    requires HasPositions(p)
  {
    var pw := Password(p);
    var last := pw[..p.upper][p.upper - 1];
    var first := pw[p.lower - 1..][0];
    (p.control == last) != (p.control == first)
  }

  /** `PartTwo::is_valid` holds exactly when one, and only one, of the two
      1-based positions holds the control character. */
  lemma PartTwoMeaning(p: Policy)
    requires HasPositions(p)
    ensures PartTwoValid(p) <==>
      (Password(p)[p.lower - 1] == p.control && Password(p)[p.upper - 1] != p.control) ||
      (Password(p)[p.lower - 1] != p.control && Password(p)[p.upper - 1] == p.control)
  {
  }

  /** A policy line as the puzzle writes it, from the digits of its two bounds. */
  function Format(lower: string, upper: string, control: char, password: string): string {
    lower + ("-" + upper + " " + [control]) + (": " + password)
  }

  /** A decimal numeral: at least one digit and nothing else. */
  predicate Numeral(s: string) {
    |s| > 0 && AllDigits(s)
  }

  lemma DigitsWithout(s: string, c: char)
    requires AllDigits(s) && !IsDigit(c)
    ensures c !in s
  {
  }

  /** The first ':' of a line is the one after the control character when no
      ':' comes before it. */
  lemma ColonAfter(L: string, U: string, control: char, rest: string)
    requires AllDigits(L) && AllDigits(U) && control != ':'
    ensures Find(L + ("-" + U + " " + [control]) + (": " + rest), ":") == Some(|L| + |U| + 3)
  {
    var A := L + ("-" + U + " " + [control]);
    assert L + ("-" + U + " " + [control]) + (": " + rest) == A + [':'] + (" " + rest);
    DigitsWithout(L, ':');
    DigitsWithout(U, ':');
    assert ':' !in A;
    FindCharAfter(A, ':', " " + rest);
  }

  /** The first '-' after a number is the one right after it. */
  lemma HyphenAfterDigits(digits: string, rest: string)
    requires AllDigits(digits)
    ensures Find(digits + "-" + rest, "-") == Some(|digits|)
  {
    DigitsWithout(digits, '-');
    FindCharAfter(digits, '-', rest);
  }

  /** In "-upper c", the first ' ' is the one right after the number. */
  lemma SpaceAfterDigits(digits: string, control: char)
    requires AllDigits(digits)
    ensures Find("-" + digits + " " + [control], " ") == Some(|digits| + 1)
  {
    DigitsWithout(digits, ' ');
    FindCharAfter("-" + digits, ' ', [control]);
  }

  lemma Middle(a: string, b: string, c: string)
    ensures (a + b + c)[..|a| + |b|] == a + b
    ensures (a + b + c)[|a|..|a| + |b|] == b
  {
  }

  /** The delimiters are found by the three searches in turn. */
  lemma DelimitersFound(s: string, colon: nat, hyphen: nat, offset: nat)
    requires Find(s, ":") == Some(colon) && hyphen <= colon
    requires Find(s[..colon], "-") == Some(hyphen)
    requires Find(s[hyphen..colon], " ") == Some(offset)
    ensures Delimiters(s) == Some((hyphen, colon, hyphen + offset))
  {
  }

  /** The delimiters of a line of two numbers, a control character and a
      password sit right after each number and after the control character. */
  lemma DelimitersOf(L: string, U: string, control: char, rest: string)
    requires AllDigits(L) && AllDigits(U) && control != ':'
    ensures Delimiters(L + ("-" + U + " " + [control]) + (": " + rest)) ==
      Some((|L|, |L| + |U| + 3, |L| + |U| + 1))
  {
    var middle := "-" + U + " " + [control];
    var s := L + middle + (": " + rest);
    var colon, hyphen := |L| + |U| + 3, |L|;
    ColonAfter(L, U, control, rest);
    Middle(L, middle, ": " + rest);
    assert L + middle == L + "-" + (U + " " + [control]);
    HyphenAfterDigits(L, U + " " + [control]);
    SpaceAfterDigits(U, control);
    DelimitersFound(s, colon, hyphen, |U| + 1);
  }

  lemma ParseAt(s: string, hyphen: nat, colon: nat, space: nat)
    requires Delimiters(s) == Some((hyphen, colon, space))
    ensures hyphen < space < colon <= |s| && Parse(s) == Fields(s, hyphen, colon, space)
  {
  }

  lemma FieldsOk(s: string, hyphen: nat, colon: nat, space: nat, lower: nat, upper: nat)
    requires hyphen < space < colon <= |s| && space + 2 == colon
    requires ParseUnsigned(s[..hyphen]) == Some(lower) && ParseUnsigned(s[hyphen + 1..space]) == Some(upper)
    ensures Fields(s, hyphen, colon, space) == Ok(Policy(s, lower, upper, s[colon - 1], colon + 2))
  {
  }

  lemma PiecesOf(L: string, U: string, control: char, rest: string)
    ensures (L + ("-" + U + " " + [control]) + (": " + rest))[..|L|] == L
    ensures (L + ("-" + U + " " + [control]) + (": " + rest))[|L| + 1..|L| + |U| + 1] == U
    ensures (L + ("-" + U + " " + [control]) + (": " + rest))[|L| + |U| + 2] == control
  {
    var middle := "-" + U + " " + [control];
    Middle(L, middle, ": " + rest);
    assert middle[1..|U| + 1] == U;
  }

  /** Parsing a line of two numbers, a control character other than ':' and a
      password reads the fields between the delimiters found after each number
      and after the control character. */
  lemma ParseSplitOf(L: string, U: string, control: char, rest: string)
    requires AllDigits(L) && AllDigits(U) && control != ':'
    ensures |L| + |U| + 3 <= |L + ("-" + U + " " + [control]) + (": " + rest)|
    ensures Parse(L + ("-" + U + " " + [control]) + (": " + rest)) ==
      Fields(L + ("-" + U + " " + [control]) + (": " + rest), |L|, |L| + |U| + 3, |L| + |U| + 1)
  {
    DelimitersOf(L, U, control, rest);
    ParseAt(L + ("-" + U + " " + [control]) + (": " + rest), |L|, |L| + |U| + 3, |L| + |U| + 1);
  }

  /** The fields of such a line are its two numbers and its control character,
      with the password five characters after the numbers. */
  lemma FieldsOf(L: string, U: string, control: char, rest: string, lower: nat, upper: nat)
    requires ParseUnsigned(L) == Some(lower) && ParseUnsigned(U) == Some(upper)
    ensures Fields(L + ("-" + U + " " + [control]) + (": " + rest), |L|, |L| + |U| + 3, |L| + |U| + 1) ==
      Ok(Policy(L + ("-" + U + " " + [control]) + (": " + rest), lower, upper, control, |L| + |U| + 5))
  {
    var s := L + ("-" + U + " " + [control]) + (": " + rest);
    PiecesOf(L, U, control, rest);
    FieldsOk(s, |L|, |L| + |U| + 3, |L| + |U| + 1, lower, upper);
  }

  /** Parsing a written policy line gives back its bounds, its control character
      and the start of its password, provided the control character is not the
      ':' itself. */
  lemma ParseFormat(lower: string, upper: string, control: char, password: string)
    requires Numeral(lower) && Numeral(upper) && control != ':'
    ensures Parse(Format(lower, upper, control, password)) ==
      Ok(Policy(Format(lower, upper, control, password), DigitsValue(lower), DigitsValue(upper),
        control, |lower| + |upper| + 5))
  {
    assert lower[0] != '+' && upper[0] != '+';
    ParseSplitOf(lower, upper, control, password);
    FieldsOf(lower, upper, control, password, DigitsValue(lower), DigitsValue(upper));
  }

  /** The password of a policy read from a written line is the password it was
      written with. */
  lemma PasswordFormat(lower: string, upper: string, control: char, password: string, low: nat, high: nat)
    ensures HasPassword(Policy(Format(lower, upper, control, password), low, high, control, |lower| + |upper| + 5))
    ensures Password(Policy(Format(lower, upper, control, password), low, high, control, |lower| + |upper| + 5))
      == password
  {
    var s := Format(lower, upper, control, password);
    var prefix := lower + ("-" + upper + " " + [control]) + ": ";
    assert s == prefix + password;
    assert s[|prefix|..] == password;
  }

  /** The two validation rules, as `evaluate` takes them by type. */
  datatype Validation = PartOne | PartTwo

  /** A rule can judge a policy without panicking. */
  predicate Judgeable(v: Validation, p: Policy) {
    match v
    case PartOne => HasPassword(p)
    case PartTwo => HasPositions(p)
  }

  predicate IsValid(v: Validation, p: Policy)
    requires Judgeable(v, p)
  {
    match v
    case PartOne => PartOneValid(p)
    case PartTwo => PartTwoValid(p)
  }

  predicate AllJudgeable(v: Validation, policies: seq<Policy>) {
    forall i :: 0 <= i < |policies| ==> Judgeable(v, policies[i])
  }

  /** The number of policies the rule accepts. */
  function CountValid(v: Validation, policies: seq<Policy>): (n: nat)
    requires AllJudgeable(v, policies)
    ensures n <= |policies|
  {
    if policies == [] then 0
    else
      assert forall i :: 1 <= i < |policies| ==> policies[i] == policies[1..][i - 1];
      (if IsValid(v, policies[0]) then 1 else 0) + CountValid(v, policies[1..])
  }

  /** Every line parses (`evaluate` unwraps the parse) and the rule can judge it. */
  predicate Evaluable(v: Validation, s: string) {
    AllOk(Parse, Lines(s)) && AllJudgeable(v, CollectOk(Parse, Lines(s)))
  }

  /** `evaluate`: the number of valid policies among the lines of the input. */
  function Evaluate(v: Validation, s: string): (n: nat)
    requires Evaluable(v, s)
    ensures n <= |Lines(s)|
  {
    CountValid(v, CollectOk(Parse, Lines(s)))
  }

  /** Each policy's verdict, in order. */
  function Verdicts(v: Validation, policies: seq<Policy>): (r: seq<bool>)
    requires AllJudgeable(v, policies)
    ensures |r| == |policies| && forall i :: 0 <= i < |r| ==> r[i] == IsValid(v, policies[i])
  {
    seq(|policies|, i requires 0 <= i < |policies| => IsValid(v, policies[i]))
  }

  /** The count is the number of `true` verdicts. */
  lemma {:induction false} CountValidVerdicts(v: Validation, policies: seq<Policy>)
    requires AllJudgeable(v, policies)
    ensures CountValid(v, policies) == multiset(Verdicts(v, policies))[true]
  {
    if policies != [] {
      var rest := policies[1..];
      assert AllJudgeable(v, rest);
      CountValidVerdicts(v, rest);
      var all := Verdicts(v, policies);
      assert all == [all[0]] + Verdicts(v, rest);
      assert multiset(all) == multiset([all[0]]) + multiset(Verdicts(v, rest));
    }
  }

  lemma FormatGoodPolicy()
    ensures Format("1", "3", 'a', "aaa") == "1-3 a: aaa"
  {
  }

  lemma SmallNumerals()
    ensures DigitsValue("1") == 1 && DigitsValue("2") == 2
    ensures DigitsValue("3") == 3 && DigitsValue("9") == 9
  {
  }

  /** `"1-3 a: aaa"`, written by `Format`, parses to bounds 1 and 3, control
      'a', and the password from index 7. */
  lemma GoodPolicyParses()
    ensures Parse(Format("1", "3", 'a', "aaa")) == Ok(Policy(Format("1", "3", 'a', "aaa"), 1, 3, 'a', 7))
  {
    SmallNumerals();
    ParseFormat("1", "3", 'a', "aaa");
  }

  /** Its password is "aaa", which part one accepts; "bbb" it rejects. */
  lemma GoodPolicyJudged()
    ensures HasPassword(Policy("1-3 a: aaa", 1, 3, 'a', 7))
    ensures Password(Policy("1-3 a: aaa", 1, 3, 'a', 7)) == "aaa"
    ensures PartOneValid(Policy("1-3 a: aaa", 1, 3, 'a', 7))
    ensures !PartOneValid(Policy("1-3 a: bbb", 1, 3, 'a', 7))
  {
    assert "1-3 a: aaa"[7..] == "aaa";
    assert "1-3 a: bbb"[7..] == "bbb";
  }

  /** The three lines of the puzzle's example. */
  function ExampleLines(): seq<string> {
    [Format("1", "3", 'a', "abcde"), Format("1", "3", 'b', "cdefg"), Format("2", "9", 'c', "ccccccccc")]
  }

  lemma ExampleLinesText()
    ensures ExampleLines()[0] == "1-3 a: abcde"
    ensures ExampleLines()[1] == "1-3 b: cdefg"
    ensures ExampleLines()[2] == "2-9 c: ccccccccc"
  {
  }

  /** The example, one policy per line. */
  function Example(): string {
    ExampleLines()[0] + "\n" + (ExampleLines()[1] + "\n" + ExampleLines()[2])
  }

  /** The example lines, parsed. */
  function ExamplePolicies(): seq<Policy> {
    [Policy(ExampleLines()[0], 1, 3, 'a', 7), Policy(ExampleLines()[1], 1, 3, 'b', 7),
     Policy(ExampleLines()[2], 2, 9, 'c', 7)]
  }

  /** "abcde" holds one 'a', at position 1 but not 3: valid for both rules. */
  lemma ExampleJudged0()
    ensures Judgeable(PartOne, ExamplePolicies()[0]) && Judgeable(PartTwo, ExamplePolicies()[0])
    ensures IsValid(PartOne, ExamplePolicies()[0]) && IsValid(PartTwo, ExamplePolicies()[0])
  {
    PasswordFormat("1", "3", 'a', "abcde", 1, 3);
  }

  /** "cdefg" holds no 'b': invalid for both rules. */
  lemma ExampleJudged1()
    ensures Judgeable(PartOne, ExamplePolicies()[1]) && Judgeable(PartTwo, ExamplePolicies()[1])
    ensures !IsValid(PartOne, ExamplePolicies()[1]) && !IsValid(PartTwo, ExamplePolicies()[1])
  {
    PasswordFormat("1", "3", 'b', "cdefg", 1, 3);
    assert Occurrences("cdefg", 'b') == 0;
  }

  /** "ccccccccc" holds nine 'c's, at positions 2 and 9 alike: valid for part
      one, invalid for part two. */
  lemma ExampleJudged2()
    ensures Judgeable(PartOne, ExamplePolicies()[2]) && Judgeable(PartTwo, ExamplePolicies()[2])
    ensures IsValid(PartOne, ExamplePolicies()[2]) && !IsValid(PartTwo, ExamplePolicies()[2])
  {
    PasswordFormat("2", "9", 'c', "ccccccccc", 2, 9);
    assert Occurrences("ccccccccc", 'c') == 9;
  }

  lemma VerdictsOfThree(v: Validation, a: Policy, b: Policy, c: Policy)
    requires Judgeable(v, a) && Judgeable(v, b) && Judgeable(v, c)
    ensures AllJudgeable(v, [a, b, c])
    ensures Verdicts(v, [a, b, c]) == [IsValid(v, a), IsValid(v, b), IsValid(v, c)]
  {
  }

  /** The three example policies: part one judges them valid, invalid, valid;
      part two valid, invalid, invalid. */
  lemma ExampleVerdicts()
    ensures AllJudgeable(PartOne, ExamplePolicies()) && AllJudgeable(PartTwo, ExamplePolicies())
    ensures Verdicts(PartOne, ExamplePolicies()) == [true, false, true]
    ensures Verdicts(PartTwo, ExamplePolicies()) == [true, false, false]
  {
    var ps := ExamplePolicies();
    ExampleJudged0();
    ExampleJudged1();
    ExampleJudged2();
    assert ps == [ps[0], ps[1], ps[2]];
    VerdictsOfThree(PartOne, ps[0], ps[1], ps[2]);
    VerdictsOfThree(PartTwo, ps[0], ps[1], ps[2]);
  }

  lemma ExampleSplitLines()
    ensures Lines(Example()) == ExampleLines()
  {
    var a, b, c := ExampleLines()[0], ExampleLines()[1], ExampleLines()[2];
    ExampleLinesText();
    assert '\n' !in c;
    LinesOne(c);
    assert '\n' !in b;
    LinesCons(b, c);
    assert '\n' !in a;
    LinesCons(a, b + "\n" + c);
    assert StripCarriageReturn(a) == a && StripCarriageReturn(b) == b;
  }

  lemma ExampleLine0()
    ensures Parse(Format("1", "3", 'a', "abcde")) == Ok(Policy(Format("1", "3", 'a', "abcde"), 1, 3, 'a', 7))
  {
    SmallNumerals();
    ParseFormat("1", "3", 'a', "abcde");
  }

  lemma ExampleLine1()
    ensures Parse(Format("1", "3", 'b', "cdefg")) == Ok(Policy(Format("1", "3", 'b', "cdefg"), 1, 3, 'b', 7))
  {
    SmallNumerals();
    ParseFormat("1", "3", 'b', "cdefg");
  }

  lemma ExampleLine2()
    ensures Parse(Format("2", "9", 'c', "ccccccccc")) ==
      Ok(Policy(Format("2", "9", 'c', "ccccccccc"), 2, 9, 'c', 7))
  {
    SmallNumerals();
    ParseFormat("2", "9", 'c', "ccccccccc");
  }

  lemma ExampleParsed()
    ensures AllOk(Parse, ExampleLines()) && CollectOk(Parse, ExampleLines()) == ExamplePolicies()
  {
    ExampleLine0();
    ExampleLine1();
    ExampleLine2();
    CollectThree(Parse, Format("1", "3", 'a', "abcde"), Format("1", "3", 'b', "cdefg"), Format("2", "9", 'c', "ccccccccc"),
      ExamplePolicies()[0], ExamplePolicies()[1], ExamplePolicies()[2]);
  }

  /** Evaluating a text whose lines are known. */
  lemma EvaluateLines(v: Validation, s: string, lines: seq<string>)
    requires Lines(s) == lines && AllOk(Parse, lines) && AllJudgeable(v, CollectOk(Parse, lines))
    ensures Evaluable(v, s) && Evaluate(v, s) == CountValid(v, CollectOk(Parse, lines))
  {
  }

  /** `evaluate::<PartOne>` on the example counts two valid policies. */
  lemma ExampleEvaluate()
    ensures Evaluable(PartOne, Example()) && Evaluate(PartOne, Example()) == 2
  {
    ExampleSplitLines();
    ExampleParsed();
    ExampleVerdicts();
    EvaluateLines(PartOne, Example(), ExampleLines());
    CountValidVerdicts(PartOne, ExamplePolicies());
    assert multiset([true, false, true])[true] == 2;
  }
}
