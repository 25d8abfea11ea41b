/** `day12.rs`: a ship steered by a waypoint. `N`/`S`/`E`/`W` move the
    waypoint, `L`/`R` turn it about the ship in quarter turns, and `F` moves
    the ship towards it a number of times. The source's `i32` values are
    unbounded integers here. */
module Day12 {
  import opened Results
  import opened Text
  import opened Integers

  datatype Action = MoveNorth | MoveSouth | MoveEast | MoveWest | TurnLeft | TurnRight | Forward

  datatype Instruction = Instruction(action: Action, value: int)

  /** A point, or an offset, east and north of the origin. */
  datatype Position = Position(east: int, north: int)

  datatype State = State(waypoint: Position, position: Position)

  /** The number of clockwise quarter turns, from 0 to 3, that turning
      `degreesLeft` to the left amounts to; the source panics unless the angle
      is a multiple of 90. */
  function QuarterTurns(degreesLeft: int): (r: int)
    requires degreesLeft % 90 == 0
  {
    var clockwiseNineties := Quot(-degreesLeft, 90);
    var n := Rem(clockwiseNineties, 4);
    if n < 0 then n + 4 else n % 4
  }

  /** Turning left by `90 m` degrees is `-m` clockwise quarter turns, counted
      modulo 4. */
  lemma QuarterTurnsMeaning(degreesLeft: int)
    requires degreesLeft % 90 == 0
    ensures QuarterTurns(degreesLeft) == (-(degreesLeft / 90)) % 4
    ensures 0 <= QuarterTurns(degreesLeft) < 4
  {
    var m := degreesLeft / 90;
    assert Quot(-degreesLeft, 90) == -m;
    RemNormalised(-m, 4);
  }

  /** `Position::rotate`: the quarter turn count picks one of four fixed
      rearrangements of the coordinates. */
  function Rotate(p: Position, degreesLeft: int): Position
    requires degreesLeft % 90 == 0
  {
    QuarterTurnsMeaning(degreesLeft);
    match QuarterTurns(degreesLeft)
    case 0 => p
    case 1 => Position(p.north, -p.east)
    case 2 => Position(-p.east, -p.north)
    case 3 => Position(-p.north, p.east)
  }

  /** One clockwise quarter turn about the origin. */
  function Clockwise(p: Position): Position {
    Position(p.north, -p.east)
  }

  /** `k` clockwise quarter turns in a row. */
  function Turn(p: Position, k: nat): Position {
    if k == 0 then p else Clockwise(Turn(p, k - 1))
  }

  /** Turns add up. */
  lemma {:induction false} TurnAdd(p: Position, j: nat, k: nat)
    ensures Turn(Turn(p, j), k) == Turn(p, j + k)
    decreases k
  {
    if k > 0 {
      TurnAdd(p, j, k - 1);
    }
  }

  /** Four quarter turns bring every point back. */
  lemma FourTurns(p: Position)
    ensures Turn(p, 1) == Position(p.north, -p.east)
    ensures Turn(p, 2) == Position(-p.east, -p.north)
    ensures Turn(p, 3) == Position(-p.north, p.east)
    ensures Turn(p, 4) == p
  {
    assert Turn(p, 1) == Clockwise(Turn(p, 0));
    assert Turn(p, 2) == Clockwise(Turn(p, 1));
    assert Turn(p, 3) == Clockwise(Turn(p, 2));
    assert Turn(p, 4) == Clockwise(Turn(p, 3));
  }

  /** Only the number of turns modulo 4 matters. */
  lemma {:induction false} TurnMod(p: Position, k: nat)
    ensures Turn(p, k) == Turn(p, k % 4)
    decreases k
  {
    if k >= 4 {
      TurnMod(p, k - 4);
      TurnAdd(p, k - 4, 4);
      FourTurns(Turn(p, k - 4));
    }
  }

  /** Rotating turns the point clockwise as many quarter turns as the angle
      to the left is short of a whole number of turns. */
  lemma RotateIsTurns(p: Position, degreesLeft: int)
    requires degreesLeft % 90 == 0
    ensures Rotate(p, degreesLeft) == Turn(p, (-(degreesLeft / 90)) % 4)
  {
    QuarterTurnsMeaning(degreesLeft);
    FourTurns(p);
  }

  /** Angles that are multiples of 90 add up as their quarter turn counts do. */
  lemma AnglesAdd(a: int, b: int)
    requires a % 90 == 0 && b % 90 == 0
    ensures (a + b) % 90 == 0
    ensures (-((a + b) / 90)) % 4 == ((-(a / 90)) % 4 + (-(b / 90)) % 4) % 4
  {
    assert (a + b) / 90 == a / 90 + b / 90;
  }

  /** Rotating by one angle then another is rotating by their sum. */
  lemma RotateCompose(p: Position, a: int, b: int, sum: int)
    requires a % 90 == 0 && b % 90 == 0 && sum == a + b
    ensures sum % 90 == 0
    ensures Rotate(Rotate(p, a), b) == Rotate(p, sum)
  {
    var i, j := (-(a / 90)) % 4, (-(b / 90)) % 4;
    AnglesAdd(a, b);
    var k := (-(sum / 90)) % 4;
    assert k == (i + j) % 4;
    var q := Rotate(p, a);
    RotateIsTurns(p, a);
    assert q == Turn(p, i);
    RotateIsTurns(q, b);
    RotateIsTurns(p, sum);
    TurnAdd(p, i, j);
    TurnMod(p, i + j);
    calc {
      Rotate(q, b);
      Turn(q, j);
      Turn(p, i + j);
      Turn(p, k);
      Rotate(p, sum);
    }
  }

  /** A turn to the right undoes the same turn to the left. */
  lemma RotateInverse(p: Position, degreesLeft: int, degreesRight: int)
    requires degreesLeft % 90 == 0 && degreesRight == -degreesLeft
    ensures degreesRight % 90 == 0
    ensures Rotate(Rotate(p, degreesLeft), degreesRight) == p
  {
    RotateCompose(p, degreesLeft, degreesRight, 0);
    RotateIsTurns(p, 0);
  }

  /** A whole turn changes nothing. */
  lemma FullTurn(p: Position)
    ensures Rotate(p, 360) == p
  {
    RotateIsTurns(p, 360);
  }

  /** Rotation keeps the sizes of the two coordinates, possibly swapped. */
  lemma RotateKeepsSizes(p: Position, degreesLeft: int)
    requires degreesLeft % 90 == 0
    ensures multiset{Abs(Rotate(p, degreesLeft).east), Abs(Rotate(p, degreesLeft).north)} ==
      multiset{Abs(p.east), Abs(p.north)}
  {
    QuarterTurnsMeaning(degreesLeft);
  }

  /** The source panics on a turn that is not a multiple of 90 degrees. */
  predicate Steerable(i: Instruction) {
    (i.action == TurnLeft || i.action == TurnRight) ==> i.value % 90 == 0
  }

  /** `State::new`: the waypoint 10 east and 1 north, the ship at the origin. */
  function NewState(): (s: State)
    ensures s.waypoint == Position(10, 1) && s.position == Position(0, 0)
  {
    State(Position(10, 1), Position(0, 0))
  }

  /** `State::next`. */
  function Next(s: State, i: Instruction): State
    requires Steerable(i)
  {
    var (w, p, v) := (s.waypoint, s.position, i.value);
    match i.action
    case MoveNorth => s.(waypoint := w.(north := w.north + v))
    case MoveSouth => s.(waypoint := w.(north := w.north - v))
    case MoveEast => s.(waypoint := w.(east := w.east + v))
    case MoveWest => s.(waypoint := w.(east := w.east - v))
    case TurnLeft => s.(waypoint := Rotate(w, v))
    case TurnRight => s.(waypoint := Rotate(w, -v))
    case Forward => s.(position := Position(p.east + v * w.east, p.north + v * w.north))
  }

  /** Only `F` moves the ship, and it leaves the waypoint where it is; turns
      keep the waypoint's distances from the ship's axes. */
  lemma NextFrame(s: State, i: Instruction)
    requires Steerable(i)
    ensures i.action != Forward ==> Next(s, i).position == s.position
    ensures i.action == Forward ==> Next(s, i).waypoint == s.waypoint
    ensures i.action == TurnLeft || i.action == TurnRight ==>
      multiset{Abs(Next(s, i).waypoint.east), Abs(Next(s, i).waypoint.north)} ==
      multiset{Abs(s.waypoint.east), Abs(s.waypoint.north)}
  {
    if i.action == TurnLeft {
      RotateKeepsSizes(s.waypoint, i.value);
    } else if i.action == TurnRight {
      RotateKeepsSizes(s.waypoint, -i.value);
    }
  }

  /** The instruction that undoes `i`: the opposite move or turn, or going
      forward the same number of times backwards. */
  function Opposite(i: Instruction): (r: Instruction)
    ensures Steerable(i) ==> Steerable(r)
  {
    match i.action
    case MoveNorth => i.(action := MoveSouth)
    case MoveSouth => i.(action := MoveNorth)
    case MoveEast => i.(action := MoveWest)
    case MoveWest => i.(action := MoveEast)
    case TurnLeft => i.(action := TurnRight)
    case TurnRight => i.(action := TurnLeft)
    case Forward => i.(value := -i.value)
  }

  /** Every instruction can be undone. */
  lemma NextUndone(s: State, i: Instruction)
    requires Steerable(i)
    ensures Next(Next(s, i), Opposite(i)) == s
  {
    if i.action == TurnLeft {
      RotateInverse(s.waypoint, i.value, -i.value);
    } else if i.action == TurnRight {
      RotateInverse(s.waypoint, -i.value, i.value);
    } else if i.action == Forward {
      var w := s.waypoint;
      assert (-i.value) * w.east == -(i.value * w.east);
      assert (-i.value) * w.north == -(i.value * w.north);
    }
  }

  /** Every instruction applied in turn from `s`. */
  function Run(s: State, instructions: seq<Instruction>): State
    requires forall k :: 0 <= k < |instructions| ==> Steerable(instructions[k])
  {
    if |instructions| == 0 then s
    else Next(Run(s, instructions[..|instructions| - 1]), instructions[|instructions| - 1])
  }

  /** Running one sequence after another is running them joined. */
  lemma {:induction false} RunAppend(s: State, a: seq<Instruction>, b: seq<Instruction>)
    requires forall k :: 0 <= k < |a| ==> Steerable(a[k])
    requires forall k :: 0 <= k < |b| ==> Steerable(b[k])
    ensures forall k :: 0 <= k < |a + b| ==> Steerable((a + b)[k])
    ensures Run(Run(s, a), b) == Run(s, a + b)
    decreases |b|
  {
    if |b| > 0 {
      var init := b[..|b| - 1];
      RunAppend(s, a, init);
      assert (a + b)[..|a + b| - 1] == a + init;
      assert (a + b)[|a + b| - 1] == b[|b| - 1];
    } else {
      assert a + b == a;
    }
  }

  /** The letter of an action. */
  function Letter(a: Action): char {
    match a
    case MoveNorth => 'N'
    case MoveSouth => 'S'
    case MoveEast => 'E'
    case MoveWest => 'W'
    case TurnLeft => 'L'
    case TurnRight => 'R'
    case Forward => 'F'
  }

  /** The action of a letter; any other letter is an error. */
  function ActionOf(c: char): (r: Result<Action>)
    ensures r.Ok? <==> c in "NSEWLRF"
    ensures r.Ok? ==> Letter(r.value) == c
  {
    if c == 'N' then Ok(MoveNorth)
    else if c == 'S' then Ok(MoveSouth)
    else if c == 'E' then Ok(MoveEast)
    else if c == 'W' then Ok(MoveWest)
    else if c == 'L' then Ok(TurnLeft)
    else if c == 'R' then Ok(TurnRight)
    else if c == 'F' then Ok(Forward)
    else Err
  }

  /** Every action's letter reads back as that action. */
  lemma ActionOfLetter(a: Action)
    ensures ActionOf(Letter(a)) == Ok(a)
  {
  }

  /** `Instruction::from_str`: the first character is the action, the rest
      the value; `split_at(1)` panics on an empty line. */
  function ParseInstruction(s: string): (r: Result<Instruction>)
    requires |s| >= 1
    ensures r.Ok? <==> s[0] in "NSEWLRF" && ParseSigned(s[1..]).Some?
    ensures r.Ok? ==> Letter(r.value.action) == s[0] && ParseSigned(s[1..]) == Some(r.value.value)
  {
    var (c, rest) := (s[..1], s[1..]);
    match ParseSigned(rest)
    case None => Err
    case Some(v) =>
      var a :- ActionOf(c[0]);
      Ok(Instruction(a, v))
  }

  /** An instruction as a line of the input. */
  function Format(i: Instruction): (s: string)
    ensures |s| >= 1
  {
    [Letter(i.action)] + ShowInt(i.value)
  }

  /** Writing an instruction and parsing it gives it back. */
  lemma ParseFormat(i: Instruction)
    ensures ParseInstruction(Format(i)) == Ok(i)
  {
    var s := Format(i);
    assert s[1..] == ShowInt(i.value);
    assert s[..1][0] == Letter(i.action);
    ActionOfLetter(i.action);
    ParseShowInt(i.value);
  }

  /** The input can be parsed, and steered, line by line: the source unwraps
      every parse and panics on a turn that is not a multiple of 90. */
  predicate Steers(lines: seq<string>) {
    forall k :: 0 <= k < |lines| ==>
      |lines[k]| >= 1 && ParseInstruction(lines[k]).Ok? && Steerable(ParseInstruction(lines[k]).value)
  }

  /** The instructions of the input. */
  function Instructions(lines: seq<string>): (r: seq<Instruction>)
    requires Steers(lines)
    ensures |r| == |lines|
    ensures forall k :: 0 <= k < |r| ==> ParseInstruction(lines[k]) == Ok(r[k]) && Steerable(r[k])
  {
    seq(|lines|, k requires 0 <= k < |lines| => ParseInstruction(lines[k]).value)
  }

  /** The loop of `part2` has run the first `i` instructions. */
  ghost predicate Ran(lines: seq<string>, i: nat, s: State)
    requires Steers(lines)
  {
    i <= |lines| && s == Run(NewState(), Instructions(lines)[..i])
  }

  lemma RanStep(lines: seq<string>, i: nat, s: State)
    requires Steers(lines) && Ran(lines, i, s) && i < |lines|
    ensures Ran(lines, i + 1, Next(s, ParseInstruction(lines[i]).value))
  {
    var all := Instructions(lines);
    PrefixSnoc(all, i);
  }

  lemma RanAll(lines: seq<string>, s: State)
    requires Steers(lines) && Ran(lines, |lines|, s)
    ensures s == Run(NewState(), Instructions(lines))
  {
    assert Instructions(lines)[..|lines|] == Instructions(lines);
  }

  /** `part2`: the Manhattan distance of the ship from the origin after every
      instruction of the input. */
  method Part2(input: string) returns (distance: nat)
    requires Steers(Lines(input))
    ensures distance == Abs(Run(NewState(), Instructions(Lines(input))).position.north) +
      Abs(Run(NewState(), Instructions(Lines(input))).position.east)
  {
    var lines := Lines(input);
    var s := NewState();
    var i := 0;
    while i < |lines|
      invariant Ran(lines, i, s)
    {
      RanStep(lines, i, s);
      s := Next(s, ParseInstruction(lines[i]).value);
      i := i + 1;
    }
    RanAll(lines, s);
    distance := Abs(s.position.north) + Abs(s.position.east);
  }

  function Example(): seq<Instruction> {
    [Instruction(Forward, 10), Instruction(MoveNorth, 3), Instruction(Forward, 7),
     Instruction(TurnRight, 90), Instruction(Forward, 11)]
  }

  /** Instructions written one per line. */
  function ShowInstructions(p: seq<Instruction>): (r: seq<string>)
    ensures |r| == |p|
    ensures forall k :: 0 <= k < |r| ==> r[k] == Format(p[k])
  {
    seq(|p|, k requires 0 <= k < |p| => Format(p[k]))
  }

  /** A written instruction is a line without a line feed, ending in a digit. */
  lemma FormatPlain(i: Instruction)
    ensures '\n' !in Format(i)
    ensures IsDigit(Format(i)[|Format(i)| - 1])
  {
    var s := Format(i);
    ShowIntChars(i.value, '\n');
    forall k | 0 <= k < |s|
      ensures s[k] != '\n'
    {
      if k > 0 {
        assert s[k] == ShowInt(i.value)[k - 1];
      }
    }
  }

  /** Steerable instructions written one per line and joined with line
      feeds are read back, line by line, as the same instructions. */
  lemma ParseShowInstructions(p: seq<Instruction>)
    requires forall k :: 0 <= k < |p| ==> Steerable(p[k])
    ensures Lines(Join(ShowInstructions(p), "\n")) == ShowInstructions(p)
    ensures Steers(Lines(Join(ShowInstructions(p), "\n")))
    ensures Instructions(Lines(Join(ShowInstructions(p), "\n"))) == p
  {
    var rows := ShowInstructions(p);
    if |p| > 0 {
      forall k | 0 <= k < |rows|
        ensures rows[k] != "" && '\n' !in rows[k] && rows[k][|rows[k]| - 1] != '\r'
      {
        FormatPlain(p[k]);
      }
      LinesJoin(rows);
    }
    forall k | 0 <= k < |rows|
      ensures ParseInstruction(rows[k]) == Ok(p[k])
    {
      ParseFormat(p[k]);
    }
    var r := Instructions(rows);
    assert forall k :: 0 <= k < |r| ==> ParseInstruction(rows[k]) == Ok(r[k]);
  }

  /** `EXAMPLE`, line by line. */
  function ExampleRows(): seq<string> {
    ["F10", "N3", "F7", "R90", "F11"]
  }

  /** `EXAMPLE`: its lines joined by line feeds. */
  function ExampleText(): string {
    Join(ExampleRows(), "\n")
  }

  /** The lines of `EXAMPLE` write the example's instructions. */
  lemma ExampleRowsShown(rows: seq<string>, p: seq<Instruction>)
    requires rows == ExampleRows() && p == Example()
    ensures rows == ShowInstructions(p)
  {
    assert ShowNat(10) == ShowNat(1) + [DigitChar(0)];
    assert ShowNat(90) == ShowNat(9) + [DigitChar(0)];
    assert ShowNat(11) == ShowNat(1) + [DigitChar(1)];
    assert Format(p[0]) == rows[0] && Format(p[1]) == rows[1] && Format(p[2]) == rows[2];
    assert Format(p[3]) == rows[3] && Format(p[4]) == rows[4];
  }

  /** `EXAMPLE.lines()` parse to the example's instructions: each line
      alone, and the lines of the text. */
  lemma ParseExample()
    ensures ParseInstruction("F10") == Ok(Instruction(Forward, 10))
    ensures ParseInstruction("N3") == Ok(Instruction(MoveNorth, 3))
    ensures ParseInstruction("F7") == Ok(Instruction(Forward, 7))
    ensures ParseInstruction("R90") == Ok(Instruction(TurnRight, 90))
    ensures ParseInstruction("F11") == Ok(Instruction(Forward, 11))
    ensures Lines(ExampleText()) == ["F10", "N3", "F7", "R90", "F11"]
    ensures Steers(Lines(ExampleText()))
    ensures Instructions(Lines(ExampleText())) == Example()
  {
    ExampleTextParses();
    ParseRowsExample();
  }

  /** The lines of `EXAMPLE` are its five rows, read as the example's instructions. */
  lemma ExampleTextParses()
    ensures Lines(ExampleText()) == ["F10", "N3", "F7", "R90", "F11"]
    ensures Steers(Lines(ExampleText()))
    ensures Instructions(Lines(ExampleText())) == Example()
  {
    ExampleRowsShown(ExampleRows(), Example());
    ParseShowInstructions(Example());
  }

  /** Each row of the example parses to its instruction. */
  lemma ParseRowsExample()
    ensures ParseInstruction("F10") == Ok(Instruction(Forward, 10))
    ensures ParseInstruction("N3") == Ok(Instruction(MoveNorth, 3))
    ensures ParseInstruction("F7") == Ok(Instruction(Forward, 7))
    ensures ParseInstruction("R90") == Ok(Instruction(TurnRight, 90))
    ensures ParseInstruction("F11") == Ok(Instruction(Forward, 11))
  {
    ParseLine("F10", Instruction(Forward, 10));
    ParseLine("N3", Instruction(MoveNorth, 3));
    ParseLine("F7", Instruction(Forward, 7));
    ParseLine("R90", Instruction(TurnRight, 90));
    ParseLine("F11", Instruction(Forward, 11));
  }

  /** A line that reads as a letter and the digits of a natural number. */
  lemma ParseLine(s: string, i: Instruction)
    requires 0 <= i.value < 100 && |s| >= 2 && s[0] == Letter(i.action)
    requires s[1..] == if i.value < 10 then [DigitChar(i.value)] else [DigitChar(i.value / 10), DigitChar(i.value % 10)]
    ensures ParseInstruction(s) == Ok(i)
  {
    ParseFormat(i);
    if i.value >= 10 {
      assert ShowNat(i.value / 10) == [DigitChar(i.value / 10)];
    }
    assert ShowInt(i.value) == s[1..];
    assert s == Format(i);
  }

  /** `F10 N3 F7 R90 F11` leaves the ship at 214 east, 72 south, with the
      waypoint 4 east, 10 south; the distance is 286. */
  lemma RunExample()
    ensures Run(NewState(), Example()) == State(Position(4, -10), Position(214, -72))
    ensures Abs(Run(NewState(), Example()).position.north) + Abs(Run(NewState(), Example()).position.east) == 286
    ensures Steers(Lines(ExampleText()))
    ensures Run(NewState(), Instructions(Lines(ExampleText()))) == State(Position(4, -10), Position(214, -72))
  {
    ParseExample();
    RunInstructionsExample();
  }

  /** The run over the example's instructions, three at a time. */
  lemma RunInstructionsExample()
    ensures Run(NewState(), Example()) == State(Position(4, -10), Position(214, -72))
  {
    var e := Example();
    var s0 := NewState();
    var s3 := State(Position(10, 4), Position(170, 38));
    assert Run(s0, e[..3]) == s3 by {
      assert e[..3][..2][..1] == [Instruction(Forward, 10)];
      assert Run(s0, e[..3][..2][..1]) == State(Position(10, 1), Position(100, 10));
    }
    assert QuarterTurns(-90) == 1;
    assert Run(s0, e[..4]) == State(Position(4, -10), Position(170, 38)) by {
      assert e[..4][..3] == e[..3];
    }
    assert e[..5] == e && e[..5][..4] == e[..4];
  }
}
