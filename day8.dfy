/** `day8.rs`: the handheld console, a three-instruction machine with an
    address and an accumulator; detection of the first repeated address; and
    the repair search that flips one `jmp`/`nop` at a time. Arguments and
    registers are `i32` in the source; here they are unbounded integers. */
module Day8 {
  import opened Results
  import opened Text
  import opened Util

  datatype Kind = Acc | Jmp | Nop

  datatype Instruction = Instruction(kind: Kind, arg: int)

  datatype State = State(address: int, accumulator: int)

  datatype Outcome = Loop | Terminate

  /** `State::new`: the machine starts at address 0 with an empty accumulator. */
  function NewState(): (s: State)
    ensures s.address == 0 && s.accumulator == 0
  {
    State(0, 0)
  }

  /** `State::next`: no successor when the address is outside the program;
      otherwise `acc` adds its argument to the accumulator, `jmp` moves the
      address by its argument, and every other instruction moves it by one. */
  function Next(s: State, program: seq<Instruction>): (r: Option<State>)
    ensures r.None? <==> s.address < 0 || s.address >= |program|
    ensures r.Some? ==>
      r.value.accumulator - s.accumulator == (if program[s.address].kind == Acc then program[s.address].arg else 0)
    ensures r.Some? ==>
      r.value.address - s.address == (if program[s.address].kind == Jmp then program[s.address].arg else 1)
  {
    if s.address < 0 || s.address >= |program| then None
    else
      var ins := program[s.address];
      match ins.kind
      case Acc => Some(State(s.address + 1, s.accumulator + ins.arg))
      case Jmp => Some(State(s.address + ins.arg, s.accumulator))
      case Nop => Some(State(s.address + 1, s.accumulator))
  }

  /** The addresses that hold an instruction. */
  function Addresses(n: nat): (r: set<int>)
    ensures forall i :: i in r <==> 0 <= i < n
  {
    if n == 0 then {} else Addresses(n - 1) + {n - 1}
  }

  /** The loop of `get_outcome` from state `s`, having already visited `visited`:
      a state at a visited address is a loop, a state without successor ends
      the run. */
  function Run(program: seq<Instruction>, s: State, visited: set<int>): (Outcome, State)
    requires visited <= Addresses(|program|)
    decreases Addresses(|program|) - visited
  {
    if s.address in visited then (Loop, s)
    else
      match Next(s, program)
      case None => (Terminate, s)
      case Some(n) => Run(program, n, visited + {s.address})
  }

  /** The result of `get_outcome` on a program. */
  function Evaluate(program: seq<Instruction>): (Outcome, State) {
    Run(program, NewState(), {})
  }

  /** `get_outcome`: runs the machine from the start state, recording each
      address in a set, until an address repeats or there is no next state. */
  method GetOutcome(program: seq<Instruction>) returns (outcome: Outcome, last: State)
    ensures (outcome, last) == Evaluate(program)
  {
    var current := NewState();
    var visited: set<int> := {};
    while true
      invariant visited <= Addresses(|program|)
      invariant Run(program, current, visited) == Evaluate(program)
      decreases Addresses(|program|) - visited
    {
      if current.address in visited {
        return Loop, current;
      }
      var next := Next(current, program);
      if next.None? {
        return Terminate, current;
      }
      visited := visited + {current.address};
      current := next.value;
    }
  }

  /** The state after `k` steps from the start, if the machine gets that far. */
  function Reach(program: seq<Instruction>, k: nat): Option<State> {
    if k == 0 then Some(NewState())
    else
      match Reach(program, k - 1)
      case None => None
      case Some(s) => Next(s, program)
  }

  /** The addresses of the states before step `k`. */
  ghost function VisitedBefore(program: seq<Instruction>, k: nat): set<int> {
    set j | 0 <= j < k && Reach(program, j).Some? :: Reach(program, j).value.address
  }

  /** The states before step `k` are at pairwise distinct addresses. */
  ghost predicate DistinctBefore(program: seq<Instruction>, k: nat) {
    forall i, j :: 0 <= i < j < k && Reach(program, i).Some? && Reach(program, j).Some? ==>
      Reach(program, i).value.address != Reach(program, j).value.address
  }

  /** A state that is reached was preceded by states that each had a successor,
      so their addresses lie inside the program. */
  lemma {:induction false} ReachPrefix(program: seq<Instruction>, k: nat, j: nat)
    requires j <= k && Reach(program, k).Some?
    ensures Reach(program, j).Some?
    ensures j < k ==> Reach(program, j).value.address in Addresses(|program|)
    decreases k
  {
    if j < k {
      ReachPrefix(program, k - 1, j);
      if j == k - 1 {
        assert Next(Reach(program, j).value, program).Some?;
      }
    }
  }

  lemma VisitedInRange(program: seq<Instruction>, k: nat)
    requires Reach(program, k).Some?
    ensures VisitedBefore(program, k) <= Addresses(|program|)
  {
    forall a | a in VisitedBefore(program, k)
      ensures a in Addresses(|program|)
    {
      var j :| 0 <= j < k && Reach(program, j).Some? && Reach(program, j).value.address == a;
      ReachPrefix(program, k, j);
    }
  }

  lemma VisitedStep(program: seq<Instruction>, k: nat)
    requires Reach(program, k).Some?
    ensures VisitedBefore(program, k + 1) == VisitedBefore(program, k) + {Reach(program, k).value.address}
  {
  }

  /** What a run from a reached state means: it stops at a later reached
      state, all states before it at distinct addresses; it is a loop exactly
      when that state's address was visited before, and otherwise that state
      has no successor. */
  lemma {:induction false} RunMeaning(program: seq<Instruction>, k: nat)
    requires Reach(program, k).Some? && DistinctBefore(program, k)
    requires VisitedBefore(program, k) <= Addresses(|program|)
    ensures var (o, s) := Run(program, Reach(program, k).value, VisitedBefore(program, k));
      exists m :: k <= m && Reach(program, m) == Some(s) && DistinctBefore(program, m) &&
        (o == Loop <==> s.address in VisitedBefore(program, m)) &&
        (o == Terminate ==> Next(s, program) == None)
    decreases Addresses(|program|) - VisitedBefore(program, k)
  {
    var s := Reach(program, k).value;
    var visited := VisitedBefore(program, k);
    if s.address !in visited && Next(s, program).Some? {
      var n := Next(s, program).value;
      assert Reach(program, k + 1) == Some(n);
      VisitedStep(program, k);
      assert DistinctBefore(program, k + 1) by {
        forall i, j | 0 <= i < j < k + 1 && Reach(program, i).Some? && Reach(program, j).Some?
          ensures Reach(program, i).value.address != Reach(program, j).value.address
        {
          if j == k {
            assert Reach(program, i).value.address in visited;
          }
        }
      }
      VisitedInRange(program, k + 1);
      RunMeaning(program, k + 1);
      assert Run(program, s, visited) == Run(program, n, VisitedBefore(program, k + 1));
    }
  }

  /** `get_outcome` returns `Loop` with the first state whose address was
      already visited, or `Terminate` with the last state reached. */
  lemma OutcomeMeaning(program: seq<Instruction>)
    ensures var (o, s) := Evaluate(program);
      exists m :: Reach(program, m) == Some(s) && DistinctBefore(program, m) &&
        (o == Loop <==> s.address in VisitedBefore(program, m)) &&
        (o == Terminate ==> Next(s, program) == None)
  {
    assert VisitedBefore(program, 0) == {};
    RunMeaning(program, 0);
  }

  /** The instruction with `jmp` and `nop` exchanged; `acc` is never flipped. */
  function Flip(i: Instruction): Instruction {
    match i.kind
    case Jmp => Instruction(Nop, i.arg)
    case Nop => Instruction(Jmp, i.arg)
    case Acc => i
  }

  /** `get_flippables` from index `from` on: each `jmp` or `nop` with its
      index, itself and its flipped form, in index order. */
  function FlippablesFrom(program: seq<Instruction>, from: nat): (r: seq<(nat, Instruction, Instruction)>)
    requires from <= |program|
    ensures forall e :: e in r ==>
      from <= e.0 < |program| && e.1 == program[e.0] && e.1.kind != Acc && e.2 == Flip(e.1)
    decreases |program| - from
  {
    if from == |program| then []
    else if program[from].kind == Acc then FlippablesFrom(program, from + 1)
    else [(from, program[from], Flip(program[from]))] + FlippablesFrom(program, from + 1)
  }

  /** Every `jmp` and `nop` at or after `from` is listed, in increasing index order. */
  lemma {:induction false} FlippablesComplete(program: seq<Instruction>, from: nat)
    requires from <= |program|
    ensures forall i :: from <= i < |program| && program[i].kind != Acc ==>
      (i, program[i], Flip(program[i])) in FlippablesFrom(program, from)
    ensures forall a, b :: 0 <= a < b < |FlippablesFrom(program, from)| ==>
      FlippablesFrom(program, from)[a].0 < FlippablesFrom(program, from)[b].0
    decreases |program| - from
  {
    if from < |program| {
      FlippablesComplete(program, from + 1);
      var rest := FlippablesFrom(program, from + 1);
      if program[from].kind != Acc {
        var r := FlippablesFrom(program, from);
        assert r == [(from, program[from], Flip(program[from]))] + rest;
        forall a, b | 0 <= a < b < |r|
          ensures r[a].0 < r[b].0
        {
          assert r[b] == rest[b - 1] && r[b] in rest;
          if a > 0 {
            assert r[a] == rest[a - 1];
          }
        }
      }
    }
  }

  /** An `acc` at `from` is skipped. */
  lemma FlippablesSkip(program: seq<Instruction>, from: nat)
    requires from < |program| && program[from].kind == Acc
    ensures FlippablesFrom(program, from) == FlippablesFrom(program, from + 1)
  {
  }

  /** A `jmp` or `nop` at `from` is listed first. */
  lemma FlippablesTake(program: seq<Instruction>, from: nat)
    requires from < |program| && program[from].kind != Acc
    ensures FlippablesFrom(program, from) == [(from, program[from], Flip(program[from]))] + FlippablesFrom(program, from + 1)
  {
  }

  /** Trying each flip in turn on the original program: the final state of the
      first attempt that terminates. */
  function RepairSearch(program: seq<Instruction>, flips: seq<(nat, Instruction, Instruction)>): Option<State>
    requires forall e :: e in flips ==> e.0 < |program|
  {
    if flips == [] then None
    else
      var (idx, _, flipped) := flips[0];
      var (o, s) := Evaluate(program[idx := flipped]);
      if o == Terminate then Some(s) else RepairSearch(program, flips[1..])
  }

  /** The result of `part2` on a parsed program. */
  function FirstRepair(program: seq<Instruction>): Option<State> {
    RepairSearch(program, FlippablesFrom(program, 0))
  }

  /** Program `program` with the instruction at `i` flipped terminates. */
  predicate RepairedAt(program: seq<Instruction>, i: nat)
    requires i < |program|
  {
    Evaluate(program[i := Flip(program[i])]).0 == Terminate
  }

  /** No flip of an index in `[from, to)` makes the program terminate. */
  ghost predicate NoRepairBetween(program: seq<Instruction>, from: nat, to: nat)
    requires to <= |program|
  {
    forall j :: from <= j < to && program[j].kind != Acc ==> !RepairedAt(program, j)
  }

  /** Flipping index `i` is the first flip at or after `from` that makes the
      program terminate, and it ends in `last`. */
  ghost predicate FirstRepairAt(program: seq<Instruction>, from: nat, i: nat, last: State) {
    from <= i < |program| && program[i].kind != Acc && RepairedAt(program, i) &&
    Evaluate(program[i := Flip(program[i])]).1 == last && NoRepairBetween(program, from, i)
  }

  lemma {:induction false} RepairSearchFrom(program: seq<Instruction>, from: nat)
    requires from <= |program|
    ensures var r := RepairSearch(program, FlippablesFrom(program, from));
      (r.Some? ==> exists i :: FirstRepairAt(program, from, i, r.value)) &&
      (r.None? ==> NoRepairBetween(program, from, |program|))
    decreases |program| - from
  {
    if from < |program| {
      RepairSearchFrom(program, from + 1);
      var rest := FlippablesFrom(program, from + 1);
      var r := RepairSearch(program, FlippablesFrom(program, from));
      if program[from].kind != Acc {
        var flips := FlippablesFrom(program, from);
        assert flips == [(from, program[from], Flip(program[from]))] + rest;
        assert flips[1..] == rest;
        if RepairedAt(program, from) {
          assert FirstRepairAt(program, from, from, r.value);
          return;
        }
        assert r == RepairSearch(program, rest);
      }
      if r.Some? {
        var i :| FirstRepairAt(program, from + 1, i, r.value);
        assert FirstRepairAt(program, from, i, r.value);
      }
    }
  }

  /** `part2` finds the flip of lowest index that makes the program terminate,
      or reports that no single flip does. */
  lemma FirstRepairMeaning(program: seq<Instruction>)
    ensures FirstRepair(program).Some? ==> exists i :: FirstRepairAt(program, 0, i, FirstRepair(program).value)
    ensures FirstRepair(program).None? ==> NoRepairBetween(program, 0, |program|)
  {
    RepairSearchFrom(program, 0);
  }

  /** The repair loop of `part2`: flips one instruction in place, runs the
      program, and restores the instruction unless the run terminated. */
  method Repair(instructions: array<Instruction>) returns (r: Option<State>)
    modifies instructions
    ensures r == FirstRepair(old(instructions[..]))
    ensures r.None? ==> instructions[..] == old(instructions[..])
    ensures r.Some? ==>
      exists i :: 0 <= i < instructions.Length && old(instructions[i]).kind != Acc &&
        instructions[..] == old(instructions[..])[i := Flip(old(instructions[i]))]
  {
    ghost var program := instructions[..];
    var flippables := FlippablesFrom(instructions[..], 0);
    var k := 0;
    while k < |flippables|
      invariant 0 <= k <= |flippables|
      invariant instructions[..] == program
      invariant RepairSearch(program, flippables[k..]) == FirstRepair(program)
    {
      var (idx, original, flipped) := flippables[k];
      assert flippables[k] in flippables;
      instructions[idx] := flipped;
      assert instructions[..] == program[idx := flipped];
      var outcome, winner := GetOutcome(instructions[..]);
      assert flippables[k..][0] == flippables[k] && flippables[k..][1..] == flippables[k + 1..];
      if outcome == Terminate {
        return Some(winner);
      }
      instructions[idx] := original;
      assert instructions[..] == program;
      k := k + 1;
    }
    return None;
  }

  /** The mnemonic of an instruction kind. */
  function Mnemonic(k: Kind): string {
    match k
    case Nop => "nop"
    case Acc => "acc"
    case Jmp => "jmp"
  }

  /** `InstructionKind::from_str`: exactly the three mnemonics. */
  function ParseKind(s: string): (r: Result<Kind>)
    ensures r.Ok? <==> s == "nop" || s == "acc" || s == "jmp"
    ensures r.Ok? ==> Mnemonic(r.value) == s
  {
    if s == "nop" then Ok(Nop)
    else if s == "acc" then Ok(Acc)
    else if s == "jmp" then Ok(Jmp)
    else Err
  }

  /** `Instruction::from_str`: a mnemonic and a signed argument around the first
      space; a line without a space, an unknown mnemonic or an unparsable
      argument is an error. */
  function ParseInstruction(s: string): Result<Instruction> {
    match SplitTuple2(s, " ")
    case None => Err
    case Some((kind, arg)) =>
      var k :- ParseKind(kind);
      match ParseSigned(arg)
      case None => Err
      case Some(v) => Ok(Instruction(k, v))
  }

  /** A line without a space is refused; a parsed instruction's mnemonic is the
      text before the first space and its argument the text after it. */
  lemma ParseInstructionMeaning(s: string)
    ensures !Contains(s, " ") ==> ParseInstruction(s).Err?
    ensures ParseInstruction(s).Ok? ==>
      SplitTuple2(s, " ").Some? &&
      Mnemonic(ParseInstruction(s).value.kind) == SplitTuple2(s, " ").value.0 &&
      ParseSigned(SplitTuple2(s, " ").value.1) == Some(ParseInstruction(s).value.arg)
  {
  }

  lemma ParseTokens(s: string, kind: string, arg: string, k: Kind, v: int)
    requires SplitTuple2(s, " ") == Some((kind, arg))
    requires ParseKind(kind) == Ok(k) && ParseSigned(arg) == Some(v)
    ensures ParseInstruction(s) == Ok(Instruction(k, v))
  {
  }

  lemma ParseMnemonic(k: Kind)
    ensures ParseKind(Mnemonic(k)) == Ok(k)
  {
  }

  /** An instruction as a program line. */
  function Format(i: Instruction): string {
    Mnemonic(i.kind) + " " + ShowSigned(i.arg)
  }

  /** Writing an instruction as a line and parsing it gives it back. */
  lemma ParseFormat(i: Instruction)
    ensures ParseInstruction(Format(i)) == Ok(i)
  {
    var m, a := Mnemonic(i.kind), ShowSigned(i.arg);
    NoCharBefore(m, ' ', a);
    SplitTuple2Of(m, " ", a);
    ParseShowSigned(i.arg);
    ParseMnemonic(i.kind);
    ParseTokens(Format(i), m, a, i.kind, i.arg);
  }

  /** Every line of the text is an instruction: `parse_instructions` unwraps each parse. */
  predicate Parses(s: string) {
    forall i :: 0 <= i < |Lines(s)| ==> ParseInstruction(Lines(s)[i]).Ok?
  }

  /** `parse_instructions`: every line of the text, each of which must parse. */
  function ParseProgram(s: string): (r: seq<Instruction>)
    requires Parses(s)
    ensures |r| == |Lines(s)|
    ensures forall i :: 0 <= i < |r| ==> ParseInstruction(Lines(s)[i]) == Ok(r[i])
  {
    var lines := Lines(s);
    seq(|lines|, i requires 0 <= i < |lines| => ParseInstruction(lines[i]).value)
  }

  /** `part1`: the outcome of the parsed program. */
  method Part1(s: string) returns (outcome: Outcome, last: State)
    requires Parses(s)
    ensures (outcome, last) == Evaluate(ParseProgram(s))
  {
    outcome, last := GetOutcome(ParseProgram(s));
  }

  /** `part2`: the repair search on a mutable copy of the parsed program. */
  method Part2(s: string) returns (r: Option<State>)
    requires Parses(s)
    ensures r == FirstRepair(ParseProgram(s))
  {
    var program := ParseProgram(s);
    var instructions := new Instruction[|program|](i requires 0 <= i < |program| => program[i]);
    assert instructions[..] == program;
    r := Repair(instructions);
  }

  /** A program written one instruction per line. */
  function ShowProgram(p: seq<Instruction>): (r: seq<string>)
    ensures |r| == |p|
    ensures forall k :: 0 <= k < |r| ==> r[k] == Format(p[k])
  {
    seq(|p|, k requires 0 <= k < |p| => Format(p[k]))
  }

  /** A written instruction is a non-empty line ending in a digit. */
  lemma FormatPlain(i: Instruction)
    ensures Format(i) != "" && '\n' !in Format(i)
    ensures IsDigit(Format(i)[|Format(i)| - 1])
  {
    var m, a := Mnemonic(i.kind), ShowSigned(i.arg);
    var s := Format(i);
    assert s == m + " " + a;
    forall k | 0 <= k < |s|
      ensures s[k] != '\n'
    {
      if k > |m| {
        assert s[k] == a[k - |m| - 1];
        if k - |m| - 1 > 0 {
          assert a[k - |m| - 1] == a[1..][k - |m| - 2];
        }
      }
    }
    assert s[|s| - 1] == a[1..][|a| - 2];
  }

  /** A program written one instruction per line and joined with line feeds
      parses back to the same program. */
  lemma ParseShowProgram(p: seq<Instruction>)
    ensures Lines(Join(ShowProgram(p), "\n")) == ShowProgram(p)
    ensures Parses(Join(ShowProgram(p), "\n"))
    ensures ParseProgram(Join(ShowProgram(p), "\n")) == p
  {
    var rows := ShowProgram(p);
    if |p| > 0 {
      forall k | 0 <= k < |rows|
        ensures rows[k] != "" && '\n' !in rows[k] && rows[k][|rows[k]| - 1] != '\r'
      {
        FormatPlain(p[k]);
      }
      LinesJoin(rows);
    }
    forall k | 0 <= k < |rows|
      ensures ParseInstruction(rows[k]) == Ok(p[k])
    {
      ParseFormat(p[k]);
    }
    var r := ParseProgram(Join(rows, "\n"));
    assert forall k :: 0 <= k < |r| ==> ParseInstruction(rows[k]) == Ok(r[k]);
  }

  lemma ExampleTexts()
    ensures Format(Instruction(Acc, 4)) == "acc +4" && Format(Instruction(Jmp, -4)) == "jmp -4"
  {
    assert ShowSigned(4) == "+4" && ShowSigned(-4) == "-4";
  }

  /** `"acc +4"` parses to an `acc` with argument 4. */
  lemma ParseAccExample()
    ensures ParseInstruction("acc +4") == Ok(Instruction(Acc, 4))
  {
    ParseFormat(Instruction(Acc, 4));
    ExampleTexts();
  }

  /** `"jmp -4"` parses to a `jmp` with argument -4. */
  lemma ParseJmpExample()
    ensures ParseInstruction("jmp -4") == Ok(Instruction(Jmp, -4))
  {
    ParseFormat(Instruction(Jmp, -4));
    ExampleTexts();
  }

  /** A line without a space does not tokenise. */
  lemma ParseBareExample()
    ensures ParseInstruction("nop").Err?
  {
    var s := "nop";
    assert forall k :: 0 <= k < |s| ==> s[k] != ' ';
    forall i: nat | i + 1 <= |s|
      ensures !OccursAt(s, " ", i)
    {
      assert s[i..i + 1][0] == s[i];
    }
  }

  /** An unknown mnemonic is refused. */
  lemma ParseUnknownExample()
    ensures ParseInstruction("hcf +1").Err?
  {
    NoCharBefore("hcf", ' ', "+1");
    SplitTuple2Of("hcf", " ", "+1");
    assert "hcf" + " " + "+1" == "hcf +1";
  }

  /** The empty program has no successor to the start state; one `nop` advances it. */
  lemma NextExamples()
    ensures Next(NewState(), []) == None
    ensures Next(NewState(), [Instruction(Nop, 0)]) == Some(State(1, 0))
  {
  }

  /** One step of a run that does not stop. */
  lemma RunStep(program: seq<Instruction>, s: State, visited: set<int>, n: State)
    requires visited <= Addresses(|program|)
    requires s.address !in visited && Next(s, program) == Some(n)
    ensures visited + {s.address} <= Addresses(|program|)
    ensures Run(program, s, visited) == Run(program, n, visited + {s.address})
  {
  }

  function Example(): seq<Instruction> {
    [Instruction(Nop, 0), Instruction(Acc, 1), Instruction(Jmp, 4), Instruction(Acc, 3), Instruction(Jmp, -3),
     Instruction(Acc, -99), Instruction(Acc, 1), Instruction(Jmp, -4), Instruction(Acc, 6)]
  }

  /** `EXAMPLE`, line by line. */
  function ExampleRows(): seq<string> {
    ["nop +0", "acc +1", "jmp +4", "acc +3", "jmp -3", "acc -99", "acc +1", "jmp -4", "acc +6"]
  }

  /** `EXAMPLE`: its lines joined by line feeds. */
  function ExampleText(): string {
    Join(ExampleRows(), "\n")
  }

  /** `FIXED_EXAMPLE`, line by line: `EXAMPLE` with its last `jmp` a `nop`. */
  function FixedRows(): seq<string> {
    ["nop +0", "acc +1", "jmp +4", "acc +3", "jmp -3", "acc -99", "acc +1", "nop -4", "acc +6"]
  }

  /** `FIXED_EXAMPLE`: its lines joined by line feeds. */
  function FixedText(): string {
    Join(FixedRows(), "\n")
  }

  /** The arguments of the examples as the input writes them. */
  lemma ExampleArguments()
    ensures ShowSigned(0) == "+0" && ShowSigned(1) == "+1" && ShowSigned(4) == "+4"
    ensures ShowSigned(3) == "+3" && ShowSigned(-3) == "-3" && ShowSigned(-99) == "-99"
    ensures ShowSigned(-4) == "-4" && ShowSigned(6) == "+6"
  {
    assert ShowNat(99) == ShowNat(9) + [DigitChar(9)];
  }

  /** The lines of `EXAMPLE` write the example program. */
  lemma ExampleRowsShown(rows: seq<string>, p: seq<Instruction>)
    requires rows == ExampleRows() && p == Example()
    ensures rows == ShowProgram(p)
  {
    ExampleArguments();
    assert Format(p[0]) == rows[0] && Format(p[1]) == rows[1] && Format(p[2]) == rows[2];
    assert Format(p[3]) == rows[3] && Format(p[4]) == rows[4] && Format(p[5]) == rows[5];
    assert Format(p[6]) == rows[6] && Format(p[7]) == rows[7] && Format(p[8]) == rows[8];
  }

  /** The lines of `FIXED_EXAMPLE` write the example with index 7 flipped. */
  lemma FixedRowsShown(rows: seq<string>, p: seq<Instruction>)
    requires rows == FixedRows() && p == Example()[7 := Flip(Example()[7])]
    ensures rows == ShowProgram(p)
  {
    ExampleArguments();
    assert Format(p[0]) == rows[0] && Format(p[1]) == rows[1] && Format(p[2]) == rows[2];
    assert Format(p[3]) == rows[3] && Format(p[4]) == rows[4] && Format(p[5]) == rows[5];
    assert Format(p[6]) == rows[6] && Format(p[7]) == rows[7] && Format(p[8]) == rows[8];
  }

  /** `parse_instructions(EXAMPLE)` is the example program. */
  lemma ExampleParses()
    ensures Parses(ExampleText())
    ensures ParseProgram(ExampleText()) == Example()
  {
    ExampleRowsShown(ExampleRows(), Example());
    ParseShowProgram(Example());
  }

  /** `parse_instructions(FIXED_EXAMPLE)` is the example with index 7 flipped. */
  lemma FixedParses()
    ensures Parses(FixedText())
    ensures ParseProgram(FixedText()) == Example()[7 := Flip(Example()[7])]
  {
    FixedRowsShown(FixedRows(), Example()[7 := Flip(Example()[7])]);
    ParseShowProgram(Example()[7 := Flip(Example()[7])]);
  }

  /** The example program returns to address 1 with accumulator 5, and so
      does `part1(EXAMPLE)`, the outcome `Part1` returns for the text. */
  lemma ExampleLoops()
    ensures Evaluate(Example()) == (Loop, State(1, 5))
    ensures Parses(ExampleText())
    ensures Evaluate(ParseProgram(ExampleText())) == (Loop, State(1, 5))
  {
    ExampleParses();
    ExampleProgramLoops();
  }

  /** The run of the example program, step by step. */
  lemma ExampleProgramLoops()
    ensures Evaluate(Example()) == (Loop, State(1, 5))
  {
    var p := Example();
    var v: set<int> := {};
    RunStep(p, State(0, 0), v, State(1, 0));
    v := v + {0};
    RunStep(p, State(1, 0), v, State(2, 1));
    v := v + {1};
    RunStep(p, State(2, 1), v, State(6, 1));
    v := v + {2};
    RunStep(p, State(6, 1), v, State(7, 2));
    v := v + {6};
    RunStep(p, State(7, 2), v, State(3, 2));
    v := v + {7};
    RunStep(p, State(3, 2), v, State(4, 5));
    v := v + {3};
    RunStep(p, State(4, 5), v, State(1, 5));
    v := v + {4};
    assert Run(p, State(1, 5), v) == (Loop, State(1, 5));
  }

  /** The example with its last `jmp` flipped terminates with accumulator 8:
      `get_outcome` of the parsed `FIXED_EXAMPLE`. */
  lemma FixedExampleTerminates()
    ensures Evaluate(Example()[7 := Flip(Example()[7])]) == (Terminate, State(9, 8))
    ensures Parses(FixedText())
    ensures Evaluate(ParseProgram(FixedText())) == (Terminate, State(9, 8))
  {
    FixedParses();
    FixedProgramTerminates();
  }

  /** The run of the fixed example program, step by step. */
  lemma FixedProgramTerminates()
    ensures Evaluate(Example()[7 := Flip(Example()[7])]) == (Terminate, State(9, 8))
  {
    var p := Example()[7 := Flip(Example()[7])];
    var v: set<int> := {};
    RunStep(p, State(0, 0), v, State(1, 0));
    v := v + {0};
    RunStep(p, State(1, 0), v, State(2, 1));
    v := v + {1};
    RunStep(p, State(2, 1), v, State(6, 1));
    v := v + {2};
    RunStep(p, State(6, 1), v, State(7, 2));
    v := v + {6};
    RunStep(p, State(7, 2), v, State(8, 2));
    v := v + {7};
    RunStep(p, State(8, 2), v, State(9, 8));
    v := v + {8};
    assert Run(p, State(9, 8), v) == (Terminate, State(9, 8));
  }

  lemma FlipZeroLoops()
    ensures Evaluate(Example()[0 := Flip(Example()[0])]).0 == Loop
  {
    var p := Example()[0 := Flip(Example()[0])];
    RunStep(p, State(0, 0), {}, State(0, 0));
    assert Run(p, State(0, 0), {} + {0}).0 == Loop;
  }

  lemma FlipTwoLoops()
    ensures Evaluate(Example()[2 := Flip(Example()[2])]).0 == Loop
  {
    var p := Example()[2 := Flip(Example()[2])];
    var v: set<int> := {};
    RunStep(p, State(0, 0), v, State(1, 0));
    v := v + {0};
    RunStep(p, State(1, 0), v, State(2, 1));
    v := v + {1};
    RunStep(p, State(2, 1), v, State(3, 1));
    v := v + {2};
    RunStep(p, State(3, 1), v, State(4, 4));
    v := v + {3};
    RunStep(p, State(4, 4), v, State(1, 4));
    v := v + {4};
    assert Run(p, State(1, 4), v).0 == Loop;
  }

  lemma FlipFourLoops()
    ensures Evaluate(Example()[4 := Flip(Example()[4])]).0 == Loop
  {
    var p := Example()[4 := Flip(Example()[4])];
    var v: set<int> := {};
    RunStep(p, State(0, 0), v, State(1, 0));
    v := v + {0};
    RunStep(p, State(1, 0), v, State(2, 1));
    v := v + {1};
    RunStep(p, State(2, 1), v, State(6, 1));
    v := v + {2};
    RunStep(p, State(6, 1), v, State(7, 2));
    v := v + {6};
    RunStep(p, State(7, 2), v, State(3, 2));
    v := v + {7};
    RunStep(p, State(3, 2), v, State(4, 5));
    v := v + {3};
    RunStep(p, State(4, 5), v, State(5, 5));
    v := v + {4};
    RunStep(p, State(5, 5), v, State(6, -94));
    v := v + {5};
    assert Run(p, State(6, -94), v).0 == Loop;
  }

  /** The `jmp`/`nop` entries of the example are at indices 0, 2, 4 and 7. */
  lemma ExampleFlippables()
    ensures FlippablesFrom(Example(), 0) ==
      [(0, Instruction(Nop, 0), Instruction(Jmp, 0)), (2, Instruction(Jmp, 4), Instruction(Nop, 4)),
       (4, Instruction(Jmp, -3), Instruction(Nop, -3)), (7, Instruction(Jmp, -4), Instruction(Nop, -4))]
  {
    var p := Example();
    var e0, e2, e4, e7 := (0, p[0], Flip(p[0])), (2, p[2], Flip(p[2])), (4, p[4], Flip(p[4])), (7, p[7], Flip(p[7]));
    FlippablesSkip(p, 8);
    FlippablesTake(p, 7);
    FlippablesSkip(p, 6);
    FlippablesSkip(p, 5);
    FlippablesTake(p, 4);
    FlippablesSkip(p, 3);
    FlippablesTake(p, 2);
    FlippablesSkip(p, 1);
    FlippablesTake(p, 0);
    assert FlippablesFrom(p, 9) == [];
    assert FlippablesFrom(p, 0) == [e0, e2, e4, e7];
  }

  /** The repair of the example flips the `jmp` at index 7 and ends with
      accumulator 8, and so does `part2(EXAMPLE)`, the state `Part2` returns
      for the text. */
  lemma ExampleRepair()
    ensures FirstRepair(Example()) == Some(State(9, 8))
    ensures Parses(ExampleText())
    ensures FirstRepair(ParseProgram(ExampleText())) == Some(State(9, 8))
  {
    ExampleParses();
    var p := Example();
    ExampleFlippables();
    var flips := FlippablesFrom(p, 0);
    FlipZeroLoops();
    FlipTwoLoops();
    FlipFourLoops();
    FixedProgramTerminates();
    assert RepairSearch(p, flips) == RepairSearch(p, flips[1..]);
    assert RepairSearch(p, flips[1..]) == RepairSearch(p, flips[2..]);
    assert RepairSearch(p, flips[2..]) == RepairSearch(p, flips[3..]);
    assert RepairSearch(p, flips[3..]) == Some(State(9, 8));
  }
}
