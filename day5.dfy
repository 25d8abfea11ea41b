/** `day5.rs`: boarding passes of ten characters, seven `F`/`B` choosing the
    row and three `L`/`R` choosing the column, each part read as a binary
    number; `part1` is the highest seat id. */
module Day5 {
  import opened Results
  import opened Text
  import opened Binary

  const RowLength: nat := 7
  const PassLength: nat := 10

  predicate IsFrontBack(c: char) {
    c == 'F' || c == 'B'
  }

  predicate IsLeftRight(c: char) {
    c == 'L' || c == 'R'
  }

  /** Ten characters: the first seven `F` or `B`, the last three `L` or `R`. */
  predicate WellFormed(s: string) {
    |s| == PassLength &&
    (forall k :: 0 <= k < RowLength ==> IsFrontBack(s[k])) &&
    (forall k :: RowLength <= k < PassLength ==> IsLeftRight(s[k]))
  }

  /** The text of a boarding pass, which only parsing builds. */
  type Pass = s: string | WellFormed(s) witness "FFFFFFFLLL"

  /** `Position`: the ten bytes of a parsed pass. */
  datatype Position = Position(seat: Pass)

  /** Every character of `t` is one of `allowed`. */
  predicate OnlyOf(t: string, allowed: string) {
    forall c :: c in t ==> c in allowed
  }

  /** `Position::from_str`: the length must be ten, then the row part is
      checked, then the column part; the first failure is an error. */
  function ParsePosition(s: string): (r: Result<Position>)
    ensures r.Ok? <==> WellFormed(s)
    ensures r.Ok? ==> r.value.seat == s
  {
    if |s| != PassLength then Err
    else if !OnlyOf(s[..RowLength], "BF") then
      assert !WellFormed(s) by {
        var c :| c in s[..RowLength] && c !in "BF";
      }
      Err
    else if !OnlyOf(s[RowLength..], "LR") then
      assert !WellFormed(s) by {
        var c :| c in s[RowLength..] && c !in "LR";
      }
      Err
    else
      assert WellFormed(s) by {
        forall k | 0 <= k < RowLength
          ensures IsFrontBack(s[k])
        {
          assert s[k] in s[..RowLength];
        }
        forall k | RowLength <= k < PassLength
          ensures IsLeftRight(s[k])
        {
          assert s[k] in s[RowLength..];
        }
      }
      Ok(Position(s))
  }

  /** One step of `get_index`'s fold: `F` and `B` shift a 0 or a 1 into the
      row, `L` and `R` into the column. */
  function Step(index: (nat, nat), c: char): (nat, nat)
    requires IsFrontBack(c) || IsLeftRight(c)
  {
    var (row, col) := index;
    if c == 'F' then (2 * row, col)
    else if c == 'B' then (1 + 2 * row, col)
    else if c == 'L' then (row, 2 * col)
    else (row, 1 + 2 * col)
  }

  predicate SeatChars(s: string) {
    forall k :: 0 <= k < |s| ==> IsFrontBack(s[k]) || IsLeftRight(s[k])
  }

  /** The fold from `(0, 0)` over the characters, first to last. */
  function Fold(s: string): (nat, nat)
    requires SeatChars(s)
  {
    if |s| == 0 then (0, 0) else Step(Fold(s[..|s| - 1]), s[|s| - 1])
  }

  /** `get_index`: the row and the column of a pass. */
  function GetIndex(p: Position): (nat, nat) {
    Fold(p.seat)
  }

  /** `get_id_from_index`. */
  function IdOf(index: (nat, nat)): nat {
    index.0 * 8 + index.1
  }

  /** `get_id`. */
  function GetId(p: Position): nat {
    IdOf(GetIndex(p))
  }

  /** Over `F`/`B` characters alone the fold reads the row, `B` being 1. */
  lemma {:induction false} FoldRows(a: string)
    requires forall k :: 0 <= k < |a| ==> IsFrontBack(a[k])
    ensures SeatChars(a) && Fold(a).0 == Select(a, 'B') && Fold(a).1 == 0
    decreases |a|
  {
    if |a| > 0 {
      var init := a[..|a| - 1];
      FoldRows(init);
      SelectSnoc(init, a[|a| - 1], 'B', a);
    }
  }

  /** Over `F`/`B` characters then `L`/`R` characters the fold reads the row
      from the first part and the column from the second, `R` being 1. */
  lemma {:induction false} FoldColumns(a: string, b: string)
    requires forall k :: 0 <= k < |a| ==> IsFrontBack(a[k])
    requires forall k :: 0 <= k < |b| ==> IsLeftRight(b[k])
    ensures SeatChars(a + b)
    ensures Fold(a + b).0 == Select(a, 'B') && Fold(a + b).1 == Select(b, 'R')
    decreases |b|
  {
    if |b| == 0 {
      assert a + b == a;
      FoldRows(a);
    } else {
      var init := b[..|b| - 1];
      FoldColumns(a, init);
      assert (a + b)[..|a + b| - 1] == a + init;
      SelectSnoc(init, b[|b| - 1], 'R', b);
    }
  }

  /** `get_index` reads the row as the binary number of the first seven
      characters with `B` as 1, and the column as that of the last three with
      `R` as 1; so the row is below 128 and the column below 8. */
  lemma IndexMeaning(p: Position)
    ensures GetIndex(p).0 == Select(p.seat[..RowLength], 'B')
    ensures GetIndex(p).1 == Select(p.seat[RowLength..], 'R')
    ensures GetIndex(p).0 < 128 && GetIndex(p).1 < 8
  {
    var s := p.seat;
    assert s == s[..RowLength] + s[RowLength..];
    FoldColumns(s[..RowLength], s[RowLength..]);
    SelectBound(s[..RowLength], 'B');
    SelectBound(s[RowLength..], 'R');
    assert Pow2(3) == 8 && Pow2(7) == 128;
  }

  /** Seat ids tell seats apart, and stay below 1024. */
  lemma IdInjective(a: (nat, nat), b: (nat, nat))
    requires a.1 < 8 && b.1 < 8
    ensures IdOf(a) == IdOf(b) <==> a == b
    ensures a.0 < 128 ==> IdOf(a) < 1024
  {
  }

  /** The `n` characters that spell `v` in binary, `zero` for 0 and `one` for 1. */
  function Digits(v: nat, n: nat, zero: char, one: char): (r: string)
    ensures |r| == n
  {
    if n == 0 then [] else Digits(v / 2, n - 1, zero, one) + [if v % 2 == 1 then one else zero]
  }

  /** The pass of a seat. */
  function Encode(row: nat, col: nat): string {
    Digits(row, RowLength, 'F', 'B') + Digits(col, PassLength - RowLength, 'L', 'R')
  }

  /** Spelling a number below 2^n and reading it back gives the number. */
  lemma {:induction false} SelectDigits(v: nat, n: nat, zero: char, one: char)
    requires v < Pow2(n) && zero != one
    ensures Select(Digits(v, n, zero, one), one) == v
    ensures forall k :: 0 <= k < n ==> Digits(v, n, zero, one)[k] == zero || Digits(v, n, zero, one)[k] == one
    decreases n
  {
    if n > 0 {
      var d := Digits(v, n, zero, one);
      var init := Digits(v / 2, n - 1, zero, one);
      SelectDigits(v / 2, n - 1, zero, one);
      SelectSnoc(init, d[n - 1], one, d);
      assert d[..n - 1] == init;
    }
  }

  /** Reading characters that are all `zero` or `one` and spelling the number
      again gives the characters back. */
  lemma {:induction false} DigitsSelect(s: string, zero: char, one: char)
    requires forall k :: 0 <= k < |s| ==> s[k] == zero || s[k] == one
    ensures Digits(Select(s, one), |s|, zero, one) == s
    decreases |s|
  {
    if |s| > 0 {
      var init := s[..|s| - 1];
      DigitsSelect(init, zero, one);
      assert s == init + [s[|s| - 1]];
    }
  }

  /** The pass of a seat is well formed and spells the row and the column. */
  lemma EncodeWellFormed(row: nat, col: nat)
    requires row < 128 && col < 8
    ensures WellFormed(Encode(row, col))
    ensures Select(Encode(row, col)[..RowLength], 'B') == row
    ensures Select(Encode(row, col)[RowLength..], 'R') == col
  {
    assert Pow2(3) == 8 && Pow2(7) == 128;
    var a, b := Digits(row, RowLength, 'F', 'B'), Digits(col, PassLength - RowLength, 'L', 'R');
    SelectDigits(row, RowLength, 'F', 'B');
    SelectDigits(col, PassLength - RowLength, 'L', 'R');
    Joined(a, b);
  }

  /** Seven `F`/`B` characters then three `L`/`R` characters make a pass. */
  lemma Joined(a: string, b: string)
    requires |a| == RowLength && |b| == PassLength - RowLength
    requires forall k :: 0 <= k < |a| ==> IsFrontBack(a[k])
    requires forall k :: 0 <= k < |b| ==> IsLeftRight(b[k])
    ensures WellFormed(a + b) && (a + b)[..RowLength] == a && (a + b)[RowLength..] == b
  {
    var s := a + b;
    forall k | RowLength <= k < PassLength
      ensures IsLeftRight(s[k])
    {
      assert s[k] == b[k - RowLength];
    }
  }

  /** Every seat has a pass: its encoding parses and reads back as the seat. */
  lemma EncodeParse(row: nat, col: nat)
    requires row < 128 && col < 8
    ensures ParsePosition(Encode(row, col)).Ok?
    ensures GetIndex(ParsePosition(Encode(row, col)).value) == (row, col)
  {
    EncodeWellFormed(row, col);
    IndexMeaning(ParsePosition(Encode(row, col)).value);
  }

  /** Every pass is the encoding of the seat it reads as. */
  lemma ParseEncode(p: Position)
    ensures Encode(GetIndex(p).0, GetIndex(p).1) == p.seat
  {
    var s := p.seat;
    IndexMeaning(p);
    DigitsSelect(s[..RowLength], 'F', 'B');
    DigitsSelect(s[RowLength..], 'L', 'R');
    assert s == s[..RowLength] + s[RowLength..];
  }

  /** The highest id among the passes. */
  function MaxId(ps: seq<Position>): nat
    requires |ps| > 0
  {
    if |ps| == 1 then GetId(ps[0])
    else
      var m := MaxId(ps[..|ps| - 1]);
      if GetId(ps[|ps| - 1]) > m then GetId(ps[|ps| - 1]) else m
  }

  /** No pass has a higher id than `MaxId`. */
  lemma {:induction false} MaxIdIsUpperBound(ps: seq<Position>, i: nat)
    requires i < |ps|
    ensures GetId(ps[i]) <= MaxId(ps)
    decreases |ps|
  {
    if |ps| > 1 && i < |ps| - 1 {
      MaxIdIsUpperBound(ps[..|ps| - 1], i);
    }
  }

  /** Some pass has the id `MaxId` returns. */
  lemma {:induction false} MaxIdAttained(ps: seq<Position>) returns (i: nat)
    requires |ps| > 0
    ensures i < |ps| && GetId(ps[i]) == MaxId(ps)
    decreases |ps|
  {
    if |ps| == 1 {
      i := 0;
    } else if GetId(ps[|ps| - 1]) > MaxId(ps[..|ps| - 1]) {
      i := |ps| - 1;
    } else {
      i := MaxIdAttained(ps[..|ps| - 1]);
    }
  }

  /** `part1`: the highest id of the passes, one per line. The source panics
      on a line that does not parse and on a text with no lines. */
  function Part1(s: string): nat
    requires |Lines(s)| > 0 && AllOk(ParsePosition, Lines(s))
  {
    MaxId(CollectOk(ParsePosition, Lines(s)))
  }

  /** A pass that spells a seat parses and reads as that seat. */
  lemma SeatOf(s: string, row: nat, col: nat)
    requires row < 128 && col < 8 && Encode(row, col) == s
    ensures ParsePosition(s).Ok? && GetIndex(ParsePosition(s).value) == (row, col)
  {
    EncodeParse(row, col);
  }

  /** The first seat. */
  lemma FirstSeatExample()
    ensures ParsePosition("FFFFFFFLLL").Ok? && GetIndex(ParsePosition("FFFFFFFLLL").value) == (0, 0)
  {
    SpelledFirstSeat();
    SeatOf("FFFFFFFLLL", 0, 0);
  }

  lemma SpelledFirstSeat()
    ensures Encode(0, 0) == "FFFFFFFLLL"
  {
    assert Digits(0, RowLength, 'F', 'B') == "FFFFFFF";
    assert Digits(0, PassLength - RowLength, 'L', 'R') == "LLL";
  }

  /** The last seat. */
  lemma LastSeatExample()
    ensures ParsePosition("BBBBBBBRRR").Ok? && GetIndex(ParsePosition("BBBBBBBRRR").value) == (127, 7)
  {
    SpelledLastSeat();
    SeatOf("BBBBBBBRRR", 127, 7);
  }

  lemma SpelledLastSeat()
    ensures Encode(127, 7) == "BBBBBBBRRR"
  {
    assert Digits(127, RowLength, 'F', 'B') == "BBBBBBB";
    assert Digits(7, PassLength - RowLength, 'L', 'R') == "RRR";
  }

  /** `FBFBBFFRLR` is row 44, column 5, id 357. */
  lemma FirstExample()
    ensures ParsePosition("FBFBBFFRLR").Ok?
    ensures GetIndex(ParsePosition("FBFBBFFRLR").value) == (44, 5)
    ensures GetId(ParsePosition("FBFBBFFRLR").value) == 357
  {
    SpelledFirst();
    SeatOf("FBFBBFFRLR", 44, 5);
  }

  lemma SpelledFirst()
    ensures Encode(44, 5) == "FBFBBFFRLR"
  {
    assert Digits(44, RowLength, 'F', 'B') == "FBFBBFF";
    assert Digits(5, PassLength - RowLength, 'L', 'R') == "RLR";
  }

  /** `BFFFBBFRRR` is row 70, column 7, id 567. */
  lemma SecondExample()
    ensures ParsePosition("BFFFBBFRRR").Ok?
    ensures GetIndex(ParsePosition("BFFFBBFRRR").value) == (70, 7)
    ensures GetId(ParsePosition("BFFFBBFRRR").value) == 567
  {
    SpelledSecond();
    SeatOf("BFFFBBFRRR", 70, 7);
  }

  lemma SpelledSecond()
    ensures Encode(70, 7) == "BFFFBBFRRR"
  {
    assert Digits(70, RowLength, 'F', 'B') == "BFFFBBF";
    assert Digits(7, PassLength - RowLength, 'L', 'R') == "RRR";
  }

  /** `FFFBBBFRRR` is row 14, column 7, id 119. */
  lemma ThirdExample()
    ensures ParsePosition("FFFBBBFRRR").Ok?
    ensures GetIndex(ParsePosition("FFFBBBFRRR").value) == (14, 7)
    ensures GetId(ParsePosition("FFFBBBFRRR").value) == 119
  {
    SpelledThird();
    SeatOf("FFFBBBFRRR", 14, 7);
  }

  lemma SpelledThird()
    ensures Encode(14, 7) == "FFFBBBFRRR"
  {
    assert Digits(14, RowLength, 'F', 'B') == "FFFBBBF";
    assert Digits(7, PassLength - RowLength, 'L', 'R') == "RRR";
  }

  /** `BBFFBBFRLL` is row 102, column 4, id 820. */
  lemma FourthExample()
    ensures ParsePosition("BBFFBBFRLL").Ok?
    ensures GetIndex(ParsePosition("BBFFBBFRLL").value) == (102, 4)
    ensures GetId(ParsePosition("BBFFBBFRLL").value) == 820
  {
    SpelledFourth();
    SeatOf("BBFFBBFRLL", 102, 4);
  }

  lemma SpelledFourth()
    ensures Encode(102, 4) == "BBFFBBFRLL"
  {
    assert Digits(102, RowLength, 'F', 'B') == "BBFFBBF";
    assert Digits(4, PassLength - RowLength, 'L', 'R') == "RLL";
  }
}
