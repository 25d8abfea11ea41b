/** `day14.rs`: a docking program of 36-bit masks and memory writes. A mask
    forces some bits of every value written after it to 1, some to 0, and
    leaves the rest as they were; `part1` sums the memory once every line has
    run. The source's `u64` words are numbers below 2^64 here, with their
    bitwise operations written out bit by bit. */
module Day14 {
  import opened Results
  import opened Text
  import opened Util
  import opened Binary

  /** 2^64: one more than the largest `u64`. */
  const WordLimit: nat := 0x1_0000_0000_0000_0000

  /** A number that fits a `u64` (and a `usize` on a 64-bit target). */
  type U64 = n: nat | n < 0x1_0000_0000_0000_0000

  /** `Mask`: the bits to force on (`pos`) and the bits to keep (`neg`). */
  datatype Mask = Mask(pos: U64, neg: U64)

  /** `Line`: a mask update, or a write of `value` to address `addr`. */
  datatype Line = MaskLine(mask: Mask) | Assign(addr: U64, value: U64)

  const MaskLength: nat := 36

  lemma Pow2Values()
    ensures Pow2(MaskLength) == 0x10_0000_0000 && Pow2(64) == WordLimit
  {
    assert Pow2(8) == 0x100 && Pow2(12) == 0x1000;
    Pow2Add(12, 12);
    Pow2Add(24, 12);
    Pow2Add(24, 8);
    Pow2Add(32, 32);
  }

  /** Bit `k` of `a` is set. */
  predicate Bit(a: nat, k: nat)
    decreases k
  {
    if k == 0 then a % 2 == 1 else Bit(a / 2, k - 1)
  }

  /** `&` on words. */
  function And(a: nat, b: nat): nat
    decreases a
  {
    if a == 0 || b == 0 then 0 else 2 * And(a / 2, b / 2) + (if a % 2 == 1 && b % 2 == 1 then 1 else 0)
  }

  /** `|` on words. */
  function Or(a: nat, b: nat): nat
    decreases a + b
  {
    if a == 0 then b
    else if b == 0 then a
    else 2 * Or(a / 2, b / 2) + (if a % 2 == 1 || b % 2 == 1 then 1 else 0)
  }

  /** `!` on a `u64`. */
  function Not(a: U64): U64 {
    WordLimit - 1 - a
  }

  /** `<<= 1` on a `u64`: the top bit falls off. */
  function Shl1(a: U64): U64 {
    (2 * a) % WordLimit
  }

  lemma {:induction false} BitOfZero(k: nat)
    ensures !Bit(0, k)
    decreases k
  {
    if k > 0 {
      BitOfZero(k - 1);
    }
  }

  /** A bit of `a & b` is set exactly when it is set in both. */
  lemma {:induction false} AndBit(a: nat, b: nat, k: nat)
    ensures Bit(And(a, b), k) <==> Bit(a, k) && Bit(b, k)
    decreases k
  {
    if a == 0 || b == 0 {
      BitOfZero(k);
    } else if k > 0 {
      AndBit(a / 2, b / 2, k - 1);
    }
  }

  /** A bit of `a | b` is set exactly when it is set in either. */
  lemma {:induction false} OrBit(a: nat, b: nat, k: nat)
    ensures Bit(Or(a, b), k) <==> Bit(a, k) || Bit(b, k)
    decreases k
  {
    if a == 0 || b == 0 {
      BitOfZero(k);
    } else if k > 0 {
      OrBit(a / 2, b / 2, k - 1);
    }
  }

  /** Numbers with the same bits are equal. */
  lemma {:induction false} BitsEqual(a: nat, b: nat)
    requires forall k: nat :: Bit(a, k) == Bit(b, k)
    ensures a == b
    decreases a + b
  {
    if a != 0 || b != 0 {
      assert Bit(a, 0) == Bit(b, 0);
      forall k: nat
        ensures Bit(a / 2, k) == Bit(b / 2, k)
      {
        assert Bit(a, k + 1) == Bit(b, k + 1);
      }
      BitsEqual(a / 2, b / 2);
    }
  }

  /** A number below 2^m has no bit at or above `m`. */
  lemma {:induction false} BitsBelow(a: nat, m: nat, k: nat)
    requires a < Pow2(m) && m <= k
    ensures !Bit(a, k)
    decreases m
  {
    if m == 0 {
      BitOfZero(k);
    } else {
      BitsBelow(a / 2, m - 1, k - 1);
    }
  }

  /** Below 2^m, the complement `2^m - 1 - a` flips each of the `m` low bits. */
  lemma {:induction false} ComplementBit(a: nat, m: nat, k: nat)
    requires a < Pow2(m)
    ensures Bit(Pow2(m) - 1 - a, k) <==> k < m && !Bit(a, k)
    decreases m
  {
    if m == 0 {
      BitOfZero(k);
    } else if k > 0 {
      assert (Pow2(m) - 1 - a) / 2 == Pow2(m - 1) - 1 - a / 2;
      ComplementBit(a / 2, m - 1, k - 1);
    }
  }

  /** `!a` flips each of the 64 bits of a word. */
  lemma NotBit(a: U64, k: nat)
    ensures Bit(Not(a), k) <==> k < 64 && !Bit(a, k)
  {
    Pow2Values();
    ComplementBit(a, 64, k);
  }

  predicate IsMaskChar(c: char) {
    c == 'X' || c == '0' || c == '1'
  }

  predicate MaskChars(s: string) {
    forall k :: 0 <= k < |s| ==> IsMaskChar(s[k])
  }

  /** Bit `k` of a selection is set exactly when the character `k` places
      from the end is `c`. */
  lemma {:induction false} SelectBit(s: string, c: char, k: nat)
    ensures Bit(Select(s, c), k) <==> k < |s| && s[|s| - 1 - k] == c
    decreases |s|
  {
    if |s| == 0 {
      BitOfZero(k);
    } else if k > 0 {
      SelectBit(s[..|s| - 1], c, k - 1);
    }
  }

  /** The selections from a mask-length string fit a word. */
  lemma SelectFits(s: string, c: char)
    requires |s| <= MaskLength
    ensures Select(s, c) < Pow2(MaskLength) == 0x10_0000_0000
  {
    SelectBound(s, c);
    Pow2Monotone(|s|, MaskLength);
    Pow2Values();
  }

  /** What a mask string means: exactly 36 characters of `X`, `0` and `1`;
      its `1` characters are the bits forced on, and every bit but those of its
      `0` characters is kept. */
  function MaskOf(s: string): Result<Mask> {
    if |s| == MaskLength && MaskChars(s) then
      SelectFits(s, '1');
      SelectFits(s, '0');
      Ok(Mask(Select(s, '1'), Not(Select(s, '0'))))
    else Err
  }

  /** `Mask::apply`. */
  function Apply(m: Mask, v: nat): nat {
    Or(And(v, m.neg), m.pos)
  }

  /** `pos` and `neg` are the words `Mask::from_str` has built after reading `t`. */
  predicate Scanned(t: string, pos: nat, neg: nat) {
    |t| <= MaskLength && Select(t, '0') < WordLimit &&
    pos == Select(t, '1') && neg == Not(Select(t, '0'))
  }

  /** One character more: shifting both words and adding one to `neg` for
      `X` and `1`, and to `pos` for `1`, selects the new character. */
  lemma ShiftStep(t: string, c: char, pos: U64, neg: U64, pos': nat, neg': nat)
    requires |t| < MaskLength && Scanned(t, pos, neg)
    requires pos' == if c == '1' then Shl1(pos) + 1 else Shl1(pos)
    requires neg' == if c == '0' then Shl1(neg) else Shl1(neg) + 1
    ensures Scanned(t + [c], pos', neg')
  {
    assert (t + [c])[..|t|] == t;
    var z := Select(t, '0');
    SelectFits(t, '1');
    SelectFits(t, '0');
    SelectFits(t + [c], '0');
    assert Shl1(pos) == 2 * pos;
    assert 2 * neg == WordLimit + (WordLimit - 2 - 2 * z);
    assert Shl1(neg) == WordLimit - 2 - 2 * z;
  }

  /** Words built from a whole well-formed mask string are its meaning. */
  lemma ScannedMask(s: string, pos: U64, neg: U64)
    requires |s| == MaskLength && MaskChars(s) && Scanned(s, pos, neg)
    ensures MaskOf(s) == Ok(Mask(pos, neg))
  {
  }

  /** `Mask::from_str`: a loop shifting one bit into both words per character. */
  method ParseMask(s: string) returns (r: Result<Mask>)
    ensures r == MaskOf(s)
  {
    if |s| != MaskLength {
      return Err;
    }
    var pos: U64 := 0;
    var neg: U64 := Not(0);
    for i := 0 to |s|
      invariant Scanned(s[..i], pos, neg)
      invariant MaskChars(s[..i])
    {
      var b := s[i];
      if !IsMaskChar(b) {
        assert !MaskChars(s);
        return Err;
      }
      var pos', neg' := Shl1(pos), Shl1(neg);
      if b == 'X' {
        neg' := neg' + 1;
      } else if b == '1' {
        neg' := neg' + 1;
        pos' := pos' + 1;
      }
      ShiftStep(s[..i], b, pos, neg, pos', neg');
      assert s[..i + 1] == s[..i] + [b];
      pos, neg := pos', neg';
    }
    assert s[..|s|] == s;
    ScannedMask(s, pos, neg);
    return Ok(Mask(pos, neg));
  }

  /** Each bit of a parsed mask: bit `k` is forced on exactly when the
      character `k` places from the end is `1`, and kept unless that
      character is `0`; the 28 bits above the mask are kept. */
  lemma MaskBits(s: string, k: nat)
    requires MaskOf(s).Ok?
    ensures Bit(MaskOf(s).value.pos, k) <==> k < MaskLength && s[MaskLength - 1 - k] == '1'
    ensures Bit(MaskOf(s).value.neg, k) <==> k < 64 && !(k < MaskLength && s[MaskLength - 1 - k] == '0')
  {
    SelectBit(s, '1', k);
    SelectBit(s, '0', k);
    NotBit(Select(s, '0'), k);
  }

  /** Every bit a parsed mask forces on is one it keeps. */
  lemma MaskShape(s: string, k: nat)
    requires MaskOf(s).Ok?
    ensures Bit(MaskOf(s).value.pos, k) ==> Bit(MaskOf(s).value.neg, k)
  {
    MaskBits(s, k);
  }

  /** A bit of a masked value is set when the mask forces it on, or when the
      value has it and the mask keeps it. */
  lemma ApplyBit(m: Mask, v: nat, k: nat)
    ensures Bit(Apply(m, v), k) <==> Bit(m.pos, k) || (Bit(v, k) && Bit(m.neg, k))
  {
    OrBit(And(v, m.neg), m.pos, k);
    AndBit(v, m.neg, k);
  }

  /** Applying a parsed mask: a `1` sets the bit, a `0` clears it, an `X`
      keeps the value's bit, and so do the bits above the mask up to 64;
      nothing is set above bit 63. */
  lemma ApplyMeaning(s: string, v: U64, k: nat)
    requires MaskOf(s).Ok?
    ensures k < MaskLength && s[MaskLength - 1 - k] == '1' ==> Bit(Apply(MaskOf(s).value, v), k)
    ensures k < MaskLength && s[MaskLength - 1 - k] == '0' ==> !Bit(Apply(MaskOf(s).value, v), k)
    ensures k < MaskLength && s[MaskLength - 1 - k] == 'X' ==> (Bit(Apply(MaskOf(s).value, v), k) <==> Bit(v, k))
    ensures MaskLength <= k < 64 ==> (Bit(Apply(MaskOf(s).value, v), k) <==> Bit(v, k))
    ensures 64 <= k ==> !Bit(Apply(MaskOf(s).value, v), k)
  {
    MaskBits(s, k);
    ApplyBit(MaskOf(s).value, v, k);
  }

  /** Masking a masked value again changes nothing. */
  lemma ApplyIdempotent(m: Mask, v: nat)
    ensures Apply(m, Apply(m, v)) == Apply(m, v)
  {
    forall k: nat
      ensures Bit(Apply(m, Apply(m, v)), k) == Bit(Apply(m, v), k)
    {
      ApplyBit(m, v, k);
      ApplyBit(m, Apply(m, v), k);
    }
    BitsEqual(Apply(m, Apply(m, v)), Apply(m, v));
  }

  /** `u64::from_str`, and `usize::from_str` on a 64-bit target: a decimal
      number below 2^64. */
  function ParseU64(s: string): Option<U64> {
    match ParseUnsigned(s)
    case Some(n) => if n < 0x1_0000_0000_0000_0000 then Some(n) else None
    case None => None
  }

  /** `Line::from_str`: `mask = <mask>` or `mem[<addr>] = <value>`; any other
      left-hand side, or a line without " = ", is an error. */
  function ParseLine(s: string): Result<Line> {
    match SplitTuple2(s, " = ")
    case None => Err
    case Some((lhs, rhs)) =>
      if lhs == "mask" then
        match MaskOf(rhs)
        case Ok(m) => Ok(MaskLine(m))
        case Err => Err
      else if StartsWith(lhs, "mem[") && EndsWith(lhs, "]") then
        assert |lhs| > 4 by {
          assert lhs[..4][3] == '[' && lhs[|lhs| - 1..][0] == ']';
        }
        match (ParseU64(lhs[4..|lhs| - 1]), ParseU64(rhs))
        case (Some(a), Some(v)) => Ok(Assign(a, v))
        case _ => Err
      else Err
  }

  /** A line as the input writes it. */
  function Format(l: Line, maskText: string): string {
    match l
    case MaskLine(_) => "mask = " + maskText
    case Assign(a, v) => "mem[" + ShowNat(a) + "] = " + ShowNat(v)
  }

  /** A written assignment parses back to itself, as does a mask line whose
      text means that mask. */
  lemma ParseFormat(l: Line, maskText: string)
    requires l.MaskLine? ==> MaskOf(maskText) == Ok(l.mask)
    ensures ParseLine(Format(l, maskText)) == Ok(l)
  {
    match l
    case MaskLine(m) => ParseFormatMask(m, maskText);
    case Assign(a, v) => ParseFormatAssign(a, v);
  }

  lemma ParseFormatMask(m: Mask, maskText: string)
    requires MaskOf(maskText) == Ok(m)
    ensures ParseLine("mask = " + maskText) == Ok(MaskLine(m))
  {
    SplitTuple2At("mask", " = ", maskText);
    assert "mask = " + maskText == "mask" + " = " + maskText;
  }

  lemma ParseFormatAssign(a: U64, v: U64)
    ensures ParseLine("mem[" + ShowNat(a) + "] = " + ShowNat(v)) == Ok(Assign(a, v))
  {
    var lhs := "mem[" + ShowNat(a) + "]";
    var rhs := ShowNat(v);
    AssignTarget(lhs, ShowNat(a));
    SplitTuple2At(lhs, " = ", rhs);
    ParseShowNat(a);
    ParseShowNat(v);
    ParseAssignSides(lhs, rhs, a, v);
    assert "] = " == "]" + " = ";
    Regroup("mem[", ShowNat(a), "]", " = ", rhs);
  }

  /** Concatenation regrouped around a split separator. */
  lemma Regroup(p: string, x: string, q: string, r: string, y: string)
    ensures p + x + (q + r) + y == p + x + q + r + y
  {
  }

  /** A line split at its first " = " into an assignment target and a value
      that both parse is that assignment. */
  lemma ParseAssignSides(lhs: string, rhs: string, a: U64, v: U64)
    requires SplitTuple2(lhs + " = " + rhs, " = ") == Some((lhs, rhs))
    requires lhs != "mask" && StartsWith(lhs, "mem[") && EndsWith(lhs, "]") && |lhs| > 4
    requires ParseU64(lhs[4..|lhs| - 1]) == Some(a) && ParseU64(rhs) == Some(v)
    ensures ParseLine(lhs + " = " + rhs) == Ok(Assign(a, v))
  {
  }

  /** The left-hand side of a written assignment: no space, not `mask`, and
      the address digits between `mem[` and `]`. */
  lemma AssignTarget(lhs: string, digits: string)
    requires AllDigits(digits) && lhs == "mem[" + digits + "]"
    ensures ' ' !in lhs && lhs != "mask"
    ensures StartsWith(lhs, "mem[") && EndsWith(lhs, "]") && |lhs| > 4
    ensures lhs[4..|lhs| - 1] == digits
  {
    assert ' ' !in lhs by {
      assert forall k :: 0 <= k < |digits| ==> IsDigit(digits[k]);
    }
    assert lhs != "mask" by {
      assert lhs[0] == 'm' && lhs[1] == 'e';
    }
    assert lhs[..4] == "mem[" && lhs[|lhs| - 1..] == "]";
  }

  /** The mask in force after `ls`: that of the last mask line. */
  function CurrentMask(ls: seq<Line>): Option<Mask> {
    if |ls| == 0 then None
    else if ls[|ls| - 1].MaskLine? then Some(ls[|ls| - 1].mask)
    else CurrentMask(ls[..|ls| - 1])
  }

  /** Every write comes after some mask line, so `current_mask.unwrap()` does not panic. */
  predicate Masked(ls: seq<Line>) {
    forall i :: 0 <= i < |ls| && ls[i].Assign? ==> CurrentMask(ls[..i]).Some?
  }

  lemma MaskedPrefix(ls: seq<Line>, n: nat)
    requires Masked(ls) && n <= |ls|
    ensures Masked(ls[..n])
  {
    forall i | 0 <= i < n && ls[..n][i].Assign?
      ensures CurrentMask(ls[..n][..i]).Some?
    {
      assert ls[..n][..i] == ls[..i];
    }
  }

  /** The memory after running `ls`: each write stores its value under the
      mask then in force. */
  function Memory(ls: seq<Line>): map<nat, nat>
    requires Masked(ls)
  {
    if |ls| == 0 then map[]
    else
      var init := ls[..|ls| - 1];
      MaskedPrefix(ls, |ls| - 1);
      match ls[|ls| - 1]
      case MaskLine(_) => Memory(init)
      case Assign(a, v) => Memory(init)[a := Apply(CurrentMask(init).value, v)]
  }

  /** Running one more line: a mask line replaces the mask in force, and a
      write stores its value under that mask. */
  lemma RunStep(ls: seq<Line>, l: Line)
    requires Masked(ls) && (l.Assign? ==> CurrentMask(ls).Some?)
    ensures Masked(ls + [l])
    ensures CurrentMask(ls + [l]) == if l.MaskLine? then Some(l.mask) else CurrentMask(ls)
    ensures Memory(ls + [l]) ==
      if l.MaskLine? then Memory(ls) else Memory(ls)[l.addr := Apply(CurrentMask(ls).value, l.value)]
  {
    var ls' := ls + [l];
    assert ls'[..|ls|] == ls;
    forall i | 0 <= i < |ls'| && ls'[i].Assign?
      ensures CurrentMask(ls'[..i]).Some?
    {
      if i < |ls| {
        assert ls'[..i] == ls[..i];
      }
    }
  }

  /** The line `i` writes to `a` and no later line does. */
  predicate LastWrite(ls: seq<Line>, a: nat, i: nat) {
    i < |ls| && ls[i].Assign? && ls[i].addr == a &&
    forall j :: i < j < |ls| ==> !(ls[j].Assign? && ls[j].addr == a)
  }

  /** An address is in memory exactly when some line writes to it. */
  lemma {:induction false} MemoryKeys(ls: seq<Line>, a: U64)
    requires Masked(ls)
    ensures a in Memory(ls) <==> exists i :: 0 <= i < |ls| && ls[i].Assign? && ls[i].addr == a
    decreases |ls|
  {
    if |ls| > 0 {
      var init := ls[..|ls| - 1];
      MaskedPrefix(ls, |ls| - 1);
      MemoryKeys(init, a);
      if a in Memory(init) {
        var i :| 0 <= i < |init| && init[i].Assign? && init[i].addr == a;
        assert ls[i] == init[i];
      }
      if exists i :: 0 <= i < |ls| && ls[i].Assign? && ls[i].addr == a {
        var i :| 0 <= i < |ls| && ls[i].Assign? && ls[i].addr == a;
        if i < |init| {
          assert init[i] == ls[i];
        }
      }
    }
  }

  /** Only the last write to an address survives: it holds that write's value
      under the mask in force when it ran. */
  lemma {:induction false} MemoryLastWrite(ls: seq<Line>, a: U64, i: nat)
    requires Masked(ls) && LastWrite(ls, a, i)
    ensures a in Memory(ls) && Memory(ls)[a] == Apply(CurrentMask(ls[..i]).value, ls[i].value)
    decreases |ls|
  {
    var init := ls[..|ls| - 1];
    MaskedPrefix(ls, |ls| - 1);
    if i < |ls| - 1 {
      assert LastWrite(init, a, i) by {
        forall j | i < j < |init|
          ensures !(init[j].Assign? && init[j].addr == a)
        {
          assert init[j] == ls[j];
        }
      }
      MemoryLastWrite(init, a, i);
      assert init[..i] == ls[..i];
    } else {
      assert ls[..i] == init;
    }
  }

  /** Some address held in a non-empty memory. */
  ghost function AnyKey(m: map<nat, nat>): (k: nat)
    requires |m| > 0
    ensures k in m
  {
    assert m.Keys != {};
    var k :| k in m.Keys;
    k
  }

  /** The sum of the values held in memory, as unbounded numbers. */
  ghost function Total(m: map<nat, nat>): nat
    decreases |m|
  {
    if |m| == 0 then 0
    else
      var k := AnyKey(m);
      assert |m - {k}| < |m| by {
        assert (m - {k}).Keys == m.Keys - {k};
      }
      m[k] + Total(m - {k})
  }

  /** The sum does not depend on which address is taken first. */
  lemma {:induction false} TotalRemove(m: map<nat, nat>, k: nat)
    requires k in m
    ensures Total(m) == m[k] + Total(m - {k})
    decreases |m|
  {
    var j := AnyKey(m);
    if j != k {
      assert (m - {j}).Keys == m.Keys - {j};
      assert (m - {k}).Keys == m.Keys - {k};
      TotalRemove(m - {j}, k);
      TotalRemove(m - {k}, j);
      assert m - {j} - {k} == m - {k} - {j};
    }
  }

  /** `values().copied().sum()`: the values taken one address at a time. */
  method SumValues(m: map<nat, nat>) returns (total: nat)
    ensures total == Total(m)
  {
    var rest := m;
    total := 0;
    while |rest| > 0
      invariant total + Total(rest) == Total(m)
      decreases |rest|
    {
      assert rest.Keys != {};
      var k :| k in rest;
      TotalRemove(rest, k);
      assert (rest - {k}).Keys == rest.Keys - {k};
      total := total + rest[k];
      rest := rest - {k};
    }
  }

  /** `part1`: runs every line, keeping the mask in force and each address's
      latest masked value, then sums the memory. Every line must parse and
      every write must follow a mask, or the source panics. */
  method Part1(s: string) returns (total: nat)
    requires AllOk(ParseLine, Lines(s))
    requires Masked(CollectOk(ParseLine, Lines(s)))
    ensures total == Total(Memory(CollectOk(ParseLine, Lines(s))))
  {
    var lines := Lines(s);
    ghost var ls := CollectOk(ParseLine, lines);
    var results: map<nat, nat> := map[];
    var currentMask: Option<Mask> := None;
    for i := 0 to |lines|
      invariant Ran(ls, i, currentMask, results)
    {
      CollectOkAt(ParseLine, lines, i);
      var line := ParseLine(lines[i]).value;
      RanStep(ls, i, currentMask, results);
      match line
      case MaskLine(m) =>
        currentMask := Some(m);
      case Assign(a, v) =>
        results := results[a := Apply(currentMask.value, v)];
    }
    RanAll(ls, currentMask, results);
    total := SumValues(results);
  }

  /** After the first `i` lines, `mask` is the mask in force and `mem` the memory. */
  ghost predicate Ran(ls: seq<Line>, i: nat, mask: Option<Mask>, mem: map<nat, nat>) {
    i <= |ls| && Masked(ls[..i]) && mask == CurrentMask(ls[..i]) && mem == Memory(ls[..i])
  }

  /** Running line `i` of a program whose writes all follow a mask. */
  lemma RanStep(ls: seq<Line>, i: nat, mask: Option<Mask>, mem: map<nat, nat>)
    requires Masked(ls) && i < |ls| && Ran(ls, i, mask, mem)
    ensures ls[i].MaskLine? ==> Ran(ls, i + 1, Some(ls[i].mask), mem)
    ensures ls[i].Assign? ==> mask.Some? && Ran(ls, i + 1, mask, mem[ls[i].addr := Apply(mask.value, ls[i].value)])
  {
    PrefixSnoc(ls, i);
    MaskedPrefix(ls, i + 1);
    RunStep(ls[..i], ls[i]);
  }

  lemma RanAll(ls: seq<Line>, mask: Option<Mask>, mem: map<nat, nat>)
    requires Ran(ls, |ls|, mask, mem)
    ensures Masked(ls) && mem == Memory(ls)
  {
    assert ls[..|ls|] == ls;
  }

  function ExampleMaskText(): string {
    "XXXXXXXXXXXXXXXXXXXXXXXXXXXXX1XXXX0X"
  }

  lemma ExampleOnes()
    ensures Select(ExampleMaskText(), '1') == 0x40
  {
    SelectAfterAbsent("XXXXXXXXXXXXXXXXXXXXXXXXXXXXX", "1XXXX0X", '1', ExampleMaskText());
    SelectSnoc("", '1', '1', "1");
    SelectSnoc("1", 'X', '1', "1X");
    SelectSnoc("1X", 'X', '1', "1XX");
    SelectSnoc("1XX", 'X', '1', "1XXX");
    SelectSnoc("1XXX", 'X', '1', "1XXXX");
    SelectSnoc("1XXXX", '0', '1', "1XXXX0");
    SelectSnoc("1XXXX0", 'X', '1', "1XXXX0X");
  }

  lemma ExampleZeros()
    ensures Select(ExampleMaskText(), '0') == 0x2
  {
    SelectAfterAbsent("XXXXXXXXXXXXXXXXXXXXXXXXXXXXX1XXXX", "0X", '0', ExampleMaskText());
    SelectSnoc("", '0', '0', "0");
    SelectSnoc("0", 'X', '0', "0X");
  }

  /** The example mask forces bit 6 on and keeps every bit but bit 1. */
  lemma MaskExample()
    ensures MaskOf(ExampleMaskText()) == Ok(Mask(0x40, Not(0x2)))
  {
    var s := ExampleMaskText();
    assert |s| == MaskLength;
    assert MaskChars(s);
    ExampleOnes();
    ExampleZeros();
  }

  /** The example mask maps 11 to 73: bit 1 cleared, bit 6 set. */
  lemma ApplyExample11()
    ensures Apply(Mask(0x40, Not(0x2)), 11) == 73
  {
    assert Not(0x2) == 0xFFFF_FFFF_FFFF_FFFD;
    assert And(1, 0x1FFF_FFFF_FFFF_FFFF) == 1;
    assert And(2, 0x3FFF_FFFF_FFFF_FFFF) == 2;
    assert And(5, 0x7FFF_FFFF_FFFF_FFFE) == 4;
    assert And(11, 0xFFFF_FFFF_FFFF_FFFD) == 9;
    assert Or(1, 8) == 9;
    assert Or(2, 16) == 18;
    assert Or(4, 32) == 36;
    assert Or(9, 64) == 73;
  }

  /** The example mask keeps 101, whose bit 1 is clear and bit 6 set. */
  lemma ApplyExample101()
    ensures Apply(Mask(0x40, Not(0x2)), 101) == 101
  {
    assert Not(0x2) == 0xFFFF_FFFF_FFFF_FFFD;
    KeepExample101();
    assert Or(1, 1) == 1;
    assert Or(3, 2) == 3;
    assert Or(6, 4) == 6;
    assert Or(12, 8) == 12;
    assert Or(25, 16) == 25;
    assert Or(50, 32) == 50;
    assert Or(101, 64) == 101;
  }

  lemma KeepExample101()
    ensures And(101, 0xFFFF_FFFF_FFFF_FFFD) == 101
  {
    assert And(1, 0x03FF_FFFF_FFFF_FFFF) == 1;
    assert And(3, 0x07FF_FFFF_FFFF_FFFF) == 3;
    assert And(6, 0x0FFF_FFFF_FFFF_FFFF) == 6;
    assert And(12, 0x1FFF_FFFF_FFFF_FFFF) == 12;
    assert And(25, 0x3FFF_FFFF_FFFF_FFFF) == 25;
    assert And(50, 0x7FFF_FFFF_FFFF_FFFE) == 50;
  }

  /** The example mask maps 0 to 64. */
  lemma ApplyExample0()
    ensures Apply(Mask(0x40, Not(0x2)), 0) == 64
  {
    assert And(0, Not(0x2)) == 0;
  }

  /** The example program's lines: the example mask, then writes of 11 and 0
      to address 8 and of 101 to address 7. */
  function ExampleLines(): seq<Line> {
    [MaskLine(Mask(0x40, Not(0x2))), Assign(8, 11), Assign(7, 101), Assign(8, 0)]
  }

  /** A mask line followed by three writes leaves the three masked values,
      a later write to an address replacing an earlier one. */
  lemma RunFour(ls: seq<Line>, m: Mask, a1: U64, v1: U64, a2: U64, v2: U64, a3: U64, v3: U64)
    requires ls == [MaskLine(m), Assign(a1, v1), Assign(a2, v2), Assign(a3, v3)]
    ensures Masked(ls)
    ensures Memory(ls) == map[a1 := Apply(m, v1)][a2 := Apply(m, v2)][a3 := Apply(m, v3)]
  {
    var p1: seq<Line> := [MaskLine(m)];
    RunMask([], m);
    assert Memory(p1) == map[] by {
      assert p1 == [] + [MaskLine(m)];
    }
    var p2 := p1 + [Assign(a1, v1)];
    RunAssign(p1, a1, v1);
    var p3 := p2 + [Assign(a2, v2)];
    RunAssign(p2, a2, v2);
    RunAssign(p3, a3, v3);
    assert ls == p3 + [Assign(a3, v3)];
  }

  /** Running the example leaves 64 at address 8 and 101 at address 7. */
  lemma MemoryExample()
    ensures Masked(ExampleLines())
    ensures Memory(ExampleLines()) == map[8 := 64, 7 := 101]
  {
    RunFour(ExampleLines(), Mask(0x40, Not(0x2)), 8, 11, 7, 101, 8, 0);
    ApplyExample11();
    ApplyExample101();
    ApplyExample0();
    MapUpdatesExample();
  }

  /** The second write to address 8 replaces the first. */
  lemma MapUpdatesExample()
    ensures map[8 := 73][7 := 101][8 := 64] == map[8 := 64, 7 := 101]
  {
    var m: map<nat, nat> := map[8 := 73][7 := 101][8 := 64];
    assert m.Keys == {8, 7};
  }

  lemma RunMask(ls: seq<Line>, m: Mask)
    requires Masked(ls)
    ensures Masked(ls + [MaskLine(m)])
    ensures CurrentMask(ls + [MaskLine(m)]) == Some(m) && Memory(ls + [MaskLine(m)]) == Memory(ls)
  {
    RunStep(ls, MaskLine(m));
  }

  lemma RunAssign(ls: seq<Line>, a: U64, v: U64)
    requires Masked(ls) && CurrentMask(ls).Some?
    ensures Masked(ls + [Assign(a, v)])
    ensures CurrentMask(ls + [Assign(a, v)]) == CurrentMask(ls)
    ensures Memory(ls + [Assign(a, v)]) == Memory(ls)[a := Apply(CurrentMask(ls).value, v)]
  {
    RunStep(ls, Assign(a, v));
  }

  /** The example's memory sums to 165. */
  lemma TotalExample()
    ensures Total(map[8 := 64, 7 := 101]) == 165
  {
    var mem := map[8 := 64, 7 := 101];
    TotalRemove(mem, 8);
    assert mem - {8} == map[7 := 101];
    TotalRemove(map[7 := 101], 7);
    assert map[7 := 101] - {7} == map[];
  }

  /** The lines of the example program, as the input writes them. */
  function ExampleRows(): seq<string> {
    ["mask = XXXXXXXXXXXXXXXXXXXXXXXXXXXXX1XXXX0X", "mem[8] = 11", "mem[7] = 101", "mem[8] = 0"]
  }

  /** `EXAMPLE`: the example program, its lines joined by line feeds. */
  function ExampleText(): string {
    Join(ExampleRows(), "\n")
  }

  /** A row spelling an assignment with the decimal writings of its address
      and value parses to that assignment. */
  lemma AssignRowParses(row: string, a: U64, v: U64, address: string, value: string)
    requires ShowNat(a) == address && ShowNat(v) == value
    requires row == "mem[" + address + "] = " + value
    ensures ParseLine(row) == Ok(Assign(a, v))
  {
    ParseFormatAssign(a, v);
  }

  /** The first example row is the example mask line. */
  lemma MaskRowParses(row: string)
    requires row == "mask = " + ExampleMaskText()
    ensures ParseLine(row) == Ok(MaskLine(Mask(0x40, Not(0x2))))
  {
    MaskExample();
    ParseFormatMask(Mask(0x40, Not(0x2)), ExampleMaskText());
  }

  /** The decimal writings of the example's addresses and values. */
  lemma ExampleNumbers()
    ensures ShowNat(0) == "0" && ShowNat(7) == "7" && ShowNat(8) == "8"
    ensures ShowNat(11) == "11" && ShowNat(101) == "101"
  {
  }

  /** The example rows spelled out around their decimal numbers. */
  lemma ExampleRowsSpelled(rows: seq<string>)
    requires rows == ExampleRows()
    ensures |rows| == 4 && rows[0] == "mask = " + ExampleMaskText()
    ensures rows[1] == "mem[" + "8" + "] = " + "11"
    ensures rows[2] == "mem[" + "7" + "] = " + "101"
    ensures rows[3] == "mem[" + "8" + "] = " + "0"
  {
    ExampleMaskRowSpelled(rows[0]);
  }

  /** The first example row is the mask line. */
  lemma ExampleMaskRowSpelled(row: string)
    requires row == "mask = XXXXXXXXXXXXXXXXXXXXXXXXXXXXX1XXXX0X"
    ensures row == "mask = " + ExampleMaskText()
  {
  }

  /** Every example row parses to its example line. */
  lemma ExampleRowsParse(rows: seq<string>, ls: seq<Line>)
    requires rows == ExampleRows() && ls == ExampleLines()
    ensures AllOk(ParseLine, rows) && CollectOk(ParseLine, rows) == ls
  {
    ExampleNumbers();
    ExampleRowsSpelled(rows);
    MaskRowParses(rows[0]);
    AssignRowParses(rows[1], 8, 11, "8", "11");
    AssignRowParses(rows[2], 7, 101, "7", "101");
    AssignRowParses(rows[3], 8, 0, "8", "0");
    CollectFour(ParseLine, rows[0], rows[1], rows[2], rows[3],
      MaskLine(Mask(0x40, Not(0x2))), Assign(8, 11), Assign(7, 101), Assign(8, 0));
    assert rows == [rows[0], rows[1], rows[2], rows[3]];
  }

  /** The example rows are lines: none empty, none holding a line feed or
      ending in a carriage return. */
  lemma ExampleRowsPlain(rows: seq<string>)
    requires rows == ExampleRows()
    ensures |rows| >= 1
    ensures forall k :: 0 <= k < |rows| ==> rows[k] != "" && '\n' !in rows[k]
    ensures forall k :: 0 <= k < |rows| ==> rows[k][|rows[k]| - 1] != '\r'
  {
  }

  /** `part1(EXAMPLE)` is 165: the example text parses to the example program,
      every write follows the mask, and the memory it leaves sums to 165, which
      is what `Part1` returns on it. */
  lemma Part1Example()
    ensures AllOk(ParseLine, Lines(ExampleText()))
    ensures Masked(CollectOk(ParseLine, Lines(ExampleText())))
    ensures Total(Memory(CollectOk(ParseLine, Lines(ExampleText())))) == 165
  {
    ExampleRowsPlain(ExampleRows());
    LinesJoin(ExampleRows());
    ExampleRowsParse(ExampleRows(), ExampleLines());
    MemoryExample();
    TotalExample();
  }
}
