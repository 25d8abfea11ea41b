/** Binary numbers: powers of two, and the number a string spells when the
    positions holding one character are its 1 bits, the last position being
    bit 0. Masks and boarding passes are read this way. */
module Binary {

  function Pow2(n: nat): nat {
    if n == 0 then 1 else 2 * Pow2(n - 1)
  }

  lemma {:induction false} Pow2Add(m: nat, n: nat)
    ensures Pow2(m + n) == Pow2(m) * Pow2(n)
    decreases n
  {
    if n > 0 {
      Pow2Add(m, n - 1);
      assert Pow2(m + n) == 2 * (Pow2(m) * Pow2(n - 1));
    }
  }

  lemma Pow2Monotone(m: nat, n: nat)
    requires m <= n
    ensures Pow2(m) <= Pow2(n)
    decreases n
  {
    if m < n {
      Pow2Monotone(m, n - 1);
    }
  }

  /** The number whose bits are the positions of `s` that hold `c`, the last
      character being bit 0. */
  function Select(s: string, c: char): nat
    decreases |s|
  {
    if |s| == 0 then 0
    else 2 * Select(s[..|s| - 1], c) + (if s[|s| - 1] == c then 1 else 0)
  }

  /** A selection from `n` characters is below 2^n. */
  lemma {:induction false} SelectBound(s: string, c: char)
    ensures Select(s, c) < Pow2(|s|)
    decreases |s|
  {
    if |s| > 0 {
      SelectBound(s[..|s| - 1], c);
    }
  }

  /** One more character shifts the selection up by one bit. */
  lemma SelectSnoc(s: string, d: char, c: char, t: string)
    requires t == s + [d]
    ensures Select(t, c) == 2 * Select(s, c) + (if d == c then 1 else 0)
  {
    assert t[..|s|] == s;
  }

  /** A character that does not occur selects nothing. */
  lemma {:induction false} SelectAbsent(s: string, c: char)
    requires c !in s
    ensures Select(s, c) == 0
    decreases |s|
  {
    if |s| > 0 {
      SelectAbsent(s[..|s| - 1], c);
    }
  }

  /** Characters before any occurrence of the selected one add nothing. */
  lemma {:induction false} SelectAfterAbsent(a: string, b: string, c: char, t: string)
    requires c !in a && t == a + b
    ensures Select(t, c) == Select(b, c)
    decreases |b|
  {
    if |b| == 0 {
      assert t == a;
      SelectAbsent(a, c);
    } else {
      var init := b[..|b| - 1];
      SelectAfterAbsent(a, init, c, a + init);
      assert t[..|t| - 1] == a + init;
    }
  }
}
