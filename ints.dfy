/** Integer arithmetic as the source's fixed-width integers do it: Rust's
    `/` and `%` truncate toward zero, where Dafny's are Euclidean. */
module Integers {
  /** Rust's `%`: the remainder takes the sign of the dividend. */
  function Rem(a: int, b: int): int
    requires b > 0
  {
    if a >= 0 then a % b else -((-a) % b)
  }

  /** Rust's `/`: the quotient is rounded toward zero. */
  function Quot(a: int, b: int): int
    requires b > 0
  {
    if a >= 0 then a / b else -((-a) / b)
  }

  /** Truncating division and remainder put the dividend back together,
      and the remainder is smaller than the divisor in size. */
  lemma QuotRem(a: int, b: int)
    requires b > 0
    ensures Quot(a, b) * b + Rem(a, b) == a
    ensures -b < Rem(a, b) < b
    ensures Rem(a, b) == 0 <==> a % b == 0
  {
    if a < 0 {
      var q, r := (-a) / b, (-a) % b;
      assert -a == q * b + r;
      if r == 0 {
        ModUnique(a, b, -q, 0);
      } else if a % b == 0 {
        ModUnique(-a, b, -(a / b), 0);
      }
    }
  }

  /** The sum of a sequence of naturals. */
  function Sum(xs: seq<nat>): nat {
    if |xs| == 0 then 0 else Sum(xs[..|xs| - 1]) + xs[|xs| - 1]
  }

  /** Sums add up over concatenation. */
  lemma {:induction false} SumAppend(a: seq<nat>, b: seq<nat>)
    ensures Sum(a + b) == Sum(a) + Sum(b)
    decreases |b|
  {
    if |b| == 0 {
      assert a + b == a;
    } else {
      SumAppend(a, b[..|b| - 1]);
      assert (a + b)[..|a + b| - 1] == a + b[..|b| - 1];
    }
  }

  /** A truncating remainder moved up by the divisor when it is negative is
      the Euclidean remainder. */
  lemma RemNormalised(a: int, b: int)
    requires b > 0
    ensures (if Rem(a, b) < 0 then Rem(a, b) + b else Rem(a, b)) == a % b
  {
    if a < 0 {
      var r := (-a) % b;
      var q := (-a) / b;
      assert -a == q * b + r;
      assert Rem(a, b) == -r;
      if r == 0 {
        assert a == (-q) * b + 0;
        ModUnique(a, b, -q, 0);
      } else {
        assert (-q - 1) * b == -(q * b) - b;
        ModUnique(a, b, -q - 1, b - r);
      }
    }
  }

  /** `abs`. */
  function Abs(a: int): (r: nat)
    ensures r == a || r == -a
  {
    if a < 0 then -a else a
  }

  /** The remainder is the one `r` in `[0, b)` with `a == q * b + r`. */
  lemma ModUnique(a: int, b: int, q: int, r: int)
    requires b > 0 && 0 <= r < b && a == q * b + r
    ensures a % b == r
  {
    var q0, r0 := a / b, a % b;
    assert (q - q0) * b == r0 - r;
    MultipleBelow(q - q0, b);
  }

  /** The only multiple of `b` strictly between `-b` and `b` is zero. */
  lemma MultipleBelow(d: int, b: int)
    requires b > 0 && -b < d * b < b
    ensures d == 0
  {
    if d != 0 {
      MultipleAtLeast(d, b);
    }
  }

  lemma MultipleAtLeast(d: int, b: int)
    requires b > 0 && d != 0
    ensures d * b >= b || d * b <= -b
  {
    if d > 0 {
      PositiveMultiple(d, b);
    } else {
      PositiveMultiple(-d, b);
      assert d * b == -((-d) * b);
    }
  }

  lemma {:induction false} PositiveMultiple(d: nat, b: nat)
    requires d >= 1
    ensures d * b >= b
    decreases d
  {
    if d > 1 {
      PositiveMultiple(d - 1, b);
      assert d * b == (d - 1) * b + b;
    }
  }
}
