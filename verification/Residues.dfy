/** Residues modulo a positive number, and powers of two.

    Mod is the remainder that the circle arithmetic is about, in the form that is easiest to
    reason with; SourceMod is how arfcn_list_range.c computes it from C's truncating
    remainder, and SourceModIsMod says the two agree. */
module Residues {

  /** The representative of n in 0..m-1. */
  function Mod(n: int, m: int): (r: int)
    requires m > 0
    ensures 0 <= r < m
    decreases n < 0, if n < 0 then -n else n
  {
    if n < 0 then Mod(n + m, m) else if n < m then n else Mod(n - m, m)
  }

  /** The offset remainder: the representative of n in 1..m. */
  function Smod(n: int, m: int): (r: int)
    requires m > 0
    ensures 1 <= r <= m
  {
    if Mod(n, m) == 0 then m else Mod(n, m)
  }

  /** C's remainder: it takes the sign of the dividend. */
  function CRem(n: int, m: int): int
    requires m > 0
  {
    if n >= 0 then n % m else -((-n) % m)
  }

  function SourceMod(n: int, m: int): int
    requires m > 0
  {
    var result := CRem(n, m);
    if result < 0 then result + m else result
  }

  function SourceSmod(n: int, m: int): int
    requires m > 0
  {
    var result := CRem(n, m);
    var shifted := if result < 0 then result + m else result;
    if shifted == 0 then m else shifted
  }

  lemma SourceModIsMod(n: int, m: int)
    requires m > 0
    ensures SourceMod(n, m) == Mod(n, m)
    ensures SourceSmod(n, m) == Smod(n, m)
  {
    if n >= 0 {
      ModIs(n, m, n / m, n % m);
    } else if (-n) % m == 0 {
      ModIs(n, m, -((-n) / m), 0);
    } else {
      ModIs(n, m, -((-n) / m) - 1, m - (-n) % m);
    }
  }

  /** Quotient and remainder are unique. */
  lemma {:induction false} ModIs(a: int, m: int, q: int, r: int)
    requires m > 0 && 0 <= r < m
    requires a == q * m + r
    ensures Mod(a, m) == r
    decreases if q < 0 then -q else q
  {
    if q > 0 {
      assert a - m == (q - 1) * m + r;
      ModIs(a - m, m, q - 1, r);
      ModTurn(a - m, m);
    } else if q < 0 {
      assert a + m == (q + 1) * m + r;
      ModIs(a + m, m, q + 1, r);
      ModTurn(a, m);
    }
  }

  /** A full turn leads back to the same position. */
  lemma ModTurn(a: int, m: int)
    requires m > 0
    ensures Mod(a + m, m) == Mod(a, m)
  {
  }

  /** Taking the remainder of a summand first changes nothing. */
  lemma {:induction false} ModPlus(a: int, c: int, m: int)
    requires m > 0
    ensures Mod(a + c, m) == Mod(Mod(a, m) + c, m)
    decreases a < 0, if a < 0 then -a else a
  {
    if a < 0 {
      ModPlus(a + m, c, m);
      ModTurn(a + c, m);
      assert a + m + c == a + c + m;
    } else if a >= m {
      ModPlus(a - m, c, m);
      ModTurn(a - m + c, m);
      assert a - m + c + m == a + c;
    }
  }

  lemma {:induction false} ModMinus(a: int, o: int, m: int)
    requires m > 0
    ensures Mod(a - Mod(o, m), m) == Mod(a - o, m)
    decreases o < 0, if o < 0 then -o else o
  {
    if o < 0 {
      ModMinus(a, o + m, m);
      ModTurn(a - (o + m), m);
      assert a - (o + m) + m == a - o;
    } else if o >= m {
      ModMinus(a, o - m, m);
      ModTurn(a - o, m);
      assert a - o + m == a - (o - m);
    }
  }

  /** Congruent numbers stay congruent when the same amount is added. */
  lemma ModCong(a: int, b: int, c: int, m: int)
    requires m > 0 && Mod(a, m) == Mod(b, m)
    ensures Mod(a + c, m) == Mod(b + c, m)
  {
    ModPlus(a, c, m);
    ModPlus(b, c, m);
  }

  /** Adding a number that is at most one turn away wraps at most once. */
  lemma ModNear(a: int, b: int, m: int)
    requires m > 0 && -m <= b <= m
    ensures var r := Mod(a, m);
            Mod(a + b, m) == (if r + b < 0 then r + b + m else if r + b >= m then r + b - m else r + b)
  {
    ModPlus(a, b, m);
  }

  // ---- powers of two ----

  predicate IsPow2(g: int)
  {
    g == 1 || (g > 1 && g % 2 == 0 && IsPow2(g / 2))
  }

  lemma {:induction false} Pow2Gap(a: int, b: int)
    requires IsPow2(a) && IsPow2(b) && a < b
    ensures 2 * a <= b
    decreases b
  {
    if a > 1 {
      Pow2Gap(a / 2, b / 2);
    }
  }

  /** At most one power of two g has g <= n < 2*g. */
  lemma Pow2Unique(a: int, b: int, n: int)
    requires IsPow2(a) && IsPow2(b)
    requires a <= n < 2 * a && b <= n < 2 * b
    ensures a == b
  {
    if a < b { Pow2Gap(a, b); }
    if b < a { Pow2Gap(b, a); }
  }

  /** The greatest power of two that is at most n. */
  function Gp2(n: int): (g: int)
    requires n >= 1
    ensures IsPow2(g) && g <= n < 2 * g
  {
    if n == 1 then 1 else 2 * Gp2(n / 2)
  }

  method GreatestPowerOf2LeTo(input: int) returns (r: int)
    ensures input >= 1 ==> r == Gp2(input)
    ensures input < 1 ==> r == 0
  {
    var checkVal := 1;
    while checkVal <= input
      invariant IsPow2(checkVal)
      invariant checkVal == 1 || checkVal / 2 <= input
      decreases input - checkVal
    {
      checkVal := checkVal * 2;
    }
    if input >= 1 {
      Pow2Unique(checkVal / 2, Gp2(input), input);
    }
    return checkVal / 2;
  }
}
