/** The replacement for fmod. A finite double is a whole number of units of 2^-1074, the smallest
    double; all but the largest 2^53 of them have trailing zeros. Doubling never rounds, halving rounds
    an odd number of units to the even neighbour, and the subtraction is proved not to round. */
module Fmod {

  datatype Double = Finite(units: int) | NotFinite

  const PRECISION := 0x20_0000_0000_0000

  function Abs(n: int): nat {
    if n < 0 then -n else n
  }

  /** No more than 53 significant bits. */
  predicate Fits(n: nat) {
    n < PRECISION || (n % 2 == 0 && Fits(n / 2))
  }

  /** n / 2 as a double: to the nearest number of units, a tie to the even one. */
  function Half(n: nat): (h: nat)
    ensures n - 1 <= 2 * h <= n + 1
    ensures n % 2 == 0 ==> 2 * h == n
  {
    if n % 2 == 0 || n / 2 % 2 == 0 then n / 2 else n / 2 + 1
  }

  predicate Divides(d: nat, n: nat)
    requires d > 0
  {
    n == 0 || (n >= d && Divides(d, n - d))
  }

  /** `r` is what is left of `x` after whole multiples of `y`: smaller than `y`, with the sign of `x`. */
  predicate IsRemainder(x: int, y: int, r: int)
    requires y != 0
  {
    Divides(Abs(y), Abs(x - r)) && Abs(r) < Abs(y) && (r == 0 || (r < 0 <==> x < 0))
  }

  /** The arguments, without sign, on which a halving rounds up far enough for the loop to subtract
      too much; `x` is then below 2^53 units, which is 2^-1021. */
  predicate SubtractsTooMuch(x: nat, y: nat)
    requires y > 0
  {
    (x + 1) % 4 == 0 && Divides(2 * y, x + 1)
  }

  lemma {:induction false} DividesRest(d: nat, a: nat, b: nat)
    requires d > 0 && Divides(d, a)
    ensures Divides(d, a + b) <==> Divides(d, b)
  {
    if a > 0 {
      DividesRest(d, a - d, b);
    }
  }

  /** There is only one remainder. */
  lemma RemainderIsUnique(x: int, y: int, r: int, s: int)
    requires y != 0 && IsRemainder(x, y, r) && IsRemainder(x, y, s)
    ensures r == s
  {
    var a, b := Abs(x - r), Abs(x - s);
    if a < b {
      DividesRest(Abs(y), a, b - a);
    } else if b < a {
      DividesRest(Abs(y), b, a - b);
    }
  }

  // ---------------------------------------------------------------- what does not round

  /** Scaled by a power of two. */
  function Shifted(m: nat, k: nat): nat {
    if k == 0 then m else 2 * Shifted(m, k - 1)
  }

  /** The doubles are the numbers with a 53-bit significand and a power of two. */
  lemma FitsExactly(n: nat)
    ensures Fits(n) <==> exists m: nat, k: nat :: m < 0x20_0000_0000_0000 && n == Shifted(m, k)
  {
    if Fits(n) {
      var m, k := Significand(n);
    }
    if m: nat, k: nat :| m < 0x20_0000_0000_0000 && n == Shifted(m, k) {
      ShiftedFits(m, k);
    }
  }

  lemma {:induction false} Significand(n: nat) returns (m: nat, k: nat)
    requires Fits(n)
    ensures m < 0x20_0000_0000_0000 && n == Shifted(m, k)
    decreases n
  {
    m, k := n, 0;
    if n >= PRECISION {
      m, k := Significand(n / 2);
      k := k + 1;
    }
  }

  lemma {:induction false} ShiftedFits(m: nat, k: nat)
    requires m < 0x20_0000_0000_0000
    ensures Fits(Shifted(m, k))
  {
    if k > 0 {
      ShiftedFits(m, k - 1);
    }
  }

  lemma {:induction false} DoublingFits(n: nat)
    requires Fits(n)
    ensures Fits(2 * n)
  {
  }

  lemma HalfFits(n: nat)
    requires Fits(n)
    ensures Fits(Half(n))
  {
  }

  /** The difference of two doubles within a factor of two of each other is a double. */
  lemma {:induction false} DifferenceFits(x: nat, b: nat)
    requires Fits(x) && Fits(b) && b <= x < 2 * b
    ensures Fits(x - b)
    decreases x
  {
    if x - b >= PRECISION {
      DifferenceFits(x / 2, b / 2);
      assert (x - b) / 2 == x / 2 - b / 2;
    }
  }

  // ---------------------------------------------------------------- the inner loop

  /** `b` is `y` doubled any number of times. */
  predicate Doubled(y: nat, b: nat)
    requires y > 0
  {
    b == y || (b > y && b % 2 == 0 && Doubled(y, b / 2))
  }

  lemma {:induction false} DoubledDivides(y: nat, b: nat)
    requires y > 0 && Doubled(y, b)
    ensures b >= y && Divides(y, b)
    ensures b > y ==> b >= 2 * y && Divides(2 * y, b)
    ensures b > 2 * y ==> b >= 4 * y && b % 4 == 0
  {
    if b == y {
      assert Divides(y, y - y);
    } else {
      var c := b / 2;
      DoubledDivides(y, c);
      DividesRest(y, c, c);
      if c == y {
        assert Divides(2 * y, b - 2 * y);
      } else {
        DividesRest(2 * y, c, c);
      }
    }
  }

  /** The inner loop: doubles `y` until it passes half of `x`. That leaves more than half of `x`, and no
      more than `x` unless rounding lets it pass `x` by one unit. */
  method LargestDouble(x: nat, y: nat) returns (b: nat)
    requires 0 < y <= x && Fits(x) && Fits(y)
    ensures Doubled(y, b) && Fits(b) && Half(x) < b && x < 2 * b
    ensures b <= x || (b == x + 1 && b > y && (x + 1) % 4 == 0 && x < PRECISION)
  {
    HalfFits(x);
    var a := Half(x);
    b := y;
    while a >= b
      invariant 0 < b && Doubled(y, b) && Fits(b) && (b == y || (b > y && b <= 2 * a))
      decreases a + 1 - b
    {
      DoublingFits(b);
      b := b * 2;
    }
  }

  // ---------------------------------------------------------------- the outer loop

  /** A pass that does not subtract too much leaves it open whether a later one does. */
  lemma PassLeavesOpen(x: nat, y: nat, b: nat)
    requires y > 0 && Doubled(y, b) && b <= x < 2 * b && Half(x) < b
    ensures SubtractsTooMuch(x, y) <==> SubtractsTooMuch(x - b, y)
  {
    DoubledDivides(y, b);
    if b > 2 * y {
      DividesRest(2 * y, b, x - b + 1);
      FoursAside(b, x - b + 1);
    } else if SubtractsTooMuch(x, y) || SubtractsTooMuch(x - b, y) {
      DividesOnce(y, b, x);
      assert false;
    }
  }

  lemma FoursAside(b: nat, n: nat)
    requires b % 4 == 0
    ensures (b + n) % 4 == 0 <==> n % 4 == 0
  {
  }

  lemma DividesOnce(y: nat, b: nat, x: nat)
    requires y > 0 && (b == y || b == 2 * y) && b <= x < 2 * b
    requires SubtractsTooMuch(x, y) || SubtractsTooMuch(x - b, y)
    ensures Half(x) == b
  {
    if Divides(2 * y, x + 1) {
      assert Divides(2 * y, x + 1 - 2 * y);
    }
  }

  /** fs_fmod. The result is a remainder exactly if no halving rounds up too far; otherwise it is one
      unit with the wrong sign. */
  method FsFmod(x: Double, y: Double) returns (r: int)
    requires x.Finite? ==> Fits(Abs(x.units))
    requires y.Finite? ==> Fits(Abs(y.units))
    ensures x.NotFinite? || y.NotFinite? || y.units == 0 ==> r == 0
    ensures x.Finite? && y.Finite? && y.units != 0 ==>
              && Fits(Abs(r))
              && (IsRemainder(x.units, y.units, r) <==> !SubtractsTooMuch(Abs(x.units), Abs(y.units)))
              && (SubtractsTooMuch(Abs(x.units), Abs(y.units)) ==> r == if x.units < 0 then 1 else -1)
  {
    if x.NotFinite? || y.NotFinite? || y.units == 0 {
      return 0;
    }
    var left: int, step := Abs(x.units), Abs(y.units);
    ghost var whole := Abs(x.units);
    while left >= step
      invariant left == -1 || (0 <= left <= whole && Fits(left) && Divides(step, whole - left))
      invariant SubtractsTooMuch(whole, step) <==> left == -1 || SubtractsTooMuch(left, step)
      decreases left
    {
      var b := LargestDouble(left, step);
      DoubledDivides(step, b);
      if b <= left {
        DifferenceFits(left, b);
        PassLeavesOpen(left, step, b);
        DividesRest(step, whole - left, b);
      }
      left := left - b;
    }
    r := if x.units < 0 then -left else left;
    if left >= 0 {
      assert Abs(x.units - r) == whole - left;
    }
  }

  /** One instance: of 3 units by 1 unit nothing is left, but the result is -1 unit. */
  lemma ThreeByOneFails()
    ensures SubtractsTooMuch(3, 1) && !IsRemainder(3, 1, -1) && IsRemainder(3, 1, 0)
  {
    assert Divides(2, 2) && Divides(2, 4);
    assert Divides(1, 1) && Divides(1, 2) && Divides(1, 3);
  }

  /** Where the arguments are too far from the smallest double for that, the result is a remainder. */
  lemma NormalNumbersAreFine(x: nat, y: nat)
    requires y > 0 && Fits(x) && x >= 0x20_0000_0000_0000
    ensures !SubtractsTooMuch(x, y)
  {
  }
}
