/** Words as natural numbers: fields, two's complement, and the bitwise or. */
module Bits {
  type Byte = b: nat | b < 256

  /** The signed number that a field with the values 0 .. 2 * half - 1 stands for. */
  function Signed(x: nat, half: nat): int {
    if x < half then x else x - 2 * half
  }

  function Or(a: nat, b: nat): nat {
    if a == 0 then b else if b == 0 then a
    else (if a % 2 == 1 || b % 2 == 1 then 1 else 0) + 2 * Or(a / 2, b / 2)
  }

  /** No bit is set in both. */
  ghost predicate Apart(a: nat, b: nat) {
    a == 0 || b == 0 || (!(a % 2 == 1 && b % 2 == 1) && Apart(a / 2, b / 2))
  }

  lemma {:induction false} OrIsSum(a: nat, b: nat)
    requires Apart(a, b)
    ensures Or(a, b) == a + b
  {
    if a != 0 && b != 0 {
      OrIsSum(a / 2, b / 2);
    }
  }

  function Pow2(n: nat): (p: nat)
    ensures p > 0
  {
    if n == 0 then 1 else 2 * Pow2(n - 1)
  }

  /** a >> k */
  function ShiftRight(a: nat, k: nat): nat {
    if k == 0 then a else ShiftRight(a / 2, k - 1)
  }

  lemma {:induction false} Pow2Plus(a: nat, b: nat)
    ensures Pow2(a + b) == Pow2(a) * Pow2(b)
  {
    if a > 0 {
      Pow2Plus(a - 1, b);
      Twice(Pow2(a - 1), Pow2(b));
    }
  }

  lemma {:induction false} HighLowApart(hi: nat, lo: nat, n: nat)
    requires lo < Pow2(n)
    ensures Apart(hi * Pow2(n), lo)
  {
    if n > 0 && hi > 0 && lo > 0 {
      assert hi * Pow2(n) == 2 * (hi * Pow2(n - 1));
      HighLowApart(hi, lo / 2, n - 1);
    }
  }

  lemma ApartDouble(x: nat, y: nat, b: nat)
    requires Apart(x, y) && b < 2
    ensures Apart(2 * x + b, 2 * y)
  {
  }

  lemma {:induction false} ApartShift(x: nat, y: nat, lo: nat, n: nat)
    requires Apart(x, y) && lo < Pow2(n)
    ensures Apart(Pow2(n) * x + lo, Pow2(n) * y)
  {
    if n > 0 {
      ApartShift(x, y, lo / 2, n - 1);
      var a, b := Pow2(n - 1) * x, Pow2(n - 1) * y;
      ApartDouble(a + lo / 2, b, lo % 2);
      Twice(Pow2(n - 1), x);
      Twice(Pow2(n - 1), y);
      assert 2 * (a + lo / 2) + lo % 2 == Pow2(n) * x + lo;
    } else {
      assert Pow2(n) * x + lo == x && Pow2(n) * y == y;
    }
  }

  lemma Twice(p: nat, x: nat)
    ensures (2 * p) * x == 2 * (p * x)
  {
  }

  /** Or fills a field of zeros at the bottom of a word. */
  lemma OrFillsLow(hi: nat, d: nat, n: nat)
    requires d < Pow2(n)
    ensures Or(hi * Pow2(n), d) == hi * Pow2(n) + d
  {
    HighLowApart(hi, d, n);
    OrIsSum(hi * Pow2(n), d);
  }

  /** Or fills a field of zeros that starts at bit 5. */
  lemma OrFillsMiddle(hi: nat, lo: nat, d: nat, n: nat)
    requires d < Pow2(n) && lo < 32
    ensures Or(32 * (hi * Pow2(n)) + lo, 32 * d) == 32 * (hi * Pow2(n)) + lo + 32 * d
  {
    HighLowApart(hi, d, n);
    assert Pow2(5) == 32;
    ApartShift(hi * Pow2(n), d, lo, 5);
    OrIsSum(32 * (hi * Pow2(n)) + lo, 32 * d);
  }

  lemma {:induction false} OrSwap(a: nat, b: nat)
    ensures Or(a, b) == Or(b, a)
  {
    if a != 0 && b != 0 {
      OrSwap(a / 2, b / 2);
    }
  }

  lemma OrDouble(a: nat, b: nat)
    ensures Or(2 * a, 2 * b) == 2 * Or(a, b)
  {
  }

  lemma {:induction false} OrBelow(a: nat, b: nat, n: nat)
    requires a < Pow2(n) && b < Pow2(n)
    ensures Or(a, b) < Pow2(n)
    decreases n
  {
    if a != 0 && b != 0 {
      OrBelow(a / 2, b / 2, n - 1);
    }
  }

  /** The lowest bit apart. */
  lemma OrBits(u: nat, v: nat, i: nat, j: nat)
    requires i < 2 && j < 2
    ensures Or(2 * u + i, 2 * v + j) == 2 * Or(u, v) + if i == 1 || j == 1 then 1 else 0
  {
  }

  /** The n lowest bits apart. */
  lemma {:induction false} OrSplit(a: nat, x: nat, b: nat, y: nat, n: nat)
    requires x < Pow2(n) && y < Pow2(n)
    ensures Or(Pow2(n) * a + x, Pow2(n) * b + y) == Pow2(n) * Or(a, b) + Or(x, y)
    decreases n
  {
    hide Or;
    if n == 0 {
      OrNothing(a, b);
    } else {
      var p := Pow2(n - 1);
      OrSplit(a, x / 2, b, y / 2, n - 1);
      OrSplitStep(p * a, x, p * b, y, p * Or(a, b));
      Twice(p, a);
      Twice(p, b);
      Twice(p, Or(a, b));
    }
  }

  lemma OrNothing(a: nat, b: nat)
    ensures Or(Pow2(0) * a + 0, Pow2(0) * b + 0) == Pow2(0) * Or(a, b) + Or(0, 0)
  {
    assert Pow2(0) * a == a && Pow2(0) * b == b && Or(0, 0) == 0;
  }

  lemma OrSplitStep(u: nat, x: nat, v: nat, y: nat, o: nat)
    requires Or(u + x / 2, v + y / 2) == o + Or(x / 2, y / 2)
    ensures Or(2 * u + x, 2 * v + y) == 2 * o + Or(x, y)
  {
    hide Or;
    OrBits(u + x / 2, v + y / 2, x % 2, y % 2);
    OrBits(x / 2, y / 2, x % 2, y % 2);
  }

  lemma {:induction false} Pow2Grows(a: nat, b: nat)
    requires a <= b
    ensures Pow2(a) <= Pow2(b)
    ensures a < b ==> Pow2(a) < Pow2(b)
  {
    if a < b {
      Pow2Grows(a, b - 1);
    }
  }

  // ---------- products and remainders ----------

  lemma Distribute(a: int, b: int, c: int)
    ensures a * (b * c) == (a * b) * c && a * (b + c) == a * b + a * c
  {
  }

  lemma Swap(a: int, b: int)
    ensures a * b == b * a
  {
  }

  lemma AtLeast(m: int, d: int)
    requires m > 0
    ensures (d > 0 ==> m * d >= m) && (d < 0 ==> m * d <= -m)
  {
  }

  lemma Remainder(x: int, m: int, q: int, r: int)
    requires m > 0 && x == m * q + r && 0 <= r < m
    ensures x % m == r
  {
    var d := q - x / m;
    assert m * (x / m) + x % m == x;
    assert m * d == m * q - m * (x / m);
    AtLeast(m, d);
  }
}
