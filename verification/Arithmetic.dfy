// 64-bit division built from the x86 `divl` instruction, which divides a
// 64-bit value by a 32-bit one and traps when the quotient needs more than
// 32 bits.  Machine words are integers with their range; every wrap-around
// is written out as a remainder.
module Arithmetic {

  const B31: int := 0x8000_0000
  const B32: int := 0x1_0000_0000
  const B63: int := 0x8000_0000_0000_0000
  const B64: int := 0x1_0000_0000_0000_0000

  type u32 = x: int | 0 <= x < 0x1_0000_0000
  type u64 = x: int | 0 <= x < 0x1_0000_0000_0000_0000
  type i32 = x: int | -0x8000_0000 <= x < 0x8000_0000
  type i64 = x: int | -0x8000_0000_0000_0000 <= x < 0x8000_0000_0000_0000

  // A routine yields a value, executes a division that traps, or negates the
  // smallest signed value, which C leaves undefined.
  datatype Outcome<T> = Value(v: T) | DivideError | Undefined

  function Pow2(k: nat): (p: nat)
    ensures p > 0
  {
    if k == 0 then 1 else 2 * Pow2(k - 1)
  }

  lemma {:induction false} Pow2Add(a: nat, b: nat)
    ensures Pow2(a + b) == Pow2(a) * Pow2(b)
  {
    if a != 0 { Pow2Add(a - 1, b); }
  }

  lemma Pow2Mono(a: nat, b: nat)
    requires a <= b
    ensures Pow2(a) <= Pow2(b)
  {
    Pow2Add(a, b - a);
    assert Pow2(a) <= Pow2(a) * Pow2(b - a);
  }

  lemma MulMono(a: int, b: int, c: int)
    ensures a <= b && c >= 0 ==> a * c <= b * c
    ensures a < b && c > 0 ==> a * c < b * c
  {
  }

  // The number of leading zero bits of a nonzero 32-bit word.
  function LeadingZeros(x: u32): (s: nat)
    requires x != 0
    decreases B32 - x
  {
    if x >= B31 then 0 else 1 + LeadingZeros(2 * x)
  }

  lemma {:induction false} LeadingZerosShift(x: u32, k: nat)
    requires x != 0 && x * Pow2(k) < B32
    ensures LeadingZeros(x) == k + LeadingZeros(x * Pow2(k))
  {
    if k != 0 {
      var p := Pow2(k - 1);
      assert x * Pow2(k) == 2 * (x * p);
      LeadingZerosShift(x, k - 1);
    }
  }

  lemma {:induction false} LeadingZerosScale(x: u32)
    requires x != 0
    ensures B31 <= x * Pow2(LeadingZeros(x)) < B32
    decreases B32 - x
  {
    if x < B31 {
      LeadingZerosScale(2 * x);
      var p := Pow2(LeadingZeros(2 * x));
      assert (2 * x) * p == x * (2 * p);
    }
  }

  // The shift count is the unique one that brings the top bit to bit 31.
  lemma LeadingZerosUnique(x: u32, s: nat)
    requires x != 0
    ensures LeadingZeros(x) <= 31
    ensures s == LeadingZeros(x) <==> B31 <= x * Pow2(s) < B32
  {
    LeadingZerosScale(x);
    LeadingZerosBelow32(x);
    if x * Pow2(s) < B32 {
      LeadingZerosShift(x, s);
    }
  }

  lemma LeadingZerosBelow32(x: u32)
    requires x != 0
    ensures LeadingZeros(x) <= 31
  {
    LeadingZerosScale(x);
    var z := LeadingZeros(x);
    MulMono(1, x, Pow2(z));
    if z >= 32 {
      Pow2Mono(32, z);
      Pow2Values();
      assert false;
    }
  }

  // One step of the search: nothing is lost by shifting a small word left.
  lemma ShiftStep(x: u32, k: nat, p: int)
    requires x != 0 && p == Pow2(k) && x * p < B32
    ensures 0 < x * p && x * p % 0x1_0000_0000 == x * p && LeadingZeros(x) == k + LeadingZeros(x * p)
  {
    LeadingZerosShift(x, k);
  }

  lemma Pow2Values()
    ensures Pow2(1) == 2 && Pow2(2) == 4 && Pow2(4) == 0x10 && Pow2(8) == 0x100
    ensures Pow2(16) == 0x1_0000 && Pow2(31) == B31 && Pow2(32) == B32
  {
    assert Pow2(15) == 0x8000 && Pow2(16) == 0x1_0000;
    Pow2Add(15, 16);
    Pow2Add(16, 16);
  }

  // Binary search for the top bit, shifting the word left as it goes.
  method Nlz(word: u32) returns (n: nat)
    requires word != 0
    ensures n <= 31 && B31 <= word * Pow2(n) < B32
    ensures n == LeadingZeros(word)
  {
    Pow2Values();
    var x := word;
    n := 0;
    if x <= 0x0000_FFFF {
      ShiftStep(x, 16, 0x1_0000);
      n := n + 16;
      x := x * 0x1_0000 % 0x1_0000_0000;
    }
    assert x != 0 && LeadingZeros(word) == n + LeadingZeros(x);
    if x <= 0x00FF_FFFF {
      ShiftStep(x, 8, 0x100);
      n := n + 8;
      x := x * 0x100 % 0x1_0000_0000;
    }
    assert x != 0 && LeadingZeros(word) == n + LeadingZeros(x);
    if x <= 0x0FFF_FFFF {
      ShiftStep(x, 4, 0x10);
      n := n + 4;
      x := x * 0x10 % 0x1_0000_0000;
    }
    assert x != 0 && LeadingZeros(word) == n + LeadingZeros(x);
    if x <= 0x3FFF_FFFF {
      ShiftStep(x, 2, 4);
      n := n + 2;
      x := x * 4 % 0x1_0000_0000;
    }
    assert x != 0 && LeadingZeros(word) == n + LeadingZeros(x);
    if x <= 0x7FFF_FFFF {
      ShiftStep(x, 1, 2);
      n := n + 1;
    }
    assert n <= 31 && B31 <= word * Pow2(n) < B32 by { LeadingZerosUnique(word, n); }
  }

  // The machine instruction: quotient of a 64-bit by a 32-bit value.
  function Divl(n: u64, d: u32): Outcome<u32> {
    if d == 0 || n / d >= B32 then DivideError else Value(n / d)
  }

  lemma QuotientBelow(t: nat, d: nat, b: nat)
    requires d > 0 && t < b * d
    ensures 0 <= t / d < b
  {
    MulMono(b, t / d, d);
  }

  lemma QuotientAtMost(n: nat, d: nat)
    requires d > 0
    ensures 0 <= n / d <= n
  {
    MulMono(1, d, n / d);
  }

  function ShiftLeft(x: u64, k: nat): u64 {
    x * Pow2(k) % 0x1_0000_0000_0000_0000
  }

  function ShiftRight(x: u64, k: nat): (r: u64)
    ensures r <= x
  {
    QuotientAtMost(x, Pow2(k));
    x / Pow2(k)
  }

  // A divisor below 2^32 needs one `divl`; a wider one is scaled so that its
  // top 32 bits give an estimate that one multiplication corrects.
  function Udiv64(n: u64, d: u64): Outcome<u64> {
    if d / 0x1_0000_0000 == 0 then Narrow(n, d)
    else if n < d then Value(0)
    else Wide(n, d)
  }

  function Narrow(n: u64, d: u32): Outcome<u64> {
    if d == 0 then DivideError   // n1 % d0 divides by zero
    else Recombine((0x1_0000_0000 * (n / 0x1_0000_0000 % d) + n % 0x1_0000_0000) % 0x1_0000_0000_0000_0000,
                   n / 0x1_0000_0000 / d, d)
  }

  function Recombine(rest: u64, high: u64, d: u32): Outcome<u64> {
    match Divl(rest, d)
    case Value(low) => Value((low + 0x1_0000_0000 * high) % 0x1_0000_0000_0000_0000)
    case _ => DivideError
  }

  function Wide(n: u64, d: u64): Outcome<u64>
    requires d >= B32
  {
    var s := LeadingZeros(d / 0x1_0000_0000);
    LeadingZerosBelow32(d / 0x1_0000_0000);
    match Divl(n / 2, ShiftLeft(d, s) / 0x1_0000_0000)
    case Value(estimate) => Value(Correct(n, d, ShiftRight(estimate, 31 - s)))
    case _ => DivideError
  }

  // The estimate q is one too large exactly when q - 1 leaves a remainder
  // below d; the product and the difference wrap at 2^64.
  function Correct(n: u64, d: u64, q: u64): u64 {
    var q1 := (q - 1) % 0x1_0000_0000_0000_0000;
    if (n - q1 * d) % 0x1_0000_0000_0000_0000 < d then q1 else q
  }

  lemma DivUnique(n: int, d: int, q: int)
    requires d > 0 && q * d <= n < (q + 1) * d
    ensures n / d == q
  {
    var r := n / d;
    MulMono(r + 1, q, d);
    MulMono(q + 1, r, d);
  }

  lemma DivDiv(n: nat, a: nat, b: nat)
    requires a > 0 && b > 0
    ensures a * b > 0 && n / a / b == n / (a * b)
  {
    var q := n / a;
    var p := q / b;
    DivBounds(n, a);
    DivBounds(q, b);
    NestedBounds(n, a, b, q, p);
    DivUnique(n, a * b, p);
  }

  lemma NestedBounds(n: int, a: nat, b: nat, q: int, p: int)
    requires a > 0 && b > 0 && q * a <= n < (q + 1) * a && p * b <= q < (p + 1) * b
    ensures a * b > 0 && p * (a * b) <= n < (p + 1) * (a * b)
  {
    MulMono(p * b, q, a);
    MulMono(q + 1, (p + 1) * b, a);
    MulSwap(p, b, a);
    MulSwap(p + 1, b, a);
    MulMono(0, a, b);
  }

  lemma MulSwap(x: int, y: int, z: int)
    ensures x * y * z == x * (z * y)
  {
  }

  // The narrow case never traps and is exact.
  lemma NarrowDivision(n: u64, d: u64)
    requires 0 < d < B32
    ensures Narrow(n, d) == Value(n / d)
  {
    NarrowFromHalves(n, n / 0x1_0000_0000, n % 0x1_0000_0000, d);
  }

  lemma NarrowFromHalves(n: u64, n1: nat, n0: nat, d: u32)
    requires d > 0 && n1 < B32 && n0 < B32 && n == 0x1_0000_0000 * n1 + n0
    ensures n1 % d <= n1 && n1 / d <= n1
    ensures Recombine((0x1_0000_0000 * (n1 % d) + n0) % 0x1_0000_0000_0000_0000, n1 / d, d) == Value(n / d)
  {
    hide Divl, Recombine;
    DivBounds(n1, d);
    var low := NarrowLow(n1, n0, d);
    NarrowParts(n1 % d, n1 / d, n0, d, low, n / d);
  }

  lemma NarrowParts(rest: nat, high: nat, n0: nat, d: u32, low: nat, q: nat)
    requires rest < d && high < B32 && n0 < B32 && low < B32
    requires low == (0x1_0000_0000 * rest + n0) / d && q == low + 0x1_0000_0000 * high < B64
    ensures Recombine((0x1_0000_0000 * rest + n0) % 0x1_0000_0000_0000_0000, high, d) == Value(q)
  {
    hide Divl, Recombine;
    NoWrap(rest, n0);
    DivlValue(0x1_0000_0000 * rest + n0, d, low);
    RecombineValue(0x1_0000_0000 * rest + n0, high, d, low);
  }

  lemma DivlValue(n: u64, d: u32, q: nat)
    requires d > 0 && q == n / d && q < B32
    ensures Divl(n, d) == Value(q)
  {
  }

  lemma RecombineValue(rest: u64, high: u64, d: u32, low: nat)
    requires Divl(rest, d) == Value(low) && low + 0x1_0000_0000 * high < B64
    ensures Recombine(rest, high, d) == Value(low + 0x1_0000_0000 * high)
  {
  }

  lemma NoWrap(rest: nat, n0: nat)
    requires rest < B32 - 1 && n0 < B32
    ensures var t := 0x1_0000_0000 * rest + n0; t % 0x1_0000_0000_0000_0000 == t
  {
  }

  lemma NarrowLow(n1: nat, n0: nat, d: nat) returns (low: nat)
    requires 0 < d < B32 && n1 < B32 && n0 < B32
    ensures 0 <= n1 % d < d
    ensures low == (0x1_0000_0000 * (n1 % d) + n0) / d && low < B32
    ensures low + 0x1_0000_0000 * (n1 / d) == (0x1_0000_0000 * n1 + n0) / d
    ensures (0x1_0000_0000 * n1 + n0) / d <= 0x1_0000_0000 * n1 + n0
    ensures 0 <= n1 / d
  {
    var t := 0x1_0000_0000 * (n1 % d) + n0;
    DivBounds(n1, d);
    DivBounds(t, d);
    low := t / d;
    NarrowSum(n1, n0, d, n1 % d, n1 / d, low);
    DivUnique(0x1_0000_0000 * n1 + n0, d, low + 0x1_0000_0000 * (n1 / d));
    DivBounds(0x1_0000_0000 * n1 + n0, d);
  }

  lemma DivBounds(n: nat, d: nat)
    requires d > 0
    ensures n == n / d * d + n % d && 0 <= n % d < d
    ensures n / d * d <= n < (n / d + 1) * d && 0 <= n / d <= n
  {
    QuotientAtMost(n, d);
  }

  lemma NarrowSum(n1: nat, n0: nat, d: nat, rest: nat, high: nat, low: nat)
    requires n1 == high * d + rest && rest < d && n0 < B32
    requires low * d <= 0x1_0000_0000 * rest + n0 < (low + 1) * d
    ensures low < B32
    ensures (low + 0x1_0000_0000 * high) * d <= 0x1_0000_0000 * n1 + n0 < (low + 0x1_0000_0000 * high + 1) * d
  {
    MulMono(B32, low, d);
    assert (low + 0x1_0000_0000 * high) * d == low * d + 0x1_0000_0000 * (high * d);
    assert (low + 0x1_0000_0000 * high + 1) * d == (low + 1) * d + 0x1_0000_0000 * (high * d);
  }

  // With D the truncated divisor scaled back, n/d <= n/D <= n/d + 1.
  lemma EstimateWithinOne(n: nat, d: nat, D: nat, w: nat)
    requires n < B64 && 0x8000_0000 * w <= D <= d < D + w
    ensures D > 0 && n / d <= n / D <= n / d + 1
  {
    assert w >= 1;
    var q, e := n / d, n / D;
    DivBounds(n, d);
    DivBounds(n, D);
    MulMono(D, d, q);
    MulMono(q, e + 1, D);
    MulMono(e + 1, q, D);
    TruncationLoss(n, d, D, w, B31);
    EstimateUpper(n, d, D, q, e);
  }

  lemma EstimateUpper(n: nat, d: nat, D: nat, q: nat, e: nat)
    requires 0 < D <= d && n * (d - D) < d * D
    requires e * D <= n < (q + 1) * d
    ensures e <= q + 1
  {
    MulMono(e * D, n, d);
    MulSwap(e, D, d);
    MulSwap(e, d, D);
    Distribute(n, d, D);
    MulMono(n + d, e * d, D);
    Distribute(e - 1, d, 1);
    MulMono(q + 1, e - 1, d);
  }

  lemma Distribute(n: int, d: int, D: int)
    ensures n * d == n * (d - D) + n * D && (n + d) * D == n * D + d * D
    ensures (n + 1) * d == n * d + d
  {
  }

  lemma TruncationLoss(n: nat, d: nat, D: nat, w: nat, b: nat)
    requires n < 4 * (b * b) && 0 < w && 0 < b && b * w <= D <= d < D + w
    ensures n * (d - D) < d * D
  {
    SquareMono(b * w, D);
    MulMono(D, d, D);
    ProductOfSquares(b, w);
    MulMono(d - D, w - 1, n);
    Commute(d - D, n);
    Commute(w - 1, n);
    MulMono(n, 4 * (b * b), w - 1);
    Square(w);
    MulMono(4 * (w - 1), w * w, b * b);
    Regroup(b * b, w - 1);
    MulMono(0, b, w);
    MulMono(0, D, d);
  }

  lemma Commute(x: int, y: int)
    ensures x * y == y * x
  {
  }

  lemma Regroup(x: int, y: int)
    ensures 4 * x * y == 4 * y * x
  {
  }

  lemma SquareMono(x: nat, y: nat)
    requires x <= y
    ensures x * x <= y * y
  {
    MulMono(x, y, x);
    MulMono(x, y, y);
  }

  lemma ProductOfSquares(x: int, y: int)
    ensures (x * y) * (x * y) == (y * y) * (x * x) && x * x >= 0
  {
    assert (x * y) * (x * y) == x * (y * (x * y));
    assert y * (x * y) == x * (y * y);
    assert x * (x * (y * y)) == (y * y) * (x * x);
  }

  lemma Square(w: int)
    ensures 4 * (w - 1) <= w * w
  {
    assert (w - 2) * (w - 2) == w * w - 4 * w + 4;
    assert (w - 2) * (w - 2) >= 0;
  }

  // The scaled divisor keeps its top 32 bits, the highest of them set; w is
  // the weight that the bits cut off have in the unscaled divisor.
  lemma ScaledDivisor(d: u64, s: nat) returns (v: nat, w: nat)
    requires d >= B32 && s == LeadingZeros(d / 0x1_0000_0000)
    ensures s <= 31 && w == 2 * Pow2(31 - s)
    ensures v == ShiftLeft(d, s) / 0x1_0000_0000 && B31 <= v < B32
    ensures 0x8000_0000 * w <= v * w <= d < v * w + w
  {
    LeadingZerosScale(d / 0x1_0000_0000);
    LeadingZerosBelow32(d / 0x1_0000_0000);
    w := 2 * Pow2(31 - s);
    ScaleWeight(s);
    ScaledRange(d, d / 0x1_0000_0000, Pow2(s), w);
    var product := d * Pow2(s);
    ShiftFits(d, s, product);
    hide *;
    v := product / 0x1_0000_0000;
    ScaledTop(d, Pow2(s), w, product, v);
    MulMono(B31, v, w);
  }

  lemma ShiftFits(d: u64, s: nat, product: nat)
    requires product == d * Pow2(s) < B64
    ensures ShiftLeft(d, s) == product
  {
  }

  lemma ScaleWeight(s: nat)
    requires s <= 31
    ensures Pow2(s) * (2 * Pow2(31 - s)) == B32
  {
    Pow2Add(s, 32 - s);
    Pow2Values();
  }

  lemma ScaledRange(d: nat, d1: nat, p: nat, w: nat)
    requires d1 * 0x1_0000_0000 <= d < (d1 + 1) * 0x1_0000_0000 && p > 0 && w > 0 && p * w == B32
    requires B31 <= d1 * p < B32
    ensures B63 <= d * p < B64
  {
    MulMono(w, d1, p);
    MulSwap(1, w, p);
    MulMono(d1 + 1, w, p);
    MulMono(d, (d1 + 1) * 0x1_0000_0000, p);
    MulMono(d1 * 0x1_0000_0000, d, p);
    MulSwap(d1 + 1, B32, p);
    MulSwap(d1, B32, p);
    MulSwap(d1 + 1, p, B32);
    MulSwap(d1, p, B32);
    MulMono(B31, d1 * p, B32);
    MulMono((d1 + 1) * p, B32, B32);
  }

  lemma ScaledTop(d: nat, p: nat, w: nat, product: nat, v: nat)
    requires p > 0 && p * w == B32 && product == d * p && v * 0x1_0000_0000 <= product < v * 0x1_0000_0000 + B32
    ensures v * w <= d < v * w + w
  {
    MulSwap(v, w, p);
    assert (v * w + w) * p == v * w * p + w * p;
    assert w * p == p * w;
    MulMono(d + 1, v * w, p);
    MulMono(v * w + w, d, p);
  }

  // The wide case never traps either, and the correction makes it exact.
  lemma WideDivision(n: u64, d: u64)
    requires B32 <= d <= n
    ensures Wide(n, d) == Value(n / d)
  {
    var s, v, estimate, q := WideEstimate(n, d);
    WideValue(n, d, s, v, estimate, q);
    CorrectionIsExact(n, d, q);
  }

  lemma WideEstimate(n: u64, d: u64) returns (s: nat, v: nat, estimate: nat, q: nat)
    requires B32 <= d <= n
    ensures s == LeadingZeros(d / 0x1_0000_0000) && s <= 31 && 0 < v == ShiftLeft(d, s) / 0x1_0000_0000
    ensures estimate == n / 2 / v < B32 && q == estimate / Pow2(31 - s)
    ensures 1 <= n / d <= q <= n / d + 1
  {
    s := LeadingZeros(d / 0x1_0000_0000);
    ghost var w;
    v, w := ScaledDivisor(d, s);
    estimate, q := EstimateSteps(n, v, Pow2(31 - s));
    EstimateWithinOne(n, d, v * w, w);
    QuotientAtLeastOne(n, d);
  }

  // Halving, dividing and shifting is one division by the truncated divisor.
  lemma EstimateSteps(n: u64, v: nat, half: nat) returns (estimate: nat, q: nat)
    requires B31 <= v < B32 && half > 0
    ensures estimate == n / 2 / v < B32 && q == estimate / half
    ensures v * (2 * half) > 0 && q == n / (v * (2 * half))
  {
    estimate := EstimateFits(n / 2, v);
    DivDiv(n, 2, v);
    DivDiv(n, 2 * v, half);
    MulSwap(v, half, 2);
    assert 2 * v * half == v * (2 * half);
    q := n / (2 * v * half);
  }

  lemma EstimateFits(m: nat, v: nat) returns (estimate: nat)
    requires m < B63 && B31 <= v
    ensures estimate == m / v < B32
  {
    MulMono(B31, v, B32);
    QuotientBelow(m, v, B32);
    estimate := m / v;
  }

  lemma QuotientAtLeastOne(n: nat, d: nat)
    requires 0 < d <= n
    ensures n / d >= 1
  {
  }

  lemma WideValue(n: u64, d: u64, s: nat, v: nat, estimate: nat, q: nat)
    requires d >= B32 && s == LeadingZeros(d / 0x1_0000_0000) && s <= 31
    requires 0 < v == ShiftLeft(d, s) / 0x1_0000_0000
    requires estimate == n / 2 / v < B32 && q == estimate / Pow2(31 - s)
    ensures q < B64 && Wide(n, d) == Value(Correct(n, d, q))
  {
    QuotientAtMost(estimate, Pow2(31 - s));
  }

  lemma CorrectionIsExact(n: u64, d: u64, q: u64)
    requires d > 0 && 1 <= n / d <= q <= n / d + 1
    ensures Correct(n, d, q) == n / d
  {
    DivBounds(n, d);
    assert (n / d + 1) * d == n / d * d + d;
    CorrectionCases(n, d, q, n / d);
  }

  lemma CorrectionCases(n: u64, d: u64, q: u64, k: nat)
    requires 1 <= k <= q <= k + 1 && k * d <= n < k * d + d
    ensures Correct(n, d, q) == k
  {
    assert (k - 1) * d == k * d - d;
    MulMono(0, k - 1, d);
  }

  // Main result: for every dividend and divisor the routine returns the floor
  // of the quotient, and it traps exactly on division by zero.
  lemma UnsignedDivision(n: u64, d: u64)
    ensures d != 0 ==> 0 <= n / d < B64
    ensures Udiv64(n, d) == if d == 0 then DivideError else Value(n / d)
  {
    if 0 < d {
      QuotientAtMost(n, d);
      if d < B32 {
        NarrowDivision(n, d);
      } else if n >= d {
        WideDivision(n, d);
      } else {
        DivUnique(n, d, 0);
      }
    }
  }

  // The remainder is computed in 64 bits and cut to 32 on return.
  function Umod64(n: u64, d: u64): Outcome<u32> {
    match Udiv64(n, d)
    case Value(q) => Value((n - d * q) % 0x1_0000_0000_0000_0000 % 0x1_0000_0000)
    case _ => DivideError
  }

  // So the remainder is right exactly when it fits in 32 bits.
  lemma UnsignedRemainder(n: u64, d: u64)
    requires d != 0
    ensures Umod64(n, d) == Value(n % d % 0x1_0000_0000)
    ensures Umod64(n, d) == Value(n % d) <==> n % d < B32
  {
    UnsignedDivision(n, d);
    DivBounds(n, d);
    var r := n % d;
    RemainderValue(n, d, n / d, r);
    LowWord(r);
  }

  lemma LowWord(r: u64)
    ensures 0 <= r % 0x1_0000_0000 < B32
    ensures r % 0x1_0000_0000 == r <==> r < B32
  {
  }

  lemma RemainderValue(n: u64, d: u64, q: nat, r: nat)
    requires n == q * d + r && r < B64
    ensures (n - d * q) % 0x1_0000_0000_0000_0000 == r
  {
    Commute(d, q);
  }

  // Conversion of a 64-bit word to the signed value it represents.
  function Signed(x: u64): i64 {
    if x < B63 then x else x - B64
  }

  function Magnitude(n: i64): u64 {
    var m: int := n;
    if m >= 0 then m else (-m) % 0x1_0000_0000_0000_0000
  }

  function Sdiv64(n: i64, d: i64): Outcome<i64> {
    match Udiv64(Magnitude(n), Magnitude(d))
    case Value(q) =>
      if (n < 0) == (d < 0) then Value(Signed(q))
      else if Signed(q) == -B63 then Undefined   // negating INT64_MIN
      else Value(-Signed(q))
    case _ => DivideError
  }

  // Division rounding toward zero, as C defines it.
  ghost predicate TruncatedQuotient(n: int, d: int, q: int)
    requires d != 0
  {
    var r := n - d * q;
    && Abs(r) < Abs(d)
    && (r == 0 || (r < 0) == (n < 0))
  }

  function Abs(x: int): nat {
    if x < 0 then -x else x
  }

  // Signed division truncates toward zero except for the two quotients of
  // INT64_MIN by 1 and -1; by 1 it negates INT64_MIN, by -1 the quotient does
  // not fit.
  lemma SignedDivision(n: i64, d: i64)
    requires d != 0
    ensures (Sdiv64(n, d).Value? && TruncatedQuotient(n, d, Sdiv64(n, d).v))
            <==> !(n == -B63 && (d == 1 || d == -1))
    ensures n == -B63 && d == 1 ==> Sdiv64(n, d) == Undefined
    ensures n == -B63 && d == -1 ==> Sdiv64(n, d) == Value(-B63)
  {
    if n == -B63 && (d == 1 || d == -1) {
      SignedDivisionOverflow(d);
    } else {
      SignedDivisionExact(n, d);
    }
  }

  lemma SignedDivisionExact(n: i64, d: i64)
    requires d != 0 && !(n == -B63 && (d == 1 || d == -1))
    ensures Sdiv64(n, d).Value? && TruncatedQuotient(n, d, Sdiv64(n, d).v)
  {
    var q := MagnitudeQuotient(n, d);
    SignedValue(n, d, q);
  }

  lemma SignedValue(n: i64, d: i64, q: int)
    requires 0 <= q < B63 && Udiv64(Magnitude(n), Magnitude(d)) == Value(q)
    ensures Sdiv64(n, d) == Value(if (n < 0) == (d < 0) then q else -q)
  {
  }

  lemma MagnitudeQuotient(n: i64, d: i64) returns (q: int)
    requires d != 0 && !(n == -B63 && (d == 1 || d == -1))
    ensures 0 <= q < B63 && Udiv64(Magnitude(n), Magnitude(d)) == Value(q)
    ensures TruncatedQuotient(n, d, if (n < 0) == (d < 0) then q else -q)
  {
    UnsignedDivision(Magnitude(n), Magnitude(d));
    MagnitudeIsAbs(n);
    MagnitudeIsAbs(d);
    q := AbsQuotient(Abs(n), Abs(d));
    AbsQuotientFits(Abs(n), Abs(d));
    SignedQuotient(n, d, q);
  }

  lemma MagnitudeIsAbs(n: i64)
    ensures Magnitude(n) == Abs(n)
  {
  }

  lemma AbsQuotient(a: nat, b: nat) returns (q: nat)
    requires b > 0
    ensures q == a / b && q * b <= a < q * b + b
  {
    DivBounds(a, b);
    q := a / b;
    assert (q + 1) * b == q * b + b;
  }

  lemma SignedDivisionOverflow(d: i64)
    requires d == 1 || d == -1
    ensures Sdiv64(-B63, d) == if d == 1 then Undefined else Value(-B63)
    ensures !TruncatedQuotient(-B63, -1, -B63)
  {
    UnsignedDivision(B63, 1);
    NoTruncatedQuotient();
  }

  lemma NoTruncatedQuotient()
    ensures !TruncatedQuotient(-B63, -1, -B63)
  {
  }

  lemma AbsQuotientFits(a: nat, b: nat)
    requires 0 < b && a <= B63 && (a < B63 || b >= 2)
    ensures 0 <= a / b < B63
  {
    if a < B63 {
      QuotientAtMost(a, b);
    } else {
      MulMono(2, b, B63 - 1);
      MulMono(1, B63, b);
      Commute(b, B63 - 1);
      QuotientBelow(a, b, B63);
    }
  }

  lemma SignedQuotient(n: int, d: int, q: int)
    requires d != 0 && q >= 0 && q * Abs(d) <= Abs(n) < q * Abs(d) + Abs(d)
    ensures TruncatedQuotient(n, d, if (n < 0) == (d < 0) then q else -q)
  {
    var s := if (n < 0) == (d < 0) then q else -q;
    assert d * s == if n < 0 then -(q * Abs(d)) else q * Abs(d);
  }

  // The signed remainder, computed in 64 bits and cut to 32 on return.
  function Smod64(n: i64, d: i64): Outcome<i32> {
    match Sdiv64(n, d)
    case Value(q) => Remainder32(n, d * q)
    case Undefined => Undefined
    case DivideError => DivideError
  }

  function Remainder32(n: i64, product: int): Outcome<i32> {
    if -B63 <= product < B63 && -B63 <= n - product < B63 then Value(Low32(n - product)) else Undefined
  }

  function Low32(r: int): i32 {
    var low := r % 0x1_0000_0000;
    if low < B31 then low else low - B32
  }

  // The remainder as C defines it: it has the sign of the dividend.
  function CRemainder(n: int, d: int): int
    requires d != 0
  {
    var r := Abs(n) % Abs(d);
    if n < 0 then -r else r
  }

  // So it is right exactly when it fits in 32 bits and the division is defined.
  lemma SignedRemainder(n: i64, d: i64)
    requires d != 0
    ensures var r, overflow := CRemainder(n, d), n == -B63 && (d == 1 || d == -1);
            && (overflow ==> Smod64(n, d) == Undefined)
            && (!overflow ==> Smod64(n, d) == Value(Low32(r)))
            && (Smod64(n, d).Value? && Smod64(n, d).v == r <==> !overflow && -B31 <= r < B31)
  {
    hide Smod64, CRemainder;
    if n == -B63 && (d == 1 || d == -1) {
      RemainderOverflow(d);
    } else {
      RemainderDefined(n, d);
      LowFits(CRemainder(n, d));
    }
  }

  lemma RemainderOverflow(d: i64)
    requires d == 1 || d == -1
    ensures Smod64(-B63, d) == Undefined
  {
    hide Sdiv64;
    SignedDivisionOverflow(d);
  }

  lemma RemainderDefined(n: i64, d: i64)
    requires d != 0 && !(n == -B63 && (d == 1 || d == -1))
    ensures Smod64(n, d) == Value(Low32(CRemainder(n, d)))
  {
    hide Sdiv64, CRemainder, Low32;
    var q := RemainderOf(n, d);
  }

  lemma LowFits(r: int)
    ensures Low32(r) == r <==> -B31 <= r < B31
  {
  }

  lemma RemainderOf(n: i64, d: i64) returns (q: int)
    requires d != 0 && !(n == -B63 && (d == 1 || d == -1))
    ensures Sdiv64(n, d) == Value(q) && -B63 <= q < B63
    ensures n - d * q == CRemainder(n, d) && -B63 <= d * q < B63 && -B63 <= CRemainder(n, d) < B63
  {
    SignedDivisionExact(n, d);
    q := Sdiv64(n, d).v;
    hide Udiv64, Sdiv64;
    TruncatedIsCRemainder(n, d, q);
  }

  // Truncation leaves what the remainder of the magnitudes says.
  lemma TruncatedIsCRemainder(n: int, d: int, q: int)
    requires d != 0 && TruncatedQuotient(n, d, q) && -B63 <= n < B63
    ensures n - d * q == CRemainder(n, d)
    ensures -B63 <= d * q < B63 && -B63 <= n - d * q < B63
  {
    var r := n - d * q;
    MagnitudeSplit(n, d, q, r);
    DivUnique(Abs(n), Abs(d), Abs(q));
    DivBounds(Abs(n), Abs(d));
  }

  lemma MagnitudeSplit(n: int, d: int, q: int, r: int)
    requires d != 0 && r == n - d * q && Abs(r) < Abs(d) && (r == 0 || (r < 0) == (n < 0))
    ensures Abs(n) == Abs(q) * Abs(d) + Abs(r) && (Abs(q) + 1) * Abs(d) == Abs(q) * Abs(d) + Abs(d)
    ensures Abs(d * q) <= Abs(n)
  {
    AbsProduct(d, q);
    NoCancelling(n, d, d * q, r);
    Expand(Abs(q), Abs(d));
  }

  lemma Expand(x: int, y: int)
    ensures (x + 1) * y == x * y + y
  {
  }

  lemma AbsProduct(d: int, q: int)
    ensures Abs(d * q) == Abs(q) * Abs(d) && (d * q == 0 || d == 0 || Abs(d * q) >= Abs(d))
  {
    if q != 0 { MulMono(1, Abs(q), Abs(d)); }
  }

  // A product that is zero or no smaller than d does not cancel against a
  // remainder smaller than d.
  lemma NoCancelling(n: int, d: int, p: int, r: int)
    requires n == p + r && (p == 0 || Abs(p) >= Abs(d)) && Abs(r) < Abs(d) && (r == 0 || (r < 0) == (n < 0))
    ensures Abs(n) == Abs(p) + Abs(r)
  {
  }
}
