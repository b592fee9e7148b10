/**
 * Python's arbitrary-precision integer operators, written out over Dafny's
 * unbounded `int`. Dafny's `/` and `%` are Euclidean and it has no bitwise
 * operators on `int`, so floor division, the floor modulo, shifts and the
 * two's-complement bitwise operators are defined here and characterised by
 * their contracts and lemmas.
 */
module PyInt {
  import opened Outcomes

  function Abs(x: int): nat {
    if x < 0 then -x else x
  }

  /** `1 << n`. */
  function Pow2(n: nat): (r: int)
    ensures r >= 1
  {
    if n == 0 then 1 else 2 * Pow2(n - 1)
  }

  /** `b ** e` for a non-negative exponent. */
  function Power(b: int, e: nat): int {
    if e == 0 then 1 else b * Power(b, e - 1)
  }

  lemma {:induction false} Pow2Add(a: nat, b: nat)
    ensures Pow2(a + b) == Pow2(a) * Pow2(b)
  {
    if a > 0 {
      Pow2Add(a - 1, b);
    }
  }

  /** `1 << n` and `2 ** n` are the same number. */
  lemma {:induction false} Pow2IsPower(n: nat)
    ensures Pow2(n) == Power(2, n)
  {
    if n > 0 {
      Pow2IsPower(n - 1);
    }
  }

  lemma {:induction false} Pow2Monotone(a: nat, b: nat)
    requires a <= b
    ensures Pow2(a) <= Pow2(b)
  {
    Pow2Add(a, b - a);
  }

  /** Quotient and remainder are determined by the division identity. */
  lemma {:induction false} DivModUnique(x: int, d: int, q: int, r: int)
    requires d > 0 && 0 <= r < d && x == q * d + r
    ensures x / d == q && x % d == r
  {
    var q', r' := x / d, x % d;
    assert (q - q') * d == r' - r by {
      assert x == q' * d + r';
      MulSub(q, q', d);
    }
    if q' < q {
      MulAtLeast(q - q', d);
    } else if q < q' {
      MulSub(q', q, d);
      MulAtLeast(q' - q, d);
    }
  }

  lemma {:induction false} MulSub(a: int, b: int, d: int)
    ensures (a - b) * d == a * d - b * d
  {
  }

  lemma {:induction false} MulAtLeast(a: int, d: int)
    requires a >= 1 && d > 0
    ensures a * d >= d
  {
  }

  lemma {:induction false} MulAdd(a: int, b: int, d: int)
    ensures (a + b) * d == a * d + b * d
  {
  }

  lemma {:induction false} MulSwap(q: int, p: int, b: int)
    ensures (q * p) * b == (q * b) * p
  {
  }

  lemma {:induction false} MulNeg(k: int, p: int)
    ensures (-k) * p == -(k * p)
  {
  }

  lemma {:induction false} MulLessEq(a: int, b: int, e: int)
    requires a <= b && e >= 0
    ensures a * e <= b * e
  {
  }

  /** `a // b`: the quotient rounded towards negative infinity. */
  function FloorDivision(a: int, b: int): (q: int)
    requires b != 0
    ensures b > 0 ==> q * b <= a < q * b + b
    ensures b < 0 ==> q * b + b < a <= q * b
  {
    if b > 0 then a / b else (-a) / (-b)
  }

  /** `a % b`: the remainder that completes `a // b` and takes the sign of `b`. */
  function FloorModulo(a: int, b: int): (r: int)
    requires b != 0
    ensures FloorDivision(a, b) * b + r == a
    ensures b > 0 ==> 0 <= r < b
    ensures b < 0 ==> b < r <= 0
  {
    if b > 0 then a % b else -((-a) % (-b))
  }

  /** `x << n`: `n` doublings. */
  function ShiftLeft(x: int, n: nat): int
    decreases n
  {
    if n == 0 then x else 2 * ShiftLeft(x, n - 1)
  }

  /** `x >> n`: `n` halvings, each rounding towards negative infinity. */
  function ShiftRight(x: int, n: nat): int
    decreases n
  {
    if n == 0 then x else ShiftRight(x / 2, n - 1)
  }

  lemma {:induction false} ShiftLeftIsProduct(x: int, n: nat)
    ensures ShiftLeft(x, n) == x * Pow2(n)
    decreases n
  {
    if n > 0 {
      ShiftLeftIsProduct(x, n - 1);
    }
  }

  /** Halving `n` times rounds `x / 2^n` towards negative infinity once. */
  lemma {:induction false} ShiftRightIsQuotient(x: int, n: nat)
    ensures ShiftRight(x, n) == x / Pow2(n)
    decreases n
  {
    if n == 0 {
      DivModUnique(x, 1, x, 0);
    } else {
      ShiftRightIsQuotient(x / 2, n - 1);
      DivDiv(x, 2, Pow2(n - 1));
    }
  }

  /** Dividing by `a` and then by `b` is dividing by `a * b`, when both are positive. */
  lemma {:induction false} DivDiv(x: int, a: int, b: int)
    requires a > 0 && b > 0
    ensures (x / a) / b == x / (a * b)
  {
    var q1, r1 := x / a, x % a;
    var q2, r2 := q1 / b, q1 % b;
    DivModIdentity(x, a);
    DivModIdentity(q1, b);
    assert x == q1 * a + r1;
    assert q1 == q2 * b + r2;
    assert q1 * a == q2 * (a * b) + r2 * a by {
      MulAdd(q2 * b, r2, a);
      assert (q2 * b) * a == q2 * (a * b);
    }
    assert r2 * a + r1 < a * b by {
      MulLessEq(r2, b - 1, a);
      assert (b - 1) * a == a * b - a;
    }
    DivModUnique(x, a * b, q2, r2 * a + r1);
  }

  /** Reducing modulo `p * q` and then modulo `p` is reducing modulo `p`. */
  lemma {:induction false} ModMod(x: int, p: int, q: int)
    requires p > 0 && q > 0
    ensures (x % (p * q)) % p == x % p
  {
    var k, r := x / (p * q), x % (p * q);
    DivModIdentity(x, p * q);
    DivModIdentity(r, p);
    assert k * (p * q) == (k * q) * p;
    MulAdd(k * q, r / p, p);
    DivModUnique(x, p, k * q + r / p, r % p);
  }

  lemma {:induction false} DivModIdentity(x: int, p: int)
    requires p > 0
    ensures x == (x / p) * p + x % p
  {
  }

  /** `x >> n` is the floor of `x / 2^n`. */
  lemma {:induction false} ShiftRightFloor(x: int, n: nat)
    ensures ShiftRight(x, n) * Pow2(n) <= x < ShiftRight(x, n) * Pow2(n) + Pow2(n)
  {
    ShiftRightIsQuotient(x, n);
    DivModIdentity(x, Pow2(n));
  }

  /** `(x << n) >> n == x`: shifting left loses nothing. */
  lemma {:induction false} ShiftLeftThenRight(x: int, n: nat)
    ensures ShiftRight(ShiftLeft(x, n), n) == x
  {
    if n > 0 {
      ShiftLeftThenRight(x, n - 1);
      assert (2 * ShiftLeft(x, n - 1)) / 2 == ShiftLeft(x, n - 1);
      ShiftRightAfterDoubling(ShiftLeft(x, n - 1), n - 1);
    }
  }

  lemma {:induction false} ShiftRightAfterDoubling(y: int, m: nat)
    ensures ShiftRight(2 * y, m + 1) == ShiftRight(y, m)
  {
    assert (2 * y) / 2 == y;
  }

  /** `~x`. */
  function BitNot(x: int): int {
    -x - 1
  }

  /** The three bitwise connectives of Python. */
  datatype BitOp = AndBits | OrBits | XorBits

  /** The connective on two single bits. */
  function BitOf(op: BitOp, x: int, y: int): (r: int)
    requires 0 <= x <= 1 && 0 <= y <= 1
    ensures 0 <= r <= 1
  {
    match op
    case AndBits => if x == 1 && y == 1 then 1 else 0
    case OrBits => if x == 1 || y == 1 then 1 else 0
    case XorBits => if x != y then 1 else 0
  }

  /**
   * The connective applied bit by bit to the infinite two's-complement
   * expansions of `a` and `b`: the lowest bit is `a % 2`, the rest is
   * `a / 2`, and once both are 0 or -1 every remaining bit is their sign.
   */
  function Bitwise(op: BitOp, a: int, b: int): int
    decreases Abs(a) + Abs(b)
  {
    if (a == 0 || a == -1) && (b == 0 || b == -1) then
      -BitOf(op, -a, -b)
    else
      2 * Bitwise(op, a / 2, b / 2) + BitOf(op, a % 2, b % 2)
  }

  function BitAnd(a: int, b: int): int {
    Bitwise(AndBits, a, b)
  }

  function BitOr(a: int, b: int): int {
    Bitwise(OrBits, a, b)
  }

  function BitXor(a: int, b: int): int {
    Bitwise(XorBits, a, b)
  }

  /** Every connective is symmetric in its operands. */
  lemma {:induction false} BitwiseCommutes(op: BitOp, a: int, b: int)
    ensures Bitwise(op, a, b) == Bitwise(op, b, a)
    decreases Abs(a) + Abs(b)
  {
    if !((a == 0 || a == -1) && (b == 0 || b == -1)) {
      BitwiseCommutes(op, a / 2, b / 2);
    }
  }

  lemma {:induction false} AndZero(x: int)
    ensures BitAnd(x, 0) == 0
    decreases Abs(x)
  {
    if x != 0 && x != -1 {
      AndZero(x / 2);
    }
  }

  lemma {:induction false} OrZero(x: int)
    ensures BitOr(x, 0) == x
    decreases Abs(x)
  {
    if x != 0 && x != -1 {
      OrZero(x / 2);
    }
  }

  /** Splitting off the lowest bit commutes with reducing modulo a power of two. */
  lemma {:induction false} HalveMod(x: int, k: int)
    requires k > 0
    ensures 2 * ((x / 2) % k) + x % 2 == x % (2 * k)
  {
    var q, b := x / 2, x % 2;
    var q1, r1 := q / k, q % k;
    assert x == (2 * k) * q1 + (2 * r1 + b);
    DivModUnique(x, 2 * k, q1, 2 * r1 + b);
  }

  /** Masking with `2^n - 1` keeps the residue modulo `2^n`, also for negative `x`. */
  lemma {:induction false} AndLowMask(x: int, n: nat)
    ensures BitAnd(x, Pow2(n) - 1) == x % Pow2(n)
    decreases n
  {
    if n == 0 {
      AndZero(x);
    } else {
      var m := Pow2(n) - 1;
      assert m / 2 == Pow2(n - 1) - 1 && m % 2 == 1;
      AndLowMask(x / 2, n - 1);
      HalveMod(x, Pow2(n - 1));
    }
  }

  /** `(a << k) | h` is `(a << k) + h` when `h` fits in the `k` vacated bits. */
  lemma {:induction false} OrDisjoint(a: int, h: int, k: nat)
    requires 0 <= h < Pow2(k)
    ensures BitOr(ShiftLeft(a, k), h) == ShiftLeft(a, k) + h
    decreases k
  {
    if k == 0 {
      OrZero(a);
    } else {
      var x := ShiftLeft(a, k);
      assert x / 2 == ShiftLeft(a, k - 1) && x % 2 == 0;
      OrDisjoint(a, h / 2, k - 1);
    }
  }

  /** Python's `~x == -x - 1` is the complement of every bit. */
  lemma {:induction false} NotIsXorAllOnes(x: int)
    ensures BitXor(x, -1) == BitNot(x)
    decreases Abs(x)
  {
    if x != 0 && x != -1 {
      NotIsXorAllOnes(x / 2);
    }
  }

  /** The binary operators `perform_math` accepts. */
  datatype MathOp = Add | Sub | Mul | FloorDiv | Mod | Xor | And | Or | LShift | RShift

  /** `a <op> b` on Python ints, with the exceptions it raises. */
  function Calc(op: MathOp, a: int, b: int): (r: Result<int>)
    ensures r.Err? <==> ((op == FloorDiv || op == Mod) && b == 0) || ((op == LShift || op == RShift) && b < 0)
    ensures r.Err? ==> r.error == (if op == FloorDiv || op == Mod then ZeroDivision else NegativeShiftCount)
  {
    match op
    case Add => Ok(a + b)
    case Sub => Ok(a - b)
    case Mul => Ok(a * b)
    case FloorDiv => if b == 0 then Err(ZeroDivision) else Ok(FloorDivision(a, b))
    case Mod => if b == 0 then Err(ZeroDivision) else Ok(FloorModulo(a, b))
    case Xor => Ok(BitXor(a, b))
    case And => Ok(BitAnd(a, b))
    case Or => Ok(BitOr(a, b))
    case LShift => if b < 0 then Err(NegativeShiftCount) else Ok(ShiftLeft(a, b))
    case RShift => if b < 0 then Err(NegativeShiftCount) else Ok(ShiftRight(a, b))
  }

  /** `(a // b) * b + a % b == a` holds of the two operators `Calc` dispatches to. */
  lemma {:induction false} DivModConsistent(a: int, b: int)
    requires b != 0
    ensures Calc(FloorDiv, a, b).value * b + Calc(Mod, a, b).value == a
  {
  }

  /** The relational operators `perform_compare` accepts. */
  datatype CompareOp = Lt | Le | Eq | Ne | Gt | Ge

  function Compare(op: CompareOp, a: int, b: int): bool {
    match op
    case Lt => a < b
    case Le => a <= b
    case Eq => a == b
    case Ne => a != b
    case Gt => a > b
    case Ge => a >= b
  }
}
