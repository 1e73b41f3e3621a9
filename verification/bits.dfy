/** Bitwise operators on natural numbers, bit by bit, and the facts that tie them to arithmetic. */
module Bits {

  function Pow2(k: nat): (p: nat)
    ensures p >= 1
  {
    if k == 0 then 1 else 2 * Pow2(k - 1)
  }

  lemma {:induction false} Pow2Add(a: nat, b: nat)
    ensures Pow2(a + b) == Pow2(a) * Pow2(b)
  {
    if a > 0 {
      Pow2Add(a - 1, b);
    }
  }

  function And(a: nat, b: nat): nat {
    if a == 0 || b == 0 then 0 else 2 * And(a / 2, b / 2) + if a % 2 == 1 && b % 2 == 1 then 1 else 0
  }

  function Or(a: nat, b: nat): nat {
    if a == 0 then b else if b == 0 then a
    else 2 * Or(a / 2, b / 2) + if a % 2 == 1 || b % 2 == 1 then 1 else 0
  }

  function Xor(a: nat, b: nat): nat {
    if a == 0 then b else if b == 0 then a
    else 2 * Xor(a / 2, b / 2) + if a % 2 != b % 2 then 1 else 0
  }

  lemma ModPow2Step(a: nat, k: nat)
    requires k > 0
    ensures a % Pow2(k) == 2 * (a / 2 % Pow2(k - 1)) + a % 2
    ensures a / Pow2(k) == a / 2 / Pow2(k - 1)
  {
    var p, h := Pow2(k - 1), a / 2;
    assert h == p * (h / p) + h % p;
    assert a == 2 * p * (h / p) + (2 * (h % p) + a % 2);
    Euclid(a, 2 * p, h / p, 2 * (h % p) + a % 2);
  }

  lemma Euclid(a: nat, m: nat, q: nat, r: nat)
    requires m > 0 && a == m * q + r && r < m
    ensures a / m == q && a % m == r
  {
    var d := a / m - q;
    assert a == m * (a / m) + a % m;
    assert m * d == r - a % m;
    MulSign(m, d);
  }

  lemma DivBound(a: nat, m: nat, q: nat)
    requires m >= 1 && a <= m * q
    ensures 0 <= a / m <= q
  {
  }

  lemma MulSign(m: int, d: int)
    requires m > 0
    ensures d >= 1 ==> m * d >= m
    ensures d <= -1 ==> m * d <= -m
  {
  }

  /** Masking with k low bits is the remainder modulo 2^k. */
  lemma {:induction false} AndMask(a: nat, k: nat)
    ensures And(a, Pow2(k) - 1) == a % Pow2(k)
  {
    if k > 0 {
      AndMask(a / 2, k - 1);
      ModPow2Step(a, k);
      assert (Pow2(k) - 1) / 2 == Pow2(k - 1) - 1 && (Pow2(k) - 1) % 2 == 1;
      AndZero(a);
    }
  }

  lemma AndZero(a: nat)
    ensures And(a, 0) == 0 && And(0, a) == 0
  {
  }

  /** The k low bits of an operand above 2^k play no part in setting low bits of the other. */
  lemma {:induction false} OrHigh(a: nat, c: nat, b: nat, k: nat)
    requires a % Pow2(k) == 0 && c < Pow2(k) && b < Pow2(k)
    ensures Or(a + c, b) == a + Or(c, b) && Or(c, b) < Pow2(k)
  {
    if k > 0 {
      ModPow2Step(a, k);
      OrHigh(a / 2, c / 2, b / 2, k - 1);
      assert a % 2 == 0 && (a + c) / 2 == a / 2 + c / 2 && (a + c) % 2 == c % 2;
    }
  }

  /** Or of numbers that share no bit positions is their sum. */
  lemma OrDisjoint(a: nat, b: nat, k: nat)
    requires a % Pow2(k) == 0 && b < Pow2(k)
    ensures Or(a, b) == a + b
  {
    OrHigh(a, 0, b, k);
  }

  datatype Op = AndOp | OrOp | XorOp

  function Apply(op: Op, a: nat, b: nat): nat {
    match op
    case AndOp => And(a, b)
    case OrOp => Or(a, b)
    case XorOp => Xor(a, b)
  }

  function Bit(op: Op, a: nat, b: nat): nat {
    match op
    case AndOp => if a % 2 == 1 && b % 2 == 1 then 1 else 0
    case OrOp => if a % 2 == 1 || b % 2 == 1 then 1 else 0
    case XorOp => if a % 2 != b % 2 then 1 else 0
  }

  lemma ApplyStep(op: Op, a: nat, b: nat)
    ensures Apply(op, a, b) == 2 * Apply(op, a / 2, b / 2) + Bit(op, a, b)
  {
    AndZero(a / 2);
    AndZero(b / 2);
  }

  /** Bitwise operators work on the low k bits alone, and stay within k bits when both operands do. */
  lemma {:induction false} ApplyLow(op: Op, a: nat, b: nat, k: nat)
    ensures Apply(op, a, b) % Pow2(k) == Apply(op, a % Pow2(k), b % Pow2(k))
    ensures a < Pow2(k) && b < Pow2(k) ==> Apply(op, a, b) < Pow2(k)
  {
    if k == 0 {
      AndZero(a);
      assert a % 1 == 0 && b % 1 == 0;
    } else {
      var p := Pow2(k);
      ApplyLow(op, a / 2, b / 2, k - 1);
      ApplyStep(op, a, b);
      ModPow2Step(a, k);
      ModPow2Step(b, k);
      ModPow2Step(Apply(op, a, b), k);
      ApplyStep(op, a % p, b % p);
    }
  }

  /** The k-th binary digit of a is one. */
  predicate BitAt(a: nat, k: nat) {
    if k == 0 then a % 2 == 1 else BitAt(a / 2, k - 1)
  }

  lemma {:induction false} ApplyBits(op: Op, a: nat, b: nat, k: nat)
    ensures BitAt(Apply(op, a, b), k) <==>
            match op
            case AndOp => BitAt(a, k) && BitAt(b, k)
            case OrOp => BitAt(a, k) || BitAt(b, k)
            case XorOp => BitAt(a, k) != BitAt(b, k)
  {
    ApplyStep(op, a, b);
    assert Apply(op, a, b) / 2 == Apply(op, a / 2, b / 2) && Apply(op, a, b) % 2 == Bit(op, a, b);
    if k > 0 {
      ApplyBits(op, a / 2, b / 2, k - 1);
    }
  }

  lemma {:induction false} NoBitOfZero(k: nat)
    ensures !BitAt(0, k)
  {
    if k > 0 {
      NoBitOfZero(k - 1);
    }
  }

  lemma {:induction false} BitBelow(a: nat, n: nat, k: nat)
    requires a < Pow2(n) && BitAt(a, k)
    ensures k < n
  {
    if n == 0 {
      NoBitOfZero(k);
    } else if k > 0 {
      BitBelow(a / 2, n - 1, k - 1);
    }
  }

  lemma {:induction false} SomeBit(a: nat) returns (k: nat)
    requires a != 0
    ensures BitAt(a, k)
  {
    k := 0;
    if a % 2 == 0 {
      k := SomeBit(a / 2);
      k := k + 1;
    }
  }
}
