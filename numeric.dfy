/** The two integer helpers: `divceil` (ceiling division written as a negated
    floor division) and `hex_length` (the number of hexadecimal digits of an
    integer, from Python's `int.bit_length`). */
module Numeric {
  import opened Bytes

  function Abs(x: int): nat { if x < 0 then -x else x }

  /** Python's `a // b`: division rounded toward negative infinity. Dafny's `/`
      agrees with it for a positive divisor; for a negative one the quotient
      of the negated operands is taken. */
  function FloorDiv(a: int, b: int): (q: int)
    requires b != 0
    ensures b > 0 ==> q * b <= a < q * b + b
    ensures b < 0 ==> q * b + b < a <= q * b
  {
    if b > 0 then a / b else (-a) / (-b)
  }

  /** `divceil(n, d) = -(-n // d)`: the quotient rounded toward positive
      infinity, for a divisor of either sign. */
  function DivCeil(n: int, d: int): (r: int)
    requires d != 0
    ensures d > 0 ==> (r - 1) * d < n <= r * d
    ensures d < 0 ==> r * d <= n < (r - 1) * d
  {
    -FloorDiv(-n, d)
  }

  /** `i.bit_length()`: the number of binary digits of `|i|`, 0 for 0. */
  function BitLength(i: int): (r: nat)
    ensures i == 0 <==> r == 0
    ensures i != 0 ==> Pow(2, r - 1) <= Abs(i) < Pow(2, r)
    decreases Abs(i)
  {
    if i == 0 then 0 else 1 + BitLength(Abs(i) / 2)
  }

  lemma {:induction false} PowSplit(k: nat)
    ensures Pow(2, 4 * k) == Pow(16, k)
  {
    if k > 0 {
      PowSplit(k - 1);
      var e := 4 * (k - 1);
      assert Pow(2, e + 4) == 2 * Pow(2, e + 3);
      assert Pow(2, e + 3) == 2 * Pow(2, e + 2);
      assert Pow(2, e + 2) == 2 * Pow(2, e + 1);
      assert Pow(2, e + 1) == 2 * Pow(2, e);
    }
  }

  lemma {:induction false} PowMonotone(a: nat, b: nat)
    requires a <= b
    ensures Pow(2, a) <= Pow(2, b)
  {
    if a < b {
      PowMonotone(a, b - 1);
    }
  }

  /** `hex_length(i) = divceil(i.bit_length(), 4)`. */
  function HexLength(i: int): (r: nat)
  {
    DivCeil(BitLength(i), 4)
  }

  /** The result is the least number of hexadecimal digits that can spell
      `|i|`: zero digits for 0, otherwise `16^(r-1) <= |i| < 16^r`. */
  lemma HexLengthIsDigitCount(i: int)
    ensures i == 0 ==> HexLength(i) == 0
    ensures i != 0 ==> HexLength(i) >= 1 && Pow(16, HexLength(i) - 1) <= Abs(i) < Pow(16, HexLength(i))
  {
    var b := BitLength(i);
    var r := HexLength(i);
    if i != 0 {
      assert (r - 1) * 4 < b <= r * 4;
      PowSplit(r);
      PowSplit(r - 1);
      PowMonotone(b, 4 * r);
      PowMonotone(4 * (r - 1), b - 1);
    }
  }
}
