/**
  Checked addition, subtraction and multiplication of integers of any two widths, under two's-complement
  wrap-around.  The least value of each width stands for NULL and is no operand.
 */
module IntegerArithmetic {
  datatype Width = TINYINT | SMALLINT | INTEGER | BIGINT

  /** Half the number of values of the width: 2 to the power of its bits less one. */
  function Half(w: Width): (h: int)
    ensures h > 0
  {
    match w
    case TINYINT => 0x80
    case SMALLINT => 0x8000
    case INTEGER => 0x8000_0000
    case BIGINT => 0x8000_0000_0000_0000
  }

  predicate Fits(w: Width, v: int) {
    -Half(w) <= v < Half(w)
  }

  predicate NonNull(w: Width, v: int) {
    -Half(w) < v < Half(w)
  }

  /** A conversion to the width, or an operation that overflows it: modulo the number of values. */
  function Wrap(w: Width, v: int): (r: int)
    ensures Fits(w, r) && (Fits(w, v) ==> r == v)
    ensures Half(w) <= v < 3 * Half(w) ==> r == v - 2 * Half(w)
    ensures -3 * Half(w) <= v < -Half(w) ==> r == v + 2 * Half(w)
    decreases if v >= 0 then 2 * v + 1 else -2 * v
  {
    if v >= Half(w) then Wrap(w, v - 2 * Half(w)) else if v < -Half(w) then Wrap(w, v + 2 * Half(w)) else v
  }

  predicate AtLeast(w1: Width, w2: Width) {
    Half(w1) >= Half(w2)
  }

  function Wider(w1: Width, w2: Width): Width {
    if AtLeast(w1, w2) then w1 else w2
  }

  /** The width in which C++ computes with operands of the two widths. */
  function Promoted(w1: Width, w2: Width): (p: Width)
    ensures Half(p) >= Half(w1) && Half(p) >= Half(w2)
    ensures Half(p) == Half(Wider(w1, w2)) || Half(p) >= 2 * Half(Wider(w1, w2))
  {
    Wider(INTEGER, Wider(w1, w2))
  }

  datatype Result = Value(width: Width, value: int) | OutOfRange

  /** The result v in the wider width, if it fits. */
  function Exactly(w1: Width, w2: Width, v: int): Result {
    if Fits(Wider(w1, w2), v) then Value(Wider(w1, w2), v) else OutOfRange
  }

  /** Where a sum of x and y cannot change its sign: up, down, or neither. */
  function Direction(x: int, y: int): int {
    if x > 0 && y > 0 then 1 else if x < 0 && y < 0 then -1 else 0
  }

  /** The tests on a sum or difference s: that one of the widths holds it, and that its sign is not the wrong one. */
  function SignChecked(w1: Width, w2: Width, s: int, direction: int): Result {
    if s != Wrap(w1, s) && s != Wrap(w2, s) then OutOfRange
    else
      var r := Wrap(Wider(w1, w2), s);
      if (direction > 0 && r < 0) || (direction < 0 && r > 0) then OutOfRange else Value(Wider(w1, w2), r)
  }

  function AddValue(w1: Width, x: int, w2: Width, y: int): Result {
    SignChecked(w1, w2, Wrap(Promoted(w1, w2), x + y), Direction(x, y))
  }

  function SubtractValue(w1: Width, x: int, w2: Width, y: int): Result {
    SignChecked(w1, w2, Wrap(Promoted(w1, w2), x - y), Direction(x, -y))
  }

  /** What the tests find out about a result v of up to twice the range of the wider width. */
  lemma SignCheck(w1: Width, w2: Width, v: int, direction: int)
    requires -2 * Half(Wider(w1, w2)) <= v < 2 * Half(Wider(w1, w2)) && (direction > 0 ==> v >= 0) && (direction < 0 ==> v <= 0)
    ensures SignChecked(w1, w2, Wrap(Promoted(w1, w2), v), direction) == Exactly(w1, w2, v) <==> SignTells(w1, w2, v, direction)
  {}

  /** The result fits, or was computed in a wider width, or shows the wrong sign. */
  predicate SignTells(w1: Width, w2: Width, v: int, direction: int) {
    var w := Wider(w1, w2);
    Fits(w, v) || Half(Promoted(w1, w2)) > Half(w) || (v >= Half(w) && direction > 0) ||
    (v < -Half(w) && direction < 0 && v != -2 * Half(w))
  }

  lemma SumTells(w1: Width, x: int, w2: Width, y: int)
    requires Fits(w1, x) && Fits(w2, y)
    ensures -2 * Half(Wider(w1, w2)) <= x + y < 2 * Half(Wider(w1, w2))
    ensures SignTells(w1, w2, x + y, Direction(x, y)) <==> !(w1 == w2 && AtLeast(w1, INTEGER) && x == y == -Half(w1))
  {}

  lemma DifferenceTells(w1: Width, x: int, w2: Width, y: int)
    requires Fits(w1, x) && Fits(w2, y)
    ensures -2 * Half(Wider(w1, w2)) <= x - y < 2 * Half(Wider(w1, w2))
    ensures SignTells(w1, w2, x - y, Direction(x, -y)) <==>
      !(AtLeast(w2, w1) && AtLeast(w2, INTEGER) && x == 0 && y == -Half(w2))
  {}

  /** Addition is exact, the overflow included, on all operands but two NULLs of one width that is not promoted. */
  lemma AddExact(w1: Width, x: int, w2: Width, y: int)
    requires Fits(w1, x) && Fits(w2, y)
    ensures AddValue(w1, x, w2, y) == Exactly(w1, w2, x + y) <==> !(w1 == w2 && AtLeast(w1, INTEGER) && x == y == -Half(w1))
  {
    var v, d := x + y, Direction(x, y);
    SumTells(w1, x, w2, y);
    SignCheck(w1, w2, v, d);
    assert AddValue(w1, x, w2, y) == SignChecked(w1, w2, Wrap(Promoted(w1, w2), v), d);
  }

  /** Subtraction is exact on all operands but zero less a NULL whose width is not promoted. */
  lemma SubtractExact(w1: Width, x: int, w2: Width, y: int)
    requires Fits(w1, x) && Fits(w2, y)
    ensures SubtractValue(w1, x, w2, y) == Exactly(w1, w2, x - y) <==>
      !(AtLeast(w2, w1) && AtLeast(w2, INTEGER) && x == 0 && y == -Half(w2))
  {
    var v, d := x - y, Direction(x, -y);
    DifferenceTells(w1, x, w2, y);
    SignCheck(w1, w2, v, d);
    assert SubtractValue(w1, x, w2, y) == SignChecked(w1, w2, Wrap(Promoted(w1, w2), v), d);
  }

  // ------------------------------------------------------------------ multiplication

  function Abs(a: int): nat {
    if a >= 0 then a else -a
  }

  /** Division towards zero. */
  function Quotient(a: int, b: int): int
    requires b != 0
  {
    if (a >= 0) == (b > 0) then Abs(a) / Abs(b) else -(Abs(a) / Abs(b))
  }

  lemma {:induction false} Once(n: nat, m: nat)
    requires n >= 1
    ensures n * m >= m
  {
    if n > 1 {
      Once(n - 1, m);
      assert n * m == (n - 1) * m + m;
    }
  }

  lemma Stretch(d: int, y: int)
    requires d != 0
    ensures Abs(d * y) >= Abs(y)
  {
    Once(Abs(d), Abs(y));
    Product(d, y);
  }

  lemma Product(d: int, y: int)
    ensures Abs(d * y) == Abs(d) * Abs(y)
  {
    if d >= 0 && y >= 0 {
      Signs(d, y);
    } else if d >= 0 {
      Signs(d, -y);
      assert d * y == -(d * -y);
    } else if y >= 0 {
      Signs(-d, y);
      assert d * y == -(-d * y);
    } else {
      Signs(-d, -y);
      assert d * y == -d * -y;
    }
  }

  lemma {:induction false} Signs(n: nat, m: nat)
    ensures n * m >= 0
  {
    if n > 0 { Once(n, m); }
  }

  lemma QuotientRest(a: int, b: int)
    requires b != 0
    ensures Abs(a - Quotient(a, b) * b) < Abs(b)
  {
    var n: int, m: int := Abs(a), Abs(b);
    var q: int := n / m;
    assert n == q * m + n % m;
    if a >= 0 && b > 0 {
    } else if a >= 0 {
      assert Quotient(a, b) * b == q * m;
    } else if b > 0 {
      assert Quotient(a, b) * b == -(q * m);
    } else {
      assert Quotient(a, b) * b == -(q * m);
    }
  }

  lemma QuotientOfProduct(x: int, y: int)
    requires y != 0
    ensures Quotient(x * y, y) == x
  {
    QuotientRest(x * y, y);
    var q := Quotient(x * y, y);
    Less(x, q, y);
    if x != q { Stretch(x - q, y); }
  }

  lemma Less(a: int, b: int, c: int)
    ensures (a - b) * c == a * c - b * c
  {}

  /** Wrapping changes a value by a multiple of the number of values. */
  lemma {:induction false} WrapBy(w: Width, v: int) returns (k: int)
    ensures Wrap(w, v) == v - 2 * Half(w) * k
    decreases if v >= 0 then 2 * v + 1 else -2 * v
  {
    if v >= Half(w) {
      var j := WrapBy(w, v - 2 * Half(w));
      k := j + 1;
      More(Half(w), j);
    } else if v < -Half(w) {
      var j := WrapBy(w, v + 2 * Half(w));
      k := j - 1;
      More(Half(w), k);
    } else {
      k := 0;
    }
  }

  lemma More(h: int, k: int)
    ensures 2 * h * (k + 1) == 2 * h * k + 2 * h
  {}

  lemma WrapApart(w: Width, v: int)
    ensures Abs(Wrap(w, v) - v) < Half(w) ==> Fits(w, v)
  {}

  /** The division test finds exactly the products that overflow. */
  lemma DivisionTest(w: Width, x: int, y: int)
    requires -Half(w) < y < Half(w)
    ensures y != 0 ==> (Quotient(Wrap(w, x * y), y) == x <==> Fits(w, x * y))
  {
    if y != 0 {
      QuotientOfProduct(x, y);
      QuotientRest(Wrap(w, x * y), y);
      WrapApart(w, x * y);
    }
  }

  lemma Congruent(h: int, a: int, b: int, d: int)
    requires h > 0 && -h <= a < h && -h <= b < h && a - b == 2 * h * d
    ensures a == b
  {
    if d != 0 { Stretch(d, 2 * h); }
  }

  lemma Multiples(c: int, h: int, k: int, j: int, l: int)
    ensures 2 * h * l - 2 * h * j - 2 * (c * h) * k == 2 * h * (l - j - c * k)
  {}

  /** How many times the wider width's range is the narrower's. */
  function Ratio(p: Width, w: Width): (c: int)
    requires AtLeast(p, w)
    ensures Half(p) == c * Half(w)
  {
    Half(p) / Half(w)
  }

  /** Wrapping to a wider width first makes no difference. */
  lemma WrapTwice(w: Width, p: Width, v: int)
    requires AtLeast(p, w)
    ensures Wrap(w, Wrap(p, v)) == Wrap(w, v)
  {
    var k := WrapBy(p, v);
    var j := WrapBy(w, Wrap(p, v));
    var l := WrapBy(w, v);
    var c := Ratio(p, w);
    Multiples(c, Half(w), k, j, l);
    Congruent(Half(w), Wrap(w, Wrap(p, v)), Wrap(w, v), l - j - c * k);
  }

  function MultiplyValue(w1: Width, x: int, w2: Width, y: int): (r: Result)
    requires NonNull(w1, x) && NonNull(w2, y)
    ensures r == Exactly(w1, w2, x * y)
  {
    DivisionTest(Wider(w1, w2), x, y);
    WrapTwice(w1, Promoted(w1, w2), x * y);
    WrapTwice(w2, Promoted(w1, w2), x * y);
    var prod := Wrap(Promoted(w1, w2), x * y);
    var prod1, prod2 := Wrap(w1, prod), Wrap(w2, prod);
    if prod != prod1 && prod != prod2 then OutOfRange
    else if AtLeast(w1, w2) then
      if y != 0 && Quotient(prod1, y) != x then OutOfRange else Value(w1, prod1)
    else if y != 0 && Quotient(prod2, y) != x then OutOfRange
    else Value(w2, prod2)
  }
}
