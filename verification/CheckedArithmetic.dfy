/** Addition and multiplication of SQL integers of any two widths: computed in
    wrapping machine arithmetic, then checked. */
module CheckedArithmetic {
  import opened Config
  import opened Arithmetic

  datatype Width = W8 | W16 | W32 | W64

  /** One more than the largest number of a width; also minus its least number,
      which stands for NULL. */
  function Half(w: Width): (h: int)
    ensures h > 0
  {
    match w
    case W8 => 0x80
    case W16 => 0x8000
    case W32 => 0x8000_0000
    case W64 => 0x8000_0000_0000_0000
  }

  predicate Fits(w: Width, v: int) {
    -Half(w) <= v < Half(w)
  }

  /** A number of width `w` that does not stand for NULL. */
  predicate Operand(w: Width, v: int) {
    Fits(w, v) && v != -Half(w)
  }

  /** Two's complement truncation to width `w`. */
  function Wrap(w: Width, v: int): (r: int)
    ensures Fits(w, r)
    ensures Fits(w, v) ==> r == v
  {
    (v + Half(w)) % (2 * Half(w)) - Half(w)
  }

  predicate AtLeast(v: Width, w: Width) { Half(v) >= Half(w) }

  function Wider(v: Width, w: Width): Width { if AtLeast(v, w) then v else w }

  /** The width in which C++ computes on operands of these widths. */
  function Promoted(v: Width, w: Width): Width { Wider(W32, Wider(v, w)) }

  /** Division that truncates toward zero, as in C++. */
  function Quotient(a: int, b: int): int
    requires b != 0
  {
    if a >= 0 then a / b else -(-a / b)
  }

  datatype SqlInt = Null | Int(width: Width, value: int)

  /** `OutOfRange` is thrown; `Trap` is the division of the least number by -1,
      which has no result in the machine. */
  datatype Error = OutOfRange | Trap

  /** A number stored with a width; the least one reads as NULL. */
  function Stored(w: Width, v: int): SqlInt {
    if v == -Half(w) then Null else Int(w, v)
  }

  function Multiply(v: Width, x: int, w: Width, y: int): Result<SqlInt, Error> {
    var product := Wrap(Promoted(v, w), x * y);
    var prod1 := Wrap(v, product);
    var prod2 := Wrap(w, product);
    if product != prod1 && product != prod2 then Failure(OutOfRange)
    else
      var (prod, kept) := if AtLeast(v, w) then (prod1, v) else (prod2, w);
      if y == -1 && prod == -Half(Promoted(v, w)) then Failure(Trap)
      else if y != 0 && Quotient(prod, y) != x then Failure(OutOfRange)
      else Success(Stored(kept, prod))
  }

  function Add(v: Width, x: int, w: Width, y: int): Result<SqlInt, Error> {
    var total := Wrap(Promoted(v, w), x + y);
    var sum1 := Wrap(v, total);
    var sum2 := Wrap(w, total);
    if total != sum1 && total != sum2 then Failure(OutOfRange)
    else
      var (sum, kept) := if AtLeast(v, w) then (sum1, v) else (sum2, w);
      if (x > 0 && y > 0 && sum < 0) || (x < 0 && y < 0 && sum > 0) then Failure(OutOfRange)
      else Success(Stored(kept, sum))
  }

  // ---------------------------------------------------------------- exactness

  /** Wrapping adds a multiple of the modulus. */
  lemma WrapShift(w: Width, v: int) returns (k: int)
    ensures Wrap(w, v) == v - k * (2 * Half(w))
  {
    k := (v + Half(w)) / (2 * Half(w));
  }

  lemma QuotientRemainder(a: int, b: int) returns (r: int)
    requires b != 0
    ensures a == Quotient(a, b) * b + r
    ensures -Abs(b) < r < Abs(b)
  {
    r := if a >= 0 then a % b else -(-a % b);
  }

  /** A multiple of `y` divided by `y`. */
  lemma QuotientOfProduct(x: int, y: int)
    requires y != 0
    ensures Quotient(x * y, y) == x
  {
    var r := QuotientRemainder(x * y, y);
    var q := Quotient(x * y, y);
    assert (x - q) * y == r;
    SmallMultiple(x - q, y);
  }

  /** Dividing the wrapped product by one factor gives back the other only if
      nothing was lost. */
  lemma DivisionDetects(w: Width, x: int, y: int)
    requires y != 0 && Abs(y) < 2 * Half(w)
    requires Quotient(Wrap(w, x * y), y) == x
    ensures Wrap(w, x * y) == x * y
  {
    var k := WrapShift(w, x * y);
    var r := QuotientRemainder(Wrap(w, x * y), y);
    assert r == -k * (2 * Half(w));
    SmallMultiple(-k, 2 * Half(w));
  }

  /** Products of narrow numbers do not wrap. */
  lemma NarrowProduct(v: Width, x: int, w: Width, y: int)
    requires Operand(v, x) && Operand(w, y) && !AtLeast(Wider(v, w), W32)
    ensures Fits(W32, x * y)
  {
    assert -0x8000 < x < 0x8000 && -0x8000 < y < 0x8000;
    assert -0x4000_0000 <= x * y <= 0x4000_0000;
  }

  lemma MultiplyNarrow(v: Width, x: int, w: Width, y: int)
    requires Operand(v, x) && Operand(w, y) && !AtLeast(Wider(v, w), W32)
    ensures Multiply(v, x, w, y) ==
            if Fits(Wider(v, w), x * y) then Success(Stored(Wider(v, w), x * y)) else Failure(OutOfRange)
  {
    hide Wrap, Quotient;
    NarrowProduct(v, x, w, y);
    var xy := x * y;
    assert Promoted(v, w) == W32 && Wrap(W32, xy) == xy;
    assert y == -1 ==> xy == -x;
    if y != 0 {
      QuotientOfProduct(x, y);
    }
  }

  lemma MultiplyWide(v: Width, x: int, w: Width, y: int)
    requires Operand(v, x) && Operand(w, y) && AtLeast(Wider(v, w), W32)
    ensures Multiply(v, x, w, y) ==
            if Fits(Wider(v, w), x * y) then Success(Stored(Wider(v, w), x * y)) else Failure(OutOfRange)
  {
    hide Wrap, Quotient;
    var wide, xy := Wider(v, w), x * y;
    assert Promoted(v, w) == wide;
    assert y == -1 ==> xy == -x;
    assert y == 0 ==> xy == 0;
    if y != 0 {
      QuotientOfProduct(x, y);
      if Quotient(Wrap(wide, xy), y) == x {
        DivisionDetects(wide, x, y);
      }
    }
  }

  /** Multiplication throws exactly if the true product does not fit the wider
      of the two widths, and otherwise stores the true product. */
  lemma MultiplyIsExact(v: Width, x: int, w: Width, y: int)
    requires Operand(v, x) && Operand(w, y)
    ensures Multiply(v, x, w, y) ==
            if Fits(Wider(v, w), x * y) then Success(Stored(Wider(v, w), x * y)) else Failure(OutOfRange)
  {
    hide Multiply;
    if AtLeast(Wider(v, w), W32) {
      MultiplyWide(v, x, w, y);
    } else {
      MultiplyNarrow(v, x, w, y);
    }
  }

  /** A sum outside a width wraps to the other sign. */
  lemma WrapOnce(w: Width, t: int)
    ensures Half(w) <= t < 2 * Half(w) ==> Wrap(w, t) == t - 2 * Half(w)
    ensures -2 * Half(w) < t < -Half(w) ==> Wrap(w, t) == t + 2 * Half(w)
  {
  }

  lemma AddIsExact(v: Width, x: int, w: Width, y: int)
    requires Operand(v, x) && Operand(w, y)
    ensures Add(v, x, w, y) ==
            if Fits(Wider(v, w), x + y) then Success(Stored(Wider(v, w), x + y)) else Failure(OutOfRange)
  {
    hide Wrap;
    WrapOnce(Promoted(v, w), x + y);
  }

  /** Without the exclusion of NULL operands the check is not complete: the least
      number times -1 traps. */
  lemma NullOperandTraps()
    ensures Multiply(W32, -0x8000_0000, W32, -1) == Failure(Trap)
  {
    hide Wrap;
    WrapOnce(W32, 0x8000_0000);
  }
}
