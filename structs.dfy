/**
 * The integer vector `Int2` of SnakeAI/Structs.cs: component addition, the
 * (component-swapping) scalar division and the quarter-turn operator `^`
 * that the game uses for steering.
 *
 * .NET `int` arithmetic is 32-bit; board coordinates stay tiny, so the model
 * uses unbounded integers.
 */
module Structs {

  datatype Int2 = Int2(x: int, y: int)

  const Zero := Int2(0, 0)

  /** The negation -v (used to state properties; the source has no such operator). */
  function Neg(v: Int2): Int2 {
    Int2(-v.x, -v.y)
  }

  /** Dot product, used to state that a turn is orthogonal to the heading. */
  function Dot(a: Int2, b: Int2): int {
    a.x * b.x + a.y * b.y
  }

  /** The magnitude of an integer. */
  function AbsInt(a: int): (r: int)
    ensures r >= 0 && (r == a || r == -a)
  {
    if a < 0 then -a else a
  }

  /** C# integer division truncates toward zero: the remainder `a - q * b` is
      smaller than the divisor in size and takes the sign of the dividend
      (Dafny's `/` is Euclidean, whose remainder is never negative). */
  function TruncDiv(a: int, b: int): (q: int)
    requires b != 0
    ensures a >= 0 ==> 0 <= a - q * b < AbsInt(b)
    ensures a <= 0 ==> -AbsInt(b) < a - q * b <= 0
  {
    var m := AbsInt(a) / AbsInt(b);
    TruncRemainder(a, b, m);
    if (a >= 0) == (b > 0) then m else -m
  }

  /** The magnitude of the truncated quotient leaves a remainder of the
      dividend's sign, whichever signs the operands have. */
  lemma TruncRemainder(a: int, b: int, m: int)
    requires b != 0 && m == AbsInt(a) / AbsInt(b)
    ensures var q := if (a >= 0) == (b > 0) then m else -m;
      (a >= 0 ==> 0 <= a - q * b < AbsInt(b)) && (a <= 0 ==> -AbsInt(b) < a - q * b <= 0)
  {
    var n, d := AbsInt(a), AbsInt(b);
    assert n == m * d + n % d;
    var q := if (a >= 0) == (b > 0) then m else -m;
    assert q * b == if a >= 0 then m * d else -(m * d) by {
      if b > 0 {
        assert d == b;
      } else {
        assert d == -b;
        assert q * b == (-q) * d;
      }
    }
  }

  /** `a + b` (Structs.cs:13-16). */
  function Add(a: Int2, b: Int2): (r: Int2)
    ensures r.x - b.x == a.x && r.y - b.y == a.y
    ensures r == a <==> b == Zero
  {
    Int2(a.x + b.x, a.y + b.y)
  }

  /** `i / scalar` AS WRITTEN (Structs.cs:18-21): divides and swaps the components. */
  function Div(i: Int2, scalar: int): (r: Int2)
    requires scalar != 0
    ensures r == DivComponentwise(Int2(i.y, i.x), scalar)
    ensures i.x == i.y ==> r == DivComponentwise(i, scalar)
  {
    Int2(TruncDiv(i.y, scalar), TruncDiv(i.x, scalar))
  }

  /** The evidently intended division: component by component. */
  function DivComponentwise(i: Int2, scalar: int): (r: Int2)
    requires scalar != 0
    ensures scalar == 2 && i.x > 0 && i.y > 0 ==> InBoard(i, r)
    ensures scalar == 1 ==> r == i
  {
    Int2(TruncDiv(i.x, scalar), TruncDiv(i.y, scalar))
  }

  /** `i ^ rotation` (Structs.cs:23-31): a quarter turn whose sense is the sign of `rotation`. */
  function Rotate(i: Int2, rotation: int): (r: Int2)
    ensures rotation == 0 ==> r == i
    ensures rotation != 0 ==> Dot(i, r) == 0
    ensures Dot(r, r) == Dot(i, i)
  {
    if rotation == 0 then i
    else if rotation > 0 then Int2(i.y, -i.x)
    else Int2(-i.y, i.x)
  }

  /** `a == b` (Structs.cs:33-36). */
  function Eq(a: Int2, b: Int2): (r: bool)
    ensures r <==> a == b
  {
    a.x == b.x && a.y == b.y
  }

  /** `a != b` (Structs.cs:38-41). */
  function Neq(a: Int2, b: Int2): (r: bool)
    ensures r <==> !Eq(a, b)
    ensures r <==> a != b
  {
    a.x != b.x || a.y != b.y
  }

  /** The argument of `Equals(object?)`: null, a boxed Int2, or any other object. */
  datatype Boxed = Null | BoxedInt2(value: Int2) | OtherObject

  /** `Equals(object? obj)` (Structs.cs:43-48). */
  function Equals(self: Int2, obj: Boxed): (r: bool)
    ensures r <==> obj == BoxedInt2(self)
    ensures obj.BoxedInt2? ==> (r <==> Eq(self, obj.value))
  {
    match obj
    case BoxedInt2(i) => Eq(self, i)
    case _ => false
  }

  // ---- properties of the operators -------------------------------------

  lemma AddCommutesAndAssociates(a: Int2, b: Int2, c: Int2)
    ensures Add(a, b) == Add(b, a)
    ensures Add(Add(a, b), c) == Add(a, Add(b, c))
    ensures Add(a, Zero) == a && Add(a, Neg(a)) == Zero
  {
  }

  lemma DivSwapsComponents(i: Int2, s: int)
    requires s != 0
    ensures Div(i, s) == DivComponentwise(Int2(i.y, i.x), s)
    ensures i.x >= 0 && i.y >= 0 && s > 0 ==> Div(i, s) == Int2(i.y / s, i.x / s)
  {
  }

  /** On a square the swap is invisible: the two divisions agree. */
  lemma DivAgreesOnSquare(d: Int2, s: int)
    requires s != 0 && d.x == d.y
    ensures Div(d, s) == DivComponentwise(d, s)
  {
  }

  lemma RotateByZero(v: Int2)
    ensures Rotate(v, 0) == v
  {
  }

  /** Only the sign of the rotation argument matters. */
  lemma RotateBySign(v: Int2, r: int)
    ensures Rotate(v, r) == Rotate(v, if r > 0 then 1 else if r < 0 then -1 else 0)
  {
  }

  lemma RotateInverse(v: Int2)
    ensures Rotate(Rotate(v, 1), -1) == v
    ensures Rotate(Rotate(v, -1), 1) == v
  {
  }

  /** Two quarter turns reverse the vector, four restore it. */
  lemma RotateHalfAndFullTurn(v: Int2)
    ensures Rotate(Rotate(v, 1), 1) == Neg(v)
    ensures Rotate(Rotate(Rotate(Rotate(v, 1), 1), 1), 1) == v
  {
  }

  /** A turn is orthogonal to the heading, so for a non-zero heading it is
      never the heading itself and never its reverse. */
  lemma RotateIsOrthogonal(v: Int2, r: int)
    requires r != 0
    ensures Dot(v, Rotate(v, r)) == 0
    ensures v != Zero ==> Rotate(v, r) != v && Rotate(v, r) != Neg(v)
  {
  }

  // ---- the start cell of a board ----------------------------------------

  /** Row-major cell index of `p` on a board `dims` wide; an on-board cell
      has an index inside the board. */
  function CellIndex(dims: Int2, p: Int2): (c: int)
    ensures InBoard(dims, p) ==> 0 <= c < dims.x * dims.y
  {
    if InBoard(dims, p) then
      RowMajorInRange(dims, p);
      p.y * dims.x + p.x
    else
      p.y * dims.x + p.x
  }

  lemma {:induction false} RowMajorInRange(dims: Int2, p: Int2)
    requires InBoard(dims, p)
    ensures 0 <= p.y * dims.x + p.x < dims.x * dims.y
  {
    ProductNonNegative(p.y, dims.x);
    ProductNonNegative(dims.y - 1 - p.y, dims.x);
    assert (dims.y - 1 - p.y) * dims.x == dims.y * dims.x - dims.x - p.y * dims.x;
  }

  lemma ProductNonNegative(a: int, b: int)
    requires a >= 0 && b >= 0
    ensures a * b >= 0
  {
  }

  predicate InBoard(dims: Int2, p: Int2) {
    0 <= p.x < dims.x && 0 <= p.y < dims.y
  }

  /** As written, `Dims / 2` on a 10x1 board names cell 50 of a 10-cell board. */
  lemma {:induction false} DivStartCellOutOfRange()
    ensures var d := Int2(10, 1);
            var p := Div(d, 2);
            p == Int2(0, 5) && !InBoard(d, p) && CellIndex(d, p) == 50 >= d.x * d.y
  {
    var d := Int2(10, 1);
    assert TruncDiv(1, 2) == 0 && TruncDiv(10, 2) == 5;
  }

  /** Halving component by component always lands on the board. */
  lemma {:induction false} HalfIsOnBoard(d: Int2)
    requires d.x > 0 && d.y > 0
    ensures InBoard(d, DivComponentwise(d, 2))
    ensures 0 <= CellIndex(d, DivComponentwise(d, 2)) < d.x * d.y
  {
    var p := DivComponentwise(d, 2);
    assert p.x == d.x / 2 && p.y == d.y / 2;
  }

  /** On a square board, which is the only shape the trainer builds, the start
      `Dims / 2` as written is the centre cell and lies on the board. */
  lemma {:induction false} SquareStartOnBoard(d: Int2)
    requires d.x == d.y > 0
    ensures Div(d, 2) == DivComponentwise(d, 2)
    ensures InBoard(d, Div(d, 2)) && 0 <= CellIndex(d, Div(d, 2)) < d.x * d.y
  {
    HalfIsOnBoard(d);
  }

  /** On a wider-than-tall board the start as written is still on the board
      but is not the centre: 8x6 starts at `(3, 4)`, cell 35, not at
      `(4, 3)`, cell 28. */
  lemma {:induction false} WideStartIsTransposed()
    ensures var d := Int2(8, 6);
            Div(d, 2) == Int2(3, 4) && DivComponentwise(d, 2) == Int2(4, 3)
            && InBoard(d, Div(d, 2)) && CellIndex(d, Div(d, 2)) == 35
            && CellIndex(d, DivComponentwise(d, 2)) == 28
  {
    assert TruncDiv(6, 2) == 3 && TruncDiv(8, 2) == 4;
  }
}
