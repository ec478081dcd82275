/** The exact sign of a 2 by 2 determinant, found by a Euclid-like reduction that
    never multiplies two entries. */
module RobustDeterminant {
  import opened Plane

  ghost function Pow4(n: nat): nat {
    if n == 0 then 1 else 4 * Pow4(n - 1)
  }

  /** n with its sign flipped when sign is not 1. */
  function Signed(sign: int, n: int): int {
    if sign == 1 then n else -n
  }

  /** Subtracting k times the first row from the second leaves the determinant alone. */
  lemma RowReduction(x1: int, y1: int, x2: int, y2: int, k: int)
    ensures Det(x1, y1, x2 - k * x1, y2 - k * y1) == Det(x1, y1, x2, y2)
    ensures Det(x1 - k * x2, y1 - k * y2, x2, y2) == Det(x1, y1, x2, y2)
  {
  }

  /** Replacing the second row by the first minus the second negates the determinant. */
  lemma RowReflection(x1: int, y1: int, x2: int, y2: int)
    ensures Det(x1, y1, x1 - x2, y1 - y2) == -Det(x1, y1, x2, y2)
    ensures Det(x2 - x1, y2 - y1, x2, y2) == -Det(x1, y1, x2, y2)
  {
  }

  lemma LargerProduct(a: int, b: int, c: int, d: int)
    requires 0 <= a < b && 0 <= c <= d && 0 < d
    ensures c * a < d * b
  {
    assert c * a <= d * a < d * b;
  }

  lemma TwoTimes(a: int, b: int)
    ensures a * (b + b) == 2 * (a * b) && (b + b) * a == 2 * (a * b)
  {
  }

  /** With positive first row, the four early exits of a half-pass, read off the position of the second row. */
  lemma HalfPassSigns(x1: int, y1: int, x2: int, y2: int)
    requires 0 < x1 && 0 < y1 && 0 <= x2 < x1
    ensures y2 < 0 ==> Det(x1, y1, x2, y2) < 0
    ensures y2 > y1 ==> Det(x1, y1, x2, y2) > 0
    ensures 0 <= y2 <= y1 && x1 > x2 + x2 && y1 < y2 + y2 ==> Det(x1, y1, x2, y2) > 0
    ensures 0 <= y2 <= y1 && x1 <= x2 + x2 && y1 > y2 + y2 ==> Det(x1, y1, x2, y2) < 0
    ensures y2 == 0 ==> Sign(Det(x1, y1, x2, y2)) == -Sign(x2)
    ensures x2 == 0 ==> Sign(Det(x1, y1, x2, y2)) == Sign(y2)
  {
    SignOfProduct(x1, y2);
    SignOfProduct(x2, y1);
    if y2 < 0 {
    } else if y2 > y1 {
      LargerProduct(y1, y2, x2, x1);
    } else if x1 > x2 + x2 && y1 < y2 + y2 {
      LargerProduct(y1, y2 + y2, x2 + x2, x1);
      TwoTimes(x1, y2);
      TwoTimes(y1, x2);
    } else if x1 <= x2 + x2 && y1 > y2 + y2 {
      LargerProduct(y2 + y2, y1, x1, x2 + x2);
      TwoTimes(x1, y2);
      TwoTimes(y1, x2);
    }
  }

  lemma SwapRows(x1: int, y1: int, x2: int, y2: int)
    ensures Det(x2, y2, x1, y1) == -Det(x1, y1, x2, y2)
    ensures Det(-x1, -y1, x2, y2) == -Det(x1, y1, x2, y2)
    ensures Det(x1, y1, -x2, -y2) == -Det(x1, y1, x2, y2)
  {
  }

  lemma FloorRemainder(a: int, b: int)
    requires 0 < b <= a
    ensures 0 <= a - (a / b) * b < b
  {
  }

  /** The first half of a pass: reduce the second row by the first. Either the sign is known, or the
      second row has shrunk to at most half of the first and the determinant changed by flip only. */
  method ReduceSecondRow(x1: int, y1: int, a2: int, b2: int) returns (done: bool, sign: int, x2: int, y2: int)
    requires 0 < x1 <= a2 && 0 < y1 <= b2
    ensures done ==> sign == Sign(Det(x1, y1, a2, b2))
    ensures !done ==> (sign == 1 || sign == -1) && Det(x1, y1, x2, y2) == Signed(sign, Det(x1, y1, a2, b2))
    ensures !done ==> 0 < x2 && 2 * x2 <= x1 && 0 < y2 <= y1
  {
    x2, y2, sign := a2, b2, 1;
    var k := x2 / x1;
    FloorRemainder(x2, x1);
    RowReduction(x1, y1, x2, y2, k);
    x2 := x2 - k * x1;
    y2 := y2 - k * y1;
    HalfPassSigns(x1, y1, x2, y2);
    if y2 < 0 { return true, -sign, x2, y2; }
    if y2 > y1 { return true, sign, x2, y2; }
    if x1 > x2 + x2 {
      if y1 < y2 + y2 { return true, sign, x2, y2; }
    } else {
      if y1 > y2 + y2 { return true, -sign, x2, y2; }
      RowReflection(x1, y1, x2, y2);
      x2 := x1 - x2;
      y2 := y1 - y2;
      sign := -sign;
      if x2 < x1 { HalfPassSigns(x1, y1, x2, y2); }
    }
    if y2 == 0 {
      if x2 == 0 { return true, 0, x2, y2; } else { return true, -sign, x2, y2; }
    }
    if x2 == 0 { return true, sign, x2, y2; }
    done := false;
  }

  /** The second half of a pass, with the roles of the rows exchanged. */
  method ReduceFirstRow(a1: int, b1: int, x2: int, y2: int) returns (done: bool, sign: int, x1: int, y1: int)
    requires 0 < x2 <= a1 && 0 < y2 <= b1
    ensures done ==> sign == Sign(Det(a1, b1, x2, y2))
    ensures !done ==> (sign == 1 || sign == -1) && Det(x1, y1, x2, y2) == Signed(sign, Det(a1, b1, x2, y2))
    ensures !done ==> 0 < x1 && 2 * x1 <= x2 && 0 < y1 <= y2
  {
    x1, y1, sign := a1, b1, 1;
    var k := x1 / x2;
    FloorRemainder(x1, x2);
    RowReduction(x1, y1, x2, y2, k);
    x1 := x1 - k * x2;
    y1 := y1 - k * y2;
    SwapRows(x1, y1, x2, y2);
    HalfPassSigns(x2, y2, x1, y1);
    if y1 < 0 { return true, sign, x1, y1; }
    if y1 > y2 { return true, -sign, x1, y1; }
    if x2 > x1 + x1 {
      if y2 < y1 + y1 { return true, -sign, x1, y1; }
    } else {
      if y2 > y1 + y1 { return true, sign, x1, y1; }
      RowReflection(x1, y1, x2, y2);
      x1 := x2 - x1;
      y1 := y2 - y1;
      sign := -sign;
      SwapRows(x1, y1, x2, y2);
      if x1 < x2 { HalfPassSigns(x2, y2, x1, y1); }
    }
    if y1 == 0 {
      if x1 == 0 { return true, 0, x1, y1; } else { return true, sign, x1, y1; }
    }
    if x1 == 0 { return true, -sign, x1, y1; }
    done := false;
  }

  /** Make the y entries positive and permute the rows so that the second one is the larger. */
  method NormalizeYs(a1: int, b1: int, a2: int, b2: int) returns (sign: int, x1: int, y1: int, x2: int, y2: int)
    requires b1 != 0 && b2 != 0
    ensures sign == 1 || sign == -1
    ensures 0 < y1 <= y2
    ensures Det(x1, y1, x2, y2) == Signed(sign, Det(a1, b1, a2, b2))
    ensures (Abs(x1) == Abs(a1) && Abs(x2) == Abs(a2)) || (Abs(x1) == Abs(a2) && Abs(x2) == Abs(a1))
  {
    sign, x1, y1, x2, y2 := 1, a1, b1, a2, b2;
    if 0 < y1 {
      if 0 < y2 {
        if y1 <= y2 {
        } else {
          sign := -sign;
          x1, x2 := x2, x1;
          y1, y2 := y2, y1;
        }
      } else {
        if y1 <= -y2 {
          sign := -sign;
          x2 := -x2;
          y2 := -y2;
        } else {
          x1, x2 := -x2, x1;
          y1, y2 := -y2, y1;
        }
      }
    } else {
      if 0 < y2 {
        if -y1 <= y2 {
          sign := -sign;
          x1 := -x1;
          y1 := -y1;
        } else {
          x1, x2 := x2, -x1;
          y1, y2 := y2, -y1;
        }
      } else {
        if y1 >= y2 {
          x1 := -x1;
          y1 := -y1;
          x2 := -x2;
          y2 := -y2;
        } else {
          sign := -sign;
          x1, x2 := -x2, -x1;
          y1, y2 := -y2, -y1;
        }
      }
    }
  }

  lemma NegatedProducts(a: int, b: int, c: int, d: int)
    ensures b * (-a) == -(a * b) && d * (-c) == -(c * d)
  {
  }

  /** Make the x entries positive; if the first one is the larger, the sign is already known. */
  method NormalizeXs(a1: int, y1: int, a2: int, y2: int) returns (done: bool, sign: int, x1: int, x2: int)
    requires a1 != 0 && a2 != 0 && 0 < y1 <= y2
    ensures done ==> sign == Sign(Det(a1, y1, a2, y2))
    ensures !done ==> (sign == 1 || sign == -1) && Det(x1, y1, x2, y2) == Signed(sign, Det(a1, y1, a2, y2))
    ensures !done ==> 0 < x1 <= x2 && x1 == Abs(a1) && x2 == Abs(a2)
  {
    done, sign, x1, x2 := true, 1, a1, a2;
    SignOfProduct(x1, y2);
    SignOfProduct(x2, y1);
    if 0 < x1 {
      if 0 < x2 {
        if x1 <= x2 {
        } else {
          LargerProduct(x2, x1, y1, y2);
          return;
        }
      } else {
        return;
      }
    } else {
      if 0 < x2 {
        sign := -sign;
        return;
      } else {
        if x1 >= x2 {
          sign := -sign;
          x1 := -x1;
          x2 := -x2;
        } else {
          LargerProduct(-x2, -x1, y1, y2);
          NegatedProducts(x1, y2, x2, y1);
          sign := -sign;
          return;
        }
      }
    }
    done := false;
  }

  /** The sign when an entry vanishes. */
  method SignWithNullEntry(x1: int, y1: int, x2: int, y2: int) returns (done: bool, sign: int)
    ensures done <==> x1 == 0 || y1 == 0 || x2 == 0 || y2 == 0
    ensures done ==> sign == Sign(Det(x1, y1, x2, y2))
  {
    sign := 1;
    SignOfProduct(x1, y2);
    SignOfProduct(x2, y1);
    if x1 == 0 || y2 == 0 {
      if y1 == 0 || x2 == 0 {
        return true, 0;
      } else if y1 > 0 {
        if x2 > 0 { return true, -sign; } else { return true, sign; }
      } else {
        if x2 > 0 { return true, sign; } else { return true, -sign; }
      }
    }
    if y1 == 0 || x2 == 0 {
      if y2 > 0 {
        if x1 > 0 { return true, sign; } else { return true, -sign; }
      } else {
        if x1 > 0 { return true, -sign; } else { return true, sign; }
      }
    }
    done := false;
  }

  /** A pass divides the first x entry by four at least. */
  lemma PassShrinks(passes: nat, x: int, smaller: int, bound: int)
    requires 0 < smaller && 4 * smaller <= x && Pow4(passes) * x <= bound
    ensures Pow4(passes + 1) * smaller <= bound
  {
    assert Pow4(passes) * (4 * smaller) <= Pow4(passes) * x;
  }

  lemma PassBound(scale: nat, x: int, bound: int)
    requires 0 < x && scale * x <= bound
    ensures scale <= bound
  {
    ProductNonNegative(scale, x - 1);
    assert scale * x == scale + scale * (x - 1);
  }

  /** The main loop, entered with both rows positive and the second at least as large in each entry.
      The ghost result counts its passes. */
  method SignOfPositive(a1: int, b1: int, a2: int, b2: int) returns (sign: int, ghost passes: nat)
    requires 0 < a1 <= a2 && 0 < b1 <= b2
    ensures sign == Sign(Det(a1, b1, a2, b2))
    ensures passes > 0 && Pow4(passes - 1) <= a1
  {
    var x1, y1, x2, y2 := a1, b1, a2, b2;
    ghost var det := Sign(Det(a1, b1, a2, b2));
    sign, passes := 1, 0;
    while true
      invariant sign == 1 || sign == -1
      invariant 0 < x1 <= x2 && 0 < y1 <= y2
      invariant det == Signed(sign, Sign(Det(x1, y1, x2, y2)))
      invariant Pow4(passes) * x1 <= a1
      decreases x1
    {
      ghost var start := x1;
      PassBound(Pow4(passes), x1, a1);
      var done, s;
      done, s, x2, y2 := ReduceSecondRow(x1, y1, x2, y2);
      if done { return Signed(sign, s), passes + 1; }
      sign := Signed(sign, s);
      done, s, x1, y1 := ReduceFirstRow(x1, y1, x2, y2);
      if done { return Signed(sign, s), passes + 1; }
      sign := Signed(sign, s);
      PassShrinks(passes, start, x1, a1);
      passes := passes + 1;
    }
  }

  /** Returns the sign of the determinant for all entries. The ghost result counts the passes of the
      main loop: their number is logarithmic in the smaller x entry. */
  method SignOfDet2x2(a1: int, b1: int, a2: int, b2: int) returns (sign: int, ghost passes: nat)
    ensures sign == Sign(Det(a1, b1, a2, b2))
    ensures passes > 0 ==> Pow4(passes - 1) <= Abs(a1) && Pow4(passes - 1) <= Abs(a2)
  {
    passes := 0;
    var done, s, x1, y1, x2, y2;
    done, sign := SignWithNullEntry(a1, b1, a2, b2);
    if done { return; }
    sign, x1, y1, x2, y2 := NormalizeYs(a1, b1, a2, b2);
    done, s, x1, x2 := NormalizeXs(x1, y1, x2, y2);
    sign := Signed(sign, s);
    if done { return; }
    s, passes := SignOfPositive(x1, y1, x2, y2);
    sign := Signed(sign, s);
  }
}
