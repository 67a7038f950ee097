/** viua::arithmetic::saturating: signed operations that stop at the ends of the range. */
module Saturating {
  import opened BitVectors
  import opened BitHelpers
  import opened Wrappers
  import W = Wrapping
  import C = Checked

  function Clamp(n: nat, x: int): (c: int)
    requires n >= 1
    ensures Fits(n, c)
    ensures Fits(n, x) ==> c == x
  {
    if x < 0 - Pow2(n - 1) then 0 - Pow2(n - 1)
    else if x >= Pow2(n - 1) then Pow2(n - 1) - 1
    else x
  }

  /** What a saturating operation promises: the exact result, moved to the nearest end of the
      range of the left operand's width. */
  predicate Saturates(n: nat, exact: int, r: BitVector) {
    n >= 1 && |r| == n && S(r) == Clamp(n, exact)
  }

  // ---------------------------------------------------------------- the ends of the range

  method SignedMakeMax(n: nat) returns (v: BitVector)
    requires n >= 1
    ensures |v| == n && S(v) == Pow2(n - 1) - 1
    ensures v == Encode(n, Pow2(n - 1) - 1)
  {
    v := seq(n - 1, _ => true) + [false];
    UOnes(n - 1);
    UAppend(seq(n - 1, _ => true), [false]);
    assert U([false]) == 0;
    EncodeOfU(v);
  }

  method SignedMakeMin(n: nat) returns (v: BitVector)
    requires n >= 1
    ensures |v| == n && S(v) == 0 - Pow2(n - 1)
    ensures v == Encode(n, 0 - Pow2(n - 1))
  {
    v := Zeros(n - 1) + [true];
    UZeros(n - 1);
    UAppend(Zeros(n - 1), [true]);
    assert U([true]) == 1 by {
      assert [true][1..] == [];
    }
    EncodeOfS(v);
  }

  method SignedIsMin(v: BitVector) returns (r: bool)
    requires v != []
    ensures r <==> IsMin(v)
  {
    var n := |v|;
    SBounds(v);
    UPrefix(v, n - 1);
    assert v[..n] == v;
    if !v[n - 1] {
      return false;
    }
    for i := 0 to n - 1
      invariant forall k :: 0 <= k < i ==> !v[k]
    {
      if v[i] {
        if U(v[..n - 1]) == 0 {
          UZeroMeansZeros(v[..n - 1]);
        }
        return false;
      }
    }
    assert v[..n - 1] == Zeros(n - 1);
    UZeros(n - 1);
    return true;
  }

  // ---------------------------------------------------------------- increment, decrement, negation

  method SignedIncrement(v: BitVector) returns (r: BitVector)
    requires v != []
    ensures Saturates(|v|, S(v) + 1, r)
  {
    hide Encode, U;
    var _, incremented := W.BinaryIncrement(v);
    EncodeEitherReading(v, 1);
    SBounds(v);
    C.SignTellsOverflow(|v|, S(v) + 1);
    if !v[|v| - 1] && incremented[|v| - 1] {
      r := SignedMakeMax(|v|);
    } else {
      SEncode(|v|, S(v) + 1);
      r := incremented;
    }
  }

  method SignedDecrement(v: BitVector) returns (r: BitVector)
    requires v != []
    ensures Saturates(|v|, S(v) - 1, r)
  {
    hide Encode, U;
    SBounds(v);
    var isMin := SignedIsMin(v);
    if isMin {
      return v;
    }
    var _, decremented := W.BinaryDecrement(v);
    EncodeEitherReading(v, -1);
    SEncode(|v|, S(v) - 1);
    return decremented;
  }

  method TakeTwosComplement(v: BitVector) returns (r: BitVector)
    requires v != []
    ensures Saturates(|v|, -S(v), r)
  {
    hide U;
    var inverted := BinaryInversion(v);
    r := SignedIncrement(inverted);
  }

  method Absolute(v: BitVector) returns (r: BitVector)
    requires v != []
    ensures Saturates(|v|, Abs(S(v)), r)
  {
    hide U;
    SBounds(v);
    var negative := BinaryIsNegative(v);
    if negative {
      r := TakeTwosComplement(v);
    } else {
      r := v;
    }
  }

  // ---------------------------------------------------------------- comparison, and the predicted sign

  method SignedLt(lhs: BitVector, rhs: BitVector) returns (r: bool)
    requires lhs != [] && rhs != []
    ensures (S(lhs) < 0) != (S(rhs) < 0) ==> r == (S(lhs) < 0)
    ensures S(lhs) >= 0 && S(rhs) >= 0 ==> r == (S(lhs) <= S(rhs))
    ensures S(lhs) < 0 && S(rhs) < 0
            ==> var m := Max(|lhs|, |rhs|); r == (Clamp(m, -S(lhs)) <= Clamp(m, -S(rhs)))
  {
    hide Encode, U, Pow2;
    var l := BinaryExpand(lhs, Max(|lhs|, |rhs|));
    var r' := BinaryExpand(rhs, Max(|l|, |rhs|));
    var lNegative := BinaryIsNegative(l);
    var rNegative := BinaryIsNegative(r');
    if lNegative && !rNegative {
      return true;
    }
    if !lNegative && rNegative {
      return false;
    }
    if lNegative {
      SBounds(l);
      l := TakeTwosComplement(l);
    }
    rNegative := BinaryIsNegative(r');
    if rNegative {
      SBounds(r');
      r' := TakeTwosComplement(r');
    }
    r := C.LowBitsLte(l, r');
  }

  method PredictedSign(lhs: BitVector, rhs: BitVector) returns (negative: bool)
    requires lhs != [] && rhs != []
    ensures negative <==> Negative(rhs)
  {
    SBounds(lhs);
    SBounds(rhs);
    var lhsNegative := BinaryIsNegative(lhs);
    var rhsNegative := BinaryIsNegative(rhs);
    negative := lhsNegative && rhsNegative;
    if lhsNegative && !rhsNegative {
      var lt := SignedLt(rhs, lhs);
      if lt {
        negative := true;
      }
    }
    if !lhsNegative && rhsNegative {
      var lt := SignedLt(lhs, lhs);
      if lt {
        negative := true;
      }
    }
  }

  // ---------------------------------------------------------------- addition

  /** The end of the range that a wrongly signed sum is replaced with. */
  function Extreme(n: nat, negative: bool): (x: int)
    requires n >= 1
  {
    if negative then 0 - Pow2(n - 1) else Pow2(n - 1) - 1
  }

  method SignedAdd(lhs: BitVector, rhs: BitVector) returns (r: BitVector)
    requires lhs != [] && rhs != []
    ensures var raw := Encode(Max(|lhs|, |rhs|), U(lhs) + U(rhs));
            r == if Negative(raw) == Negative(rhs) then raw else Encode(|lhs|, Extreme(|lhs|, Negative(rhs)))
  {
    hide Encode, U, Pow2;
    var resultShouldBeNegative := PredictedSign(lhs, rhs);
    var result, _ := W.RippleCarry(lhs, rhs);
    if resultShouldBeNegative && !result[|result| - 1] {
      result := SignedMakeMin(|lhs|);
    }
    if !resultShouldBeNegative && result[|result| - 1] {
      result := SignedMakeMax(|lhs|);
    }
    return result;
  }

  /** Where the sum is clamped.  At equal widths: for operands of one sign, and for sums with the sign
      of the right one; otherwise an end of the range comes out.  A narrower operand is
      zero-extended, so that the raw sum is too large by 2^n for a negative one; the sign test is
      made at the wider width, and what passes it is clipped without looking. */
  predicate AddClamps(lhs: BitVector, rhs: BitVector)
    requires lhs != [] && rhs != []
  {
    var half, wide, sum := Pow2(|lhs| - 1), Pow2(|rhs| - 1), S(lhs) + S(rhs);
    if |lhs| == |rhs| then
      (S(lhs) < 0 <==> S(rhs) < 0) || (sum < 0 <==> S(rhs) < 0)
    else if |rhs| < |lhs| then
      if S(rhs) >= 0 then sum >= 0 else |rhs| + 1 == |lhs| && sum == 0 - half
    else if S(rhs) >= 0 then
      if sum < (if S(lhs) >= 0 then wide else wide - 2 * half) then sum < half || sum % (2 * half) == half - 1
      else sum >= half - 1
    else if S(lhs) >= 0 then
      sum < 0 && (sum >= 0 - half || sum % (2 * half) == half)
    else
      if sum < 0 - 2 * half then sum % (2 * half) == half else sum <= 0 - half
  }

  /** At any widths: what comes out, and exactly when it is the clamped sum. */
  method SaturatingAdd(lhs: BitVector, rhs: BitVector) returns (r: BitVector)
    requires lhs != [] && rhs != []
    ensures var raw := Encode(Max(|lhs|, |rhs|), U(lhs) + U(rhs));
            r == if Negative(raw) == Negative(rhs) then Encode(|lhs|, U(lhs) + U(rhs))
                 else Encode(|lhs|, Extreme(|lhs|, Negative(rhs)))
    ensures Saturates(|lhs|, S(lhs) + S(rhs), r) <==> AddClamps(lhs, rhs)
    ensures |lhs| == |rhs| && !AddClamps(lhs, rhs) ==> S(r) == Extreme(|lhs|, S(rhs) < 0)
  {
    hide Encode, U, Pow2, Fits, AddClamps;
    var sum := SignedAdd(lhs, rhs);
    r := BinaryClip(sum, |lhs|);
    EncodeNarrow(|lhs|, Max(|lhs|, |rhs|), U(lhs) + U(rhs));
    EncodeNarrow(|lhs|, |lhs|, Extreme(|lhs|, Negative(rhs)));
    if |lhs| == |rhs| {
      EqualWidthSum(lhs, rhs);
    } else {
      OtherWidthSum(lhs, rhs, r);
    }
  }

  lemma {:induction false} EqualWidthSum(lhs: BitVector, rhs: BitVector)
    requires lhs != [] && |lhs| == |rhs|
    ensures var raw := Encode(|lhs|, U(lhs) + U(rhs));
            var r := if Negative(raw) == Negative(rhs) then raw else Encode(|lhs|, Extreme(|lhs|, Negative(rhs)));
            && (S(r) == Clamp(|lhs|, S(lhs) + S(rhs)) <==> AddClamps(lhs, rhs))
            && (!AddClamps(lhs, rhs) ==> S(r) == Extreme(|lhs|, S(rhs) < 0))
  {
    hide Encode, U, Pow2, Fits, Clamp, Extreme, S;
    C.EncodeOfSum(lhs, rhs);
    SBounds(lhs);
    SBounds(rhs);
    ClampedSum(|lhs|, S(lhs), S(rhs));
  }

  /** What a number reads as after it is clipped: within one range of its own, and at the ends. */
  lemma {:induction false} Clipped(n: nat, x: int)
    requires n >= 1
    ensures Fits(n, x) ==> S(Encode(n, x)) == x
    ensures Pow2(n - 1) <= x < Pow2(n) ==> S(Encode(n, x)) == x - Pow2(n)
    ensures S(Encode(n, x)) == Pow2(n - 1) - 1 <==> x % Pow2(n) == Pow2(n - 1) - 1
    ensures S(Encode(n, x)) == 0 - Pow2(n - 1) <==> x % Pow2(n) == Pow2(n - 1)
  {
    hide Encode, U;
    if Fits(n, x) {
      SEncode(n, x);
    } else if Pow2(n - 1) <= x < Pow2(n) {
      EncodeCongruent(n, x, x - Pow2(n), 1);
      SEncode(n, x - Pow2(n));
    }
    var v := Encode(n, x);
    UEncodeMod(n, x);
    UBound(v);
    SBounds(v);
    W.UIsShiftedS(v);
  }

  lemma {:induction false} OtherWidthSum(lhs: BitVector, rhs: BitVector, r: BitVector)
    requires lhs != [] && rhs != [] && |lhs| != |rhs|
    requires var raw := Encode(Max(|lhs|, |rhs|), U(lhs) + U(rhs));
             r == if Negative(raw) == Negative(rhs) then Encode(|lhs|, U(lhs) + U(rhs))
                  else Encode(|lhs|, Extreme(|lhs|, Negative(rhs)))
    ensures S(r) == Clamp(|lhs|, S(lhs) + S(rhs)) <==> AddClamps(lhs, rhs)
  {
    hide Encode, U, Pow2, S;
    var n := |lhs|;
    C.RawSumSign(lhs, rhs);
    SBounds(rhs);
    W.HalfOf(n);
    SEncode(n, Extreme(n, Negative(rhs)));
    if n < |rhs| {
      C.NarrowerBounds(lhs, rhs);
      W.WrapAddIsSignedIff(lhs, rhs);
      Clipped(n, S(lhs) + S(rhs));
    } else {
      C.NarrowerBounds(rhs, lhs);
      EncodeEitherReading(lhs, U(rhs));
      Clipped(n, S(lhs) + U(rhs));
      NextPower(|rhs|, n);
    }
  }

  lemma {:induction false} NextPower(m: nat, n: nat)
    requires 1 <= m < n
    ensures 2 * Pow2(m - 1) == Pow2(n - 1) <==> m + 1 == n
  {
    if m + 1 < n {
      W.Pow2StrictlyMonotone(m, n - 1);
    }
  }

  /** Adding two numbers of the range, with the sign of the second one as prediction. */
  lemma {:induction false} ClampedSum(n: nat, x: int, y: int)
    requires Fits(n, x) && Fits(n, y)
    ensures var raw := Encode(n, x + y);
            var r := if Negative(raw) == (y < 0) then raw else Encode(n, Extreme(n, y < 0));
            && (S(r) == Clamp(n, x + y) <==> (x < 0 <==> y < 0) || (x + y < 0 <==> y < 0))
            && ((x < 0 <==> y < 0) || (x + y < 0 <==> y < 0) || S(r) == Extreme(n, y < 0))
  {
    hide Encode, U, S;
    C.SignTellsOverflow(n, x + y);
    SEncode(n, Extreme(n, y < 0));
    if Fits(n, x + y) {
      SEncode(n, x + y);
    }
  }

  // ---------------------------------------------------------------- subtraction

  /** The outcome of the subtraction, at any widths: a saturated negation of the right operand
      at the wider width, the addition above, a clip to the width of the left operand, and a
      correcting increment for a minimum right operand. */
  function Difference(lhs: BitVector, rhs: BitVector): (r: BitVector)
    requires lhs != [] && rhs != []
  {
    if lhs == rhs then Zeros(|lhs|) else
      var m := Max(|lhs|, |rhs|);
      var negated := Clamp(m, -S(rhs));
      var raw := Encode(m, S(lhs) + negated);
      var sum := if Negative(raw) == (negated < 0) then raw else Encode(m, Extreme(m, negated < 0));
      var clipped := Encode(|lhs|, U(sum));
      if IsMin(rhs) then Encode(|lhs|, Clamp(|lhs|, S(clipped) + 1)) else clipped
  }

  method SignedSub(lhs: BitVector, rhs: BitVector) returns (r: BitVector)
    requires lhs != [] && rhs != []
    ensures r == Difference(lhs, rhs)
  {
    hide Encode, U, Expanded, Pow2, Clamp;
    if lhs == rhs {
      return Zeros(|lhs|);
    }
    var m := Max(|lhs|, |rhs|);
    var l := BinaryExpand(lhs, m);
    var wide := BinaryExpand(rhs, m);
    var rhsUsed := TakeTwosComplement(wide);
    C.EncodeOfSum(l, rhsUsed);
    SBounds(rhsUsed);
    var sum := SignedAdd(l, rhsUsed);
    r := BinaryClip(sum, |lhs|);
    var isMin := SignedIsMin(rhs);
    if isMin {
      r := SignedIncrement(r);
      EncodeOfS(r);
    }
  }

  /** Where the difference is clamped.  For a right operand no wider: on equal vectors; on an equally
      wide minimum, or a narrower one if the maximum is reached anyway; and otherwise if the
      difference is negative just when the right operand is positive.  For a wider one the difference
      is clamped at the wider width first and then clipped. */
  predicate SubClamps(lhs: BitVector, rhs: BitVector)
    requires lhs != [] && rhs != []
  {
    var half, wide, d := Pow2(|lhs| - 1), Pow2(|rhs| - 1), S(lhs) - S(rhs);
    if |rhs| <= |lhs| then
      || lhs == rhs
      || if S(rhs) == 0 - wide then |rhs| == |lhs| || d >= half - 1 else d < 0 <==> S(rhs) > 0
    else if S(rhs) == 0 - wide then
      S(lhs) == 0 - half || |lhs| == 1
    else if S(rhs) > 0 then
      0 - half <= d <= 0 || (0 - wide <= d < 0 - half && d % (2 * half) == half)
    else
      -1 <= d < half || (half <= d < wide && d % (2 * half) == half - 1)
  }

  /** The difference that comes out where it is not the clamped one. */
  function SubMisses(lhs: BitVector, rhs: BitVector): (x: int)
    requires lhs != [] && rhs != []
  {
    var half, wide, d := Pow2(|lhs| - 1), Pow2(|rhs| - 1), S(lhs) - S(rhs);
    if |rhs| <= |lhs| then
      if S(rhs) != 0 - wide then Extreme(|lhs|, S(rhs) > 0) else if d < 0 then half - 1 else d + 1
    else if S(rhs) == 0 - wide then
      if S(lhs) <= 0 then S(lhs) else 0
    else if S(rhs) > 0 then
      if 0 - wide <= d < 0 - half then S(Encode(|lhs|, d)) else 0
    else
      if half <= d < wide then S(Encode(|lhs|, d)) else -1
  }

  /** At any widths, exactly when the difference that comes out is the clamped one, and what it is if not. */
  method SaturatingSub(lhs: BitVector, rhs: BitVector) returns (r: BitVector)
    requires lhs != [] && rhs != []
    ensures r == Difference(lhs, rhs) && |r| == |lhs|
    ensures S(r) == Clamp(|lhs|, S(lhs) - S(rhs)) <==> SubClamps(lhs, rhs)
    ensures !SubClamps(lhs, rhs) ==> S(r) == SubMisses(lhs, rhs)
  {
    hide Encode, U, S, Pow2, Clamp, Difference, SubClamps, SubMisses;
    SaturatingSubClampsIff(lhs, rhs);
    var difference := SignedSub(lhs, rhs);
    r := BinaryClip(difference, |lhs|);
    DifferenceWidth(lhs, rhs);
    EncodeOfU(difference);
  }

  lemma {:induction false} SaturatingSubClampsIff(lhs: BitVector, rhs: BitVector)
    requires lhs != [] && rhs != []
    ensures Saturates(|lhs|, S(lhs) - S(rhs), Difference(lhs, rhs)) <==> SubClamps(lhs, rhs)
    ensures !SubClamps(lhs, rhs) ==> S(Difference(lhs, rhs)) == SubMisses(lhs, rhs)
  {
    hide Encode, U, S, Pow2, Clamp, Difference, Extreme;
    SBounds(lhs);
    SBounds(rhs);
    DifferenceWidth(lhs, rhs);
    if lhs == rhs {
      EqualSubtracted(lhs);
    } else if |lhs| < |rhs| {
      WiderSubtracted(lhs, rhs);
    } else if IsMin(rhs) {
      MinimumSubtracted(lhs, rhs);
    } else {
      NonMinimumSubtracted(lhs, rhs);
    }
  }

  lemma {:induction false} DifferenceWidth(lhs: BitVector, rhs: BitVector)
    requires lhs != [] && rhs != []
    ensures |Difference(lhs, rhs)| == |lhs|
  {
    hide Encode, U, S, Pow2, Clamp;
  }

  lemma {:induction false} EqualSubtracted(v: BitVector)
    requires v != []
    ensures S(Difference(v, v)) == 0 == Clamp(|v|, 0)
  {
    hide Encode, U;
    UZeros(|v|);
    EncodeOfU(Zeros(|v|));
    SEncode(|v|, 0);
  }

  /** Adding a number to one that is narrower: what is left of the sum when the end of the wider range
      may have come out. */
  lemma {:induction false} WiderSum(n: nat, m: nat, x: int, y: int)
    requires 1 <= n < m && Fits(n, x) && Fits(m, y)
    ensures var raw := Encode(m, x + y);
            var sum := if Negative(raw) == (y < 0) then raw else Encode(m, Extreme(m, y < 0));
            Encode(n, U(sum))
            == Encode(n, if y < 0 then (if 0 - Pow2(m - 1) <= x + y < 0 then x + y else 0)
                         else (if 0 <= x + y < Pow2(m - 1) then x + y else -1))
  {
    hide Encode, U, S, Pow2;
    var raw := Encode(m, x + y);
    W.HalfOf(m);
    Pow2Monotone(n - 1, m - 1);
    C.SignTellsOverflow(m, x + y);
    EncodeNarrow(n, m, x + y);
    EncodeNarrow(n, m, Extreme(m, y < 0));
    EndsClipped(n, m);
  }

  /** The ends of a wider range, clipped. */
  lemma {:induction false} EndsClipped(n: nat, m: nat)
    requires n < m
    ensures Encode(n, Extreme(m, true)) == Encode(n, 0) && Encode(n, Extreme(m, false)) == Encode(n, -1)
  {
    hide Encode, U, S, Pow2;
    Pow2Add(n, m - 1 - n);
    EncodeCongruent(n, Pow2(m - 1) - 1, -1, Pow2(m - 1 - n));
    EncodeCongruent(n, 0 - Pow2(m - 1), 0, 0 - Pow2(m - 1 - n));
  }

  lemma {:induction false} WiderSubtracted(lhs: BitVector, rhs: BitVector)
    requires lhs != [] && |lhs| < |rhs|
    ensures S(Difference(lhs, rhs)) == Clamp(|lhs|, S(lhs) - S(rhs)) <==> SubClamps(lhs, rhs)
    ensures !SubClamps(lhs, rhs) ==> S(Difference(lhs, rhs)) == SubMisses(lhs, rhs)
  {
    hide Encode, U, S, Pow2;
    var n, m, d := |lhs|, |rhs|, S(lhs) - S(rhs);
    C.NarrowerBounds(lhs, rhs);
    W.HalfOf(n);
    var negated := Clamp(m, -S(rhs));
    WiderSum(n, m, S(lhs), negated);
    Clipped(n, S(lhs) + negated);
    Clipped(n, 0);
    Clipped(n, -1);
    if IsMin(rhs) {
      WiderMinimumSubtracted(lhs, rhs);
    }
  }

  lemma {:induction false} WiderMinimumSubtracted(lhs: BitVector, rhs: BitVector)
    requires lhs != [] && |lhs| < |rhs| && IsMin(rhs)
    ensures S(Difference(lhs, rhs)) == Clamp(|lhs|, S(lhs) - S(rhs)) <==> S(lhs) == 0 - Pow2(|lhs| - 1) || |lhs| == 1
    ensures S(lhs) != 0 - Pow2(|lhs| - 1) ==> S(Difference(lhs, rhs)) == if S(lhs) <= 0 then S(lhs) else 0
  {
    hide Encode, U, S, Pow2;
    var n, m, x := |lhs|, |rhs|, S(lhs);
    C.NarrowerBounds(lhs, rhs);
    W.HalfOf(n);
    var negated := Clamp(m, -S(rhs));
    WiderSum(n, m, x, negated);
    var raw := Encode(m, x + negated);
    var sum := if Negative(raw) == (negated < 0) then raw else Encode(m, Extreme(m, negated < 0));
    var clipped := Encode(n, U(sum));
    Pow2Add(n, m - 1 - n);
    EncodeCongruent(n, x + negated, x - 1, Pow2(m - 1 - n));
    EncodeCongruent(n, x - 1, x - 1 + Pow2(n), -1);
    Clipped(n, x - 1);
    Clipped(n, x - 1 + Pow2(n));
    Clipped(n, -1);
    SEncode(n, Clamp(n, S(clipped) + 1));
    WidthOne(n);
  }

  lemma {:induction false} WidthOne(n: nat)
    requires n >= 1
    ensures Pow2(n - 1) == 1 <==> n == 1
  {
    if n > 1 {
      W.HalfOf(n - 1);
    }
  }

  lemma {:induction false} NonMinimumSubtracted(lhs: BitVector, rhs: BitVector)
    requires rhs != [] && |rhs| <= |lhs| && lhs != rhs && !IsMin(rhs)
    ensures S(Difference(lhs, rhs)) == Clamp(|lhs|, S(lhs) - S(rhs))
            <==> (S(lhs) - S(rhs) < 0 <==> S(rhs) > 0)
    ensures (S(lhs) - S(rhs) < 0 <==> S(rhs) > 0) || S(Difference(lhs, rhs)) == Extreme(|lhs|, S(rhs) > 0)
  {
    hide Encode, U, S;
    var n, x, y := |lhs|, S(lhs), S(rhs);
    SBounds(lhs);
    SBounds(rhs);
    Pow2Monotone(|rhs| - 1, n - 1);
    ClampedSum(n, x, -y);
    EncodeOfU(Encode(n, x - y));
    EncodeOfU(Encode(n, Extreme(n, -y < 0)));
  }

  lemma {:induction false} MinimumSubtracted(lhs: BitVector, rhs: BitVector)
    requires |rhs| <= |lhs| && lhs != rhs && IsMin(rhs)
    ensures S(Difference(lhs, rhs)) == Clamp(|lhs|, S(lhs) - S(rhs))
            <==> |rhs| == |lhs| || S(lhs) - S(rhs) >= Pow2(|lhs| - 1) - 1
    ensures |rhs| < |lhs| && S(lhs) - S(rhs) < Pow2(|lhs| - 1) - 1
            ==> S(Difference(lhs, rhs))
                == if S(lhs) - S(rhs) < 0 then Pow2(|lhs| - 1) - 1 else S(lhs) - S(rhs) + 1
  {
    hide Encode, U, S;
    var n, x, y := |lhs|, S(lhs), S(rhs);
    SBounds(lhs);
    SBounds(rhs);
    EncodeOfS(lhs);
    EncodeOfS(rhs);
    Pow2Monotone(|rhs| - 1, n - 1);
    var negated := Clamp(n, -y);
    ClampedSum(n, x, negated);
    var raw := Encode(n, x + negated);
    var sum := if Negative(raw) == (negated < 0) then raw else Encode(n, Extreme(n, negated < 0));
    EncodeOfU(sum);
    if |rhs| < n {
      W.Pow2StrictlyMonotone(|rhs| - 1, n - 1);
    }
    SEncode(n, Clamp(n, S(sum) + 1));
  }

  // ---------------------------------------------------------------- multiplication

  /** The outcome of the multiplication, at any widths. */
  function Product(lhs: BitVector, rhs: BitVector): (r: BitVector)
    requires lhs != [] && rhs != []
  {
    var n := |lhs|;
    var raw := Encode(n, U(lhs) * U(rhs));
    if Negative(lhs) != Negative(rhs) then
      if Negative(raw) then raw else Encode(n, Extreme(n, true))
    else if !Negative(lhs) then
      Encode(n, Clamp(n, S(lhs) * S(rhs)))
    else
      var magnitudes := Clamp(n, Abs(S(lhs))) * Clamp(|rhs|, Abs(S(rhs)));
      if raw == Encode(n, Clamp(n, magnitudes)) then raw else Encode(n, Extreme(n, false))
  }

  method SignedMul(lhs: BitVector, rhs: BitVector) returns (r: BitVector)
    requires lhs != [] && rhs != []
    ensures r == Product(lhs, rhs)
    decreases if Negative(lhs) || Negative(rhs) then 1 else 0
  {
    hide Encode, U, S, Pow2, Clamp, Product;
    var n := |lhs|;
    var lhsNegative := BinaryIsNegative(lhs);
    var rhsNegative := BinaryIsNegative(rhs);
    SBounds(lhs);
    SBounds(rhs);
    var resultShouldBeNegative := lhsNegative != rhsNegative;
    UZeros(n);
    var result := W.ShiftAndAdd(lhs, rhs, Zeros(n));
    var clipped := BinaryClip(result, n);
    var lastSet := BinaryLastBitSet(result);
    if lastSet.Some? {
      C.LastBitTellsWidth(lastSet.value, U(result), n);
    }
    ExtremeSigns(n);
    ProductByCases(lhs, rhs, U(result), clipped);
    if lastSet.Some? && lastSet.value >= n {
      if !resultShouldBeNegative && (lhsNegative || rhsNegative) {
        var lhsAbs := Absolute(lhs);
        var rhsAbs := Absolute(rhs);
        ProductOfMagnitudes(lhs, rhs, lhsAbs, rhsAbs, clipped);
        var product := SignedMul(lhsAbs, rhsAbs);
        if clipped != product {
          clipped := SignedMakeMin(n);
        }
      }
      if !(lhsNegative || rhsNegative) {
        clipped := SignedMakeMax(n);
      }
    }
    result := clipped;
    if resultShouldBeNegative != result[n - 1] {
      if resultShouldBeNegative {
        result := SignedMakeMin(n);
      } else {
        result := SignedMakeMax(n);
      }
    }
    return result;
  }

  lemma {:induction false} ProductByCases(lhs: BitVector, rhs: BitVector, p: nat, raw: BitVector)
    requires lhs != [] && rhs != [] && p == U(lhs) * U(rhs) && raw == Encode(|lhs|, p)
    ensures Negative(lhs) != Negative(rhs)
            ==> Product(lhs, rhs) == if Negative(raw) then raw else Encode(|lhs|, Extreme(|lhs|, true))
    ensures !Negative(lhs) && !Negative(rhs)
            ==> Product(lhs, rhs)
                == if p < Pow2(|lhs|) && !Negative(raw) then raw else Encode(|lhs|, Extreme(|lhs|, false))
    ensures Negative(lhs) && Negative(rhs) && p < Pow2(|lhs|)
            ==> Negative(raw) && Product(lhs, rhs) == Encode(|lhs|, Extreme(|lhs|, false))
  {
    hide Encode, U, S, Pow2, Clamp, Fits, Extreme;
    SBounds(lhs);
    SBounds(rhs);
    C.ProductSigns(lhs, rhs);
    ClampSign(|lhs|, p);
    ClampSign(|lhs|, Abs(S(lhs)));
    ClampSign(|rhs|, Abs(S(rhs)));
    ClampSign(|lhs|, Clamp(|lhs|, Abs(S(lhs))) * Clamp(|rhs|, Abs(S(rhs))));
  }

  lemma {:induction false} ProductOfMagnitudes(lhs: BitVector, rhs: BitVector,
                                               lhsAbs: BitVector, rhsAbs: BitVector, raw: BitVector)
    requires lhs != [] && rhs != [] && Negative(lhs) && Negative(rhs)
    requires Saturates(|lhs|, Abs(S(lhs)), lhsAbs) && Saturates(|rhs|, Abs(S(rhs)), rhsAbs)
    requires raw == Encode(|lhs|, U(lhs) * U(rhs))
    ensures !Negative(lhsAbs) && !Negative(rhsAbs) && !Negative(Product(lhsAbs, rhsAbs))
    ensures Product(lhs, rhs)
            == if raw == Product(lhsAbs, rhsAbs) then raw else Encode(|lhs|, Extreme(|lhs|, false))
  {
    hide Encode, U, S, Pow2, Clamp, Extreme;
    ClampSign(|lhs|, Abs(S(lhs)));
    ClampSign(|rhs|, Abs(S(rhs)));
    SBounds(lhsAbs);
    SBounds(rhsAbs);
    ClampSign(|lhs|, S(lhsAbs) * S(rhsAbs));
  }

  lemma {:induction false} ExtremeSigns(n: nat)
    requires n >= 1
    ensures Extreme(n, true) == 0 - Pow2(n - 1) && Extreme(n, false) == Pow2(n - 1) - 1
    ensures Negative(Encode(n, Extreme(n, true))) && !Negative(Encode(n, Extreme(n, false)))
  {
    hide Encode, U;
    SEncode(n, Extreme(n, true));
    SEncode(n, Extreme(n, false));
  }

  lemma {:induction false} ClampSign(n: nat, x: nat)
    requires n >= 1
    ensures Clamp(n, x) >= 0 && Extreme(n, false) >= 0
    ensures Clamp(n, x) == if Fits(n, x) then x else Extreme(n, false)
    ensures !Negative(Encode(n, Clamp(n, x)))
  {
    hide Encode, U;
    SEncode(n, Clamp(n, x));
  }

  /** Where the product is clamped: for operands that are not negative; for two negative ones, unless a
      narrower right one spoils a product below the maximum; and for operands of different sign if
      the product is not zero, and small enough, or clipped to something not negative, or to the
      minimum. */
  predicate MulClamps(lhs: BitVector, rhs: BitVector)
    requires lhs != [] && rhs != []
  {
    var p, half, wide, product := Pow2(|lhs|), Pow2(|lhs| - 1), Pow2(|rhs| - 1), S(lhs) * S(rhs);
    if S(lhs) >= 0 && S(rhs) >= 0 then
      true
    else if S(lhs) < 0 && S(rhs) < 0 then
      |lhs| <= |rhs| || product >= half - 1 || (C.ReadsSigned(lhs, rhs) && S(rhs) != 0 - wide)
    else if C.ReadsSigned(lhs, rhs) then
      && product != 0
      && (product >= 0 - half || !C.LooksNegative(|lhs|, Abs(product)) || Abs(product) % p == half)
    else
      product <= 0 - half && (S(lhs) * U(rhs)) % p <= half
  }

  /** The product that comes out where it is not the clamped one. */
  function MulMisses(lhs: BitVector, rhs: BitVector): (x: int)
    requires lhs != [] && rhs != []
  {
    var p, half := Pow2(|lhs|), Pow2(|lhs| - 1);
    var rest := (S(lhs) * U(rhs)) % p;
    if S(lhs) < 0 && S(rhs) < 0 then half - 1 else if rest >= half then rest - p else 0 - half
  }

  /** At any widths, exactly when the product that comes out is the clamped one, and what it is if not. */
  method SaturatingMul(lhs: BitVector, rhs: BitVector) returns (r: BitVector)
    requires lhs != [] && rhs != []
    ensures r == Product(lhs, rhs) && |r| == |lhs|
    ensures S(r) == Clamp(|lhs|, S(lhs) * S(rhs)) <==> MulClamps(lhs, rhs)
    ensures !MulClamps(lhs, rhs) ==> S(r) == MulMisses(lhs, rhs)
  {
    hide Encode, U, S, Pow2, Clamp, Product, MulClamps, MulMisses;
    SaturatingMulClampsIff(lhs, rhs);
    ProductWidth(lhs, rhs);
    r := SignedMul(lhs, rhs);
  }

  lemma {:induction false} SaturatingMulClampsIff(lhs: BitVector, rhs: BitVector)
    requires lhs != [] && rhs != []
    ensures Saturates(|lhs|, S(lhs) * S(rhs), Product(lhs, rhs)) <==> MulClamps(lhs, rhs)
    ensures !MulClamps(lhs, rhs) ==> S(Product(lhs, rhs)) == MulMisses(lhs, rhs)
  {
    hide Encode, U, S, Pow2, Fits, Product, Clamp;
    ProductWidth(lhs, rhs);
    if S(lhs) >= 0 && S(rhs) >= 0 {
      NonNegativeSaturates(lhs, rhs);
    } else if S(lhs) < 0 && S(rhs) < 0 {
      if |lhs| <= |rhs| {
        BothNegativeProduct(lhs, rhs);
      } else {
        NarrowerNegativeProduct(lhs, rhs);
      }
    } else {
      MixedProductClamps(lhs, rhs);
      MixedProductValue(lhs, rhs);
    }
  }

  lemma {:induction false} MixedProductValue(lhs: BitVector, rhs: BitVector)
    requires lhs != [] && rhs != [] && (S(lhs) < 0) != (S(rhs) < 0)
    ensures S(Product(lhs, rhs)) == MulMisses(lhs, rhs)
  {
    hide Encode, U, S, Pow2;
    var n := |lhs|;
    SBounds(lhs);
    SBounds(rhs);
    W.UIsShiftedS(lhs);
    MulDistributes(U(rhs), U(lhs), S(lhs));
    var raw := Encode(n, U(lhs) * U(rhs));
    if S(lhs) < 0 {
      MulDistributes(U(rhs), S(lhs), Pow2(n));
      EncodeCongruent(n, S(lhs) * U(rhs), U(lhs) * U(rhs), 0 - U(rhs));
    }
    UEncodeMod(n, S(lhs) * U(rhs));
    NegativeMeansUpperHalf(raw);
    W.UIsShiftedS(raw);
    UBound(raw);
    SEncode(n, Extreme(n, true));
  }

  lemma {:induction false} ProductWidth(lhs: BitVector, rhs: BitVector)
    requires lhs != [] && rhs != []
    ensures |Product(lhs, rhs)| == |lhs|
  {
    hide Encode, U, S, Pow2, Clamp;
  }

  lemma {:induction false} NonNegativeSaturates(lhs: BitVector, rhs: BitVector)
    requires lhs != [] && rhs != [] && S(lhs) >= 0 && S(rhs) >= 0
    ensures Saturates(|lhs|, S(lhs) * S(rhs), Product(lhs, rhs))
  {
    hide Encode, U, S, Pow2;
    SBounds(lhs);
    SBounds(rhs);
    SEncode(|lhs|, Clamp(|lhs|, S(lhs) * S(rhs)));
  }

  lemma {:induction false} MixedProductClamps(lhs: BitVector, rhs: BitVector)
    requires lhs != [] && rhs != [] && (S(lhs) < 0) != (S(rhs) < 0)
    ensures S(Product(lhs, rhs)) == Clamp(|lhs|, S(lhs) * S(rhs)) <==> MulClamps(lhs, rhs)
  {
    hide Encode, U, S, Pow2, Fits, Clamp;
    var n, k := |lhs|, Abs(S(lhs) * S(rhs));
    SBounds(lhs);
    SBounds(rhs);
    C.SameBitsIff(lhs, rhs);
    C.NegativeProduct(S(lhs), S(rhs));
    if C.ReadsSigned(lhs, rhs) {
      MixedProduct(n, k);
    } else {
      W.UIsShiftedS(lhs);
      SpoiledProduct(n, U(lhs) * U(rhs), S(lhs) * S(rhs));
    }
  }

  /** A clipped product that is not congruent to the true one, replaced by the minimum where it does not
      look negative. */
  lemma {:induction false} SpoiledProduct(n: nat, p: nat, product: int)
    requires n >= 1 && product <= 0 && Encode(n, p) != Encode(n, product)
    ensures var raw := Encode(n, p);
            var r := if Negative(raw) then raw else Encode(n, Extreme(n, true));
            S(r) == Clamp(n, product) <==> product <= 0 - Pow2(n - 1) && p % Pow2(n) <= Pow2(n - 1)
  {
    hide Encode, U, S;
    var raw := Encode(n, p);
    UEncodeMod(n, p);
    NegativeMeansUpperHalf(raw);
    W.UIsShiftedS(raw);
    UBound(raw);
    EncodeOfS(raw);
    SEncode(n, Extreme(n, true));
  }

  /** An odd factor cannot supply a power of two. */
  lemma {:induction false} OddFactor(a: nat, odd: nat, n: nat, j: int)
    requires odd % 2 == 1 && a * odd == Pow2(n) * j && 0 < a
    ensures a >= Pow2(n)
  {
    if n > 0 {
      var half := a / 2;
      assert Pow2(n) * j == 2 * (Pow2(n - 1) * j);
      assert a % 2 == 0 by {
        if a % 2 == 1 {
          OddProduct(a, odd);
        }
      }
      assert 2 * (half * odd) == a * odd by {
        MulAssociative(2, half, odd);
      }
      OddFactor(half, odd, n - 1, j);
    }
  }

  lemma {:induction false} OddProduct(a: nat, b: nat)
    requires a % 2 == 1 && b % 2 == 1
    ensures (a * b) % 2 == 1
  {
    var x, y := a / 2, b / 2;
    assert a * b == 2 * (2 * (x * y) + x + y) + 1;
  }

  /** For a narrower minimum on the right the clipped product is never that of the magnitudes. */
  lemma {:induction false} NeverMatches(lhs: BitVector, rhs: BitVector)
    requires lhs != [] && S(lhs) < 0 && IsMin(rhs) && !IsMin(lhs)
    ensures Encode(|lhs|, U(lhs) * U(rhs)) != Encode(|lhs|, Abs(S(lhs)) * (Pow2(|rhs| - 1) - 1))
  {
    hide Encode, U, S, Pow2;
    var n, p, a, q := |lhs|, Pow2(|lhs|), Abs(S(lhs)), Pow2(|rhs| - 1);
    SBounds(lhs);
    SBounds(rhs);
    W.UIsShiftedS(lhs);
    W.UIsShiftedS(rhs);
    W.HalfOf(n);
    W.HalfOf(|rhs|);
    if Encode(n, U(lhs) * U(rhs)) == Encode(n, a * (q - 1)) {
      var k := SameEncoding(n, U(lhs) * U(rhs), a * (q - 1));
      MulDistributes(q, p, a);
      MulDistributes(a, q, 1);
      MulDistributes(a, 2 * q, 1);
      MulDistributes(p, q, k);
      assert a * (2 * q - 1) == p * (q - k);
      OddFactor(a, 2 * q - 1, n, q - k);
    }
  }

  lemma {:induction false} ProductOfNegatives(lhs: BitVector, rhs: BitVector, magnitudes: nat)
    requires lhs != [] && rhs != [] && S(lhs) < 0 && S(rhs) < 0
    requires magnitudes == Clamp(|lhs|, Abs(S(lhs))) * Clamp(|rhs|, Abs(S(rhs)))
    ensures S(Product(lhs, rhs))
            == if Encode(|lhs|, U(lhs) * U(rhs)) == Encode(|lhs|, Clamp(|lhs|, magnitudes)) then Clamp(|lhs|, magnitudes)
               else Pow2(|lhs| - 1) - 1
  {
    hide Encode, U, S, Pow2;
    SBounds(lhs);
    SBounds(rhs);
    SEncode(|lhs|, Clamp(|lhs|, magnitudes));
    SEncode(|lhs|, Pow2(|lhs| - 1) - 1);
  }

  /** Two negative operands, the right one narrower. */
  lemma {:induction false} NarrowerNegativeProduct(lhs: BitVector, rhs: BitVector)
    requires rhs != [] && |rhs| < |lhs| && S(lhs) < 0 && S(rhs) < 0
    ensures S(Product(lhs, rhs)) == Clamp(|lhs|, S(lhs) * S(rhs)) <==> MulClamps(lhs, rhs)
    ensures !MulClamps(lhs, rhs) ==> S(Product(lhs, rhs)) == Pow2(|lhs| - 1) - 1
  {
    hide Encode, U, S, Pow2, C.ReadsSigned, MulClamps, Product, Clamp;
    var n, a, b := |lhs|, Abs(S(lhs)), Abs(S(rhs));
    C.NarrowerBounds(rhs, lhs);
    C.NegativeTimesNegative(S(lhs), S(rhs));
    SaturatedMagnitude(lhs);
    SaturatedMagnitude(rhs);
    ProductOfNegatives(lhs, rhs, Clamp(n, a) * Clamp(|rhs|, b));
    NarrowerMulClamps(lhs, rhs);
    MulAtLeast(a, b);
    if !IsMin(lhs) && !IsMin(rhs) {
      C.SameBitsIff(lhs, rhs);
      ClampSign(n, a * b);
    } else if !IsMin(lhs) {
      NeverMatches(lhs, rhs);
      MulDistributes(a, b, 1);
      ClampSign(n, a * b);
      ClampSign(n, a * (b - 1));
    } else {
      MinimumTimesNegative(lhs, rhs);
      ClampSign(n, a * b);
      ClampSign(n, (a - 1) * Clamp(|rhs|, b));
    }
  }

  lemma {:induction false} NarrowerMulClamps(lhs: BitVector, rhs: BitVector)
    requires rhs != [] && |rhs| < |lhs| && S(lhs) < 0 && S(rhs) < 0
    ensures MulClamps(lhs, rhs)
            <==> S(lhs) * S(rhs) >= Pow2(|lhs| - 1) - 1
                 || (C.ReadsSigned(lhs, rhs) && S(rhs) != 0 - Pow2(|rhs| - 1))
  {
  }

  /** The minimum times a narrower negative number reaches the maximum. */
  lemma {:induction false} MinimumTimesNegative(lhs: BitVector, rhs: BitVector)
    requires rhs != [] && |rhs| < |lhs| && IsMin(lhs) && S(rhs) < 0
    ensures var half, q, b := Pow2(|lhs| - 1), Pow2(|rhs| - 1), Abs(S(rhs));
            && half * b >= half
            && ((half - 1) * Clamp(|rhs|, b) >= half - 1
                || (Clamp(|rhs|, b) == 0 && Encode(|lhs|, U(lhs) * U(rhs)) != Encode(|lhs|, 0)))
  {
    hide Encode, U, S, Pow2;
    var n, half, q, b := |lhs|, Pow2(|lhs| - 1), Pow2(|rhs| - 1), Abs(S(rhs));
    C.NarrowerBounds(rhs, lhs);
    SBounds(lhs);
    W.UIsShiftedS(lhs);
    W.HalfOf(n);
    W.HalfOf(|rhs|);
    MulAtLeast(half, b);
    if Clamp(|rhs|, b) >= 1 {
      MulAtLeast(half - 1, Clamp(|rhs|, b));
    } else if Encode(n, U(lhs) * U(rhs)) == Encode(n, 0) {
      assert U(lhs) * U(rhs) == half;
      EncodeInjective(n, half, 0);
    }
  }

  /** The clipped negation of `k`, replaced by the minimum where it does not look negative. */
  lemma {:induction false} MixedProduct(n: nat, k: nat)
    requires n >= 1
    ensures var raw := Encode(n, 0 - k);
            var r := if Negative(raw) then raw else Encode(n, Extreme(n, true));
            S(r) == Clamp(n, 0 - k)
            <==> && k != 0
                 && (|| k <= Pow2(n - 1)
                     || !C.LooksNegative(n, k)
                     || k % Pow2(n) == Pow2(n - 1))
  {
    hide Encode, U, S;
    C.NegatedProductSign(n, k);
    SEncode(n, Extreme(n, true));
    var rest := k % Pow2(n);
    W.QuotientRemainder(k, Pow2(n));
    C.SmallRemainder(k, Pow2(n));
    if C.LooksNegative(n, k) {
      EncodeCongruent(n, 0 - rest, 0 - k, k / Pow2(n));
      SEncode(n, 0 - rest);
    }
  }

  lemma {:induction false} BothNegativeProduct(lhs: BitVector, rhs: BitVector)
    requires lhs != [] && |lhs| <= |rhs| && S(lhs) < 0 && S(rhs) < 0
    ensures S(Product(lhs, rhs)) == Clamp(|lhs|, S(lhs) * S(rhs))
  {
    hide Encode, U, S;
    var n, product := |lhs|, S(lhs) * S(rhs);
    SBounds(lhs);
    SBounds(rhs);
    W.WrapMulIsSignedIff(lhs, rhs);
    MagnitudesReachMaximum(lhs, rhs);
    var magnitudes := Clamp(n, Abs(S(lhs))) * Clamp(|rhs|, Abs(S(rhs)));
    SEncode(n, Clamp(n, magnitudes));
    SEncode(n, Extreme(n, false));
  }

  /** Saturated magnitudes multiply to the product, or to no less than the maximum. */
  lemma {:induction false} MagnitudesReachMaximum(lhs: BitVector, rhs: BitVector)
    requires lhs != [] && |lhs| <= |rhs| && S(lhs) < 0 && S(rhs) < 0
    ensures var magnitudes := Clamp(|lhs|, Abs(S(lhs))) * Clamp(|rhs|, Abs(S(rhs)));
            Clamp(|lhs|, magnitudes) == Clamp(|lhs|, S(lhs) * S(rhs))
  {
    hide U, S, Pow2;
    SBounds(lhs);
    SBounds(rhs);
    var x, y, p, q := Abs(S(lhs)), Abs(S(rhs)), Pow2(|lhs| - 1), Pow2(|rhs| - 1);
    C.NegativeTimesNegative(S(lhs), S(rhs));
    Pow2Monotone(|lhs| - 1, |rhs| - 1);
    if x == p {
      SaturatedLeft(x, y, if y == q then q - 1 else y, q);
    } else if y == q {
      SaturatedRight(x, y, p);
    }
  }

  lemma {:induction false} SaturatedLeft(p: nat, y: nat, y': nat, q: nat)
    requires 1 <= p <= q && 1 <= y <= q && y' == if y == q then q - 1 else y
    ensures p * y >= p && (p - 1) * y' >= p - 1
  {
    MulAtLeast(p, y);
    if y' >= 1 {
      MulAtLeast(p - 1, y');
    }
  }

  lemma {:induction false} SaturatedRight(x: nat, q: nat, p: nat)
    requires 1 <= x && 1 <= p <= q
    ensures x * q >= p && x * (q - 1) >= p - 1
  {
    MulAtLeast(q, x);
    MulAtLeast(q - 1, x);
  }

  // ---------------------------------------------------------------- division

  /** Where saturating division gives the clamped quotient. */
  predicate DivisionClamps(dividend: BitVector, divisor: BitVector)
    requires dividend != [] && S(divisor) != 0
  {
    if IsMin(divisor) then
      Abs(S(dividend)) < Pow2(|divisor| - 1) || |dividend| == 1
    else if S(dividend) == S(divisor) then
      |dividend| >= 2
    else
      !IsMin(dividend) || S(divisor) == -1 || Pow2(|dividend| - 1) % Abs(S(divisor)) != 0
  }

  /** The quotient that comes out where it is not the clamped one: that of the number next to the minimum, unless the
      divisor is a minimum, or a number of one bit is divided by itself. */
  function DivMisses(dividend: BitVector, divisor: BitVector): (x: int)
    requires dividend != [] && S(divisor) != 0
  {
    var q := (Pow2(|dividend| - 1) - 1) / Abs(S(divisor));
    if IsMin(divisor) then 0 else if S(dividend) == S(divisor) then -1 else if S(divisor) < 0 then q else -q
  }

  /** Saturating division, at all widths.  A minimum divisor always gives zero, and a minimum
      dividend is divided as if it were one greater. */
  method SaturatingDiv(dividend: BitVector, rhs: BitVector) returns (r: Outcome<BitVector>)
    requires dividend != []
    ensures U(rhs) == 0 <==> S(rhs) == 0
    ensures S(rhs) == 0 ==> r == Throw("division by zero")
    ensures S(rhs) != 0 ==> r.Ok? && |r.value| == |dividend|
    ensures S(rhs) != 0
            ==> (Saturates(|dividend|, W.Trunc(S(dividend), S(rhs)), r.value)
                 <==> DivisionClamps(dividend, rhs))
    ensures S(rhs) != 0 && !DivisionClamps(dividend, rhs) ==> S(r.value) == DivMisses(dividend, rhs)
  {
    hide Encode, U, S, Expanded, Pow2, Clamp, DivisionClamps, DivMisses, W.Trunc;
    W.UZeroMeansSZero(rhs);
    var nonZero := BinaryToBool(rhs);
    if !nonZero {
      return Throw("division by zero");
    }
    UZeros(|dividend|);
    var isMin := SignedIsMin(rhs);
    if isMin {
      W.UZeroMeansSZero(Zeros(|dividend|));
      MinimumDivisor(dividend, rhs);
      return Ok(Zeros(|dividend|));
    }
    var same := BinaryEq(rhs, dividend);
    if same {
      var _, one := W.BinaryIncrement(Zeros(|dividend|));
      EqualOperands(dividend, rhs);
      return Ok(one);
    }
    var negativeDivisor := BinaryIsNegative(rhs);
    var negativeDividend := BinaryIsNegative(dividend);
    var divisor := Absolute(rhs);
    var remainder := Absolute(dividend);
    MinimumDividend(dividend, rhs);
    var quotient := C.DivideMagnitudes(remainder, divisor);
    NegatedFits(quotient);
    if negativeDivisor != negativeDividend {
      quotient := TakeTwosComplement(quotient);
    }
    return Ok(quotient);
  }

  lemma {:induction false} SaturatedMagnitude(v: BitVector)
    requires v != []
    ensures Clamp(|v|, Abs(S(v))) == if IsMin(v) then Abs(S(v)) - 1 else Abs(S(v))
    ensures Clamp(|v|, Abs(S(v))) >= 0
  {
    hide U;
    SBounds(v);
  }

  lemma {:induction false} NegatedFits(v: BitVector)
    requires v != [] && S(v) >= 0
    ensures Fits(|v|, -S(v))
  {
    hide U;
    SBounds(v);
  }

  lemma {:induction false} MinimumDivisor(dividend: BitVector, divisor: BitVector)
    requires dividend != [] && IsMin(divisor)
    ensures Clamp(|dividend|, W.Trunc(S(dividend), S(divisor))) == 0 <==> DivisionClamps(dividend, divisor)
    ensures S(divisor) != 0 && DivMisses(dividend, divisor) == 0
  {
    hide U, S;
    SBounds(dividend);
    var x, y, n := Abs(S(dividend)), Abs(S(divisor)), |dividend|;
    if x < y {
      W.SmallQuotient(x, y);
    } else {
      W.QuotientPositive(x, y);
      if n >= 2 {
        Pow2Monotone(1, n - 1);
      }
    }
  }

  lemma {:induction false} EqualOperands(dividend: BitVector, divisor: BitVector)
    requires dividend != [] && S(divisor) != 0 && !IsMin(divisor) && S(dividend) == S(divisor)
    ensures S(Encode(|dividend|, 1)) == Clamp(|dividend|, W.Trunc(S(dividend), S(divisor)))
            <==> DivisionClamps(dividend, divisor)
    ensures !DivisionClamps(dividend, divisor) ==> S(Encode(|dividend|, 1)) == DivMisses(dividend, divisor)
  {
    hide Encode, U, S;
    var n := |dividend|;
    W.QuotientUnique(Abs(S(dividend)), Abs(S(divisor)), 1, 0);
    if n >= 2 {
      Pow2Monotone(1, n - 1);
      SEncode(n, 1);
    } else {
      EncodeCongruent(n, 1, -1, 1);
      SEncode(n, -1);
    }
  }

  lemma {:induction false} MinimumDividend(dividend: BitVector, divisor: BitVector)
    requires dividend != [] && divisor != [] && S(divisor) != 0
    requires !IsMin(divisor) && S(dividend) != S(divisor)
    ensures Clamp(|dividend|, Abs(S(dividend))) >= 0 && Clamp(|divisor|, Abs(S(divisor))) > 0
    ensures var q := Clamp(|dividend|, Abs(S(dividend))) / Clamp(|divisor|, Abs(S(divisor)));
            (if (S(dividend) < 0) != (S(divisor) < 0) then -q else q)
            == Clamp(|dividend|, W.Trunc(S(dividend), S(divisor)))
            <==> DivisionClamps(dividend, divisor)
    ensures !DivisionClamps(dividend, divisor)
            ==> var q := Clamp(|dividend|, Abs(S(dividend))) / Clamp(|divisor|, Abs(S(divisor)));
                (if (S(dividend) < 0) != (S(divisor) < 0) then -q else q) == DivMisses(dividend, divisor)
  {
    MissedMinimum(dividend, divisor);
    hide U, S, Pow2, Clamp, W.Trunc, DivisionClamps, DivMisses;
    SaturatedMagnitude(divisor);
    SaturatedMagnitude(dividend);
    QuotientOfMagnitudes(dividend, divisor);
  }

  lemma {:induction false} MissedMinimum(dividend: BitVector, divisor: BitVector)
    requires dividend != [] && S(divisor) != 0 && !IsMin(divisor) && S(dividend) != S(divisor)
    ensures !DivisionClamps(dividend, divisor)
            ==> && IsMin(dividend) && S(dividend) < 0
                && var q := (Abs(S(dividend)) - 1) / Abs(S(divisor));
                   DivMisses(dividend, divisor) == if S(divisor) < 0 then q else -q
  {
    hide U, S;
    SBounds(dividend);
  }

  lemma {:induction false} QuotientOfMagnitudes(dividend: BitVector, divisor: BitVector)
    requires dividend != [] && S(divisor) != 0 && !IsMin(divisor) && S(dividend) != S(divisor)
    ensures var magnitude := if IsMin(dividend) then Abs(S(dividend)) - 1 else Abs(S(dividend));
            var q := magnitude / Abs(S(divisor));
            (if (S(dividend) < 0) != (S(divisor) < 0) then -q else q)
            == Clamp(|dividend|, W.Trunc(S(dividend), S(divisor)))
            <==> DivisionClamps(dividend, divisor)
  {
    hide U, S;
    SBounds(dividend);
    var x, y, n := Abs(S(dividend)), Abs(S(divisor)), |dividend|;
    if !IsMin(dividend) {
      C.QuotientFits(S(dividend), S(divisor), n);
    } else if S(divisor) == -1 {
      W.QuotientUnique(x, 1, x, 0);
      W.QuotientUnique(x - 1, 1, x - 1, 0);
    } else {
      PredecessorQuotient(x, y);
      MinimumQuotientFits(S(dividend), S(divisor), n);
    }
  }

  lemma {:induction false} MinimumQuotientFits(x: int, y: int, n: nat)
    requires n >= 1 && x == 0 - Pow2(n - 1) && y != 0 && y != -1
    ensures Fits(n, W.Trunc(x, y))
  {
    hide Pow2;
    if y > 0 || Abs(y) > Abs(x) {
      C.TruncBound(x, y);
    } else {
      C.HalvedQuotient(Abs(x), Abs(y));
    }
  }

  lemma {:induction false} PredecessorQuotient(x: nat, y: nat)
    requires x >= 1 && y >= 1
    ensures (x - 1) / y == x / y <==> x % y != 0
  {
    var q, r := x / y, x % y;
    W.QuotientRemainder(x, y);
    if r != 0 {
      W.QuotientUnique(x - 1, y, q, r - 1);
    } else {
      W.QuotientStep(q - 1, y, y);
      W.QuotientUnique(x - 1, y, q - 1, y - 1);
    }
  }
}
