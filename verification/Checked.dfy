/** viua::arithmetic::checked: signed operations that throw instead of wrapping. */
module Checked {
  import opened BitVectors
  import opened BitHelpers
  import opened Wrappers
  import W = Wrapping

  /** What a checked operation promises: the exact result at the width of the left operand
      when it is representable there, and an exception when it is not. */
  predicate Conforms(n: nat, exact: int, r: Outcome<BitVector>) {
    if Fits(n, exact) then r.Ok? && |r.value| == n && S(r.value) == exact else r.Throw?
  }

  /** A result less than one range too large or too small shows up with the wrong sign. */
  lemma {:induction false} SignTellsOverflow(n: nat, x: int)
    requires n >= 1 && 0 - Pow2(n) <= x < Pow2(n)
    ensures Negative(Encode(n, x)) <==> if Fits(n, x) then x < 0 else x >= 0
  {
    hide Encode, U;
    if Fits(n, x) {
      SEncode(n, x);
    } else {
      var y := if x >= 0 then x - Pow2(n) else x + Pow2(n);
      EncodeCongruent(n, x, y, if x >= 0 then 1 else -1);
      SEncode(n, y);
    }
  }

  lemma {:induction false} EncodeOfSum(l: BitVector, r: BitVector)
    requires |l| == |r|
    ensures Encode(|l|, U(l) + U(r)) == Encode(|l|, S(l) + S(r))
  {
    W.WrapAddIsSignedIff(l, r);
  }

  // ---------------------------------------------------------------- increment, decrement, negation

  method SignedIncrement(v: BitVector) returns (r: Outcome<BitVector>)
    requires v != []
    ensures Conforms(|v|, S(v) + 1, r)
    ensures r.Throw? ==> r.tag == "CheckedArithmeticIncrementSignedOverflow"
  {
    hide Encode, U;
    var _, incremented := W.BinaryIncrement(v);
    EncodeEitherReading(v, 1);
    SBounds(v);
    SignTellsOverflow(|v|, S(v) + 1);
    if !v[|v| - 1] && incremented[|v| - 1] {
      return Throw("CheckedArithmeticIncrementSignedOverflow");
    }
    SEncode(|v|, S(v) + 1);
    return Ok(incremented);
  }

  method SignedDecrement(v: BitVector) returns (r: Outcome<BitVector>)
    requires v != []
    ensures Conforms(|v|, S(v) - 1, r)
    ensures r.Throw? ==> r.tag == "CheckedArithmeticDecrementSignedOverflow"
  {
    hide Encode, U;
    var _, decremented := W.BinaryDecrement(v);
    EncodeEitherReading(v, -1);
    SBounds(v);
    SignTellsOverflow(|v|, S(v) - 1);
    if v[|v| - 1] && !decremented[|v| - 1] {
      return Throw("CheckedArithmeticDecrementSignedOverflow");
    }
    SEncode(|v|, S(v) - 1);
    return Ok(decremented);
  }

  method TakeTwosComplement(v: BitVector) returns (r: Outcome<BitVector>)
    requires v != []
    ensures Conforms(|v|, -S(v), r)
    ensures r.Throw? <==> IsMin(v)
  {
    hide U;
    SBounds(v);
    var inverted := BinaryInversion(v);
    r := SignedIncrement(inverted);
  }

  method Absolute(v: BitVector) returns (r: Outcome<BitVector>)
    requires v != []
    ensures Conforms(|v|, Abs(S(v)), r)
    ensures r.Throw? <==> IsMin(v)
  {
    hide U;
    SBounds(v);
    var negative := BinaryIsNegative(v);
    if negative {
      r := TakeTwosComplement(v);
    } else {
      r := Ok(v);
    }
  }

  // ---------------------------------------------------------------- comparison

  /** Signs decide first.  Two non-negative operands are compared by `<=`; two negative ones
      by magnitude, which is the reverse of their order, and the minimum has no magnitude. */
  method SignedLt(lhs: BitVector, rhs: BitVector) returns (r: Outcome<bool>)
    requires lhs != [] && rhs != []
    ensures (S(lhs) < 0) != (S(rhs) < 0) ==> r == Ok(S(lhs) < 0)
    ensures S(lhs) >= 0 && S(rhs) >= 0 ==> r == Ok(S(lhs) <= S(rhs))
    ensures S(lhs) < 0 && S(rhs) < 0
            ==> if IsMin(Expanded(lhs, |rhs|)) || IsMin(Expanded(rhs, |lhs|)) then r.Throw?
                else r == Ok(S(lhs) >= S(rhs))
  {
    hide Encode, U, Pow2;
    var l := BinaryExpand(lhs, Max(|lhs|, |rhs|));
    var r' := BinaryExpand(rhs, Max(|l|, |rhs|));
    assert l == Expanded(lhs, |rhs|) && r' == Expanded(rhs, |lhs|);
    var lNegative := BinaryIsNegative(l);
    var rNegative := BinaryIsNegative(r');
    if lNegative && !rNegative {
      return Ok(true);
    }
    if !lNegative && rNegative {
      return Ok(false);
    }
    if lNegative {
      var t := TakeTwosComplement(l);
      if t.Throw? {
        return Throw(t.tag);
      }
      l := t.value;
    }
    rNegative := BinaryIsNegative(r');
    if rNegative {
      var t := TakeTwosComplement(r');
      if t.Throw? {
        return Throw(t.tag);
      }
      r' := t.value;
    }
    var lte := LowBitsLte(l, r');
    return Ok(lte);
  }

  /** The comparison loop of signed_lt: it skips the top bit, clear in both operands. */
  method LowBitsLte(l: BitVector, r: BitVector) returns (lte: bool)
    requires |l| == |r| >= 1
    requires S(l) >= 0 && S(r) >= 0
    ensures lte <==> S(l) <= S(r)
  {
    SBounds(l);
    SBounds(r);
    hide U, Pow2;
    var i := |l| - 1;
    assert l[i..] == [false] && r[i..] == [false];
    while i > 0
      invariant 0 <= i < |l|
      invariant l[i..] == r[i..]
    {
      if !l[i - 1] && r[i - 1] {
        W.MostSignificantDifference(l, r, i - 1);
        return true;
      } else if l[i - 1] && !r[i - 1] {
        W.MostSignificantDifference(r, l, i - 1);
        return false;
      }
      assert l[i - 1..] == [l[i - 1]] + l[i..] && r[i - 1..] == [r[i - 1]] + r[i..];
      i := i - 1;
    }
    assert l[0..] == l && r[0..] == r;
    return true;
  }

  // ---------------------------------------------------------------- addition

  /** The predicted sign always comes out as the sign of the right operand: with operands of
      different sign the first comparison is always false and the second, of the left operand
      with itself, always true. */
  method PredictedSign(lhs: BitVector, rhs: BitVector) returns (negative: bool)
    requires lhs != [] && rhs != []
    ensures negative <==> Negative(rhs)
  {
    SBounds(lhs);
    SBounds(rhs);
    var lhsNegative := BinaryIsNegative(lhs);
    var rhsNegative := BinaryIsNegative(rhs);
    negative := lhsNegative && rhsNegative;
    if lhsNegative && !rhsNegative {
      var lt := SignedLt(rhs, lhs);
      if lt == Ok(true) {
        negative := true;
      }
    }
    if !lhsNegative && rhsNegative {
      var lt := SignedLt(lhs, lhs);
      if lt == Ok(true) {
        negative := true;
      }
    }
  }

  method SignedAdd(lhs: BitVector, rhs: BitVector) returns (r: Outcome<BitVector>)
    requires lhs != [] && rhs != []
    ensures var raw := Encode(Max(|lhs|, |rhs|), U(lhs) + U(rhs));
            r == if Negative(raw) == Negative(rhs) then Ok(raw)
                 else Throw("CheckedArithmeticAdditionSignedOverflow")
  {
    hide Encode, U, Pow2;
    var resultShouldBeNegative := PredictedSign(lhs, rhs);
    var result, _ := W.RippleCarry(lhs, rhs);
    if resultShouldBeNegative && !result[|result| - 1] {
      return Throw("CheckedArithmeticAdditionSignedOverflow");
    }
    if !resultShouldBeNegative && result[|result| - 1] {
      return Throw("CheckedArithmeticAdditionSignedOverflow");
    }
    return Ok(result);
  }

  /** Where checked addition keeps its promise.  At equal widths: for operands of one sign, and for sums
      with the sign of the right one.  A narrower right operand is zero-extended: neither it nor the
      sum may be negative.  A narrower left operand is zero-extended too, so that the raw sum is too
      large by 2^n for a negative one, and is held against the wider range instead of its own. */
  predicate AddConforms(lhs: BitVector, rhs: BitVector)
    requires lhs != [] && rhs != []
  {
    var half, wide, sum := Pow2(|lhs| - 1), Pow2(|rhs| - 1), S(lhs) + S(rhs);
    if |lhs| == |rhs| then
      (S(lhs) < 0 <==> S(rhs) < 0) || (sum < 0 <==> S(rhs) < 0)
    else if |rhs| < |lhs| then
      S(rhs) >= 0 && sum >= 0
    else if S(rhs) >= 0 then
      var limit := if S(lhs) >= 0 then wide else wide - 2 * half;
      sum < half <==> sum < limit
    else if S(lhs) >= 0 then
      0 - half <= sum < 0
    else
      0 - 2 * half <= sum < 0 - half
  }

  /** At any widths: what comes out, and exactly when it is the promised sum or exception. */
  method CheckedAdd(lhs: BitVector, rhs: BitVector) returns (r: Outcome<BitVector>)
    requires lhs != [] && rhs != []
    ensures var raw := Encode(Max(|lhs|, |rhs|), U(lhs) + U(rhs));
            r == if Negative(raw) == Negative(rhs) then Ok(Encode(|lhs|, U(lhs) + U(rhs)))
                 else Throw("CheckedArithmeticAdditionSignedOverflow")
    ensures |lhs| == |rhs| && r.Ok? ==> S(r.value) == S(lhs) + S(rhs)
    ensures Conforms(|lhs|, S(lhs) + S(rhs), r) <==> AddConforms(lhs, rhs)
  {
    hide Encode, U, AddConforms, Conforms;
    r := SignedAdd(lhs, rhs);
    ghost var n := |lhs|;
    if r.Ok? {
      var clipped := BinaryClip(r.value, |lhs|);
      EncodeNarrow(n, Max(n, |rhs|), U(lhs) + U(rhs));
      r := Ok(clipped);
    }
    if n == |rhs| {
      EqualWidthSum(lhs, rhs, r);
    } else {
      OtherWidthSum(lhs, rhs, r);
    }
  }

  lemma {:induction false} EqualWidthSum(lhs: BitVector, rhs: BitVector, r: Outcome<BitVector>)
    requires lhs != [] && |lhs| == |rhs|
    requires var raw := Encode(|lhs|, U(lhs) + U(rhs));
             r == if Negative(raw) == Negative(rhs) then Ok(raw) else Throw("CheckedArithmeticAdditionSignedOverflow")
    ensures r.Ok? ==> S(r.value) == S(lhs) + S(rhs)
    ensures Conforms(|lhs|, S(lhs) + S(rhs), r) <==> AddConforms(lhs, rhs)
  {
    hide Encode, U;
    var n, sum := |lhs|, S(lhs) + S(rhs);
    EncodeOfSum(lhs, rhs);
    SBounds(lhs);
    SBounds(rhs);
    SignTellsOverflow(n, sum);
    if Fits(n, sum) {
      SEncode(n, sum);
    }
  }

  /** 5 + (-3) throws at eight bits although 2 is representable. */
  lemma {:induction false} CheckedAddRefusesRepresentableSum()
    ensures Fits(8, 5 + -3)
    ensures S(Encode(8, 5)) == 5 && S(Encode(8, -3)) == -3
    ensures Negative(Encode(8, 5 + -3)) != Negative(Encode(8, -3))
  {
    hide Encode, U;
    assert Pow2(7) == 128;
    SEncode(8, 5);
    SEncode(8, -3);
    SEncode(8, 2);
  }

  /** An outcome that is a clipped number, or an exception, conforms exactly when it is returned for
      representable results only, and is congruent to them. */
  lemma {:induction false} ClippedConformsIff(n: nat, exact: int, y: int, given: bool, tag: string)
    requires n >= 1
    ensures Conforms(n, exact, if given then Ok(Encode(n, y)) else Throw(tag))
            <==> (given <==> Fits(n, exact)) && (given ==> Encode(n, y) == Encode(n, exact))
  {
    hide Encode, U;
    EncodeOfS(Encode(n, y));
    if Fits(n, exact) {
      SEncode(n, exact);
    }
  }

  /** The sign of the raw sum of operands of different widths, the narrower one zero-extended. */
  lemma {:induction false} RawSumSign(lhs: BitVector, rhs: BitVector)
    requires lhs != [] && rhs != [] && |lhs| != |rhs|
    ensures var m, x := Max(|lhs|, |rhs|), if |lhs| > |rhs| then S(lhs) + U(rhs) else U(lhs) + S(rhs);
            Negative(Encode(m, U(lhs) + U(rhs))) <==> x < 0 || x >= Pow2(m - 1)
  {
    hide Encode, U;
    var wide, narrow := if |lhs| > |rhs| then lhs else rhs, if |lhs| > |rhs| then rhs else lhs;
    EncodeEitherReading(wide, U(narrow));
    SBounds(wide);
    UBound(narrow);
    Pow2Monotone(|narrow|, |wide| - 1);
    SignTellsOverflow(|wide|, S(wide) + U(narrow));
  }

  /** How the two readings of an operand, and its range, compare with those of a wider one. */
  lemma {:induction false} NarrowerBounds(narrow: BitVector, wide: BitVector)
    requires narrow != [] && |narrow| < |wide|
    ensures U(narrow) == if S(narrow) < 0 then S(narrow) + 2 * Pow2(|narrow| - 1) else S(narrow)
    ensures 0 - Pow2(|narrow| - 1) <= S(narrow) < Pow2(|narrow| - 1)
    ensures 0 - Pow2(|wide| - 1) <= S(wide) < Pow2(|wide| - 1)
    ensures 2 * Pow2(|narrow| - 1) <= Pow2(|wide| - 1)
  {
    hide U;
    SBounds(narrow);
    SBounds(wide);
    W.UIsShiftedS(narrow);
    Pow2Monotone(|narrow|, |wide| - 1);
  }

  lemma {:induction false} OtherWidthSum(lhs: BitVector, rhs: BitVector, r: Outcome<BitVector>)
    requires lhs != [] && rhs != [] && |lhs| != |rhs|
    requires var raw := Encode(Max(|lhs|, |rhs|), U(lhs) + U(rhs));
             r == if Negative(raw) == Negative(rhs) then Ok(Encode(|lhs|, U(lhs) + U(rhs)))
                  else Throw("CheckedArithmeticAdditionSignedOverflow")
    ensures Conforms(|lhs|, S(lhs) + S(rhs), r) <==> AddConforms(lhs, rhs)
  {
    hide Encode, U, Pow2, S, Conforms;
    RawSumSign(lhs, rhs);
    SBounds(rhs);
    W.WrapAddIsSignedIff(lhs, rhs);
    ClippedConformsIff(|lhs|, S(lhs) + S(rhs), U(lhs) + U(rhs), r.Ok?, "CheckedArithmeticAdditionSignedOverflow");
    if |lhs| < |rhs| {
      NarrowerBounds(lhs, rhs);
    } else {
      NarrowerBounds(rhs, lhs);
    }
  }

  // ---------------------------------------------------------------- subtraction

  /** When the subtraction returns: both operands are sign-extended, so the test is made on
      the exact difference at the wider width. */
  predicate SubReturns(lhs: BitVector, rhs: BitVector) {
    var m := Max(|lhs|, |rhs|);
    lhs == rhs
    || (m >= 1 && S(rhs) != 0 - Pow2(m - 1) && (Negative(Encode(m, S(lhs) - S(rhs))) <==> S(rhs) > 0))
  }

  method SignedSub(lhs: BitVector, rhs: BitVector) returns (r: Outcome<BitVector>)
    requires lhs != [] && rhs != []
    ensures r == if SubReturns(lhs, rhs) then Ok(Encode(|lhs|, S(lhs) - S(rhs)))
                 else Throw("CheckedArithmeticSubtractionSignedOverflow")
  {
    hide Encode, U, Expanded, Pow2, Fits;
    if lhs == rhs {
      UZeros(|lhs|);
      EncodeOfU(Zeros(|lhs|));
      return Ok(Zeros(|lhs|));
    }
    var m := Max(|lhs|, |rhs|);
    var l := BinaryExpand(lhs, m);
    var wide := BinaryExpand(rhs, m);
    var rhsUsed := TakeTwosComplement(wide);
    if rhsUsed.Throw? {
      return Throw("CheckedArithmeticSubtractionSignedOverflow");
    }
    EncodeOfSum(l, rhsUsed.value);
    SBounds(rhsUsed.value);
    var sum := SignedAdd(l, rhsUsed.value);
    if sum.Throw? {
      return Throw("CheckedArithmeticSubtractionSignedOverflow");
    }
    EncodeNarrow(|lhs|, m, S(lhs) - S(rhs));
    var clipped := BinaryClip(sum.value, |lhs|);
    return Ok(clipped);
  }

  /** Where checked subtraction keeps its promise.  For a right operand no wider: on equal vectors, on
      every overflow, and on differences with the sign of the negated right operand, unless that is
      the minimum.  For a wider one: on its minimum, and on differences of that sign that are
      representable in the width of the left operand, or not even in the wider one. */
  predicate SubConforms(lhs: BitVector, rhs: BitVector)
    requires lhs != [] && rhs != []
  {
    var half, wide, d := Pow2(|lhs| - 1), Pow2(|rhs| - 1), S(lhs) - S(rhs);
    if |rhs| <= |lhs| then
      lhs == rhs || d < 0 - half || d >= half || (S(rhs) != 0 - half && (d < 0 <==> S(rhs) > 0))
    else
      || S(rhs) == 0 - wide
      || if S(rhs) > 0 then d < 0 && (d >= 0 - half || d < 0 - wide) else 0 <= d < half || d >= wide
  }

  /** At any widths, exactly when the outcome is the promised difference or exception; and for a right
      operand no wider, what is returned is always exact. */
  method CheckedSub(lhs: BitVector, rhs: BitVector) returns (r: Outcome<BitVector>)
    requires lhs != [] && rhs != []
    ensures r.Throw? ==> r.tag == "CheckedArithmeticSubtractionSignedOverflow"
    ensures r.Ok? ==> r.value == Encode(|lhs|, S(lhs) - S(rhs))
    ensures |rhs| <= |lhs| && r.Ok? ==> S(r.value) == S(lhs) - S(rhs)
    ensures Conforms(|lhs|, S(lhs) - S(rhs), r) <==> SubConforms(lhs, rhs)
  {
    hide Encode, U, S, Conforms, SubConforms, SubReturns;
    r := SignedSub(lhs, rhs);
    CheckedSubConformsIff(lhs, rhs, r);
    if r.Ok? {
      var clipped := BinaryClip(r.value, |lhs|);
      EncodeOfU(r.value);
      r := Ok(clipped);
    }
  }

  lemma {:induction false} CheckedSubConformsIff(lhs: BitVector, rhs: BitVector, r: Outcome<BitVector>)
    requires lhs != [] && rhs != []
    requires r == if SubReturns(lhs, rhs) then Ok(Encode(|lhs|, S(lhs) - S(rhs)))
                  else Throw("CheckedArithmeticSubtractionSignedOverflow")
    ensures |rhs| <= |lhs| && r.Ok? ==> S(r.value) == S(lhs) - S(rhs)
    ensures Conforms(|lhs|, S(lhs) - S(rhs), r) <==> SubConforms(lhs, rhs)
  {
    hide Encode, U, Conforms, S, Pow2, SubReturns, SubConforms;
    var n, d := |lhs|, S(lhs) - S(rhs);
    SubReturnsIff(lhs, rhs);
    ClippedConformsIff(n, d, d, r.Ok?, "CheckedArithmeticSubtractionSignedOverflow");
    if Fits(n, d) {
      SEncode(n, d);
    }
  }

  lemma {:induction false} SubReturnsIff(lhs: BitVector, rhs: BitVector)
    requires lhs != [] && rhs != []
    ensures (SubReturns(lhs, rhs) <==> Fits(|lhs|, S(lhs) - S(rhs))) <==> SubConforms(lhs, rhs)
    ensures |rhs| <= |lhs| && SubReturns(lhs, rhs) ==> Fits(|lhs|, S(lhs) - S(rhs))
  {
    hide Encode, U, S, Pow2;
    var n, m := |lhs|, Max(|lhs|, |rhs|);
    SBounds(lhs);
    SBounds(rhs);
    W.HalfOf(m);
    Pow2Monotone(n - 1, m - 1);
    Pow2Monotone(|rhs| - 1, m - 1);
    if n < m {
      NarrowerBounds(lhs, rhs);
    }
    SignTellsOverflow(m, S(lhs) - S(rhs));
  }

  // ---------------------------------------------------------------- multiplication

  /** The top bit set tells whether a value overflows `n` unsigned bits. */
  lemma {:induction false} LastBitTellsWidth(k: nat, u: nat, n: nat)
    requires Pow2(k) <= u < Pow2(k + 1)
    ensures k >= n <==> u >= Pow2(n)
  {
    hide Pow2;
    if k >= n {
      Pow2Monotone(n, k);
    } else {
      Pow2Monotone(k + 1, n);
    }
  }

  /** When signed_mul returns: two non-negative operands need a product below 2^(n-1); two
      negative ones a product of magnitudes below it that also agrees with the clipped bits;
      operands of different sign only need the clipped bits to look negative. */
  predicate MulReturns(lhs: BitVector, rhs: BitVector) {
    var n := |lhs|;
    var raw := Encode(n, U(lhs) * U(rhs));
    if Negative(lhs) != Negative(rhs) then
      Negative(raw)
    else if !Negative(lhs) then
      Fits(n, S(lhs) * S(rhs))
    else
      && !IsMin(lhs) && !IsMin(rhs)
      && Fits(n, S(lhs) * S(rhs))
      && raw == Encode(n, S(lhs) * S(rhs))
  }

  /** The recursive call is made on two non-negative operands only, so it ends. */
  method SignedMul(lhs: BitVector, rhs: BitVector) returns (r: Outcome<BitVector>)
    requires lhs != [] && rhs != []
    ensures r == if MulReturns(lhs, rhs) then Ok(Encode(|lhs|, U(lhs) * U(rhs)))
                 else Throw("CheckedArithmeticMultiplicationSignedOverflow")
    decreases if Negative(lhs) || Negative(rhs) then 1 else 0
  {
    hide Encode, U, Pow2, Fits;
    var n := |lhs|;
    var lhsNegative := BinaryIsNegative(lhs);
    var rhsNegative := BinaryIsNegative(rhs);
    SBounds(lhs);
    SBounds(rhs);
    var resultShouldBeNegative := lhsNegative != rhsNegative;
    UZeros(n);
    var result := W.ShiftAndAdd(lhs, rhs, Zeros(n));
    var clipped := BinaryClip(result, n);
    var lastSet := BinaryLastBitSet(result);
    if lastSet.Some? {
      LastBitTellsWidth(lastSet.value, U(result), n);
    }
    ProductSigns(lhs, rhs);
    if lastSet.Some? && lastSet.value >= n {
      if !resultShouldBeNegative && (lhsNegative || rhsNegative) {
        var lhsAbs := Absolute(lhs);
        var rhsAbs := Absolute(rhs);
        if lhsAbs.Throw? || rhsAbs.Throw? {
          return Throw("CheckedArithmeticMultiplicationSignedOverflow");
        }
        NonNegativeProduct(lhs, rhs, lhsAbs.value, rhsAbs.value);
        var product := SignedMul(lhsAbs.value, rhsAbs.value);
        if product.Throw? {
          return Throw("CheckedArithmeticMultiplicationSignedOverflow");
        }
        if clipped != product.value {
          return Throw("CheckedArithmeticMultiplicationSignedOverflow");
        }
      }
      if !(lhsNegative || rhsNegative) {
        return Throw("CheckedArithmeticMultiplicationSignedOverflow");
      }
    }
    if resultShouldBeNegative != clipped[n - 1] {
      return Throw("CheckedArithmeticMultiplicationSignedOverflow");
    }
    return Ok(clipped);
  }

  /** What the two sign tests of signed_mul can tell about the product. */
  lemma {:induction false} ProductSigns(lhs: BitVector, rhs: BitVector)
    requires lhs != [] && rhs != []
    ensures var n, p, raw := |lhs|, U(lhs) * U(rhs), Encode(|lhs|, U(lhs) * U(rhs));
            && (!Negative(lhs) && !Negative(rhs)
                ==> && p == S(lhs) * S(rhs)
                    && (Fits(n, p) <==> p < Pow2(n) && !Negative(raw)))
            && (Negative(lhs) && Negative(rhs) && p < Pow2(n) ==> Negative(raw))
            && (Fits(n, S(lhs) * S(rhs)) && S(lhs) * S(rhs) >= 0
                ==> !Negative(Encode(n, S(lhs) * S(rhs))))
  {
    hide Encode, U, Pow2, Fits;
    var n, p := |lhs|, U(lhs) * U(rhs);
    SignOfUnsigned(n, p);
    if Negative(lhs) && Negative(rhs) {
      NegativeMeansUpperHalf(lhs);
      NegativeMeansUpperHalf(rhs);
      MulAtLeast(U(lhs), U(rhs));
    }
    if Fits(n, S(lhs) * S(rhs)) {
      SEncode(n, S(lhs) * S(rhs));
    }
  }

  lemma {:induction false} SignOfUnsigned(n: nat, p: nat)
    requires n >= 1
    ensures Fits(n, p) <==> p < Pow2(n) && !Negative(Encode(n, p))
    ensures Pow2(n - 1) <= p < Pow2(n) ==> Negative(Encode(n, p))
  {
    hide Encode, U;
    if p < Pow2(n) {
      SignTellsOverflow(n, p);
    }
  }

  lemma {:induction false} NonNegativeProduct(lhs: BitVector, rhs: BitVector, lhsAbs: BitVector, rhsAbs: BitVector)
    requires lhs != [] && rhs != []
    requires Negative(lhs) && Negative(rhs)
    requires |lhsAbs| == |lhs| && S(lhsAbs) == Abs(S(lhs)) && |rhsAbs| == |rhs| && S(rhsAbs) == Abs(S(rhs))
    ensures !Negative(lhsAbs) && !Negative(rhsAbs)
    ensures U(lhsAbs) * U(rhsAbs) == S(lhs) * S(rhs) >= 0
  {
    hide Encode, U, Pow2;
    SBounds(lhsAbs);
    SBounds(rhsAbs);
    SBounds(lhs);
    SBounds(rhs);
    NegativeTimesNegative(S(lhs), S(rhs));
  }

  /** Clipping a product of magnitude `k` of differently signed factors leaves a negative
      number exactly when `k` modulo 2^n is between 1 and 2^(n-1). */
  predicate LooksNegative(n: nat, k: nat)
    requires n >= 1
  {
    1 <= k % Pow2(n) <= Pow2(n - 1)
  }

  lemma {:induction false} NegatedProductSign(n: nat, k: nat)
    requires n >= 1
    ensures Negative(Encode(n, 0 - k)) <==> LooksNegative(n, k)
  {
    hide Encode, U;
    var rest := k % Pow2(n);
    assert k == (k / Pow2(n)) * Pow2(n) + rest;
    EncodeCongruent(n, 0 - rest, 0 - k, k / Pow2(n));
    SignTellsOverflow(n, 0 - rest);
  }

  /** Where the clipped bits are those of the signed product: a narrower negative right operand is
      zero-extended, which is harmless only if as many low bits of the left operand are clear as it
      is short of. */
  predicate ReadsSigned(lhs: BitVector, rhs: BitVector) {
    |lhs| <= |rhs| || S(rhs) >= 0 || lhs[..|lhs| - |rhs|] == Zeros(|lhs| - |rhs|)
  }

  /** Where checked multiplication keeps its promise: for operands that are not negative; for two
      negative ones, unless a narrower right one spoils a product that is representable; and for
      operands of different sign if the product is not zero, and either small enough or clipped to
      something that does not look negative. */
  predicate MulConforms(lhs: BitVector, rhs: BitVector)
    requires lhs != [] && rhs != []
  {
    var p, half, wide, product := Pow2(|lhs|), Pow2(|lhs| - 1), Pow2(|rhs| - 1), S(lhs) * S(rhs);
    if S(lhs) >= 0 && S(rhs) >= 0 then
      true
    else if S(lhs) < 0 && S(rhs) < 0 then
      |lhs| <= |rhs| || product >= half || (ReadsSigned(lhs, rhs) && S(rhs) != 0 - wide)
    else if ReadsSigned(lhs, rhs) then
      product != 0 && (product >= 0 - half || !LooksNegative(|lhs|, Abs(product)))
    else
      product < 0 - half && (S(lhs) * U(rhs)) % p < half
  }

  /** At any widths: what is returned is the product of the bits modulo 2^n, and exactly when it, or
      the exception, is what is promised. */
  method CheckedMul(lhs: BitVector, rhs: BitVector) returns (r: Outcome<BitVector>)
    requires lhs != [] && rhs != []
    ensures r.Ok? ==> r.value == Encode(|lhs|, U(lhs) * U(rhs))
    ensures r.Throw? ==> r.tag == "CheckedArithmeticMultiplicationSignedOverflow"
    ensures ReadsSigned(lhs, rhs) && r.Ok? ==> r.value == Encode(|lhs|, S(lhs) * S(rhs))
    ensures Conforms(|lhs|, S(lhs) * S(rhs), r) <==> MulConforms(lhs, rhs)
    ensures S(lhs) < 0 && S(rhs) < 0
            ==> (r.Ok? <==> !IsMin(lhs) && !IsMin(rhs) && Fits(|lhs|, S(lhs) * S(rhs)) && ReadsSigned(lhs, rhs))
    ensures (S(lhs) < 0) != (S(rhs) < 0) ==> (r.Ok? <==> (U(lhs) * U(rhs)) % Pow2(|lhs|) >= Pow2(|lhs| - 1))
  {
    hide Encode, U, S, MulConforms, Conforms, MulReturns;
    r := SignedMul(lhs, rhs);
    ReturnsByValue(lhs, rhs);
    W.WrapMulIsSignedIff(lhs, rhs);
    SBounds(rhs);
    MulConformsIff(lhs, rhs, r);
  }

  lemma {:induction false} ReturnsByValue(lhs: BitVector, rhs: BitVector)
    requires lhs != [] && rhs != []
    ensures S(lhs) < 0 && S(rhs) < 0
            ==> (MulReturns(lhs, rhs)
                 <==> !IsMin(lhs) && !IsMin(rhs) && Fits(|lhs|, S(lhs) * S(rhs)) && ReadsSigned(lhs, rhs))
    ensures (S(lhs) < 0) != (S(rhs) < 0)
            ==> (MulReturns(lhs, rhs) <==> (U(lhs) * U(rhs)) % Pow2(|lhs|) >= Pow2(|lhs| - 1))
  {
    hide Encode, U, S, Pow2, ReadsSigned;
    SBounds(lhs);
    SBounds(rhs);
    SameBitsIff(lhs, rhs);
    NegativeMeansUpperHalf(Encode(|lhs|, U(lhs) * U(rhs)));
    UEncodeMod(|lhs|, U(lhs) * U(rhs));
  }

  lemma {:induction false} MulConformsIff(lhs: BitVector, rhs: BitVector, r: Outcome<BitVector>)
    requires lhs != [] && rhs != []
    requires r == if MulReturns(lhs, rhs) then Ok(Encode(|lhs|, U(lhs) * U(rhs)))
                  else Throw("CheckedArithmeticMultiplicationSignedOverflow")
    ensures Conforms(|lhs|, S(lhs) * S(rhs), r) <==> MulConforms(lhs, rhs)
  {
    hide Encode, U, S, Pow2, Conforms, MulReturns, LooksNegative, ReadsSigned;
    var n, product := |lhs|, S(lhs) * S(rhs);
    SBounds(lhs);
    SBounds(rhs);
    SameBitsIff(lhs, rhs);
    ClippedConformsIff(n, product, U(lhs) * U(rhs), r.Ok?, "CheckedArithmeticMultiplicationSignedOverflow");
    if S(lhs) >= 0 && S(rhs) >= 0 {
      NonNegativeReturns(lhs, rhs);
      assert ReadsSigned(lhs, rhs) by { NonNegativeReadsSigned(lhs, rhs); }
    } else if S(lhs) < 0 && S(rhs) < 0 {
      BothNegativeReturns(lhs, rhs);
    } else {
      NegativeProduct(S(lhs), S(rhs));
      MixedReturns(lhs, rhs);
    }
  }

  lemma {:induction false} SameBitsIff(lhs: BitVector, rhs: BitVector)
    requires lhs != [] && rhs != []
    ensures Encode(|lhs|, U(lhs) * U(rhs)) == Encode(|lhs|, S(lhs) * S(rhs)) <==> ReadsSigned(lhs, rhs)
  {
    hide Encode, U, S;
    W.WrapMulIsSignedIff(lhs, rhs);
    SBounds(rhs);
  }

  lemma {:induction false} NonNegativeReadsSigned(lhs: BitVector, rhs: BitVector)
    requires S(rhs) >= 0
    ensures ReadsSigned(lhs, rhs)
  {
  }

  /** The tests of the code against representability, for two negative operands. */
  lemma {:induction false} BothNegativeReturns(lhs: BitVector, rhs: BitVector)
    requires lhs != [] && rhs != [] && S(lhs) < 0 && S(rhs) < 0
    ensures var product := S(lhs) * S(rhs);
            && (Fits(|lhs|, product) <==> product < Pow2(|lhs| - 1))
            && (|lhs| <= |rhs| ==> ReadsSigned(lhs, rhs) && (MulReturns(lhs, rhs) <==> Fits(|lhs|, product)))
            && (MulReturns(lhs, rhs)
                <==> Fits(|lhs|, product) && ReadsSigned(lhs, rhs) && S(rhs) != 0 - Pow2(|rhs| - 1))
  {
    hide Encode, U, S, Pow2;
    SBounds(lhs);
    SBounds(rhs);
    SameBitsIff(lhs, rhs);
    NegativeTimesNegative(S(lhs), S(rhs));
    MulAtLeast(Abs(S(lhs)), Abs(S(rhs)));
    if |lhs| <= |rhs| && (IsMin(lhs) || IsMin(rhs)) {
      MinimumOverflows(lhs, rhs);
    }
  }

  /** The tests of the code against representability, for operands of different sign. */
  lemma {:induction false} MixedReturns(lhs: BitVector, rhs: BitVector)
    requires lhs != [] && rhs != [] && (S(lhs) < 0) != (S(rhs) < 0)
    ensures var k := Abs(S(lhs) * S(rhs));
            && S(lhs) * S(rhs) <= 0
            && (Fits(|lhs|, S(lhs) * S(rhs)) <==> k <= Pow2(|lhs| - 1))
            && (k <= Pow2(|lhs| - 1) ==> (LooksNegative(|lhs|, k) <==> k != 0))
            && (ReadsSigned(lhs, rhs) ==> (MulReturns(lhs, rhs) <==> LooksNegative(|lhs|, k)))
            && (!ReadsSigned(lhs, rhs)
                ==> (MulReturns(lhs, rhs) <==> (S(lhs) * U(rhs)) % Pow2(|lhs|) >= Pow2(|lhs| - 1)))
  {
    hide Encode, U, S, Pow2;
    var n, k := |lhs|, Abs(S(lhs) * S(rhs));
    SBounds(lhs);
    SBounds(rhs);
    SameBitsIff(lhs, rhs);
    NegativeProduct(S(lhs), S(rhs));
    NegatedProductSign(n, k);
    W.HalfOf(n);
    SmallRemainder(k, Pow2(n));
    var raw := Encode(n, U(lhs) * U(rhs));
    UEncodeMod(n, U(lhs) * U(rhs));
    NegativeMeansUpperHalf(raw);
    if !ReadsSigned(lhs, rhs) {
      W.UIsShiftedS(lhs);
    }
  }

  lemma {:induction false} NonNegativeReturns(lhs: BitVector, rhs: BitVector)
    requires lhs != [] && rhs != [] && S(lhs) >= 0 && S(rhs) >= 0
    ensures MulReturns(lhs, rhs) <==> Fits(|lhs|, S(lhs) * S(rhs))
  {
    hide Encode, U, Pow2, Fits;
    SBounds(lhs);
    SBounds(rhs);
  }

  lemma {:induction false} NegativeTimesNegative(x: int, y: int)
    requires x < 0 && y < 0
    ensures x * y == Abs(x) * Abs(y)
  {
  }

  lemma {:induction false} NegativeProduct(x: int, y: int)
    requires (x < 0) != (y < 0)
    ensures x * y <= 0
  {
  }

  lemma {:induction false} SmallRemainder(k: nat, p: nat)
    requires p > 0
    ensures k < p ==> k % p == k
  {
    if k < p {
      W.QuotientUnique(k, p, 0, k);
    }
  }

  lemma {:induction false} MinimumOverflows(lhs: BitVector, rhs: BitVector)
    requires lhs != [] && |lhs| <= |rhs| && Negative(lhs) && Negative(rhs)
    requires IsMin(lhs) || IsMin(rhs)
    ensures !Fits(|lhs|, S(lhs) * S(rhs))
  {
    hide U, Pow2;
    SBounds(lhs);
    SBounds(rhs);
    var x, y := -S(lhs), -S(rhs);
    assert x * y == S(lhs) * S(rhs);
    MulAtLeast(x, y);
    MulAtLeast(y, x);
    Pow2Monotone(|lhs| - 1, |rhs| - 1);
  }

  // ---------------------------------------------------------------- division

  lemma {:induction false} QuotientFits(x: int, y: int, n: nat)
    requires y != 0 && n >= 1 && Abs(x) < Pow2(n - 1)
    ensures Fits(n, W.Trunc(x, y)) && Abs(x) / Abs(y) < Pow2(n - 1)
  {
    hide Pow2;
    if Abs(y) <= Abs(x) {
      W.QuotientPositive(Abs(x), Abs(y));
    } else {
      W.SmallQuotient(Abs(x), Abs(y));
    }
  }

  /** Checked division, at all widths.  It conforms except where one operand is its minimum
      and the quotient would still be representable, and for equal one-bit operands. */
  method SignedDiv(dividend: BitVector, rhs: BitVector) returns (r: Outcome<BitVector>)
    requires dividend != []
    ensures U(rhs) == 0 <==> S(rhs) == 0
    ensures S(rhs) == 0 <==> r == Throw("division by zero")
    ensures S(rhs) != 0
            ==> (r == Throw("CheckedArithmeticDivisionSignedOverflow")
                 <==> S(dividend) != S(rhs) && (IsMin(dividend) || IsMin(rhs)))
    ensures S(rhs) != 0 && r.Ok?
            ==> r.value == Encode(|dividend|, W.Trunc(S(dividend), S(rhs)))
    ensures S(rhs) != 0
            ==> (Conforms(|dividend|, W.Trunc(S(dividend), S(rhs)), r)
                 <==> || (S(dividend) == S(rhs) && |dividend| >= 2)
                      || (S(dividend) != S(rhs) && !IsMin(dividend) && !IsMin(rhs))
                      || (S(dividend) != S(rhs) && IsMin(dividend) && S(rhs) == -1))
  {
    hide Encode, U, Expanded;
    W.UZeroMeansSZero(rhs);
    var nonZero := BinaryToBool(rhs);
    if !nonZero {
      return Throw("division by zero");
    }
    ghost var exact := W.Trunc(S(dividend), S(rhs));
    DivisionRange(dividend, rhs);
    var same := BinaryEq(rhs, dividend);
    if same {
      var _, one := W.BinaryIncrement(Zeros(|dividend|));
      UZeros(|dividend|);
      if |dividend| >= 2 {
        SEncode(|dividend|, 1);
      }
      return Ok(one);
    }
    var negativeDivisor := BinaryIsNegative(rhs);
    var negativeDividend := BinaryIsNegative(dividend);
    var divisor := Absolute(rhs);
    var remainder := Absolute(dividend);
    if divisor.Throw? || remainder.Throw? {
      return Throw("CheckedArithmeticDivisionSignedOverflow");
    }
    var quotient := DivideMagnitudes(remainder.value, divisor.value);
    if negativeDivisor != negativeDividend {
      var negated := TakeTwosComplement(quotient);
      EncodeOfS(negated.value);
      return Ok(negated.value);
    }
    EncodeOfS(quotient);
    return Ok(quotient);
  }

  method DivideMagnitudes(remainder: BitVector, divisor: BitVector) returns (quotient: BitVector)
    requires remainder != [] && divisor != []
    requires S(remainder) >= 0 && S(divisor) > 0
    ensures |quotient| == |remainder|
    ensures S(quotient) == S(remainder) / S(divisor)
  {
    hide Encode, U, Expanded;
    SBounds(remainder);
    SBounds(divisor);
    UExpanded(divisor, |remainder|);
    quotient := W.RepeatedSubtraction(remainder, divisor);
    QuotientFits(S(remainder), S(divisor), |remainder|);
    SEncode(|remainder|, S(remainder) / S(divisor));
  }

  /** When the true quotient is representable. */
  lemma {:induction false} DivisionRange(dividend: BitVector, rhs: BitVector)
    requires dividend != [] && rhs != [] && S(rhs) != 0
    ensures S(dividend) == S(rhs) ==> W.Trunc(S(dividend), S(rhs)) == 1
    ensures Fits(|dividend|, 1) <==> |dividend| >= 2
    ensures S(dividend) != S(rhs)
            ==> (Fits(|dividend|, W.Trunc(S(dividend), S(rhs))) <==> !(IsMin(dividend) && S(rhs) == -1))
  {
    hide U;
    SBounds(dividend);
    var x, y, n := S(dividend), S(rhs), |dividend|;
    if |dividend| >= 2 {
      Pow2Monotone(1, n - 1);
    }
    if x == y {
      W.QuotientUnique(Abs(x), Abs(y), 1, 0);
    } else if !IsMin(dividend) {
      QuotientFits(x, y, n);
    } else if y == -1 {
      W.QuotientUnique(Abs(x), 1, Abs(x), 0);
    } else if y > 0 || Abs(y) > Abs(x) {
      TruncBound(x, y);
    } else {
      HalvedQuotient(Abs(x), Abs(y));
    }
  }

  lemma {:induction false} TruncBound(x: int, y: int)
    requires x < 0 && y != 0 && (y > 0 || Abs(y) > Abs(x))
    ensures x <= W.Trunc(x, y) <= 0
  {
    if Abs(y) <= Abs(x) {
      W.QuotientPositive(Abs(x), Abs(y));
    } else {
      W.SmallQuotient(Abs(x), Abs(y));
    }
  }

  lemma {:induction false} HalvedQuotient(x: nat, y: nat)
    requires 2 <= y <= x
    ensures x / y < x
  {
    W.QuotientRemainder(x, y);
    W.MulMonotone(x / y, 2, y);
  }
}
