/** viua::arithmetic::wrapping: carry loops, shift-and-add multiplication and
    repeated-subtraction division, refined to integer arithmetic modulo 2^n. */
module Wrapping {
  import opened BitVectors
  import opened BitHelpers
  import opened Wrappers

  // ---------------------------------------------------------------- addition

  predicate BitAt(v: BitVector, i: nat) {
    i < |v| && v[i]
  }

  /** The value of the `i` low bits of `v`; bits past its end count as zero. */
  function Low(v: BitVector, i: nat): (u: nat) {
    U(v[..if i < |v| then i else |v|])
  }

  lemma {:induction false} LowStep(v: BitVector, i: nat)
    ensures Low(v, i + 1) == Low(v, i) + if BitAt(v, i) then Pow2(i) else 0
  {
    if i < |v| {
      UPrefix(v, i);
    }
  }

  lemma {:induction false} LowAll(v: BitVector, i: nat)
    requires |v| <= i
    ensures Low(v, i) == U(v)
  {
    assert v[..|v|] == v;
  }

  lemma {:induction false} UUpdatedPrefix(v: BitVector, i: nat, b: bool)
    requires i < |v|
    ensures U(v[i := b][..i + 1]) == U(v[..i]) + if b then Pow2(i) else 0
  {
    UPrefix(v[i := b], i);
    assert v[i := b][..i] == v[..i];
  }

  /** The ripple-carry loop shared by the wrapping, checked and saturating additions. */
  method RippleCarry(lhs: BitVector, rhs: BitVector) returns (result: BitVector, carry: bool)
    ensures |result| == Max(|lhs|, |rhs|)
    ensures U(result) + (if carry then Pow2(|result|) else 0) == U(lhs) + U(rhs)
    ensures result == Encode(|result|, U(lhs) + U(rhs))
  {
    assert U([]) == 0;
    LowAll([], 0);
    hide Encode, U, Low;
    var size := Max(|lhs|, |rhs|);
    result := Zeros(size);
    carry := false;
    for i := 0 to size
      invariant |result| == size
      invariant forall k :: i <= k < size ==> !result[k]
      invariant U(result[..i]) + (if carry then Pow2(i) else 0) == Low(lhs, i) + Low(rhs, i)
    {
      var fromLhs := if i < |lhs| then lhs[i] else false;
      var fromRhs := if i < |rhs| then rhs[i] else false;
      LowStep(lhs, i);
      LowStep(rhs, i);
      UUpdatedPrefix(result, i, result[i]);
      UUpdatedPrefix(result, i, true);
      assert result[i := result[i]] == result;
      if !fromRhs && !fromLhs {
        result := result[i := carry];
        carry := false;
        continue;
      }
      if fromRhs && fromLhs {
        result := result[i := carry];
        carry := true;
        continue;
      }
      if carry {
        continue;
      }
      result := result[i := true];
    }
    LowAll(lhs, size);
    LowAll(rhs, size);
    assert result[..size] == result;
    EncodeOfU(result);
    EncodeCongruent(size, U(lhs) + U(rhs), U(result), if carry then 1 else 0);
  }

  /** Basic addition is expanding: it is exact at any widths, one bit longer on a carry. */
  method BinaryAddition(lhs: BitVector, rhs: BitVector) returns (r: BitVector)
    ensures U(r) == U(lhs) + U(rhs)
    ensures |r| == Max(|lhs|, |rhs|)
                   + if U(lhs) + U(rhs) >= Pow2(Max(|lhs|, |rhs|)) then 1 else 0
  {
    var result, carry := RippleCarry(lhs, rhs);
    UBound(result);
    r := result;
    if carry {
      UAppend(r, [true]);
      assert U([true]) == 1 by {
        assert [true][1..] == [];
      }
      r := r + [true];
    }
  }

  method WrapAdd(lhs: BitVector, rhs: BitVector) returns (r: BitVector)
    ensures r == Encode(|lhs|, U(lhs) + U(rhs))
  {
    var sum := BinaryAddition(lhs, rhs);
    r := BinaryClip(sum, |lhs|);
  }

  // ---------------------------------------------------------------- increment, decrement, negation

  lemma {:induction false} HalfOf(n: nat)
    requires n >= 1
    ensures Pow2(n) == 2 * Pow2(n - 1) && Pow2(n - 1) >= 1
  {
  }

  /** Vectors with a common high part differ as their low parts do. */
  lemma {:induction false} SameSuffix(v: BitVector, w: BitVector, i: nat)
    requires |v| == |w| && i <= |v| && v[i..] == w[i..]
    ensures U(v) - U(w) == U(v[..i]) - U(w[..i])
  {
    assert v == v[..i] + v[i..] && w == w[..i] + v[i..];
    UAppend(v[..i], v[i..]);
    UAppend(w[..i], v[i..]);
  }

  method BinaryIncrement(v: BitVector) returns (carry: bool, incremented: BitVector)
    ensures incremented == Encode(|v|, U(v) + 1)
    ensures carry <==> U(v) + 1 == Pow2(|v|)
  {
    assert U(v[..0]) == 0;
    hide Encode, U;
    carry := true;
    incremented := v;
    var i := 0;
    while carry && i < |v|
      invariant 0 <= i <= |v| == |incremented|
      invariant incremented[i..] == v[i..]
      invariant U(incremented[..i]) + (if carry then Pow2(i) else 0) == U(v[..i]) + 1
    {
      UPrefix(v, i);
      UUpdatedPrefix(incremented, i, !v[i]);
      if v[i] {
        incremented := incremented[i := false];
      } else {
        incremented := incremented[i := true];
        carry := false;
      }
      assert incremented[i + 1..] == v[i..][1..] == v[i + 1..];
      i := i + 1;
    }
    SameSuffix(incremented, v, i);
    UBound(incremented);
    UBound(v);
    assert carry ==> incremented[..i] == incremented;
    EncodeOfU(incremented);
    EncodeCongruent(|v|, U(v) + 1, U(incremented), if carry then 1 else 0);
  }

  method BinaryDecrement(v: BitVector) returns (borrow: bool, decremented: BitVector)
    ensures decremented == Encode(|v|, U(v) - 1)
    ensures borrow <==> v != [] && U(v) == 0
  {
    assert U(v[..0]) == 0 && Pow2(0) == 1;
    hide Encode, U, Pow2;
    borrow := false;
    decremented := v;
    var i := 0;
    while i < |v|
      invariant 0 <= i <= |v| == |decremented|
      invariant decremented[i..] == v[i..]
      invariant U(v[..i]) == 0 && U(decremented[..i]) + 1 == Pow2(i)
      invariant borrow <==> i > 0
    {
      UPrefix(v, i);
      UUpdatedPrefix(decremented, i, !v[i]);
      NextSuffix(decremented, v, i, !v[i]);
      HalfOf(i + 1);
      if v[i] {
        decremented := decremented[i := false];
        borrow := false;
        Borrowed(decremented, v, i + 1);
        return;
      } else {
        decremented := decremented[i := true];
        borrow := true;
      }
      i := i + 1;
    }
    assert v[..i] == v && decremented[..i] == decremented;
    EncodeOfU(decremented);
    EncodeCongruent(|v|, U(decremented), U(v) - 1, 1);
  }

  lemma {:induction false} NextSuffix(w: BitVector, v: BitVector, i: nat, b: bool)
    requires i < |w| == |v| && w[i..] == v[i..]
    ensures w[i := b][i + 1..] == v[i + 1..]
  {
    assert w[i..][1..] == w[i + 1..] && v[i..][1..] == v[i + 1..];
  }

  /** The first bit that is set lends to all below it. */
  lemma {:induction false} Borrowed(w: BitVector, v: BitVector, i: nat)
    requires i <= |w| == |v| && w[i..] == v[i..] && U(w[..i]) + 1 == U(v[..i])
    ensures w == Encode(|v|, U(v) - 1) && U(v) != 0
  {
    hide Encode, U, Pow2;
    SameSuffix(w, v, i);
    EncodeOfU(w);
  }

  method TakeTwosComplement(v: BitVector) returns (r: BitVector)
    ensures r == Encode(|v|, -S(v))
  {
    var inverted := BinaryInversion(v);
    var _, negated := BinaryIncrement(inverted);
    r := negated;
    EncodeCongruent(|v|, U(inverted) + 1, -S(v), if Negative(v) then 0 else 1);
  }

  // ---------------------------------------------------------------- comparison

  /** The most significant difference decides the unsigned order. */
  lemma {:induction false} MostSignificantDifference(l: BitVector, r: BitVector, i: nat)
    requires |l| == |r| && i < |l| && l[i + 1..] == r[i + 1..] && !l[i] && r[i]
    ensures U(l) < U(r)
  {
    SameSuffix(l, r, i + 1);
    UPrefix(l, i);
    UPrefix(r, i);
    UBound(l[..i]);
  }

  /** Operands are sign-extended to a common width, then compared as unsigned numbers. */
  method BinaryLte(lhs: BitVector, rhs: BitVector) returns (r: bool)
    ensures r <==> U(Expanded(lhs, |rhs|)) <= U(Expanded(rhs, |lhs|))
  {
    var l := BinaryExpand(lhs, Max(|lhs|, |rhs|));
    var r' := BinaryExpand(rhs, Max(|l|, |rhs|));
    assert l == Expanded(lhs, |rhs|) && r' == Expanded(rhs, |lhs|);
    var i := |l|;
    while i > 0
      invariant 0 <= i <= |l|
      invariant l[i..] == r'[i..]
    {
      if !l[i - 1] && r'[i - 1] {
        MostSignificantDifference(l, r', i - 1);
        return true;
      } else if l[i - 1] && !r'[i - 1] {
        MostSignificantDifference(r', l, i - 1);
        return false;
      }
      assert l[i - 1..] == [l[i - 1]] + l[i..] && r'[i - 1..] == [r'[i - 1]] + r'[i..];
      i := i - 1;
    }
    assert l[0..] == l && r'[0..] == r';
    return true;
  }

  // ---------------------------------------------------------------- subtraction

  /** Subtraction sign-extends both operands: the signed difference modulo 2^|lhs|. */
  method BinarySubtraction(lhs: BitVector, rhs: BitVector) returns (r: BitVector)
    ensures r == Encode(|lhs|, S(lhs) - S(rhs))
  {
    var m := Max(|lhs|, |rhs|);
    var l := BinaryExpand(lhs, m);
    var r' := BinaryExpand(rhs, m);
    var negated := TakeTwosComplement(r');
    var sum := BinaryAddition(l, negated);
    r := BinaryClip(sum, |lhs|);
    DifferenceModulo(l, r', |lhs|);
  }

  lemma {:induction false} DifferenceModulo(l: BitVector, r: BitVector, a: nat)
    requires |l| == |r| && a <= |l|
    ensures Encode(a, U(l) + U(Encode(|r|, -S(r)))) == Encode(a, S(l) - S(r))
  {
    hide U, Encode, Pow2;
    var m := |l|;
    EncodeAdd(m, -S(r), U(l));
    EncodeCongruent(m, U(l) - S(r), S(l) - S(r), if Negative(l) then 1 else 0);
    EncodeNarrow(a, m, U(l) + U(Encode(m, -S(r))));
    EncodeNarrow(a, m, S(l) - S(r));
  }

  method WrapSub(lhs: BitVector, rhs: BitVector) returns (r: BitVector)
    ensures r == Encode(|lhs|, S(lhs) - S(rhs))
  {
    var difference := BinarySubtraction(lhs, rhs);
    r := BinaryClip(difference, |lhs|);
    EncodeOfU(difference);
  }

  // ---------------------------------------------------------------- multiplication

  function Total(vs: seq<BitVector>): (t: nat) {
    if vs == [] then 0 else Total(vs[..|vs| - 1]) + U(vs[|vs| - 1])
  }

  lemma {:induction false} TotalPrefix(vs: seq<BitVector>, j: nat)
    requires j <= |vs|
    ensures Total(vs[..j]) <= Total(vs)
  {
    if j < |vs| {
      TotalPrefix(vs[..|vs| - 1], j);
      assert vs[..|vs| - 1][..j] == vs[..j];
    } else {
      assert vs[..j] == vs;
    }
  }

  lemma {:induction false} TotalAppend(vs: seq<BitVector>, v: BitVector)
    ensures Total(vs + [v]) == Total(vs) + U(v)
  {
    assert (vs + [v])[..|vs|] == vs;
  }

  lemma {:induction false} UShifted(v: BitVector, i: nat)
    ensures U(Zeros(i) + v) == U(v) * Pow2(i)
  {
    hide U, Pow2;
    UAppend(Zeros(i), v);
    UZeros(i);
  }

  lemma {:induction false} ProductStep(l: nat, v: BitVector, i: nat)
    requires i < |v|
    ensures l * U(v[..i + 1]) == l * U(v[..i]) + if v[i] then l * Pow2(i) else 0
  {
    hide U, Pow2;
    UPrefix(v, i);
    if v[i] {
      var a, b := U(v[..i]), Pow2(i);
      assert l * (a + b) == l * a + l * b;
    }
  }

  lemma {:induction false} ProductBound(l: BitVector, r: BitVector)
    ensures U(l) * U(r) < Pow2(|l| + |r|)
  {
    hide U, Pow2;
    UBound(l);
    UBound(r);
    Pow2Add(|l|, |r|);
    MulBound(U(l), U(r), Pow2(|l|), Pow2(|r|));
  }

  lemma {:induction false} MulBound(a: nat, b: nat, p: nat, q: nat)
    requires a < p && b < q
    ensures a * b < p * q
  {
    assert a * b <= a * q;
    assert a * q < p * q;
  }

  /** One shifted copy of the left operand for each bit set in the right one. */
  method Intermediates(lhs: BitVector, rhs: BitVector) returns (intermediates: seq<BitVector>)
    ensures |intermediates| >= 1 && |intermediates[0]| == |lhs| + |rhs|
    ensures forall k :: 0 <= k < |intermediates| ==> |intermediates[k]| <= |lhs| + |rhs|
    ensures Total(intermediates) == U(lhs) * U(rhs)
  {
    var width := |lhs| + |rhs|;
    intermediates := [Zeros(width)];
    UZeros(width);
    TotalAppend([], Zeros(width));
    for i := 0 to |rhs|
      invariant |intermediates| >= 1 && |intermediates[0]| == width
      invariant forall k :: 0 <= k < |intermediates| ==> |intermediates[k]| <= width
      invariant Total(intermediates) == U(lhs) * U(rhs[..i])
    {
      ProductStep(U(lhs), rhs, i);
      if !rhs[i] {
        continue;
      }
      var interm := Zeros(i) + lhs;
      UShifted(lhs, i);
      TotalAppend(intermediates, interm);
      intermediates := intermediates + [interm];
    }
    assert rhs[..|rhs|] == rhs;
  }

  /** Shift-and-add multiplication, accumulated from `start`.  No partial sum ever
      carries out, so the width is exactly the sum of the operands' widths. */
  method ShiftAndAdd(lhs: BitVector, rhs: BitVector, start: BitVector) returns (r: BitVector)
    requires U(start) == 0 && |start| <= |lhs| + |rhs|
    ensures |r| == |lhs| + |rhs|
    ensures U(r) == U(lhs) * U(rhs)
  {
    hide U, Pow2;
    var width := |lhs| + |rhs|;
    var intermediates := Intermediates(lhs, rhs);
    ProductBound(lhs, rhs);
    r := start;
    for j := 0 to |intermediates|
      invariant U(r) == Total(intermediates[..j])
      invariant |r| <= width && (j > 0 ==> |r| == width)
    {
      TotalPrefix(intermediates, j + 1);
      assert intermediates[..j + 1] == intermediates[..j] + [intermediates[j]];
      TotalAppend(intermediates[..j], intermediates[j]);
      assert Max(|r|, |intermediates[j]|) == width;
      r := BinaryAddition(r, intermediates[j]);
    }
    assert intermediates[..|intermediates|] == intermediates;
  }

  method BinaryMultiplication(lhs: BitVector, rhs: BitVector) returns (r: BitVector)
    ensures |r| == |lhs| + |rhs|
    ensures U(r) == U(lhs) * U(rhs)
  {
    r := ShiftAndAdd(lhs, rhs, []);
  }

  method WrapMul(lhs: BitVector, rhs: BitVector) returns (r: BitVector)
    ensures r == Encode(|lhs|, U(lhs) * U(rhs))
  {
    var product := BinaryMultiplication(lhs, rhs);
    r := BinaryClip(product, |lhs|);
  }

  // ---------------------------------------------------------------- division

  /** Division truncated towards zero. */
  function Trunc(x: int, y: int): (q: int)
    requires y != 0
  {
    if (x < 0) != (y < 0) then -(Abs(x) / Abs(y)) else Abs(x) / Abs(y)
  }

  lemma {:induction false} QuotientRemainder(x: nat, y: nat)
    requires y > 0
    ensures x == (x / y) * y + x % y && 0 <= x % y < y
  {
  }

  lemma {:induction false} FloorRemainder(x: int, y: nat)
    requires y > 0
    ensures x == (x / y) * y + x % y && 0 <= x % y < y
  {
  }

  lemma {:induction false} MulMonotone(a: nat, b: nat, c: nat)
    requires b <= c
    ensures a * b <= a * c
  {
  }

  lemma {:induction false} QuotientUnique(x: nat, y: nat, q: nat, r: nat)
    requires x == q * y + r && r < y
    ensures x / y == q
  {
    var k := x / y - q;
    assert x == (x / y) * y + x % y;
    assert k * y == r - x % y;
    SmallMultiple(k, y);
  }

  lemma {:induction false} QuotientStep(q: nat, d: nat, r: nat)
    requires d <= r
    ensures q * d + r == (q + 1) * d + (r - d)
  {
  }

  /** What is left of a divisor in `n` bits. */
  function Residue(divisor: BitVector, n: nat): (e: nat)
    ensures e < Pow2(n)
  {
    U(divisor) % Pow2(n)
  }

  /** A remainder that has kept its sign bit, and is sign-extended by every comparison. */
  predicate Extends(remainder: BitVector, divisor: BitVector) {
    |remainder| < |divisor| && Negative(remainder)
  }

  /** Between two rounds of an ordinary division, `q` of them done. */
  ghost predicate Dividing(dividend: BitVector, divisor: BitVector, remainder: BitVector, q: nat) {
    && |remainder| == |dividend| && !Extends(remainder, divisor)
    && U(dividend) == q * U(Expanded(divisor, |dividend|)) + U(remainder)
    && q <= U(dividend) - U(remainder)
  }

  /** How many rounds a minimum dividend takes to lose its sign bit to a divisor of residue `e`: down at
      once, or up by 2^n - e each time until it wraps around. */
  function RoundsAround(half: nat, e: nat): (q: nat)
    requires e < 2 * half
  {
    if e <= half then 1 else (half + (2 * half - e) - 1) / (2 * half - e)
  }

  /** Between two rounds that started from the minimum of a width below the divisor's: the remainder
      steps around, modulo 2^n, until it loses the sign bit. */
  ghost predicate SteppingAround(n: nat, divisor: BitVector, remainder: BitVector, q: nat) {
    && 1 <= n == |remainder| < |divisor|
    && var p, half, d, e := Pow2(n), Pow2(n - 1), U(divisor), Residue(divisor, n);
       q <= half
       && if Negative(remainder) then
            if e > half then U(remainder) == half + q * (p - e) else q == 0 && U(remainder) == half
          else
            q >= 1 && if d <= half then U(remainder) == half - q * d else e < 2 * half && q == RoundsAround(half, e)
  }

  /** Goes down with every round of the loop. */
  function RoundsLeft(remainder: BitVector, divisor: BitVector): (t: nat) {
    if Extends(remainder, divisor) then
      UBound(remainder);
      2 * Pow2(|remainder|) - U(remainder)
    else U(remainder)
  }

  /** What may enter the loop: any dividend without a sign bit to extend; or the minimum, unless the
      divisor is a multiple of 2^n, see DivergingLoop. */
  predicate LoopEnds(dividend: BitVector, divisor: BitVector) {
    Extends(dividend, divisor)
    ==> U(dividend) == Pow2(|dividend| - 1) && U(divisor) <= Pow2(|divisor| - 1) && Residue(divisor, |dividend|) != 0
  }

  /** The repeated-subtraction loop shared by all three divisions.  It counts how often the divisor
      goes into the dividend, except for a minimum dividend that is smaller than a wider divisor: then
      it counts how often the divisor can be subtracted modulo 2^n before the sign bit is gone. */
  method RepeatedSubtraction(dividend: BitVector, divisor: BitVector) returns (quotient: BitVector)
    requires LoopEnds(dividend, divisor)
    requires U(divisor) != 0
    ensures |quotient| == |dividend| && U(Expanded(divisor, |dividend|)) > 0
    ensures !Extends(dividend, divisor) || U(divisor) <= Pow2(|dividend| - 1)
            ==> quotient == Encode(|dividend|, U(dividend) / U(Expanded(divisor, |dividend|)))
    ensures Extends(dividend, divisor) && U(divisor) > Pow2(|dividend| - 1)
            ==> && Residue(divisor, |dividend|) < 2 * Pow2(|dividend| - 1)
                && quotient == Encode(|dividend|, RoundsAround(Pow2(|dividend| - 1), Residue(divisor, |dividend|)))
                && 1 <= U(quotient) <= Pow2(|dividend| - 1)
  {
    hide Encode, U, Pow2, S, Expanded, Dividing, SteppingAround, RoundsLeft, Extends, Residue, RoundsAround;
    quotient := Zeros(|dividend|);
    UZeros(|dividend|);
    var remainder := dividend;
    ghost var n, around, q := |dividend|, Extends(dividend, divisor), 0;
    LoopStarts(dividend, divisor);
    var more := BinaryLte(divisor, remainder);
    while more
      invariant |remainder| == |quotient| == n && U(quotient) == q
      invariant if around then SteppingAround(n, divisor, remainder, q) else Dividing(dividend, divisor, remainder, q)
      invariant more <==> U(Expanded(divisor, n)) <= U(Expanded(remainder, |divisor|))
      decreases RoundsLeft(remainder, divisor)
    {
      if around {
        RoundAround(n, divisor, remainder, q);
      } else {
        Round(dividend, divisor, remainder, q);
      }
      remainder := BinarySubtraction(remainder, divisor);
      var _, incremented := BinaryIncrement(quotient);
      quotient := incremented;
      q := q + 1;
      UEncodeSmall(n, q);
      more := BinaryLte(divisor, remainder);
    }
    if around {
      LoopEndsAround(n, divisor, remainder, q);
    } else {
      LoopEndsOrdinarily(dividend, divisor, remainder, q);
    }
    EncodeOfU(quotient);
  }

  lemma {:induction false} LoopStarts(dividend: BitVector, divisor: BitVector)
    requires LoopEnds(dividend, divisor) && U(divisor) != 0
    ensures U(Expanded(divisor, |dividend|)) > 0
    ensures if Extends(dividend, divisor)
            then SteppingAround(|dividend|, divisor, dividend, 0)
                 && U(dividend) == Pow2(|dividend| - 1) && Expanded(divisor, |dividend|) == divisor
            else Dividing(dividend, divisor, dividend, 0)
  {
    hide U, Pow2;
    ExpandedNonZero(divisor, |dividend|);
  }

  lemma {:induction false} Round(dividend: BitVector, divisor: BitVector, remainder: BitVector, q: nat)
    requires Dividing(dividend, divisor, remainder, q)
    requires U(Expanded(divisor, |dividend|)) > 0
    requires U(Expanded(divisor, |dividend|)) <= U(Expanded(remainder, |divisor|))
    ensures var next := Encode(|dividend|, S(remainder) - S(divisor));
            && Dividing(dividend, divisor, next, q + 1) && q + 1 < Pow2(|dividend|)
            && RoundsLeft(next, divisor) < RoundsLeft(remainder, divisor)
  {
    hide Encode, U, Pow2, S, Expanded;
    UExpanded(remainder, |divisor|);
    UBound(dividend);
    SubtractionStep(remainder, divisor);
    QuotientStep(q, U(Expanded(divisor, |dividend|)), U(remainder));
  }

  lemma {:induction false} LoopEndsOrdinarily(dividend: BitVector, divisor: BitVector, remainder: BitVector, q: nat)
    requires Dividing(dividend, divisor, remainder, q)
    requires U(Expanded(divisor, |dividend|)) > U(Expanded(remainder, |divisor|))
    ensures q == U(dividend) / U(Expanded(divisor, |dividend|))
  {
    hide Encode, U, Pow2, S, Expanded;
    UExpanded(remainder, |divisor|);
    QuotientUnique(U(dividend), U(Expanded(divisor, |dividend|)), q, U(remainder));
  }

  /** Subtracting the divisor only counts modulo 2^n. */
  lemma {:induction false} NarrowDifference(n: nat, remainder: BitVector, divisor: BitVector)
    requires n == |remainder| < |divisor|
    ensures Encode(n, S(remainder) - S(divisor)) == Encode(n, U(remainder) - Residue(divisor, n))
    ensures U(divisor) < Pow2(n) ==> Residue(divisor, n) == U(divisor)
    ensures Residue(divisor, n) <= U(divisor) && Residue(divisor, n) < Pow2(n)
  {
    hide Encode, U, Pow2, S;
    EncodeUOrS(n, remainder);
    EncodeUOrS(n, divisor);
    var p, d := Pow2(n), U(divisor);
    QuotientRemainder(d, p);
    EncodeCongruent(n, d, d % p, d / p);
    EncodeDifference(n, U(remainder), S(remainder), d % p, S(divisor));
    if d < p {
      QuotientUnique(d, p, 0, d);
    }
  }

  /** A remainder that is sign-extended is larger than any magnitude the divisor can have. */
  lemma {:induction false} ExtendedIsHuge(remainder: BitVector, divisor: BitVector)
    requires Extends(remainder, divisor) && U(divisor) <= Pow2(|divisor| - 1)
    ensures U(Expanded(divisor, |remainder|)) <= U(Expanded(remainder, |divisor|))
  {
    hide Encode, U, Pow2;
    NarrowMinimumIsHuge(remainder, |divisor|);
    assert Expanded(divisor, |remainder|) == divisor;
  }

  /** The remainder after one more round. */
  lemma {:induction false} NextAround(n: nat, divisor: BitVector, remainder: BitVector) returns (next: BitVector)
    requires 1 <= n == |remainder| < |divisor|
    ensures next == Encode(n, S(remainder) - S(divisor)) && |next| == n
    ensures var p, half, e, u := Pow2(n), Pow2(n - 1), Residue(divisor, n), U(remainder);
            && p == 2 * half && half >= 1 && u < p
            && U(next) == (if u >= e then u - e else u - e + p)
            && (Negative(next) <==> U(next) >= half) && (Negative(remainder) <==> u >= half)
  {
    hide Encode, U, Pow2, S, Residue;
    NarrowDifference(n, remainder, divisor);
    var p: int, e: int, u: int := Pow2(n), Residue(divisor, n), U(remainder);
    next := Encode(n, u - e);
    HalfOf(n);
    UBound(remainder);
    NegativeMeansUpperHalf(remainder);
    NegativeMeansUpperHalf(next);
    EncodeCongruent(n, u - e, u - e + p, -1);
    var x := if u >= e then u - e else u - e + p;
    assert 0 <= x < p;
    UEncodeSmall(n, x);
  }

  lemma {:induction false} RoundAround(n: nat, divisor: BitVector, remainder: BitVector, q: nat)
    requires SteppingAround(n, divisor, remainder, q) && Residue(divisor, n) != 0
    requires U(Expanded(divisor, n)) <= U(Expanded(remainder, |divisor|))
    ensures var next := Encode(n, S(remainder) - S(divisor));
            && SteppingAround(n, divisor, next, q + 1) && q + 1 < Pow2(n)
            && RoundsLeft(next, divisor) < RoundsLeft(remainder, divisor)
  {
    hide Encode, U, Pow2, S, Expanded, Residue;
    var next := NextAround(n, divisor, remainder);
    NarrowDifference(n, remainder, divisor);
    if Negative(remainder) {
      Multiples(Pow2(n) - Residue(divisor, n), q);
      RoundFromSign(n, divisor, remainder, next, q);
    } else {
      UExpanded(remainder, |divisor|);
      ExpandedToNarrow(divisor, n);
      Multiples(U(divisor), q);
    }
  }

  /** The rounds before the sign bit is lost. */
  lemma {:induction false} RoundFromSign(n: nat, divisor: BitVector, remainder: BitVector, next: BitVector, q: nat)
    requires SteppingAround(n, divisor, remainder, q) && Residue(divisor, n) != 0 && Negative(remainder) && |next| == n
    requires var p, half, e, u := Pow2(n), Pow2(n - 1), Residue(divisor, n), U(remainder);
             && p == 2 * half && half >= 1 && u < p
             && U(next) == (if u >= e then u - e else u - e + p)
             && (Negative(next) <==> U(next) >= half) && u >= half
             && (q + 1) * (p - e) == q * (p - e) + (p - e) && q * (p - e) >= q
    requires U(divisor) < Pow2(n) ==> Residue(divisor, n) == U(divisor)
    requires Residue(divisor, n) <= U(divisor)
    ensures SteppingAround(n, divisor, next, q + 1) && q + 1 < Pow2(n)
    ensures RoundsLeft(next, divisor) < RoundsLeft(remainder, divisor)
  {
    hide U, Pow2, Residue, RoundsAround;
    var half, e := Pow2(n - 1), Residue(divisor, n);
    if e <= half || (q + 1) * (2 * half - e) >= half {
      LastRound(half, e, q);
    }
  }

  lemma {:induction false} LastRound(half: nat, e: nat, q: nat)
    requires e < 2 * half
    requires if e <= half then q == 0 else q * (2 * half - e) < half <= (q + 1) * (2 * half - e)
    ensures RoundsAround(half, e) == q + 1
  {
    if e > half {
      var f := 2 * half - e;
      Multiples(f, q);
      QuotientUnique(half + f - 1, f, q + 1, half + f - 1 - (q + 1) * f);
    }
  }

  lemma {:induction false} ExpandedToNarrow(v: BitVector, n: nat)
    requires n <= |v|
    ensures Expanded(v, n) == v
  {
  }

  lemma {:induction false} Multiples(f: int, q: nat)
    requires f >= 1
    ensures (q + 1) * f == q * f + f && q * f >= q
  {
  }

  lemma {:induction false} LoopEndsAround(n: nat, divisor: BitVector, remainder: BitVector, q: nat)
    requires SteppingAround(n, divisor, remainder, q) && U(divisor) <= Pow2(|divisor| - 1)
    requires U(Expanded(divisor, n)) > U(Expanded(remainder, |divisor|))
    ensures 1 <= q <= Pow2(n - 1)
    ensures if U(divisor) <= Pow2(n - 1) then U(divisor) > 0 && q == Pow2(n - 1) / U(divisor)
            else Residue(divisor, n) < 2 * Pow2(n - 1) && q == RoundsAround(Pow2(n - 1), Residue(divisor, n))
  {
    hide Encode, U, Pow2, S, Expanded, Residue, RoundsAround;
    if Negative(remainder) {
      ExtendedIsHuge(remainder, divisor);
      assert false;
    }
    UExpanded(remainder, |divisor|);
    ExpandedToNarrow(divisor, n);
    if U(divisor) <= Pow2(n - 1) {
      QuotientUnique(Pow2(n - 1), U(divisor), q, U(remainder));
    }
  }

  lemma {:induction false} ExpandedNonZero(v: BitVector, n: nat)
    requires U(v) != 0
    ensures U(Expanded(v, n)) > 0
  {
    hide U, Pow2;
    UAppend(v, Expanded(v, n)[|v|..]);
    assert Expanded(v, n) == v + Expanded(v, n)[|v|..];
  }

  /** One round lowers the unsigned remainder by exactly the extended divisor. */
  lemma {:induction false} SubtractionStep(remainder: BitVector, divisor: BitVector)
    requires U(Expanded(divisor, |remainder|)) <= U(remainder)
    requires |divisor| <= |remainder| || !Negative(remainder)
    ensures var next := Encode(|remainder|, S(remainder) - S(divisor));
            && U(next) == U(remainder) - U(Expanded(divisor, |remainder|))
            && (Negative(next) ==> Negative(remainder))
  {
    hide U, Encode, Pow2;
    var n := |remainder|;
    var wide := Expanded(divisor, n);
    ExpandedCongruent(divisor, n);
    EncodeUOrS(n, remainder);
    EncodeDifference(n, U(remainder), S(remainder), U(wide), S(divisor));
    SmallerRemainder(remainder, U(wide));
  }

  lemma {:induction false} ExpandedCongruent(v: BitVector, n: nat)
    ensures Encode(n, U(Expanded(v, n))) == Encode(n, S(v))
  {
    hide U, Encode, Pow2;
    SExpanded(v, n);
    EncodeUOrS(n, Expanded(v, n));
  }

  lemma {:induction false} SmallerRemainder(remainder: BitVector, d: nat)
    requires d <= U(remainder)
    ensures U(Encode(|remainder|, U(remainder) - d)) == U(remainder) - d
    ensures Negative(Encode(|remainder|, U(remainder) - d)) ==> Negative(remainder)
  {
    hide U, Encode, Pow2;
    UBound(remainder);
    UEncodeSmall(|remainder|, U(remainder) - d);
    if remainder != [] {
      NegativeMeansUpperHalf(remainder);
      NegativeMeansUpperHalf(Encode(|remainder|, U(remainder) - d));
    }
  }

  /** The wrapping negation of a negative operand, and any other operand, is its magnitude. */
  method MagnitudeOf(v: BitVector) returns (r: BitVector)
    requires v != []
    ensures r == Encode(|v|, Abs(S(v)))
  {
    var negative := BinaryIsNegative(v);
    if negative {
      r := TakeTwosComplement(v);
    } else {
      r := v;
      EncodeOfS(v);
    }
  }

  /** A minimum divisor narrower than the dividend keeps its sign bit when negated, is
      sign-extended to a huge number by the comparison, and never fits into the dividend. */
  predicate DivisorLost(dividend: BitVector, divisor: BitVector) {
    && |divisor| < |dividend|
    && IsMin(divisor)
    && Abs(S(dividend)) >= Pow2(|divisor| - 1)
    && S(dividend) != S(divisor)
  }

  /** The divisor the loop works with: its magnitude, unless it is lost to sign extension. */
  lemma {:induction false} EffectiveDivisor(dividend: BitVector, divisor: BitVector)
    requires dividend != [] && divisor != [] && S(divisor) != 0
    ensures var d := U(Expanded(Encode(|divisor|, Abs(S(divisor))), |dividend|));
            if |divisor| < |dividend| && IsMin(divisor) then d > Abs(S(dividend)) else d == Abs(S(divisor))
  {
    hide Encode, U, Pow2, Expanded, S;
    Magnitude(divisor);
    if |divisor| < |dividend| && IsMin(divisor) {
      NarrowMinimumIsHuge(Encode(|divisor|, Abs(S(divisor))), |dividend|);
      SBounds(dividend);
    } else {
      UExpanded(Encode(|divisor|, Abs(S(divisor))), |dividend|);
    }
  }

  lemma {:induction false} QuotientOfMagnitudes(dividend: BitVector, divisor: BitVector)
    requires dividend != [] && divisor != [] && S(divisor) != 0
    requires S(dividend) != S(divisor)
    ensures var d := U(Expanded(Encode(|divisor|, Abs(S(divisor))), |dividend|));
            && d > 0
            && Abs(S(dividend)) / d
               == if DivisorLost(dividend, divisor) then 0 else Abs(S(dividend)) / Abs(S(divisor))
  {
    hide Encode, U, Pow2, S, Expanded;
    EffectiveDivisor(dividend, divisor);
    if |divisor| < |dividend| && IsMin(divisor) {
      SmallQuotient(Abs(S(dividend)), U(Expanded(Encode(|divisor|, Abs(S(divisor))), |dividend|)));
      if Abs(S(dividend)) < Abs(S(divisor)) {
        SmallQuotient(Abs(S(dividend)), Abs(S(divisor)));
      }
    }
  }

  lemma {:induction false} SmallQuotient(x: nat, y: nat)
    requires x < y
    ensures x / y == 0
  {
    QuotientUnique(x, y, 0, x);
  }

  lemma {:induction false} NarrowMinimumIsHuge(v: BitVector, a: nat)
    requires Negative(v) && |v| < a
    ensures U(Expanded(v, a)) > Pow2(a - 1)
  {
    hide U, Encode;
    SExpanded(v, a);
    SBounds(v);
    Pow2Monotone(|v|, a - 1);
  }

  /** A minimum dividend narrower than the divisor keeps its sign bit when negated, and is
      sign-extended by the comparison: a larger divisor still seems to go into it. */
  predicate DividendLost(dividend: BitVector, divisor: BitVector) {
    |dividend| < |divisor| && IsMin(dividend) && Abs(S(divisor)) > Pow2(|dividend| - 1)
  }

  /** Where the loop never ends: subtracting the divisor leaves such a dividend as it is. */
  predicate Diverges(dividend: BitVector, divisor: BitVector) {
    DividendLost(dividend, divisor) && Abs(S(divisor)) % Pow2(|dividend|) == 0
  }

  /** What comes out for a lost dividend, which is negative. */
  function LostQuotient(dividend: BitVector, divisor: BitVector): (q: int)
    requires DividendLost(dividend, divisor)
  {
    HalfOf(|dividend|);
    var q: int := RoundsAround(Pow2(|dividend| - 1), Abs(S(divisor)) % Pow2(|dividend|));
    if S(divisor) < 0 then q else -q
  }

  /** Wrapping division, wherever it ends. */
  method BinaryDivision(dividend: BitVector, rhs: BitVector) returns (r: Outcome<BitVector>)
    requires dividend != []
    requires !Diverges(dividend, rhs)
    ensures U(rhs) == 0 <==> S(rhs) == 0
    ensures U(rhs) == 0 <==> r == Throw("division by zero")
    ensures U(rhs) != 0 ==> r.Ok? && |r.value| == |dividend|
    ensures r.Ok? && !DivisorLost(dividend, rhs) && !DividendLost(dividend, rhs)
            ==> r.value == Encode(|dividend|, Trunc(S(dividend), S(rhs)))
    ensures r.Ok? && DivisorLost(dividend, rhs) ==> r.value == Zeros(|dividend|)
    ensures r.Ok? && DividendLost(dividend, rhs)
            ==> r.value == Encode(|dividend|, LostQuotient(dividend, rhs)) != Zeros(|dividend|)
  {
    hide Encode, U, Pow2, Expanded, RoundsAround, Residue;
    UZeroMeansSZero(rhs);
    var nonZero := BinaryToBool(rhs);
    if !nonZero {
      return Throw("division by zero");
    }
    var same := BinaryEq(rhs, dividend);
    if same {
      var _, one := BinaryIncrement(Zeros(|dividend|));
      UZeros(|dividend|);
      QuotientUnique(Abs(S(rhs)), Abs(S(rhs)), 1, 0);
      return Ok(one);
    }
    var negativeDivisor := BinaryIsNegative(rhs);
    var negativeDividend := BinaryIsNegative(dividend);
    var divisor := MagnitudeOf(rhs);
    var remainder := MagnitudeOf(dividend);
    EntersLoop(dividend, rhs, remainder, divisor);
    QuotientOfMagnitudes(dividend, rhs);
    var quotient := RepeatedSubtraction(remainder, divisor);
    ghost var counted := quotient;
    if (negativeDivisor || negativeDividend) && !(negativeDivisor && negativeDividend) {
      quotient := TakeTwosComplement(quotient);
    }
    SignedQuotient(|dividend|, counted, quotient);
    if DividendLost(dividend, rhs) {
      EncodeNegated(|dividend|, RoundsAround(Pow2(|dividend| - 1), Residue(divisor, |dividend|)));
      ResidueOfMagnitude(divisor, |dividend|, Abs(S(rhs)));
    } else {
      EncodeNegated(|dividend|, U(remainder) / U(Expanded(divisor, |remainder|)));
    }
    UZeros(|dividend|);
    EncodeOfU(Zeros(|dividend|));
    return Ok(quotient);
  }

  /** What the magnitudes of the operands look like to the loop. */
  lemma {:induction false} EntersLoop(dividend: BitVector, rhs: BitVector, remainder: BitVector, divisor: BitVector)
    requires dividend != [] && rhs != [] && S(rhs) != 0 && !Diverges(dividend, rhs)
    requires remainder == Encode(|dividend|, Abs(S(dividend))) && divisor == Encode(|rhs|, Abs(S(rhs)))
    ensures U(remainder) == Abs(S(dividend)) && U(divisor) == Abs(S(rhs)) != 0
    ensures LoopEnds(remainder, divisor)
    ensures Extends(remainder, divisor) <==> |dividend| < |rhs| && IsMin(dividend)
    ensures DividendLost(dividend, rhs) <==> Extends(remainder, divisor) && U(divisor) > Pow2(|dividend| - 1)
  {
    hide Encode, U, Pow2;
    Magnitude(rhs);
    Magnitude(dividend);
    SBounds(rhs);
    if |dividend| < |rhs| && IsMin(dividend) && Abs(S(rhs)) <= Pow2(|dividend| - 1) {
      HalfOf(|dividend|);
      QuotientUnique(Abs(S(rhs)), Pow2(|dividend|), 0, Abs(S(rhs)));
      QuotientRemainder(Abs(S(rhs)), Pow2(|dividend|));
    }
  }

  lemma {:induction false} ResidueOfMagnitude(divisor: BitVector, n: nat, d: nat)
    requires U(divisor) == d
    ensures Residue(divisor, n) == d % Pow2(n)
  {
    hide U, Pow2;
  }

  /** Taking the sign does not turn a quotient that is not zero into one that is. */
  lemma {:induction false} SignedQuotient(n: nat, counted: BitVector, quotient: BitVector)
    requires |counted| == n && (quotient == counted || quotient == Encode(n, -S(counted)))
    ensures U(counted) != 0 ==> quotient != Zeros(n)
  {
    hide Encode, U, Pow2;
    UZeros(n);
    EncodeOfU(Zeros(n));
    if U(counted) != 0 && Encode(n, -S(counted)) == Encode(n, 0) {
      UZeroMeansSZero(counted);
      SBounds(counted);
      HalfOf(n);
      EncodeInjective(n, -S(counted), 0);
    }
  }

  lemma {:induction false} UZeroMeansSZero(v: BitVector)
    ensures U(v) == 0 <==> S(v) == 0
    ensures U(v) != 0 ==> v != []
  {
    UBound(v);
    if U(v) == 0 {
      UZeroMeansZeros(v);
    }
  }

  /** The lost divisor is always wrong: the true quotient is then not zero, even modulo 2^n. */
  lemma {:induction false} LostDivisorIsWrong(dividend: BitVector, divisor: BitVector)
    requires dividend != [] && S(divisor) != 0 && DivisorLost(dividend, divisor)
    ensures Encode(|dividend|, Trunc(S(dividend), S(divisor))) != Zeros(|dividend|)
  {
    hide U, Encode;
    var n, x, y := |dividend|, Abs(S(dividend)), Abs(S(divisor));
    SBounds(dividend);
    QuotientPositive(x, y);
    UZeros(n);
    EncodeOfU(Zeros(n));
    if Encode(n, Trunc(S(dividend), S(divisor))) == Encode(n, 0) {
      EncodeInjective(n, Trunc(S(dividend), S(divisor)), 0);
    }
  }

  lemma {:induction false} QuotientPositive(x: nat, y: nat)
    requires 0 < y <= x
    ensures 1 <= x / y <= x
  {
    QuotientRemainder(x, y);
    MulAtLeast(x / y, y);
  }

  /** Where wrapping division diverges, the state in which the loop starts is a fixed point: the
      guard holds and one round changes nothing, so the loop never ends. */
  lemma {:induction false} DivergingLoop(dividend: BitVector, rhs: BitVector)
    requires Diverges(dividend, rhs)
    ensures var remainder, divisor := Encode(|dividend|, Abs(S(dividend))), Encode(|rhs|, Abs(S(rhs)));
            && U(Expanded(divisor, |remainder|)) <= U(Expanded(remainder, |divisor|))
            && Encode(|remainder|, S(remainder) - S(divisor)) == remainder
  {
    hide Encode, U, Pow2, Expanded;
    var remainder, divisor := Encode(|dividend|, Abs(S(dividend))), Encode(|rhs|, Abs(S(rhs)));
    Magnitude(rhs);
    Magnitude(dividend);
    SBounds(rhs);
    ExtendedIsHuge(remainder, divisor);
    NarrowDifference(|dividend|, remainder, divisor);
    EncodeOfU(remainder);
  }

  /** The lost dividend is always wrong: the true quotient is then zero. */
  lemma {:induction false} LostDividendIsWrong(dividend: BitVector, divisor: BitVector)
    requires S(divisor) != 0 && DividendLost(dividend, divisor)
    ensures Encode(|dividend|, Trunc(S(dividend), S(divisor))) == Zeros(|dividend|)
  {
    hide U, Encode;
    SBounds(dividend);
    SmallQuotient(Abs(S(dividend)), Abs(S(divisor)));
    UZeros(|dividend|);
    EncodeOfU(Zeros(|dividend|));
  }

  /** Wherever wrapping division ends, it is the truncated quotient modulo 2^|lhs| exactly when neither
      operand is a narrower minimum that got lost. */
  method WrapDiv(lhs: BitVector, rhs: BitVector) returns (r: Outcome<BitVector>)
    requires lhs != []
    requires !Diverges(lhs, rhs)
    ensures U(rhs) == 0 <==> S(rhs) == 0
    ensures U(rhs) == 0 <==> r == Throw("division by zero")
    ensures U(rhs) != 0 ==> r.Ok? && |r.value| == |lhs|
    ensures U(rhs) != 0
            ==> (r.value == Encode(|lhs|, Trunc(S(lhs), S(rhs))) <==> !DivisorLost(lhs, rhs) && !DividendLost(lhs, rhs))
  {
    hide Encode, U, Pow2;
    r := BinaryDivision(lhs, rhs);
    if r.Ok? {
      var clipped := BinaryClip(r.value, |lhs|);
      EncodeOfU(r.value);
      r := Ok(clipped);
      if DivisorLost(lhs, rhs) {
        LostDivisorIsWrong(lhs, rhs);
      } else if DividendLost(lhs, rhs) {
        LostDividendIsWrong(lhs, rhs);
      }
    }
  }

  // ---------------------------------------------------------------- laws

  /** Addition zero-extends its right operand, so it is the signed sum modulo 2^|lhs|
      exactly when a narrower right operand is not negative. */
  lemma {:induction false} WrapAddIsSignedIff(lhs: BitVector, rhs: BitVector)
    ensures Encode(|lhs|, U(lhs) + U(rhs)) == Encode(|lhs|, S(lhs) + S(rhs))
            <==> |lhs| <= |rhs| || !Negative(rhs)
  {
    hide Encode, U, Pow2, S;
    var n := |lhs|;
    EncodeEitherReading(lhs, S(rhs));
    SignedOffset(n, U(lhs), rhs);
  }

  lemma {:induction false} Pow2StrictlyMonotone(a: nat, b: nat)
    requires a < b
    ensures Pow2(a) < Pow2(b)
  {
    Pow2Monotone(a, b - 1);
  }

  lemma {:induction false} SignedOffset(n: nat, x: int, rhs: BitVector)
    ensures Encode(n, x + U(rhs)) == Encode(n, x + S(rhs)) <==> n <= |rhs| || !Negative(rhs)
  {
    hide Encode, U, Pow2, S;
    UIsShiftedS(rhs);
    if Negative(rhs) {
      if n <= |rhs| {
        Pow2Add(n, |rhs| - n);
        EncodeCongruent(n, x + U(rhs), x + S(rhs), Pow2(|rhs| - n));
      } else {
        Pow2StrictlyMonotone(|rhs|, n);
        if Encode(n, x + U(rhs)) == Encode(n, x + S(rhs)) {
          EncodeInjective(n, x + U(rhs), x + S(rhs));
        }
      }
    }
  }

  /** Subtraction undoes addition on exactly the same domain. */
  lemma {:induction false} WrapSubUndoesWrapAddIff(lhs: BitVector, rhs: BitVector)
    ensures var sum := Encode(|lhs|, U(lhs) + U(rhs));
            Encode(|lhs|, S(sum) - S(rhs)) == lhs <==> |lhs| <= |rhs| || !Negative(rhs)
  {
    hide Encode, U, Pow2;
    var n := |lhs|;
    var sum := Encode(n, U(lhs) + U(rhs));
    EncodeOfS(sum);
    EncodeDifference(n, S(sum), U(lhs) + U(rhs), S(rhs), S(rhs));
    EncodeOfU(lhs);
    SignedOffset(n, U(lhs) - S(rhs), rhs);
  }

  /** Multiplication zero-extends as well; a narrower negative right operand is harmless only
      if the low |lhs| - |rhs| bits of the left operand are clear. */
  lemma {:induction false} WrapMulIsSignedIff(lhs: BitVector, rhs: BitVector)
    ensures Encode(|lhs|, U(lhs) * U(rhs)) == Encode(|lhs|, S(lhs) * S(rhs))
            <==> |lhs| <= |rhs| || !Negative(rhs)
                 || lhs[..|lhs| - |rhs|] == Zeros(|lhs| - |rhs|)
  {
    hide Encode, U, Pow2, S;
    var n := |lhs|;
    EncodeOfS(lhs);
    EncodeMul(n, S(lhs), S(rhs));
    if Negative(rhs) {
      UIsShiftedS(rhs);
      MulDistributes(U(lhs), S(rhs), Pow2(|rhs|));
      MultipleVanishesIff(n, |rhs|, U(lhs) * S(rhs), lhs);
    } else {
      UIsShiftedS(rhs);
    }
  }

  lemma {:induction false} UIsShiftedS(v: BitVector)
    ensures U(v) == if Negative(v) then S(v) + Pow2(|v|) else S(v)
  {
  }

  lemma {:induction false} MultipleVanishesIff(n: nat, b: nat, x: int, v: BitVector)
    requires n == |v|
    ensures Encode(n, x + U(v) * Pow2(b)) == Encode(n, x)
            <==> n <= b || v[..n - b] == Zeros(n - b)
  {
    hide Encode, U, Pow2;
    if n <= b {
      Pow2Add(n, b - n);
      var k := U(v) * Pow2(b - n);
      assert k * Pow2(n) == U(v) * Pow2(b);
      EncodeCongruent(n, x + U(v) * Pow2(b), x, k);
    } else {
      HighPartVanishes(n, b, x, v);
      LowPartVanishesIff(n, b, x, v[..n - b]);
    }
  }

  lemma {:induction false} HighPartVanishes(n: nat, b: nat, x: int, v: BitVector)
    requires b < n == |v|
    ensures Encode(n, x + U(v) * Pow2(b)) == Encode(n, x + U(v[..n - b]) * Pow2(b))
  {
    hide Encode, U, Pow2;
    var low, high := v[..n - b], v[n - b..];
    assert v == low + high;
    UAppend(low, high);
    Pow2Add(n - b, b);
    var p, q := Pow2(n - b), Pow2(b);
    assert U(v) * q == U(low) * q + U(high) * (p * q) by {
      assert (U(low) + p * U(high)) * q == U(low) * q + U(high) * (p * q);
    }
    EncodeCongruent(n, x + U(v) * q, x + U(low) * q, U(high));
  }

  lemma {:induction false} LowPartVanishesIff(n: nat, b: nat, x: int, low: BitVector)
    requires n == |low| + b
    ensures Encode(n, x + U(low) * Pow2(b)) == Encode(n, x) <==> low == Zeros(|low|)
  {
    hide Encode, U, Pow2;
    UZeros(|low|);
    UBound(low);
    Pow2Add(|low|, b);
    if Encode(n, x + U(low) * Pow2(b)) == Encode(n, x) {
      MulBound(U(low), 0, Pow2(|low|), Pow2(b));
      assert U(low) * Pow2(b) < Pow2(n);
      EncodeInjective(n, x + U(low) * Pow2(b), x);
      UZeroMeansZeros(low);
    }
  }
}
