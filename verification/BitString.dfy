/** The Bits value of the machine: shifts and rotations of a bit vector held in place. */
module BitString {
  import opened BitVectors
  import opened BitHelpers
  import W = Wrapping

  // ---------------------------------------------------------------- what the shifts leave and push out

  /** Shifting by nothing clears the vector, because source and target of a move coincide. */
  function ShlKept(v: BitVector, n: nat): (w: BitVector)
    ensures |w| == |v|
  {
    if n == 0 || n >= |v| then Zeros(|v|) else Zeros(n) + v[..|v| - n]
  }

  function ShlOut(v: BitVector, n: nat): (w: BitVector)
    ensures |w| == n
  {
    if n >= |v| then Zeros(n - |v|) + v else v[|v| - n..]
  }

  function Fill(n: nat, b: bool): (w: BitVector) {
    seq(n, _ => b)
  }

  /** The padding is ignored when the whole vector is shifted out, and fills it for n = 0. */
  function ShrKept(v: BitVector, n: nat, padding: bool): (w: BitVector)
    ensures |w| == |v|
  {
    if n >= |v| then Zeros(|v|) else if n == 0 then Fill(|v|, padding) else v[n..] + Fill(n, padding)
  }

  function ShrOut(v: BitVector, n: nat): (w: BitVector)
    ensures |w| == n
  {
    if n >= |v| then v + Zeros(n - |v|) else v[..n]
  }

  method BinaryShl(v: BitVector, n: nat) returns (shifted: BitVector, r: BitVector)
    ensures r == ShlKept(v, n) && shifted == ShlOut(v, n)
  {
    var size := |v|;
    shifted := Zeros(n);
    r := v;
    if n >= size {
      for i := 0 to size
        invariant |shifted| == n
        invariant forall k :: 0 <= k < n - i ==> !shifted[k]
        invariant forall k :: n - i <= k < n ==> shifted[k] == v[k - (n - size)]
      {
        shifted := shifted[n - 1 - i := v[size - 1 - i]];
      }
      r := Zeros(size);
      assert shifted == Zeros(n - size) + v;
      return;
    }
    for i := 0 to size
      invariant |r| == size && |shifted| == n
      invariant forall p :: size - i <= p < size ==> r[p] == (n >= 1 && p >= n && v[p - n])
      invariant forall p :: 0 <= p < size - i && (p < size - n - i || p >= size - n) ==> r[p] == v[p]
      invariant forall k :: 0 <= k < n && n - i <= k ==> shifted[k] == v[size - n + k]
    {
      // The unsigned differences of the original wrap around to huge numbers, which the
      // comparisons with the size reject; here they are negative.
      var indexToSet := size - i - 1;
      var indexOfValue := size - n - i - 1;
      var indexToSetInShifted := n - i - 1;
      if 0 <= indexOfValue {
        if 0 <= indexToSetInShifted {
          shifted := shifted[indexToSetInShifted := r[indexToSet]];
        }
        r := r[indexToSet := r[indexOfValue]];
        r := r[indexOfValue := false];
      } else {
        if 0 <= indexToSetInShifted {
          shifted := shifted[indexToSetInShifted := r[indexToSet]];
        }
        r := r[indexToSet := false];
      }
    }
    assert shifted == v[size - n..];
    assert r == ShlKept(v, n);
  }

  method BinaryShr(v: BitVector, n: nat, padding: bool) returns (shifted: BitVector, r: BitVector)
    ensures r == ShrKept(v, n, padding) && shifted == ShrOut(v, n)
  {
    var size := |v|;
    shifted := Zeros(n);
    r := v;
    if n >= size {
      for i := 0 to size
        invariant |shifted| == n
        invariant forall k :: 0 <= k < i ==> shifted[k] == v[k]
        invariant forall k :: i <= k < n ==> !shifted[k]
      {
        shifted := shifted[i := v[i]];
      }
      r := Zeros(size);
      assert shifted == v + Zeros(n - size);
      return;
    }
    for i := 0 to size
      invariant |r| == size && |shifted| == n
      invariant forall p :: 0 <= p < i ==> r[p] == if n >= 1 && p + n < size then v[p + n] else padding
      invariant forall p :: i <= p < size && (p < n || p >= i + n) ==> r[p] == v[p]
      invariant forall k :: 0 <= k < n && k < i ==> shifted[k] == v[k]
    {
      var indexToSet := i;
      var indexOfValue := i + n;
      var indexToSetInShifted := i;
      if indexOfValue < size {
        if indexToSetInShifted < n {
          shifted := shifted[indexToSetInShifted := r[indexToSet]];
        }
        r := r[indexToSet := r[indexOfValue]];
        r := r[indexOfValue := padding];
      } else {
        if indexToSetInShifted < n {
          shifted := shifted[indexToSetInShifted := r[indexToSet]];
        }
        r := r[indexToSet := padding];
      }
    }
    assert shifted == v[..n];
    assert r == ShrKept(v, n, padding);
  }

  // ---------------------------------------------------------------- what the shifts mean

  /** A left shift moves value between its two results and loses none, except by zero places. */
  lemma {:induction false} ShlConservesIff(v: BitVector, n: nat)
    ensures U(v) * Pow2(n) == U(ShlOut(v, n)) * Pow2(|v|) + U(ShlKept(v, n)) <==> n >= 1 || U(v) == 0
  {
    hide U, Pow2;
    UZeros(|v|);
    if n >= |v| {
      W.UShifted(v, n - |v|);
      Pow2Add(n - |v|, |v|);
      MulAssociative(U(v), Pow2(n - |v|), Pow2(|v|));
      if n == 0 {
        UBound(v);
        assert v == [];
        NothingShifted(v);
      }
    } else if n >= 1 {
      var low, high := v[..|v| - n], v[|v| - n..];
      assert v == low + high;
      UAppend(low, high);
      W.UShifted(low, n);
      Pow2Add(|v| - n, n);
      MulDistributes(Pow2(n), U(low), Pow2(|v| - n) * U(high));
      MulAssociative(U(high), Pow2(|v| - n), Pow2(n));
    } else {
      NothingShifted(v);
    }
  }

  lemma {:induction false} NothingShifted(v: BitVector)
    ensures Pow2(0) == 1 && U(v[|v|..]) == 0 && U(v[..0]) == 0 && (v == [] ==> U(v) == 0)
  {
  }

  lemma {:induction false} ShrConservesIff(v: BitVector, n: nat)
    ensures U(v) == U(ShrKept(v, n, false)) * Pow2(n) + U(ShrOut(v, n)) <==> n >= 1 || U(v) == 0
  {
    hide U, Pow2;
    NothingShifted(v);
    UZeros(|v|);
    if n >= |v| {
      SExpandedNonNegative(v, n - |v|);
    } else if n >= 1 {
      assert v == v[..n] + v[n..];
      UAppend(v[..n], v[n..]);
      SExpandedNonNegative(v[n..], n);
      assert Fill(n, false) == Zeros(n);
    } else {
      assert Fill(|v|, false) == Zeros(|v|);
    }
  }

  /** An arithmetic right shift is floor division by 2^n exactly as long as a bit remains, or
      the number is not negative; by zero places, only for 0 and -1. */
  lemma {:induction false} AshrIsFloorDivisionIff(v: BitVector, n: nat)
    requires v != []
    ensures S(ShrKept(v, n, Negative(v))) == S(v) / Pow2(n)
            <==> if n == 0 then -1 <= S(v) <= 0 else n < |v| || S(v) >= 0
  {
    hide U, Pow2;
    SBounds(v);
    NothingShifted(v);
    if n == 0 {
      AllOnesOrZeros(|v|, Negative(v));
    } else if n < |v| {
      AshrDivides(v, n);
    } else {
      UZeros(|v|);
      W.UZeroMeansSZero(Zeros(|v|));
      Pow2Monotone(|v|, n);
      UBound(v);
      if S(v) >= 0 {
        UIsS(v);
        W.SmallQuotient(S(v), Pow2(n));
      } else {
        NegativeFloor(S(v), Pow2(n));
      }
    }
  }

  lemma {:induction false} UIsS(v: BitVector)
    ensures !Negative(v) ==> U(v) == S(v)
  {
  }

  lemma {:induction false} NegativeFloor(x: int, p: int)
    requires x < 0 < p
    ensures x / p < 0
  {
    var q := x / p;
    assert x == q * p + x % p;
    assert q >= 0 ==> q * p >= 0;
  }

  lemma {:induction false} AllOnesOrZeros(n: nat, b: bool)
    requires n >= 1
    ensures S(Fill(n, b)) == if b then -1 else 0
  {
    if b {
      UOnes(n);
      assert Fill(n, b) == seq(n, _ => true);
    } else {
      UZeros(n);
      assert Fill(n, b) == Zeros(n);
    }
  }

  lemma {:induction false} AshrDivides(v: BitVector, n: nat)
    requires 1 <= n < |v|
    ensures S(v[n..] + Fill(n, Negative(v))) == S(v) / Pow2(n)
  {
    hide U, Pow2;
    var low, high := v[..n], v[n..];
    assert v == low + high;
    SExpanded(high, |v|);
    assert Expanded(high, |v|) == high + Fill(n, Negative(v));
    UAppend(low, high);
    UBound(low);
    SAppend(low, high);
    FloorUnique(S(v), Pow2(n), S(high), U(low));
  }

  /** The high part carries the sign. */
  lemma {:induction false} SAppend(low: BitVector, high: BitVector)
    requires high != []
    ensures S(low + high) == U(low) + Pow2(|low|) * S(high)
  {
    hide U, Pow2;
    UAppend(low, high);
    Pow2Add(|low|, |high|);
    MulDistributes(Pow2(|low|), U(high), Pow2(|high|));
  }

  lemma {:induction false} FloorUnique(x: int, p: int, q: int, r: int)
    requires 0 <= r < p && x == r + p * q
    ensures x / p == q
  {
    var k := x / p - q;
    assert x == (x / p) * p + x % p;
    assert k * p == r - x % p;
    SmallMultiple(k, p);
  }

  /** An arithmetic left shift forces the old sign back, which is multiplication by 2^n exactly
      when that is representable; by zero places, only for zero and the minimum. */
  lemma {:induction false} AshlMultipliesIff(v: BitVector, n: nat)
    requires v != []
    ensures S(ShlKept(v, n)[|v| - 1 := v[|v| - 1]]) == S(v) * Pow2(n)
            <==> if n == 0 then S(v) == 0 || IsMin(v) else Fits(|v|, S(v) * Pow2(n))
  {
    hide U, Pow2, Encode;
    var w := ShlKept(v, n)[|v| - 1 := v[|v| - 1]];
    SBounds(v);
    SBounds(w);
    NothingShifted(v);
    if n == 0 {
      ClearedButSign(|v|, v[|v| - 1]);
      assert w == Zeros(|v|)[|v| - 1 := v[|v| - 1]];
    } else if Fits(|v|, S(v) * Pow2(n)) {
      ShlIsProduct(v, n);
      SEncode(|v|, S(v) * Pow2(n));
      SignOfProduct(S(v), Pow2(n));
      assert w == ShlKept(v, n);
    }
  }

  /** Whether or not the product is representable, an arithmetic left shift keeps the sign, and below the sign bit it is
      the product modulo 2^(width - 1); by zero places all that is cleared. */
  lemma {:induction false} AshlKeepsSign(v: BitVector, n: nat)
    requires v != []
    ensures var w := ShlKept(v, n)[|v| - 1 := v[|v| - 1]];
            && (S(w) < 0 <==> S(v) < 0)
            && (n >= 1 ==> (S(w) - S(v) * Pow2(n)) % Pow2(|v| - 1) == 0)
            && (n == 0 ==> w[..|v| - 1] == Zeros(|v| - 1))
  {
    hide U, Pow2, Encode, S;
    var m, kept := |v| - 1, ShlKept(v, n);
    var w := kept[m := v[m]];
    SBounds(v);
    SBounds(w);
    if n >= 1 {
      ShlIsProduct(v, n);
      assert w[..m] == kept[..m];
      LowBitsCongruent(w, kept, S(v) * Pow2(n));
    }
  }

  /** Vectors that agree below the top bit differ by a multiple of its weight. */
  lemma {:induction false} LowBitsCongruent(w: BitVector, kept: BitVector, x: int)
    requires |w| == |kept| >= 1 && w[..|w| - 1] == kept[..|w| - 1] && kept == Encode(|w|, x)
    ensures (S(w) - x) % Pow2(|w| - 1) == 0
  {
    hide U, Pow2, Encode, S;
    var m := |w| - 1;
    UPrefix(w, m);
    UPrefix(kept, m);
    assert w[..m + 1] == w && kept[..m + 1] == kept;
    W.UIsShiftedS(w);
    W.HalfOf(|w|);
    UEncodeMod(|w|, x);
    W.FloorRemainder(x, Pow2(|w|));
    var q, p := x / Pow2(|w|), Pow2(m);
    var k := (if w[m] then 1 else 0) - (if kept[m] then 1 else 0) - (if Negative(w) then 2 else 0) - 2 * q;
    assert S(w) - x == k * p by {
      MulDistributes(p, (if w[m] then 1 else 0) - (if kept[m] then 1 else 0), (if Negative(w) then 2 else 0) + 2 * q);
      MulAssociative(q, 2, p);
    }
    MultipleIsClear(k, p);
  }

  lemma {:induction false} MultipleIsClear(k: int, p: nat)
    requires p > 0
    ensures (k * p) % p == 0
  {
    var x, q, r := k * p, (k * p) / p, (k * p) % p;
    assert x == q * p + r;
    MulDistributes(p, k, q);
    SmallMultiple(k - q, p);
  }

  lemma {:induction false} SignOfProduct(x: int, p: int)
    requires p >= 1
    ensures x < 0 <==> x * p < 0
  {
  }

  lemma {:induction false} ClearedButSign(n: nat, sign: bool)
    requires n >= 1
    ensures S(Zeros(n)[n - 1 := sign]) == if sign then 0 - Pow2(n - 1) else 0
  {
    var w := Zeros(n)[n - 1 := sign];
    UPrefix(w, n - 1);
    UZeros(n - 1);
    assert w[..n] == w && w[..n - 1] == Zeros(n - 1);
  }

  lemma {:induction false} ShlIsProduct(v: BitVector, n: nat)
    requires n >= 1
    ensures ShlKept(v, n) == Encode(|v|, S(v) * Pow2(n))
  {
    hide U, Pow2, Encode;
    ShlConservesIff(v, n);
    EncodeOfU(ShlKept(v, n));
    EncodeCongruent(|v|, U(v) * Pow2(n), U(ShlKept(v, n)), U(ShlOut(v, n)));
    EncodeOfU(v);
    EncodeOfS(v);
    EncodeMul(|v|, S(v), Pow2(n));
  }

  /** Where an arithmetic right shift is no division: by zero places only the sign is left, and by the whole width or
      more nothing at all. */
  lemma {:induction false} AshrBeyond(v: BitVector, n: nat)
    requires v != []
    ensures n == 0 ==> S(ShrKept(v, n, Negative(v))) == if S(v) < 0 then -1 else 0
    ensures n >= |v| ==> S(ShrKept(v, n, Negative(v))) == 0
  {
    hide U, Pow2;
    SBounds(v);
    AllOnesOrZeros(|v|, Negative(v));
    UZeros(|v|);
    W.UZeroMeansSZero(Zeros(|v|));
  }

  /** A shift by zero places loses everything, and padding with ones adds just the ones. */
  lemma {:induction false} ShiftEdges(v: BitVector, n: nat)
    ensures U(ShlKept(v, 0)) == 0 && U(ShrKept(v, 0, false)) == 0
    ensures U(ShrKept(v, n, true)) - U(ShrKept(v, n, false)) == if n >= |v| then 0
                                                                 else if n == 0 then Pow2(|v|) - 1
                                                                 else Pow2(|v|) - Pow2(|v| - n)
  {
    hide U, Pow2;
    UZeros(|v|);
    UOnes(|v|);
    if 1 <= n < |v| {
      UZeros(n);
      UOnes(n);
      UAppend(v[n..], Fill(n, true));
      UAppend(v[n..], Fill(n, false));
      Pow2Add(|v| - n, n);
      MulDistributes(Pow2(|v| - n), Pow2(n), 1);
    }
  }

  // ---------------------------------------------------------------- rotation

  function RotatedLeft(v: BitVector, n: nat): (w: BitVector)
    requires n <= |v|
  {
    v[|v| - n..] + v[..|v| - n]
  }

  function RotatedRight(v: BitVector, n: nat): (w: BitVector)
    requires n <= |v|
  {
    v[n..] + v[..n]
  }

  /** Each bit moves up by `n` places, around the end; and the two rotations undo each other. */
  lemma {:induction false} RotationsAreInverse(v: BitVector, n: nat)
    requires n <= |v|
    ensures RotatedRight(RotatedLeft(v, n), n) == v
    ensures RotatedLeft(RotatedRight(v, n), n) == v
    ensures forall i ::
              0 <= i < |v| ==> RotatedLeft(v, n)[if i + n < |v| then i + n else i + n - |v|] == v[i]
  {
  }

  lemma {:induction false} PrefixWritten(bits: BitVector, kept: BitVector, i: nat)
    requires i < |bits| && i < |kept|
    ensures (bits[..i] + kept[i..])[i := bits[i]] == bits[..i + 1] + kept[i + 1..]
  {
  }

  lemma {:induction false} RotationIsShiftAndRefill(v: BitVector, n: nat)
    requires n <= |v|
    ensures ShlOut(v, n)[..n] + ShlKept(v, n)[n..] == if n == 0 then Zeros(|v|) else RotatedLeft(v, n)
    ensures ShrKept(v, n, false)[..|v| - n] + ShrOut(v, n)[0..] == if n == 0 then Zeros(|v|) else RotatedRight(v, n)
  {
    if n == 0 {
      assert ShlOut(v, n) == [] && ShrOut(v, n) == [];
    } else if n < |v| {
      assert ShlKept(v, n)[n..] == v[..|v| - n];
      assert ShrKept(v, n, false)[..|v| - n] == v[n..];
    } else {
      assert ShlOut(v, n) == v && ShrOut(v, n) == v;
    }
  }

  lemma {:induction false} SuffixWritten(bits: BitVector, kept: BitVector, i: nat)
    requires i < |bits| && i < |kept|
    ensures (kept[..|kept| - i] + bits[|bits| - i..])[|kept| - 1 - i := bits[|bits| - 1 - i]]
            == kept[..|kept| - 1 - i] + bits[|bits| - 1 - i..]
  {
  }

  /** Rotations add up modulo the width. */
  lemma {:induction false} RotationsCompose(v: BitVector, a: nat, b: nat)
    requires a <= |v| && b <= |v|
    ensures RotatedLeft(RotatedLeft(v, a), b)
            == RotatedLeft(v, if a + b <= |v| then a + b else a + b - |v|)
  {
    var size := |v|;
    var w := RotatedLeft(v, a);
    if a + b <= size {
      assert w[size - b..] == v[size - a - b..size - a];
      assert w[..size - b] == v[size - a..] + v[..size - a - b];
      assert v[size - a - b..] == v[size - a - b..size - a] + v[size - a..];
    } else {
      var c := a + b - size;
      assert w[size - b..] == v[size - c..] + v[..size - a];
      assert w[..size - b] == v[size - a..size - c];
      assert v[..size - c] == v[..size - a] + v[size - a..size - c];
    }
  }

  // ---------------------------------------------------------------- the value itself

  class Bits {
    var underlying: BitVector

    constructor (bits: BitVector)
      ensures underlying == bits
    {
      underlying := bits;
    }

    method Shl(n: nat) returns (shifted: Bits)
      modifies this
      ensures fresh(shifted)
      ensures underlying == ShlKept(old(underlying), n)
      ensures shifted.underlying == ShlOut(old(underlying), n)
    {
      var out, kept := BinaryShl(underlying, n);
      underlying := kept;
      shifted := new Bits(out);
    }

    method Shr(n: nat, padding: bool) returns (shifted: Bits)
      modifies this
      ensures fresh(shifted)
      ensures underlying == ShrKept(old(underlying), n, padding)
      ensures shifted.underlying == ShrOut(old(underlying), n)
    {
      var out, kept := BinaryShr(underlying, n, padding);
      underlying := kept;
      shifted := new Bits(out);
    }

    method Ashl(n: nat) returns (shifted: Bits)
      requires underlying != []
      modifies this
      ensures fresh(shifted) && shifted.underlying == ShlOut(old(underlying), n)
      ensures |underlying| == |old(underlying)|
      ensures S(underlying) == S(old(underlying)) * Pow2(n)
              <==> if n == 0 then S(old(underlying)) == 0 || IsMin(old(underlying))
                   else Fits(|old(underlying)|, S(old(underlying)) * Pow2(n))
      ensures S(underlying) < 0 <==> S(old(underlying)) < 0
      ensures if n == 0 then underlying[..|underlying| - 1] == Zeros(|underlying| - 1)
              else (S(underlying) - S(old(underlying)) * Pow2(n)) % Pow2(|underlying| - 1) == 0
    {
      var sign := underlying[|underlying| - 1];
      AshlMultipliesIff(underlying, n);
      AshlKeepsSign(underlying, n);
      shifted := Shl(n);
      underlying := underlying[|underlying| - 1 := sign];
    }

    method Ashr(n: nat) returns (shifted: Bits)
      requires underlying != []
      modifies this
      ensures fresh(shifted) && shifted.underlying == ShrOut(old(underlying), n)
      ensures |underlying| == |old(underlying)|
      ensures S(underlying) == S(old(underlying)) / Pow2(n)
              <==> if n == 0 then -1 <= S(old(underlying)) <= 0
                   else n < |old(underlying)| || S(old(underlying)) >= 0
      ensures n == 0 ==> S(underlying) == if S(old(underlying)) < 0 then -1 else 0
      ensures n >= |old(underlying)| ==> S(underlying) == 0
    {
      AshrIsFloorDivisionIff(underlying, n);
      AshrBeyond(underlying, n);
      shifted := Shr(n, underlying[|underlying| - 1]);
    }

    /** Rotation left.  Writing past the end throws, after the vector has been overwritten. */
    method Rol(n: nat) returns (threw: bool)
      modifies this
      ensures threw <==> n > |old(underlying)|
      ensures 1 <= n <= |old(underlying)| ==> underlying == RotatedLeft(old(underlying), n)
      ensures n == 0 ==> underlying == Zeros(|old(underlying)|)
      ensures threw ==> underlying == ShlOut(old(underlying), n)[..|old(underlying)|]
    {
      var shifted := Shl(n);
      var bits := shifted.underlying;
      var size := |underlying|;
      ghost var kept := underlying;
      var offset := |bits|;
      for i := 0 to offset
        invariant |underlying| == size && i <= size
        invariant underlying == bits[..i] + kept[i..]
      {
        if i >= size {
          assert kept[size..] == [];
          return true;
        }
        underlying := underlying[i := bits[i]];
        PrefixWritten(bits, kept, i);
      }
      RotationIsShiftAndRefill(old(underlying), n);
      return false;
    }

    method Ror(n: nat) returns (threw: bool)
      modifies this
      ensures threw <==> n > |old(underlying)|
      ensures 1 <= n <= |old(underlying)| ==> underlying == RotatedRight(old(underlying), n)
      ensures n == 0 ==> underlying == Zeros(|old(underlying)|)
      ensures threw ==> underlying == ShrOut(old(underlying), n)[n - |old(underlying)|..]
    {
      var shifted := Shr(n, false);
      var bits := shifted.underlying;
      var size := |underlying|;
      ghost var kept := underlying;
      var offset := |bits|;
      for i := 0 to offset
        invariant |underlying| == size && i <= size
        invariant underlying == kept[..size - i] + bits[offset - i..]
      {
        if i >= size {
          assert kept[..0] == [];
          return true;
        }
        underlying := underlying[size - 1 - i := bits[offset - 1 - i]];
        SuffixWritten(bits, kept, i);
      }
      RotationIsShiftAndRefill(old(underlying), n);
      return false;
    }

    method Increment()
      modifies this
      ensures underlying == Encode(|old(underlying)|, U(old(underlying)) + 1)
    {
      var _, r := W.BinaryIncrement(underlying);
      underlying := r;
    }

    method Decrement()
      modifies this
      ensures underlying == Encode(|old(underlying)|, U(old(underlying)) - 1)
    {
      var _, r := W.BinaryDecrement(underlying);
      underlying := r;
    }
  }
}
