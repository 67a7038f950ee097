/** Fixed-width bit vectors, least significant bit first, and what they denote.

    `U` is the unsigned value, `S` the two's-complement value, and `Encode(n, x)` the
    only vector of width `n` that stands for `x` modulo 2^n.  The arithmetic modules
    state every operation through these three. */
module BitVectors {

  type BitVector = seq<bool>

  function Pow2(n: nat): (p: nat)
    ensures p >= 1
  {
    if n == 0 then 1 else 2 * Pow2(n - 1)
  }

  function U(v: BitVector): (u: nat) {
    if v == [] then 0 else (if v[0] then 1 else 0) + 2 * U(v[1..])
  }

  predicate Negative(v: BitVector) {
    v != [] && v[|v| - 1]
  }

  function S(v: BitVector): (s: int) {
    U(v) - if Negative(v) then Pow2(|v|) else 0
  }

  function Encode(n: nat, x: int): (v: BitVector)
    ensures |v| == n
  {
    if n == 0 then [] else [x % 2 == 1] + Encode(n - 1, x / 2)
  }

  function Zeros(n: nat): (v: BitVector) {
    seq(n, _ => false)
  }

  /** `x` is representable as a two's-complement number of `n` bits. */
  predicate Fits(n: nat, x: int) {
    n >= 1 && 0 - Pow2(n - 1) <= x < Pow2(n - 1)
  }

  function Abs(x: int): (a: nat) {
    if x < 0 then -x else x
  }

  function Max(a: nat, b: nat): (m: nat) {
    if a < b then b else a
  }

  /** Sign extension to at least `n` bits. */
  function Expanded(v: BitVector, n: nat): (w: BitVector)
    ensures |w| == Max(|v|, n)
  {
    v + seq(Max(|v|, n) - |v|, _ => Negative(v))
  }

  // ---------------------------------------------------------------- powers of two

  lemma {:induction false} Pow2Add(a: nat, b: nat)
    ensures Pow2(a + b) == Pow2(a) * Pow2(b)
  {
    if a > 0 {
      Pow2Add(a - 1, b);
      assert Pow2(a) * Pow2(b) == 2 * (Pow2(a - 1) * Pow2(b));
    }
  }

  lemma {:induction false} Pow2Monotone(a: nat, b: nat)
    requires a <= b
    ensures Pow2(a) <= Pow2(b)
  {
    Pow2Add(a, b - a);
    MulAtLeast(Pow2(a), Pow2(b - a));
  }

  lemma {:induction false} MulAtLeast(a: nat, b: nat)
    requires b >= 1
    ensures a * b >= a
  {
  }

  lemma {:induction false} MulAssociative(a: int, b: int, c: int)
    ensures a * (b * c) == (a * b) * c && a * (c * b) == (a * b) * c
  {
  }

  lemma {:induction false} MulDistributes(a: int, b: int, c: int)
    ensures a * (b + c) == a * b + a * c && (b + c) * a == b * a + c * a
    ensures a * (b - c) == a * b - a * c && (b - c) * a == b * a - c * a
  {
  }

  // ---------------------------------------------------------------- unsigned value

  lemma {:induction false} UBound(v: BitVector)
    ensures U(v) < Pow2(|v|)
  {
    if v != [] {
      UBound(v[1..]);
    }
  }

  lemma {:induction false} UAppend(v: BitVector, w: BitVector)
    ensures U(v + w) == U(v) + Pow2(|v|) * U(w)
  {
    if v == [] {
      assert v + w == w;
    } else {
      UAppend(v[1..], w);
      assert (v + w)[1..] == v[1..] + w;
      assert Pow2(|v|) * U(w) == 2 * (Pow2(|v| - 1) * U(w));
    }
  }

  /** The prefix of length `i + 1` adds the weight of bit `i`. */
  lemma {:induction false} UPrefix(v: BitVector, i: nat)
    requires i < |v|
    ensures U(v[..i + 1]) == U(v[..i]) + if v[i] then Pow2(i) else 0
  {
    UAppend(v[..i], [v[i]]);
    assert v[..i + 1] == v[..i] + [v[i]];
    assert U([v[i]]) == if v[i] then 1 else 0 by {
      assert [v[i]][1..] == [];
    }
  }

  /** The top bit says whether the upper half of the range is reached. */
  lemma {:induction false} NegativeMeansUpperHalf(v: BitVector)
    requires v != []
    ensures Negative(v) <==> U(v) >= Pow2(|v| - 1)
  {
    UPrefix(v, |v| - 1);
    UBound(v[..|v| - 1]);
    assert v[..|v|] == v;
  }

  lemma {:induction false} SBounds(v: BitVector)
    requires v != []
    ensures Fits(|v|, S(v))
    ensures Negative(v) <==> S(v) < 0
  {
    NegativeMeansUpperHalf(v);
    UBound(v);
  }

  lemma {:induction false} UZeros(n: nat)
    ensures U(Zeros(n)) == 0
  {
    if n > 0 {
      UZeros(n - 1);
      assert Zeros(n)[1..] == Zeros(n - 1);
    }
  }

  lemma {:induction false} UOnes(n: nat)
    ensures U(seq(n, _ => true)) == Pow2(n) - 1
  {
    if n > 0 {
      UOnes(n - 1);
      assert seq(n, _ => true)[1..] == seq(n - 1, _ => true);
    }
  }

  lemma {:induction false} UZeroMeansZeros(v: BitVector)
    requires U(v) == 0
    ensures v == Zeros(|v|)
  {
    if v != [] {
      UZeroMeansZeros(v[1..]);
      assert v == [v[0]] + v[1..];
    }
  }

  // ---------------------------------------------------------------- encoding

  lemma {:induction false} EncodeOfU(v: BitVector)
    ensures Encode(|v|, U(v)) == v
  {
    if v != [] {
      EncodeOfU(v[1..]);
      assert v == [v[0]] + v[1..];
    }
  }

  lemma {:induction false} EncodeCongruent(n: nat, x: int, y: int, k: int)
    requires x == y + k * Pow2(n)
    ensures Encode(n, x) == Encode(n, y)
  {
    if n > 0 {
      assert k * Pow2(n) == 2 * (k * Pow2(n - 1));
      EncodeCongruent(n - 1, x / 2, y / 2, k);
    }
  }

  /** The number of times `Encode` wrapped around: floor(x / 2^n). */
  function Wraps(n: nat, x: int): (k: int) {
    if n == 0 then x else Wraps(n - 1, x / 2)
  }

  lemma {:induction false} UEncode(n: nat, x: int)
    ensures x == U(Encode(n, x)) + Wraps(n, x) * Pow2(n)
  {
    if n > 0 {
      UEncode(n - 1, x / 2);
      var k, p := Wraps(n, x), Pow2(n - 1);
      assert k * Pow2(n) == 2 * (k * p);
      assert Encode(n, x)[1..] == Encode(n - 1, x / 2);
    }
  }

  lemma {:induction false} SmallMultiple(k: int, p: int)
    requires p > 0 && -p < k * p < p
    ensures k == 0
  {
    assert k >= 1 ==> k * p >= p;
    assert k <= -1 ==> k * p <= -p;
  }

  lemma {:induction false} UEncodeSmall(n: nat, x: nat)
    requires x < Pow2(n)
    ensures U(Encode(n, x)) == x
  {
    hide Encode, U, Pow2;
    UEncode(n, x);
    UBound(Encode(n, x));
    SmallMultiple(Wraps(n, x), Pow2(n));
  }

  /** `Encode` is reduction modulo 2^n. */
  lemma {:induction false} UEncodeMod(n: nat, x: int)
    ensures U(Encode(n, x)) == x % Pow2(n)
  {
    hide Encode, U, Pow2;
    var p := Pow2(n);
    UEncode(n, x);
    UBound(Encode(n, x));
    var k := Wraps(n, x) - x / p;
    assert x == (x / p) * p + x % p;
    assert k * p == x % p - U(Encode(n, x));
    SmallMultiple(k, p);
  }

  lemma {:induction false} SEncode(n: nat, x: int)
    requires Fits(n, x)
    ensures S(Encode(n, x)) == x
    ensures Negative(Encode(n, x)) <==> x < 0
  {
    hide Encode, U;
    var y := if x < 0 then x + Pow2(n) else x;
    EncodeCongruent(n, y, x, if x < 0 then 1 else 0);
    UEncodeSmall(n, y);
    NegativeMeansUpperHalf(Encode(n, x));
  }

  lemma {:induction false} EncodeOfS(v: BitVector)
    ensures Encode(|v|, S(v)) == v
  {
    EncodeCongruent(|v|, U(v), S(v), if Negative(v) then 1 else 0);
    EncodeOfU(v);
  }

  /** Numbers less than 2^n apart with the same encoding are the same number. */
  lemma {:induction false} EncodeInjective(n: nat, x: int, y: int)
    requires Encode(n, x) == Encode(n, y) && 0 - Pow2(n) < x - y < Pow2(n)
    ensures x == y
  {
    hide Encode, U, Pow2;
    var k := SameEncoding(n, x, y);
    SmallMultiple(k, Pow2(n));
  }

  /** Reducing an operand first changes no sum ... */
  lemma {:induction false} EncodeAdd(n: nat, x: int, y: int)
    ensures Encode(n, U(Encode(n, x)) + y) == Encode(n, x + y)
  {
    hide Encode, U, Pow2;
    UEncode(n, x);
    EncodeCongruent(n, x + y, U(Encode(n, x)) + y, Wraps(n, x));
  }

  /** Equal encodings are congruence modulo 2^n. */
  lemma {:induction false} SameEncoding(n: nat, x: int, y: int) returns (k: int)
    requires Encode(n, x) == Encode(n, y)
    ensures x == y + k * Pow2(n)
  {
    hide Encode, U, Pow2;
    UEncode(n, x);
    UEncode(n, y);
    k := Wraps(n, x) - Wraps(n, y);
    MulDistributes(Pow2(n), Wraps(n, x), Wraps(n, y));
  }

  /** Congruent operands have congruent differences. */
  lemma {:induction false} EncodeDifference(n: nat, x: int, x': int, y: int, y': int)
    requires Encode(n, x) == Encode(n, x') && Encode(n, y) == Encode(n, y')
    ensures Encode(n, x - y) == Encode(n, x' - y')
  {
    hide Encode, U, Pow2;
    var k := SameEncoding(n, x, x');
    var j := SameEncoding(n, y, y');
    MulDistributes(Pow2(n), k, j);
    EncodeCongruent(n, x - y, x' - y', k - j);
  }

  /** ... and no product. */
  lemma {:induction false} EncodeMul(n: nat, x: int, y: int)
    ensures Encode(n, U(Encode(n, x)) * y) == Encode(n, x * y)
  {
    hide Encode, U, Pow2;
    UEncode(n, x);
    var u, k, p := U(Encode(n, x)), Wraps(n, x), Pow2(n);
    assert x * y == u * y + (k * y) * p by {
      assert (u + k * p) * y == u * y + (k * y) * p;
    }
    EncodeCongruent(n, x * y, u * y, k * y);
  }

  /** Reduction modulo 2^b loses nothing a narrower reduction would keep. */
  lemma {:induction false} EncodeNarrow(a: nat, b: nat, x: int)
    requires a <= b
    ensures Encode(a, U(Encode(b, x))) == Encode(a, x)
  {
    hide Encode, U, Pow2;
    UEncode(b, x);
    Pow2Add(a, b - a);
    MulAssociative(Wraps(b, x), Pow2(b - a), Pow2(a));
    EncodeCongruent(a, x, U(Encode(b, x)), Wraps(b, x) * Pow2(b - a));
  }

  /** Both readings of a vector agree up to its own width. */
  lemma {:induction false} EncodeUOrS(a: nat, v: BitVector)
    requires a <= |v|
    ensures Encode(a, U(v)) == Encode(a, S(v))
  {
    hide Encode, U;
    EncodeOfS(v);
    EncodeNarrow(a, |v|, S(v));
  }

  /** At its own width a vector adds the same under both readings. */
  lemma {:induction false} EncodeEitherReading(v: BitVector, d: int)
    ensures Encode(|v|, U(v) + d) == Encode(|v|, S(v) + d)
  {
    hide Encode, U, Pow2;
    if Negative(v) {
      EncodeCongruent(|v|, U(v) + d, S(v) + d, 1);
    }
  }

  // ---------------------------------------------------------------- sign extension

  lemma {:induction false} SExpandedNegative(v: BitVector, k: nat)
    requires Negative(v)
    ensures U(v + seq(k, _ => true)) - Pow2(|v| + k) == S(v)
  {
    hide Encode, U, Pow2;
    var ones := seq(k, _ => true);
    UAppend(v, ones);
    assert U(ones) == Pow2(k) - 1 by { UOnes(k); }
    assert Pow2(|v|) * U(ones) == Pow2(|v| + k) - Pow2(|v|) by {
      Pow2Add(|v|, k);
      MulPred(Pow2(|v|), Pow2(k));
    }
  }

  lemma {:induction false} MulPred(a: int, b: int)
    ensures a * (b - 1) == a * b - a
  {
  }

  lemma {:induction false} SExpandedNonNegative(v: BitVector, k: nat)
    ensures U(v + Zeros(k)) == U(v)
  {
    UAppend(v, Zeros(k));
    UZeros(k);
  }

  lemma {:induction false} SExpanded(v: BitVector, n: nat)
    ensures S(Expanded(v, n)) == S(v)
    ensures Negative(Expanded(v, n)) <==> Negative(v)
    ensures Expanded(v, n) == Encode(Max(|v|, n), S(v))
  {
    hide Encode, U, Pow2;
    var k := Max(|v|, n) - |v|;
    if Negative(v) {
      SExpandedNegative(v, k);
      assert Expanded(v, n) == v + seq(k, _ => true);
    } else {
      SExpandedNonNegative(v, k);
      assert Expanded(v, n) == v + Zeros(k);
    }
    EncodeOfS(Expanded(v, n));
  }

  /** A vector that is not negative, or needs no widening, keeps its unsigned value. */
  lemma {:induction false} UExpanded(v: BitVector, n: nat)
    requires n <= |v| || !Negative(v)
    ensures U(Expanded(v, n)) == U(v)
  {
    hide Encode, U, Pow2;
    SExpanded(v, n);
    if n <= |v| {
      assert Expanded(v, n) == v;
    }
  }

  // ---------------------------------------------------------------- the minimum, and magnitudes

  /** The most negative number of its width. */
  predicate IsMin(v: BitVector) {
    v != [] && S(v) == 0 - Pow2(|v| - 1)
  }

  /** Negating within the width gives the magnitude as an unsigned number; its top bit
      is set exactly for the minimum, whose magnitude has no signed representation. */
  lemma {:induction false} Magnitude(v: BitVector)
    requires v != []
    ensures U(Encode(|v|, Abs(S(v)))) == Abs(S(v))
    ensures Negative(Encode(|v|, Abs(S(v)))) <==> IsMin(v)
  {
    hide Encode, U;
    SBounds(v);
    UEncodeSmall(|v|, Abs(S(v)));
    NegativeMeansUpperHalf(Encode(|v|, Abs(S(v))));
  }

  lemma {:induction false} EncodeNegated(n: nat, x: int)
    ensures Encode(n, -S(Encode(n, x))) == Encode(n, -x)
  {
    hide Encode, U;
    EncodeOfS(Encode(n, x));
    EncodeDifference(n, 0, 0, S(Encode(n, x)), x);
  }
}
