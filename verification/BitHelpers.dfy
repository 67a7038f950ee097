/** The width and bit-inspection helpers at the head of src/types/bits.cpp. */
module BitHelpers {
  import opened BitVectors
  import opened Wrappers

  method BinaryExpand(v: BitVector, n: nat) returns (r: BitVector)
    ensures r == Expanded(v, n)
    ensures |r| == Max(|v|, n) && S(r) == S(v)
  {
    var expandingValue := if |v| > 0 then v[|v| - 1] else false;
    r := v;
    while |r| < n
      invariant |v| <= |r| <= Max(|v|, n)
      invariant r == v + seq(|r| - |v|, _ => expandingValue)
    {
      r := r + [expandingValue];
    }
    SExpanded(v, n);
  }

  lemma {:induction false} EncodePrefix(v: BitVector, w: nat)
    requires w <= |v|
    ensures Encode(w, U(v)) == v[..w]
  {
    hide U, Encode, Pow2;
    assert v == v[..w] + v[w..];
    UAppend(v[..w], v[w..]);
    EncodeCongruent(w, U(v), U(v[..w]), U(v[w..]));
    EncodeOfU(v[..w]);
  }

  /** Clipping truncates, and pads with zeroes: the unsigned value modulo 2^width. */
  method BinaryClip(bits: BitVector, width: nat) returns (r: BitVector)
    ensures r == Encode(width, U(bits))
  {
    var n := if |bits| < width then |bits| else width;
    r := bits[..n] + Zeros(width)[n..];
    r := BinaryExpand(r, width);
    if width <= |bits| {
      EncodePrefix(bits, width);
    } else {
      SExpandedNonNegative(bits, width - n);
      assert r == bits + Zeros(width - n);
      EncodeOfU(r);
    }
  }

  function Inverted(v: BitVector): (w: BitVector) {
    seq(|v|, i requires 0 <= i < |v| => !v[i])
  }

  lemma {:induction false} UInverted(v: BitVector)
    ensures U(Inverted(v)) == Pow2(|v|) - 1 - U(v)
  {
    if v != [] {
      UInverted(v[1..]);
      assert Inverted(v)[1..] == Inverted(v[1..]);
    }
  }

  /** Inversion is the reflection x -> -1 - x, on either reading of the vector. */
  method BinaryInversion(v: BitVector) returns (r: BitVector)
    ensures |r| == |v| && U(r) == Pow2(|v|) - 1 - U(v)
    ensures v != [] ==> S(r) == -1 - S(v)
  {
    r := [];
    for i := 0 to |v|
      invariant r == Inverted(v)[..i]
    {
      r := r + [!v[i]];
    }
    UInverted(v);
    assert r == Inverted(v);
  }

  method BinaryToBool(v: BitVector) returns (r: bool)
    ensures r <==> U(v) != 0
  {
    for i := 0 to |v|
      invariant forall k :: 0 <= k < i ==> !v[k]
    {
      if v[i] {
        if U(v) == 0 {
          UZeroMeansZeros(v);
        }
        return true;
      }
    }
    assert v == Zeros(|v|);
    UZeros(|v|);
    return false;
  }

  method BinaryIsNegative(v: BitVector) returns (r: bool)
    requires v != []
    ensures r <==> S(v) < 0
  {
    SBounds(v);
    return v[|v| - 1];
  }

  /** The position of the most significant set bit brackets the value between powers of two. */
  method BinaryLastBitSet(v: BitVector) returns (r: Option<nat>)
    ensures r.None? <==> U(v) == 0
    ensures r.Some? ==> r.value < |v| && Pow2(r.value) <= U(v) < Pow2(r.value + 1)
  {
    r := None;
    var i := |v|;
    while i > 0
      invariant 0 <= i <= |v|
      invariant forall k :: i <= k < |v| ==> !v[k]
    {
      if v[i - 1] {
        SExpandedNonNegative(v[..i], |v| - i);
        assert v == v[..i] + Zeros(|v| - i);
        UPrefix(v, i - 1);
        UBound(v[..i]);
        return Some(i - 1);
      }
      i := i - 1;
    }
    assert v == Zeros(|v|);
    UZeros(|v|);
  }

  /** Equality after sign extension is equality of the signed values, at any widths. */
  method BinaryEq(lhs: BitVector, rhs: BitVector) returns (r: bool)
    ensures r <==> S(lhs) == S(rhs)
  {
    hide U, Encode, Pow2, S, Expanded;
    var l := BinaryExpand(lhs, Max(|lhs|, |rhs|));
    var r' := BinaryExpand(rhs, Max(|l|, |rhs|));
    EncodeOfS(l);
    EncodeOfS(r');
    for i := 0 to |l|
      invariant l[..i] == r'[..i]
    {
      if l[i] != r'[i] {
        return false;
      }
      assert l[..i + 1] == l[..i] + [l[i]] && r'[..i + 1] == r'[..i] + [r'[i]];
    }
    assert l[..|l|] == l && r'[..|l|] == r';
    return true;
  }
}
