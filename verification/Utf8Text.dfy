/** viua::types::Text: segmentation of UTF-8 by the bit patterns of section 3 of RFC 3629, and
    texts that cache the bytes they were made of. */
module Utf8Text {

  type Bytes = seq<bv8>

  datatype Result<T> = Ok(value: T) | OutOfRange | DomainError(what: Bytes)

  // ---------------------------------------------------------------- byte classes

  predicate IsContinuation(b: bv8) {
    b & 0xC0 == 0x80
  }

  /** The number of bytes a lead byte announces, and 0 for a byte that leads nothing. */
  function Width(b: bv8): (w: nat)
    ensures w <= 4
  {
    if b & 0x80 == 0x00 then 1
    else if b & 0xE0 == 0xC0 then 2
    else if b & 0xF0 == 0xE0 then 3
    else if b & 0xF8 == 0xF0 then 4
    else 0
  }

  predicate AllContinuations(s: Bytes) {
    forall k :: 0 <= k < |s| ==> IsContinuation(s[k])
  }

  /** A lead byte and as many continuation bytes as it announces. */
  predicate IsCharacter(c: Bytes) {
    c != [] && Width(c[0]) == |c| && AllContinuations(c[1..])
  }

  function Concat(cs: seq<Bytes>): (s: Bytes) {
    if cs == [] then [] else cs[0] + Concat(cs[1..])
  }

  predicate IsSegmentation(cs: seq<Bytes>, s: Bytes) {
    (forall k :: 0 <= k < |cs| ==> IsCharacter(cs[k])) && Concat(cs) == s
  }

  // ---------------------------------------------------------------- code points

  /** The number that a byte stands for. */
  function Code(b: bv8): (x: nat) {
    b as int
  }

  /** The classes of bytes as ranges of numbers: what leads one to four bytes, what continues, and what is neither. */
  lemma {:induction false} ByteRanges(b: bv8)
    ensures Width(b) == if Code(b) < 0x80 then 1
                        else if Code(b) < 0xC0 then 0
                        else if Code(b) < 0xE0 then 2
                        else if Code(b) < 0xF0 then 3
                        else if Code(b) < 0xF8 then 4
                        else 0
    ensures IsContinuation(b) <==> 0x80 <= Code(b) < 0xC0
  {
    ByteClasses(b);
    ByteOrder(b);
    hide Width, IsContinuation;
  }

  lemma {:induction false} ByteClasses(b: bv8)
    ensures Width(b) == if b < 0x80 then 1
                        else if b < 0xC0 then 0
                        else if b < 0xE0 then 2
                        else if b < 0xF0 then 3
                        else if b < 0xF8 then 4
                        else 0
    ensures IsContinuation(b) <==> 0x80 <= b < 0xC0
  {
  }

  lemma {:induction false} ByteOrder(b: bv8)
    ensures (b < 0x80 <==> b as int < 0x80) && (b < 0xC0 <==> b as int < 0xC0) && (b < 0xE0 <==> b as int < 0xE0)
    ensures (b < 0xF0 <==> b as int < 0xF0) && (b < 0xF8 <==> b as int < 0xF8)
  {
  }

  /** The byte that stands for a number. */
  function Byte(x: nat): (b: bv8)
    requires x < 256
    ensures Code(b) == x
  {
    if x == 0 then 0 else
      NextByte(Byte(x - 1));
      Byte(x - 1) + 1
  }

  lemma {:induction false} NextByte(b: bv8)
    requires Code(b) < 255
    ensures Code(b + 1) == Code(b) + 1
  {
  }

  /** The encoding of a number by section 3 of RFC 3629: one to four bytes by its range, six bits to each byte that
      continues.  Code points end at 0x10FFFF; four bytes have room for somewhat more. */
  function Utf8(c: nat): (s: Bytes)
    requires c < 0x200000
  {
    if c < 0x80 then [Byte(c)]
    else if c < 0x800 then [Byte(0xC0 + c / 64), Byte(0x80 + c % 64)]
    else if c < 0x10000 then [Byte(0xE0 + c / 4096), Byte(0x80 + c / 64 % 64), Byte(0x80 + c % 64)]
    else [Byte(0xF0 + c / 262144), Byte(0x80 + c / 4096 % 64), Byte(0x80 + c / 64 % 64), Byte(0x80 + c % 64)]
  }

  /** The encoding of every code point is one character. */
  lemma {:induction false} EncodingIsCharacter(c: nat)
    requires c < 0x200000
    ensures IsCharacter(Utf8(c))
    ensures |Utf8(c)| == if c < 0x80 then 1 else if c < 0x800 then 2 else if c < 0x10000 then 3 else 4
  {
    hide Width, IsContinuation, Byte, Code;
    var s := Utf8(c);
    ByteRanges(s[0]);
    forall k | 0 <= k < |s| - 1
      ensures IsContinuation(s[1..][k])
    {
      ByteRanges(s[k + 1]);
    }
  }

  function AllUtf8(codes: seq<nat>): (cs: seq<Bytes>)
    requires forall i :: 0 <= i < |codes| ==> codes[i] < 0x200000
    ensures |cs| == |codes|
  {
    seq(|codes|, i requires 0 <= i < |codes| => Utf8(codes[i]))
  }

  /** What the bytes of a character stand for. */
  function Value(c: Bytes): (x: int)
    requires 1 <= |c| <= 4
  {
    match |c|
    case 1 => Code(c[0])
    case 2 => (Code(c[0]) - 0xC0) * 64 + (Code(c[1]) - 0x80)
    case 3 => (Code(c[0]) - 0xE0) * 4096 + (Code(c[1]) - 0x80) * 64 + (Code(c[2]) - 0x80)
    case _ => (Code(c[0]) - 0xF0) * 262144 + (Code(c[1]) - 0x80) * 4096 + (Code(c[2]) - 0x80) * 64 + (Code(c[3]) - 0x80)
  }

  /** A character is the encoding of its value exactly if that value needs all its bytes: overlong forms, which
      section 3 of RFC 3629 forbids, are characters too. */
  lemma {:induction false} CharacterIsEncodingIff(c: Bytes)
    requires IsCharacter(c)
    ensures 1 <= |c| <= 4 && 0 <= Value(c) < 0x200000
    ensures c == Utf8(Value(c))
            <==> match |c|
                 case 1 => true
                 case 2 => Value(c) >= 0x80
                 case 3 => Value(c) >= 0x800
                 case _ => Value(c) >= 0x10000
  {
    CharacterBytes(c);
    hide Width, IsContinuation, Byte, IsCharacter, Utf8, Code;
    EncodingIsCharacter(Value(c));
    if |Utf8(Value(c))| == |c| {
      SixBitsEach(c);
    }
  }

  /** Six bits at a time, the value of a character gives its bytes again. */
  lemma {:induction false} SixBitsEach(c: Bytes)
    requires IsCharacter(c) && 1 <= |c| <= 4 && 0 <= Value(c) < 0x200000 && |Utf8(Value(c))| == |c|
    ensures Utf8(Value(c)) == c
  {
    hide Width, IsContinuation, Byte, IsCharacter, Utf8, Code;
    CharacterBytes(c);
    var x, e := Value(c), Utf8(Value(c));
    EncodedBytes(x);
    if |c| == 1 {
      SameByte(e[0], c[0]);
    } else if |c| == 2 {
      TwoBytes(c, e, x);
    } else if |c| == 3 {
      ThreeBytes(c, e, x);
    } else {
      FourBytes(c, e, x);
    }
  }

  lemma {:induction false} TwoBytes(s: Bytes, e: Bytes, x: nat)
    requires |s| == |e| == 2 && 0xC0 <= Code(s[0]) < 0xE0 && 0x80 <= Code(s[1]) < 0xC0
    requires x == (Code(s[0]) - 0xC0) * 64 + (Code(s[1]) - 0x80)
    requires Code(e[0]) == 0xC0 + x / 64 && Code(e[1]) == 0x80 + x % 64
    ensures e == s
  {
    hide Code;
    Split(0, 0, Code(s[0]) - 0xC0, Code(s[1]) - 0x80);
    SameByte(e[0], s[0]);
    SameByte(e[1], s[1]);
  }

  lemma {:induction false} ThreeBytes(s: Bytes, e: Bytes, x: nat)
    requires |s| == |e| == 3 && 0xE0 <= Code(s[0]) < 0xF0 && 0x80 <= Code(s[1]) < 0xC0 && 0x80 <= Code(s[2]) < 0xC0
    requires x == (Code(s[0]) - 0xE0) * 4096 + (Code(s[1]) - 0x80) * 64 + (Code(s[2]) - 0x80)
    requires Code(e[0]) == 0xE0 + x / 4096 && Code(e[1]) == 0x80 + x / 64 % 64 && Code(e[2]) == 0x80 + x % 64
    ensures e == s
  {
    hide Code;
    Split(0, Code(s[0]) - 0xE0, Code(s[1]) - 0x80, Code(s[2]) - 0x80);
    SameByte(e[0], s[0]);
    SameByte(e[1], s[1]);
    SameByte(e[2], s[2]);
  }

  lemma {:induction false} FourBytes(s: Bytes, e: Bytes, x: nat)
    requires |s| == |e| == 4 && 0xF0 <= Code(s[0]) < 0xF8
    requires 0x80 <= Code(s[1]) < 0xC0 && 0x80 <= Code(s[2]) < 0xC0 && 0x80 <= Code(s[3]) < 0xC0
    requires x == (Code(s[0]) - 0xF0) * 262144 + (Code(s[1]) - 0x80) * 4096 + (Code(s[2]) - 0x80) * 64
                  + (Code(s[3]) - 0x80)
    requires Code(e[0]) == 0xF0 + x / 262144 && Code(e[1]) == 0x80 + x / 4096 % 64
    requires Code(e[2]) == 0x80 + x / 64 % 64 && Code(e[3]) == 0x80 + x % 64
    ensures e == s
  {
    hide Code;
    Split(Code(s[0]) - 0xF0, Code(s[1]) - 0x80, Code(s[2]) - 0x80, Code(s[3]) - 0x80);
    SameByte(e[0], s[0]);
    SameByte(e[1], s[1]);
    SameByte(e[2], s[2]);
    SameByte(e[3], s[3]);
  }

  lemma {:induction false} EncodedBytes(x: nat)
    requires x < 0x200000
    ensures var s := Utf8(x);
            1 <= |s| <= 4 &&
            match |s|
            case 1 => Code(s[0]) == x
            case 2 => Code(s[0]) == 0xC0 + x / 64 && Code(s[1]) == 0x80 + x % 64
            case 3 => Code(s[0]) == 0xE0 + x / 4096 && Code(s[1]) == 0x80 + x / 64 % 64 && Code(s[2]) == 0x80 + x % 64
            case _ => && Code(s[0]) == 0xF0 + x / 262144 && Code(s[1]) == 0x80 + x / 4096 % 64
                      && Code(s[2]) == 0x80 + x / 64 % 64 && Code(s[3]) == 0x80 + x % 64
  {
    hide Byte;
  }

  /** The digits of a number to the base 64. */
  lemma {:induction false} Split(d: nat, c: nat, b: nat, a: nat)
    requires d < 64 && c < 64 && b < 64 && a < 64
    ensures var x := d * 262144 + c * 4096 + b * 64 + a;
            && x / 262144 == d && x / 4096 == d * 64 + c && x / 4096 % 64 == c
            && x / 64 == d * 4096 + c * 64 + b && x / 64 % 64 == b && x % 64 == a
  {
  }

  lemma {:induction false} CharacterBytes(c: Bytes)
    requires IsCharacter(c)
    ensures 1 <= |c| <= 4
    ensures match |c|
            case 1 => Code(c[0]) < 0x80
            case 2 => 0xC0 <= Code(c[0]) < 0xE0
            case 3 => 0xE0 <= Code(c[0]) < 0xF0
            case _ => 0xF0 <= Code(c[0]) < 0xF8
    ensures forall k :: 1 <= k < |c| ==> 0x80 <= Code(c[k]) < 0xC0
  {
    hide Width, IsContinuation;
    ByteRanges(c[0]);
    forall k | 1 <= k < |c|
      ensures 0x80 <= Code(c[k]) < 0xC0
    {
      assert IsContinuation(c[1..][k - 1]);
      ByteRanges(c[k]);
    }
  }

  lemma {:induction false} SameByte(a: bv8, b: bv8)
    ensures Code(a) == Code(b) ==> a == b
  {
  }

  // ---------------------------------------------------------------- segmentation

  predicate StartsWithCharacter(s: Bytes) {
    s != [] && 1 <= Width(s[0]) <= |s| && AllContinuations(s[1..Width(s[0])])
  }

  /** The split of `s`, if there is one. */
  predicate Accepted(s: Bytes) {
    s == [] || (StartsWithCharacter(s) && Accepted(s[Width(s[0])..]))
  }

  function Segments(s: Bytes): (cs: seq<Bytes>)
    requires Accepted(s)
  {
    if s == [] then [] else [s[..Width(s[0])]] + Segments(s[Width(s[0])..])
  }

  lemma {:induction false} SegmentsIsSegmentation(s: Bytes)
    requires Accepted(s)
    ensures IsSegmentation(Segments(s), s)
  {
    if s != [] {
      var w := Width(s[0]);
      SegmentsIsSegmentation(s[w..]);
      assert s[..w][1..] == s[1..w];
      assert Segments(s)[1..] == Segments(s[w..]);
    }
  }

  /** A string that splits is accepted, and splits in one way only. */
  lemma {:induction false} SegmentationIsUnique(cs: seq<Bytes>, s: Bytes)
    requires IsSegmentation(cs, s)
    ensures Accepted(s) && Segments(s) == cs
  {
    if cs != [] {
      var w := |cs[0]|;
      assert s == cs[0] + Concat(cs[1..]);
      assert s[..w] == cs[0] && s[w..] == Concat(cs[1..]) && s[1..w] == cs[0][1..];
      SegmentationIsUnique(cs[1..], s[w..]);
    }
  }

  /** Accepted exactly when some split into characters exists. */
  lemma {:induction false} AcceptedIffSegmented(s: Bytes)
    ensures Accepted(s) <==> exists cs :: IsSegmentation(cs, s)
  {
    if Accepted(s) {
      SegmentsIsSegmentation(s);
    }
    forall cs | IsSegmentation(cs, s)
      ensures Accepted(s)
    {
      SegmentationIsUnique(cs, s);
    }
  }

  lemma {:induction false} FirstStep(s: Bytes)
    requires s != []
    ensures var w := Width(s[0]);
            && (Accepted(s) <==> StartsWithCharacter(s) && Accepted(s[w..]))
            && (Accepted(s) ==> Segments(s) == [s[..w]] + Segments(s[w..]))
  {
    hide Width, AllContinuations;
  }

  lemma {:induction false} LongerStart(a: Bytes, b: Bytes)
    requires StartsWithCharacter(a)
    ensures StartsWithCharacter(a + b)
    ensures var w := Width(a[0]); (a + b)[w..] == a[w..] + b && (a + b)[..w] == a[..w]
  {
    hide Width, IsContinuation;
    var w := Width(a[0]);
    assert (a + b)[1..w] == a[1..w];
  }

  /** After an accepted string, segmentation starts afresh. */
  lemma {:induction false} SegmentsDistribute(a: Bytes, b: Bytes)
    requires Accepted(a)
    ensures Accepted(a + b) <==> Accepted(b)
    ensures Accepted(b) ==> Segments(a + b) == Segments(a) + Segments(b)
  {
    if a == [] {
      assert a + b == b;
    } else {
      hide Accepted, Segments, StartsWithCharacter, Width;
      var w := Width(a[0]);
      FirstStep(a);
      FirstStep(a + b);
      LongerStart(a, b);
      SegmentsDistribute(a[w..], b);
      if Accepted(b) {
        assert [a[..w]] + (Segments(a[w..]) + Segments(b)) == [a[..w]] + Segments(a[w..]) + Segments(b);
      }
    }
  }

  // ---------------------------------------------------------------- parsing

  /** A character goes through a zero-terminated buffer, so the zero byte comes out empty. */
  function Stored(c: Bytes): (r: Bytes) {
    if c == [0] then [] else c
  }

  function AllStored(cs: seq<Bytes>): (rs: seq<Bytes>)
    ensures |rs| == |cs|
  {
    seq(|cs|, i requires 0 <= i < |cs| => Stored(cs[i]))
  }

  /** What is thrown for a string that is not accepted: reading past the end comes first. */
  function Fault(s: Bytes, whole: Bytes): (r: Result<seq<Bytes>>)
    requires !Accepted(s)
    ensures !r.Ok?
  {
    if StartsWithCharacter(s) then Fault(s[Width(s[0])..], whole)
    else if Width(s[0]) > |s| then OutOfRange
    else DomainError(whole)
  }

  method Parse(s: Bytes) returns (r: Result<seq<Bytes>>)
    ensures Accepted(s) ==> r == Ok(AllStored(Segments(s)))
    ensures !Accepted(s) ==> r == Fault(s, s)
  {
    hide Accepted, Segments, Fault, Width, IsContinuation, AllStored, Progress, AllContinuations;
    var parsed: seq<Bytes> := [];
    var i := 0;
    ProgressStart(s);
    while i < |s|
      invariant 0 <= i <= |s| && Progress(s, i, parsed)
    {
      // Reading a byte past the end throws before any byte is looked at.
      var w := Width(s[i]);
      if i + w > |s| {
        FaultHere(s, i, parsed);
        return OutOfRange;
      }
      StartsIff(s, i);
      var first := w < 2 || IsContinuation(s[i + 1]);
      var second := w < 3 || IsContinuation(s[i + 2]);
      var third := w < 4 || IsContinuation(s[i + 3]);
      if w == 0 || !first || !second || !third {
        FaultHere(s, i, parsed);
        return DomainError(s);
      }
      NextCharacter(s, i, parsed);
      parsed := parsed + [Stored(s[i..i + w])];
      i := i + w;
    }
    ProgressEnd(s, parsed);
    return Ok(parsed);
  }

  /** What remains to be parsed decides the outcome, and completes what has been parsed. */
  ghost predicate Progress(s: Bytes, i: nat, parsed: seq<Bytes>)
    requires i <= |s|
  {
    if Accepted(s) then
      Accepted(s[i..]) && AllStored(Segments(s)) == parsed + AllStored(Segments(s[i..]))
    else
      !Accepted(s[i..]) && Fault(s, s) == Fault(s[i..], s)
  }

  lemma {:induction false} ProgressStart(s: Bytes)
    ensures Progress(s, 0, [])
  {
    hide Accepted, Segments, Fault, AllStored;
    assert s[0..] == s;
    if Accepted(s) {
      assert [] + AllStored(Segments(s)) == AllStored(Segments(s));
    }
  }

  lemma {:induction false} ProgressEnd(s: Bytes, parsed: seq<Bytes>)
    requires Progress(s, |s|, parsed)
    ensures Accepted(s) && AllStored(Segments(s)) == parsed
  {
    assert s[|s|..] == [] && AllStored(Segments([])) == [];
    hide Segments, Fault, AllStored;
    assert parsed + [] == parsed;
  }

  lemma {:induction false} StartsIff(s: Bytes, i: nat)
    requires i < |s| && i + Width(s[i]) <= |s|
    ensures var w := Width(s[i]);
            StartsWithCharacter(s[i..])
            <==> && w >= 1
                 && (w < 2 || IsContinuation(s[i + 1]))
                 && (w < 3 || IsContinuation(s[i + 2]))
                 && (w < 4 || IsContinuation(s[i + 3]))
  {
    hide IsContinuation;
    var w := Width(s[i]);
    hide Width;
    var tail := if w >= 1 then s[i..][1..w] else [];
    assert forall k :: 0 <= k < |tail| ==> tail[k] == s[i + k + 1];
    assert w >= 2 ==> tail[0] == s[i + 1];
    assert w >= 3 ==> tail[1] == s[i + 2];
    assert w >= 4 ==> tail[2] == s[i + 3];
  }

  lemma {:induction false} FaultHere(s: Bytes, i: nat, parsed: seq<Bytes>)
    requires i < |s| && !StartsWithCharacter(s[i..]) && Progress(s, i, parsed)
    ensures !Accepted(s)
    ensures Fault(s, s) == if i + Width(s[i]) > |s| then OutOfRange else DomainError(s)
  {
    hide Width, AllContinuations, Segments, AllStored;
    FirstStep(s[i..]);
  }

  lemma {:induction false} NextCharacter(s: Bytes, i: nat, parsed: seq<Bytes>)
    requires i < |s| && StartsWithCharacter(s[i..]) && Progress(s, i, parsed)
    ensures i + Width(s[i]) <= |s|
    ensures Progress(s, i + Width(s[i]), parsed + [Stored(s[i..i + Width(s[i])])])
  {
    hide Accepted, Segments, Width, AllContinuations, AllStored;
    var w := Width(s[i]);
    FirstStep(s[i..]);
    assert s[i..][w..] == s[i + w..] && s[i..][..w] == s[i..i + w];
    if Accepted(s[i..]) {
      StoredStep(s[i..i + w], Segments(s[i + w..]));
      assert parsed + ([Stored(s[i..i + w])] + AllStored(Segments(s[i + w..])))
          == parsed + [Stored(s[i..i + w])] + AllStored(Segments(s[i + w..]));
    }
  }

  lemma {:induction false} StoredStep(c: Bytes, cs: seq<Bytes>)
    ensures AllStored([c] + cs) == [Stored(c)] + AllStored(cs)
  {
  }

  /** Parsing the encoding of any text gives the encodings of its code points, one character each. */
  lemma {:induction false} EncodedTextParses(codes: seq<nat>)
    requires forall i :: 0 <= i < |codes| ==> codes[i] < 0x200000
    ensures Accepted(Concat(AllUtf8(codes))) && Segments(Concat(AllUtf8(codes))) == AllUtf8(codes)
    ensures (forall i :: 0 <= i < |codes| ==> codes[i] != 0) ==> AllStored(AllUtf8(codes)) == AllUtf8(codes)
  {
    hide IsCharacter, Utf8, Accepted, Segments;
    var cs := AllUtf8(codes);
    forall i | 0 <= i < |cs|
      ensures IsCharacter(cs[i]) && (codes[i] != 0 ==> cs[i] != [0])
    {
      EncodingIsCharacter(codes[i]);
      if codes[i] != 0 {
        OnlyZeroIsZero(codes[i]);
      }
    }
    SegmentationIsUnique(cs, Concat(cs));
  }

  lemma {:induction false} OnlyZeroIsZero(c: nat)
    requires 0 < c < 0x200000
    ensures Utf8(c) != [0]
  {
    hide Byte;
    assert Code(0) == 0;
  }

  /** Which exception it is: reading past the end, exactly if after some characters a lead byte announces more bytes
      than are left; and otherwise the whole string is refused. */
  lemma {:induction false} FaultIsOutOfRangeIff(s: Bytes, whole: Bytes)
    requires !Accepted(s)
    ensures Fault(s, whole) == OutOfRange <==> exists i :: EndsEarly(s, i)
    ensures Fault(s, whole) != OutOfRange ==> Fault(s, whole) == DomainError(whole)
  {
    hide Width, AllContinuations, EndsEarly;
    var w := Width(s[0]);
    if StartsWithCharacter(s) {
      FaultIsOutOfRangeIff(s[w..], whole);
      FaultLater(s);
    } else {
      NoStartEndsEarlyIff(s);
    }
  }

  lemma {:induction false} NoStartEndsEarlyIff(s: Bytes)
    requires s != [] && !StartsWithCharacter(s)
    ensures (exists i :: EndsEarly(s, i)) <==> Width(s[0]) > |s|
  {
    hide Width, AllContinuations;
    assert s[..0] == [];
    forall i | 0 < i < |s|
      ensures !EndsEarly(s, i)
    {
      FirstOfPrefix(s, i);
    }
    if Width(s[0]) > |s| {
      assert EndsEarly(s, 0);
    }
  }

  lemma {:induction false} FirstOfPrefix(s: Bytes, i: nat)
    requires 0 < i <= |s| && !StartsWithCharacter(s)
    ensures !Accepted(s[..i])
  {
    hide Width, IsContinuation;
    assert s[..i] + s[i..] == s;
    if StartsWithCharacter(s[..i]) {
      LongerStart(s[..i], s[i..]);
    }
  }

  ghost predicate EndsEarly(s: Bytes, i: nat) {
    i < |s| && Accepted(s[..i]) && Width(s[i]) > |s| - i
  }

  lemma {:induction false} FaultLater(s: Bytes)
    requires StartsWithCharacter(s)
    ensures (exists i :: EndsEarly(s, i)) <==> exists i :: EndsEarly(s[Width(s[0])..], i)
  {
    StartBounds(s);
    hide Width, AllContinuations, StartsWithCharacter, Accepted, EndsEarly;
    var w := Width(s[0]);
    if i :| EndsEarly(s, i) {
      EndsEarlyAfter(s, i);
      assert EndsEarly(s[w..], i - w);
    }
    if j :| EndsEarly(s[w..], j) {
      EndsEarlyBefore(s, j);
      assert EndsEarly(s, w + j);
    }
  }

  lemma {:induction false} EndsEarlyAfter(s: Bytes, i: nat)
    requires StartsWithCharacter(s) && EndsEarly(s, i)
    ensures i >= Width(s[0]) && EndsEarly(s[Width(s[0])..], i - Width(s[0]))
  {
    hide Width, AllContinuations, Accepted;
    var w := Width(s[0]);
    PrefixStarts(s, i);
    assert s[..i][w..] == s[w..][..i - w];
  }

  lemma {:induction false} EndsEarlyBefore(s: Bytes, j: nat)
    requires StartsWithCharacter(s) && EndsEarly(s[Width(s[0])..], j)
    ensures EndsEarly(s, Width(s[0]) + j)
  {
    hide Width, AllContinuations, Accepted;
    PrefixContinues(s, j);
  }

  lemma {:induction false} StartBounds(s: Bytes)
    requires StartsWithCharacter(s)
    ensures s != [] && 1 <= Width(s[0]) <= |s|
  {
  }

  lemma {:induction false} PrefixStarts(s: Bytes, i: nat)
    requires StartsWithCharacter(s) && i < |s| && Accepted(s[..i]) && Width(s[i]) > |s| - i
    ensures Width(s[0]) <= i && Accepted(s[..i][Width(s[0])..])
  {
    hide Width, AllContinuations;
    if i > 0 {
      FirstStep(s[..i]);
    }
  }

  lemma {:induction false} PrefixContinues(s: Bytes, j: nat)
    requires StartsWithCharacter(s) && Width(s[0]) + j <= |s| && Accepted(s[Width(s[0])..][..j])
    ensures Accepted(s[..Width(s[0]) + j])
  {
    hide Width, IsContinuation;
    var w := Width(s[0]);
    var t := s[..w + j];
    assert t[1..w] == s[1..w] && t[w..] == s[w..][..j];
  }

  /** A character other than the zero byte holds no zero byte. */
  lemma {:induction false} NoZeroInside(c: Bytes)
    requires IsCharacter(c)
    ensures 0 in c <==> c == [0]
  {
    if |c| > 1 {
      forall k | 0 < k < |c|
        ensures c[k] != 0
      {
        assert IsContinuation(c[1..][k - 1]);
        ContinuationIsNotZero(c[k]);
      }
      LongLeadIsNotZero(c[0]);
    } else {
      assert c == [c[0]];
    }
  }

  lemma {:induction false} ContinuationIsNotZero(b: bv8)
    requires IsContinuation(b)
    ensures b != 0
  {
  }

  lemma {:induction false} LongLeadIsNotZero(b: bv8)
    ensures Width(b) != 1 ==> b != 0
  {
  }

  function WithoutZeros(s: Bytes): (r: Bytes) {
    if s == [] then [] else (if s[0] == 0 then [] else [s[0]]) + WithoutZeros(s[1..])
  }

  lemma {:induction false} WithoutZerosAppend(a: Bytes, b: Bytes)
    ensures WithoutZeros(a + b) == WithoutZeros(a) + WithoutZeros(b)
  {
    if a == [] {
      assert a + b == b;
    } else {
      assert (a + b)[1..] == a[1..] + b;
      var head := if a[0] == 0 then [] else [a[0]];
      var x, y := WithoutZeros(a[1..]), WithoutZeros(b);
      WithoutZerosAppend(a[1..], b);
      assert WithoutZeros(a + b) == head + WithoutZeros(a[1..] + b);
      hide WithoutZeros;
      assert head + (x + y) == head + x + y;
    }
  }

  lemma {:induction false} NoZerosToLose(a: Bytes)
    requires 0 !in a
    ensures WithoutZeros(a) == a
  {
    if a != [] {
      assert a[0] in a;
      NoZerosToLose(a[1..]);
      assert a == [a[0]] + a[1..];
    }
  }

  /** What was parsed gives back the input but for its zero bytes, so all of it exactly when it holds none. */
  lemma {:induction false} StoredConcatIff(cs: seq<Bytes>)
    requires forall k :: 0 <= k < |cs| ==> IsCharacter(cs[k])
    ensures Concat(AllStored(cs)) == WithoutZeros(Concat(cs))
    ensures |Concat(AllStored(cs))| <= |Concat(cs)|
    ensures Concat(AllStored(cs)) == Concat(cs) <==> 0 !in Concat(cs)
    ensures 0 !in Concat(cs) ==> AllStored(cs) == cs
  {
    if cs != [] {
      var c, rest := cs[0], cs[1..];
      StoredConcatIff(rest);
      NoZeroInside(c);
      StoredStep(c, rest);
      assert [c] + rest == cs;
      StoredFirst(c, rest);
      hide Concat, AllStored, WithoutZeros, IsCharacter;
      if c == [0] {
        assert 0 in c + Concat(rest);
      } else {
        Prepended(c, Concat(AllStored(rest)), Concat(rest));
      }
    }
  }

  lemma {:induction false} Prepended(c: Bytes, a: Bytes, b: Bytes)
    ensures c + a == c + b <==> a == b
  {
    assert (c + a)[|c|..] == a && (c + b)[|c|..] == b;
  }

  lemma {:induction false} StoredFirst(c: Bytes, rest: seq<Bytes>)
    requires IsCharacter(c) && (0 in c <==> c == [0])
    ensures Concat([c] + rest) == c + Concat(rest)
    ensures Concat(AllStored([c] + rest)) == Stored(c) + Concat(AllStored(rest))
    ensures WithoutZeros(c + Concat(rest)) == Stored(c) + WithoutZeros(Concat(rest))
  {
    hide AllStored, IsCharacter;
    StoredStep(c, rest);
    assert ([c] + rest)[1..] == rest;
    assert ([Stored(c)] + AllStored(rest))[1..] == AllStored(rest);
    WithoutZerosAppend(c, Concat(rest));
    if c == [0] {
      assert WithoutZeros([0]) == [];
    } else {
      NoZerosToLose(c);
    }
  }

  // ---------------------------------------------------------------- texts

  /** The characters, and the cached bytes that data() hands out. */
  datatype Text = Text(text: seq<Bytes>, textStr: Bytes) {
    /** The cached bytes are what str() would rebuild. */
    predicate Agrees() {
      textStr == Concat(text)
    }
  }

  lemma {:induction false} ConcatAppend(cs: seq<Bytes>, ds: seq<Bytes>)
    ensures Concat(cs + ds) == Concat(cs) + Concat(ds)
  {
    if cs == [] {
      assert cs + ds == ds;
    } else {
      ConcatAppend(cs[1..], ds);
      assert (cs + ds)[1..] == cs[1..] + ds;
    }
  }

  method Str(text: seq<Bytes>) returns (s: Bytes)
    ensures s == Concat(text)
  {
    s := [];
    for i := 0 to |text|
      invariant s == Concat(text[..i])
    {
      ConcatAppend(text[..i], [text[i]]);
      assert text[..i + 1] == text[..i] + [text[i]];
      s := s + text[i];
    }
    assert text[..|text|] == text;
  }

  /** A text made of bytes caches them as given, zero bytes included. */
  method FromBytes(s: Bytes) returns (r: Result<Text>)
    ensures r.Ok? <==> Accepted(s)
    ensures !Accepted(s) ==> (r.OutOfRange? <==> Fault(s, s).OutOfRange?)
    ensures r.Ok? ==> r.value.textStr == s && r.value.text == AllStored(Segments(s))
    ensures r.Ok? ==> (r.value.Agrees() <==> 0 !in s)
    ensures r.Ok? && 0 !in s ==> IsSegmentation(r.value.text, s)
  {
    var text := Parse(s);
    match text
    case Ok(cs) =>
      SegmentsIsSegmentation(s);
      StoredConcatIff(Segments(s));
      return Ok(Text(cs, s));
    case OutOfRange =>
      return OutOfRange;
    case DomainError(what) =>
      return DomainError(what);
  }

  method FromCharacters(cs: seq<Bytes>) returns (t: Text)
    ensures t.text == cs && t.Agrees()
  {
    var s := Str(cs);
    t := Text(cs, s);
  }

  /** A copy is rebuilt from the characters, so its cache agrees even if the original's did not. */
  method Copy(t: Text) returns (r: Text)
    ensures r.text == t.text && r.Agrees()
    ensures r == t <==> t.Agrees()
  {
    r := FromCharacters(t.text);
  }

  method Plus(a: Text, b: Text) returns (r: Text)
    ensures r.text == a.text + b.text && r.Agrees()
    ensures a.Agrees() && b.Agrees() ==> r.textStr == a.textStr + b.textStr
  {
    var copied: seq<Bytes> := [];
    for i := 0 to |a.text|
      invariant copied == a.text[..i]
    {
      copied := copied + [a.text[i]];
    }
    for i := 0 to |b.text|
      invariant copied == a.text + b.text[..i]
    {
      copied := copied + [b.text[i]];
    }
    ConcatAppend(a.text, b.text);
    assert copied == a.text + b.text;
    r := FromCharacters(copied);
  }

  /** The characters from `first` up to but not including `last`, as far as they exist. */
  method Sub(t: Text, first: nat, last: nat) returns (r: Text)
    ensures r.Agrees()
    ensures var end := if last < |t.text| then last else |t.text|;
            r.text == if first < end then t.text[first..end] else []
  {
    var copied: seq<Bytes> := [];
    var i := first;
    while i < |t.text| && i < last
      invariant first <= i && (i <= last || i == first) && (i <= |t.text| || i == first)
      invariant copied == if first < i then t.text[first..i] else []
      invariant i > first ==> i <= |t.text| && i <= last
      decreases last - i
    {
      copied := copied + [t.text[i]];
      i := i + 1;
    }
    r := FromCharacters(copied);
  }

  /** Joining two parsed texts is parsing the joined bytes. */
  lemma {:induction false} ConcatenationParses(a: Bytes, b: Bytes)
    requires Accepted(a) && Accepted(b)
    ensures Accepted(a + b)
    ensures AllStored(Segments(a + b)) == AllStored(Segments(a)) + AllStored(Segments(b))
  {
    SegmentsDistribute(a, b);
  }

  /** Any part of a text of zero-free bytes parses again to exactly its characters. */
  lemma {:induction false} PartParses(s: Bytes, first: nat, last: nat)
    requires Accepted(s) && 0 !in s && first <= last <= |Segments(s)|
    ensures var part := Segments(s)[first..last];
            Accepted(Concat(part)) && Segments(Concat(part)) == part && 0 !in Concat(part)
  {
    SegmentsIsSegmentation(s);
    var cs := Segments(s);
    var part := cs[first..last];
    assert IsSegmentation(part, Concat(part));
    SegmentationIsUnique(part, Concat(part));
    assert cs == cs[..first] + part + cs[last..];
    ConcatAppend(cs[..first] + part, cs[last..]);
    ConcatAppend(cs[..first], part);
  }
}
