/** Process identifiers: the emitter's five counters and the printed form. */
module Pids {

  const TWO16: nat := 0x1_0000
  const TWO32: nat := 0x1_0000_0000
  const TWO64: nat := 0x1_0000_0000_0000_0000

  /** The value an unsigned integer with `p` states is left with. */
  function Wrap(x: nat, p: nat): (r: nat)
    requires p > 0
    ensures r < p
  {
    x % p
  }

  predicate Multiple(x: nat, d: nat)
    requires d > 0
  {
    x % d == 0
  }

  datatype Pid = Pid(base: nat, big: nat, small: nat, n: nat, m: nat) {
    /** Each component is held in an unsigned integer of its own width. */
    predicate InRange() {
      base < TWO64 && big < TWO64 && small < TWO32 && n < TWO16 && m < TWO16
    }
  }

  /** The random constants chosen when the machine starts. */
  datatype Seeding = Seeding(base: nat, bigOffset: nat, smallOffset: nat,
                             nModulo: nat, nOffset: nat, mModulo: nat, mOffset: nat) {
    predicate InRange() {
      && base < TWO64 && bigOffset < TWO64 && smallOffset < TWO32
      && 3 <= nModulo < 256 && nOffset < TWO16
      && 4 <= mModulo < 256 && mOffset < 256
    }
  }

  // ---------------------------------------------------------------- the sequence of identifiers

  /** How often the fourth counter has been stepped in the first `k` emits. */
  function NSteps(k: nat, modulo: nat): (c: nat)
    requires modulo > 0
  {
    if k == 0 then 0 else NSteps(k - 1, modulo) + if Multiple(Wrap(k, TWO64), modulo) then 1 else 0
  }

  /** How often the fifth counter has been stepped: it looks at the third one on every emit. */
  function MSteps(k: nat, modulo: nat): (c: nat)
    requires modulo > 0
  {
    if k == 0 then 0 else MSteps(k - 1, modulo) + if Multiple(Wrap(k / 2, TWO32), modulo) then 1 else 0
  }

  /** The `k`-th identifier, counting from one. */
  function PidAt(s: Seeding, k: nat): (p: Pid)
    requires s.InRange()
    ensures p.InRange()
  {
    Pid(s.base, Wrap(s.bigOffset + k, TWO64), Wrap(s.smallOffset + k / 2, TWO32),
        Wrap(s.nOffset + NSteps(k, s.nModulo), TWO16), Wrap(s.mOffset + MSteps(k, s.mModulo), TWO16))
  }

  class PidEmitter {
    const seeding: Seeding
    var big: nat
    var small: nat
    var n: nat
    var m: nat
    ghost var emitted: nat

    ghost predicate Valid()
      reads this
    {
      && seeding.InRange()
      && big == Wrap(emitted, TWO64)
      && small == Wrap(emitted / 2, TWO32)
      && n == Wrap(NSteps(emitted, seeding.nModulo), TWO16)
      && m == Wrap(MSteps(emitted, seeding.mModulo), TWO16)
    }

    constructor (s: Seeding)
      requires s.InRange()
      ensures Valid() && seeding == s && emitted == 0
    {
      seeding := s;
      big, small, n, m := 0, 0, 0, 0;
      emitted := 0;
    }

    method Emit() returns (p: Pid)
      requires Valid()
      modifies this
      ensures Valid() && emitted == old(emitted) + 1
      ensures p == PidAt(seeding, emitted)
    {
      hide NSteps, MSteps, Wrap, Multiple;
      ghost var k := emitted + 1;
      BigStep(k);
      SmallStep(k);
      NStep(k, seeding.nModulo);
      MStep(k, seeding.mModulo);
      Offsets(k, seeding);
      big := Wrap(big + 1, TWO64);
      if Multiple(big, 2) {
        small := Wrap(small + 1, TWO32);
      }
      if Multiple(big, seeding.nModulo) {
        n := Wrap(n + 1, TWO16);
      }
      if Multiple(small, seeding.mModulo) {
        m := Wrap(m + 1, TWO16);
      }
      emitted := emitted + 1;
      p := Pid(seeding.base, Wrap(seeding.bigOffset + big, TWO64), Wrap(seeding.smallOffset + small, TWO32),
               Wrap(seeding.nOffset + n, TWO16), Wrap(seeding.mOffset + m, TWO16));
    }
  }

  // What one more emit does to each counter.

  lemma {:induction false} BigStep(k: nat)
    requires k >= 1
    ensures Wrap(Wrap(k - 1, TWO64) + 1, TWO64) == Wrap(k, TWO64)
  {
    AddRemainder(1, k - 1, TWO64);
  }

  lemma {:induction false} SmallStep(k: nat)
    requires k >= 1
    ensures (if Multiple(Wrap(k, TWO64), 2) then Wrap(Wrap((k - 1) / 2, TWO32) + 1, TWO32)
             else Wrap((k - 1) / 2, TWO32))
            == Wrap(k / 2, TWO32)
  {
    AddRemainder(1, (k - 1) / 2, TWO32);
    Parity(k);
    hide Wrap, Multiple;
    assert k / 2 == (k - 1) / 2 + if k % 2 == 0 then 1 else 0;
  }

  lemma {:induction false} Parity(k: nat)
    ensures Multiple(Wrap(k, TWO64), 2) <==> k % 2 == 0
  {
  }

  lemma {:induction false} NStep(k: nat, modulo: nat)
    requires k >= 1 && modulo > 0
    ensures NSteps(k, modulo) == NSteps(k - 1, modulo) + if Multiple(Wrap(k, TWO64), modulo) then 1 else 0
    ensures Wrap(Wrap(NSteps(k - 1, modulo), TWO16) + 1, TWO16) == Wrap(NSteps(k - 1, modulo) + 1, TWO16)
  {
    hide Wrap, Multiple;
    AddRemainder(1, NSteps(k - 1, modulo), TWO16);
  }

  lemma {:induction false} MStep(k: nat, modulo: nat)
    requires k >= 1 && modulo > 0
    ensures MSteps(k, modulo) == MSteps(k - 1, modulo) + if Multiple(Wrap(k / 2, TWO32), modulo) then 1 else 0
    ensures Wrap(Wrap(MSteps(k - 1, modulo), TWO16) + 1, TWO16) == Wrap(MSteps(k - 1, modulo) + 1, TWO16)
  {
    hide Wrap, Multiple;
    AddRemainder(1, MSteps(k - 1, modulo), TWO16);
  }

  lemma {:induction false} Offsets(k: nat, s: Seeding)
    requires s.InRange()
    ensures Wrap(s.bigOffset + Wrap(k, TWO64), TWO64) == Wrap(s.bigOffset + k, TWO64)
    ensures Wrap(s.smallOffset + Wrap(k / 2, TWO32), TWO32) == Wrap(s.smallOffset + k / 2, TWO32)
    ensures Wrap(s.nOffset + Wrap(NSteps(k, s.nModulo), TWO16), TWO16) == Wrap(s.nOffset + NSteps(k, s.nModulo), TWO16)
    ensures Wrap(s.mOffset + Wrap(MSteps(k, s.mModulo), TWO16), TWO16) == Wrap(s.mOffset + MSteps(k, s.mModulo), TWO16)
  {
    hide NSteps, MSteps, Wrap;
    AddRemainder(s.bigOffset, k, TWO64);
    AddRemainder(s.smallOffset, k / 2, TWO32);
    AddRemainder(s.nOffset, NSteps(k, s.nModulo), TWO16);
    AddRemainder(s.mOffset, MSteps(k, s.mModulo), TWO16);
  }

  lemma {:induction false} AddRemainder(a: nat, x: nat, p: nat)
    requires p > 0
    ensures Wrap(a + Wrap(x, p), p) == Wrap(Wrap(x, p) + a, p) == Wrap(a + x, p)
  {
    var q, r := (a + x % p) / p, (a + x % p) % p;
    QuotientRemainder(x, p);
    QuotientRemainder(a + x % p, p);
    Distribute(q, x / p, p);
    DivisionUnique(a + x, p, q + x / p, r);
  }

  lemma {:induction false} Distribute(a: int, b: int, c: int)
    ensures (a + b) * c == a * c + b * c && (a - b) * c == a * c - b * c
  {
  }

  lemma {:induction false} QuotientRemainder(x: nat, p: nat)
    requires p > 0
    ensures x == (x / p) * p + x % p && 0 <= x % p < p && x / p >= 0
  {
  }

  lemma {:induction false} SameRemainder(x: nat, y: nat, p: nat)
    requires p > 0 && x < y && Wrap(x, p) == Wrap(y, p)
    ensures y - x >= p && Multiple(y - x, p)
  {
    var a, b := x / p, y / p;
    QuotientRemainder(x, p);
    QuotientRemainder(y, p);
    Distribute(b, a, p);
    PositiveMultiple(b - a, p);
    DivisionUnique(y - x, p, b - a, 0);
  }

  lemma {:induction false} PositiveMultiple(k: int, p: nat)
    requires p > 0 && k * p > 0
    ensures k >= 1 && k * p >= p
  {
  }

  // ---------------------------------------------------------------- uniqueness

  /** Two identifiers are the same only if a multiple of 2^64 emits lies between them; so any
      2^64 consecutive identifiers are pairwise distinct, wherever the counters wrap. */
  lemma {:induction false} PidsAreDistinct(s: Seeding, j: nat, k: nat)
    requires s.InRange() && j < k
    ensures PidAt(s, j) == PidAt(s, k) ==> k - j >= TWO64 && Multiple(k - j, TWO64)
  {
    hide NSteps, MSteps, Wrap, Multiple;
    if PidAt(s, j) == PidAt(s, k) {
      SameRemainder(s.bigOffset + j, s.bigOffset + k, TWO64);
    }
  }

  // ---------------------------------------------------------------- what the counters count

  /** The fourth counter counts the multiples of its modulus, and zero again each time the second one has
      wrapped around. */
  lemma {:induction false} NStepsIsQuotient(k: nat, modulo: nat)
    requires modulo > 0
    ensures NSteps(k, modulo) == (k / TWO64) * ((TWO64 - 1) / modulo + 1) + (k % TWO64) / modulo
  {
    NoSteps(modulo);
    if k > 0 {
      NStep(k, modulo);
      hide NSteps, Multiple;
      NStepsIsQuotient(k - 1, modulo);
      NextInPeriod(k, TWO64);
      if k % TWO64 == 0 {
        FirstMultiples(modulo);
        Distribute((k - 1) / TWO64, 1, (TWO64 - 1) / modulo + 1);
      } else {
        QuotientSteps(k % TWO64, modulo);
      }
    }
  }

  /** One step through a period. */
  lemma {:induction false} NextInPeriod(k: nat, p: nat)
    requires k > 0 && p > 0
    ensures if k % p == 0 then (k - 1) % p == p - 1 && k / p == (k - 1) / p + 1
            else (k - 1) % p == k % p - 1 && (k - 1) / p == k / p
  {
    var q, r := k / p, k % p;
    QuotientRemainder(k, p);
    Distribute(q, 1, p);
    if r == 0 {
      assert q >= 1 by {
        assert q == 0 ==> q * p == 0;
      }
      DivisionUnique(k - 1, p, q - 1, p - 1);
    } else {
      DivisionUnique(k - 1, p, q, r - 1);
    }
  }

  lemma {:induction false} NoSteps(modulo: nat)
    requires modulo > 0
    ensures NSteps(0, modulo) == 0 && MSteps(0, modulo) == 0 && 0 / modulo == 0
  {
  }

  /** A quotient steps up exactly at the multiples. */
  lemma {:induction false} QuotientSteps(k: nat, d: nat)
    requires k > 0 && d > 0
    ensures k / d == (k - 1) / d + if Multiple(k, d) then 1 else 0
  {
    var q, r := (k - 1) / d, (k - 1) % d;
    QuotientRemainder(k - 1, d);
    Distribute(q, 1, d);
    if r == d - 1 {
      DivisionUnique(k, d, q + 1, 0);
    } else {
      DivisionUnique(k, d, q, r + 1);
    }
  }

  lemma {:induction false} DivisionUnique(x: nat, d: nat, q: nat, r: nat)
    requires r < d && x == q * d + r
    ensures x / d == q && x % d == r
  {
    QuotientRemainder(x, d);
    Distribute(x / d, q, d);
    NoSmallMultiple(x / d - q, d);
  }

  lemma {:induction false} NoSmallMultiple(k: int, d: nat)
    requires -1 * d < k * d < d
    ensures k == 0
  {
    assert k >= 1 ==> k * d >= d;
    assert k <= -1 ==> k * d <= -1 * d;
  }

  /** How many of the numbers 0 to `r` are, when halved, multiples of the modulus: they come in pairs. */
  function Pairs(r: nat, modulo: nat): (n: int)
    requires modulo > 0
  {
    r / (2 * modulo) + 1 + if r == 0 then 0 else (r - 1) / (2 * modulo) + 1
  }

  lemma {:induction false} PairsStep(r: nat, modulo: nat)
    requires modulo > 0 && r >= 1
    ensures Pairs(r, modulo) == Pairs(r - 1, modulo) + if Multiple(r / 2, modulo) then 1 else 0
    ensures Pairs(0, modulo) == 1
  {
    var d := 2 * modulo;
    HalfMultiple(r, modulo);
    hide Multiple;
    DivisionUnique(0, d, 0, 0);
    FirstMultiples(d);
    if r == 1 {
      DivisionUnique(1, d, 0, 1);
    } else {
      QuotientSteps(r, d);
      QuotientSteps(r - 1, d);
      NotBothMultiples(r, d);
    }
  }

  lemma {:induction false} HalvedInPeriod(k: nat)
    ensures Wrap(k / 2, TWO32) == (k % (2 * TWO32)) / 2
  {
    var q, r := k / (2 * TWO32), k % (2 * TWO32);
    QuotientRemainder(k, 2 * TWO32);
    DivisionUnique(k / 2, TWO32, q, r / 2);
  }

  function PairsUpTo(k: nat, modulo: nat): (n: int)
    requires modulo > 0
  {
    (k / (2 * TWO32)) * Pairs(2 * TWO32 - 1, modulo) + Pairs(k % (2 * TWO32), modulo) - 1
  }

  lemma {:induction false} PairsUpToStep(k: nat, modulo: nat)
    requires modulo > 0 && k > 0
    ensures PairsUpTo(k, modulo)
            == PairsUpTo(k - 1, modulo) + if Multiple((k % (2 * TWO32)) / 2, modulo) then 1 else 0
  {
    var p := 2 * TWO32;
    hide Pairs, Multiple;
    NextInPeriod(k, p);
    if k % p == 0 {
      PairsStep(1, modulo);
      FirstMultiples(modulo);
      Distribute((k - 1) / p, 1, Pairs(p - 1, modulo));
    } else {
      PairsStep(k % p, modulo);
    }
  }

  lemma {:induction false} NoPairs(modulo: nat)
    requires modulo > 0
    ensures PairsUpTo(0, modulo) == 0
  {
    hide Pairs;
    PairsStep(1, modulo);
  }

  lemma {:induction false} MStepsIsPairs(k: nat, modulo: nat)
    requires modulo > 0
    ensures MSteps(k, modulo) == PairsUpTo(k, modulo)
  {
    hide MSteps, Wrap, Multiple, PairsUpTo;
    NoSteps(modulo);
    NoPairs(modulo);
    if k > 0 {
      MStep(k, modulo);
      HalvedInPeriod(k);
      MStepsIsPairs(k - 1, modulo);
      PairsUpToStep(k, modulo);
    }
  }

  /** The fifth counter steps twice for each multiple of its modulus that the third one goes through, since it
      looks at it on every emit: in full periods of 2^33 emits, and in what has gone by of the last. */
  lemma {:induction false} MStepsCountsPairs(k: nat, modulo: nat)
    requires modulo > 0
    ensures var p := 2 * TWO32;
            MSteps(k, modulo) == (k / p) * Pairs(p - 1, modulo) + Pairs(k % p, modulo) - 1
  {
    hide MSteps, Pairs;
    MStepsIsPairs(k, modulo);
  }

  lemma {:induction false} FirstMultiples(d: nat)
    requires d >= 1
    ensures Multiple(0, d) && (d >= 2 ==> !Multiple(1, d))
  {
    if d >= 2 {
      DivisionUnique(1, d, 0, 1);
    }
  }

  lemma {:induction false} NotBothMultiples(k: nat, d: nat)
    requires d >= 2 && k >= 1
    ensures !(Multiple(k, d) && Multiple(k - 1, d))
  {
    QuotientRemainder(k - 1, d);
    if (k - 1) % d == 0 {
      DivisionUnique(k, d, (k - 1) / d, 1);
    }
  }

  lemma {:induction false} Double(q: int, d: int)
    ensures q * (2 * d) == 2 * (q * d)
  {
  }

  lemma {:induction false} HalfMultiple(k: nat, modulo: nat)
    requires modulo > 0 && k >= 1
    ensures Multiple(k / 2, modulo) <==> Multiple(k, 2 * modulo) || Multiple(k - 1, 2 * modulo)
  {
    var h, b := k / 2, k % 2;
    var q, r := h / modulo, h % modulo;
    QuotientRemainder(h, modulo);
    Double(q, modulo);
    Distribute(q, 1, 2 * modulo);
    DivisionUnique(k, 2 * modulo, q, 2 * r + b);
    if b == 1 || r > 0 {
      DivisionUnique(k - 1, 2 * modulo, q, 2 * r + b - 1);
    } else {
      assert q >= 1 by {
        assert q == 0 ==> q * modulo == 0;
      }
      DivisionUnique(k - 1, 2 * modulo, q - 1, 2 * modulo - 1);
    }
  }

  // ---------------------------------------------------------------- printing

  function Digit(d: nat): (c: char)
    requires d < 16
  {
    "0123456789abcdef"[d]
  }

  /** Lower-case hexadecimal, without leading zeroes. */
  function Hex(x: nat): (s: string) {
    if x < 16 then [Digit(x)] else Hex(x / 16) + [Digit(x % 16)]
  }

  /** A stream inserts `x` with a minimum width, filling with zeroes on the left. */
  function HexField(w: nat, x: nat): (s: string) {
    var digits := Hex(x);
    if |digits| < w then seq(w - |digits|, _ => '0') + digits else digits
  }

  predicate IsDigit(c: char) {
    48 <= c as int <= 57 || 97 <= c as int <= 102
  }

  /** The number a field stands for, by the codes of its characters. */
  function Read(s: string): (x: int)
    requires forall c :: c in s ==> IsDigit(c)
  {
    if s == "" then 0 else
      var c := s[|s| - 1];
      16 * Read(s[..|s| - 1]) + c as int - if c as int <= 57 then 48 else 87
  }

  predicate Reads(s: string, x: nat) {
    (forall c :: c in s ==> IsDigit(c)) && Read(s) == x
  }

  lemma {:induction false} ReadPush(s: string, x: nat, d: nat)
    requires Reads(s, x) && d < 16
    ensures Reads(s + [Digit(d)], 16 * x + d)
  {
    var c := Digit(d);
    assert IsDigit(c) && d == c as int - if c as int <= 57 then 48 else 87;
    hide Digit;
    assert (s + [c])[..|s|] == s;
  }

  lemma {:induction false} ZeroesRead(n: nat)
    ensures Reads(seq(n, _ => '0'), 0)
  {
    if n > 0 {
      ZeroesRead(n - 1);
      ReadPush(seq(n - 1, _ => '0'), 0, 0);
      assert seq(n, _ => '0') == seq(n - 1, _ => '0') + [Digit(0)];
    }
  }

  lemma {:induction false} HexReadsBack(n: nat, x: nat)
    ensures Reads(seq(n, _ => '0') + Hex(x), x)
  {
    hide Reads, Digit;
    var zeroes := seq(n, _ => '0');
    if x < 16 {
      ZeroesRead(n);
      ReadPush(zeroes, 0, x);
    } else {
      HexReadsBack(n, x / 16);
      ReadPush(zeroes + Hex(x / 16), x / 16, x % 16);
      assert zeroes + Hex(x / 16) + [Digit(x % 16)] == zeroes + Hex(x);
    }
  }

  /** Whatever its width, a field read back by character codes is the number printed. */
  lemma {:induction false} FieldReadsBack(w: nat, x: nat)
    ensures Reads(HexField(w, x), x)
    ensures |HexField(w, x)| >= w
  {
    hide Reads, Hex;
    var n := if |Hex(x)| < w then w - |Hex(x)| else 0;
    HexReadsBack(n, x);
    assert HexField(w, x) == seq(n, _ => '0') + Hex(x);
  }

  function Pow16(w: nat): (p: nat)
    ensures p >= 1
  {
    if w == 0 then 1 else 16 * Pow16(w - 1)
  }

  function FixedHex(w: nat, x: nat): (s: string)
    ensures |s| == w
  {
    if w == 0 then "" else FixedHex(w - 1, x / 16) + [Digit(x % 16)]
  }

  lemma {:induction false} FixedHexOfZero(w: nat)
    ensures FixedHex(w, 0) == seq(w, _ => '0')
  {
    if w > 0 {
      FixedHexOfZero(w - 1);
    }
  }

  /** A value that fits is printed with exactly the width asked for. */
  lemma {:induction false} FieldIsFixedWidth(w: nat, x: nat)
    requires w >= 1 && x < Pow16(w)
    ensures HexField(w, x) == FixedHex(w, x)
  {
    hide HexField, FixedHex, Digit;
    FixedHexStep(w, x);
    if x < 16 {
      OneDigitField(w, x);
    } else {
      FieldIsFixedWidth(w - 1, x / 16);
      HexFieldStep(w, x);
    }
  }

  lemma {:induction false} FixedHexStep(w: nat, x: nat)
    requires w >= 1
    ensures FixedHex(w, x) == FixedHex(w - 1, x / 16) + [Digit(x % 16)]
  {
    hide Digit;
  }

  lemma {:induction false} OneDigitField(w: nat, x: nat)
    requires w >= 1 && x < 16
    ensures HexField(w, x) == FixedHex(w - 1, x / 16) + [Digit(x % 16)]
  {
    hide FixedHex, Digit;
    FixedHexOfZero(w - 1);
    assert Hex(x) == [Digit(x)] && x / 16 == 0 && x % 16 == x;
  }

  lemma {:induction false} HexFieldStep(w: nat, x: nat)
    requires w >= 1 && x >= 16
    ensures HexField(w, x) == HexField(w - 1, x / 16) + [Digit(x % 16)]
  {
    var digits := Hex(x / 16);
    assert Hex(x) == digits + [Digit(x % 16)];
    hide Hex;
    if |digits| < w - 1 {
      var zeroes := seq(w - 1 - |digits|, _ => '0');
      assert zeroes + (digits + [Digit(x % 16)]) == (zeroes + digits) + [Digit(x % 16)];
    }
  }

  lemma {:induction false} FixedHexInjective(w: nat, x: nat, y: nat)
    requires x < Pow16(w) && y < Pow16(w) && FixedHex(w, x) == FixedHex(w, y)
    ensures x == y
  {
    if w > 0 {
      var a, b := FixedHex(w, x), FixedHex(w, y);
      assert a[..w - 1] == FixedHex(w - 1, x / 16) && b[..w - 1] == FixedHex(w - 1, y / 16);
      FixedHexInjective(w - 1, x / 16, y / 16);
      assert a[w - 1] == Digit(x % 16) && b[w - 1] == Digit(y % 16);
      DigitInjective(x % 16, y % 16);
    }
  }

  lemma {:induction false} DigitInjective(d: nat, e: nat)
    requires d < 16 && e < 16 && Digit(d) == Digit(e)
    ensures d == e
  {
  }

  function Str(p: Pid, readable: bool): (s: string) {
    var sep := if readable then ":" else "";
    HexField(16, p.base) + sep + HexField(16, p.big) + sep + HexField(8, p.small)
    + sep + HexField(4, p.n) + sep + HexField(4, p.m)
  }

  lemma {:induction false} Widths()
    ensures Pow16(4) == TWO16 && Pow16(8) == TWO32 && Pow16(16) == TWO64
  {
    assert Pow16(4) == TWO16;
    assert Pow16(8) == 0x1_0000 * Pow16(4);
    assert Pow16(12) == 0x1_0000 * Pow16(8);
    assert Pow16(16) == 0x1_0000 * Pow16(12);
  }

  function Fixed(p: Pid, readable: bool): (s: string) {
    var sep := if readable then ":" else "";
    FixedHex(16, p.base) + sep + FixedHex(16, p.big) + sep + FixedHex(8, p.small)
    + sep + FixedHex(4, p.n) + sep + FixedHex(4, p.m)
  }

  lemma {:induction false} StrIsFixed(p: Pid, readable: bool)
    requires p.InRange()
    ensures Str(p, readable) == Fixed(p, readable)
  {
    hide FixedHex, HexField, Pow16;
    Widths();
    FieldIsFixedWidth(16, p.base);
    FieldIsFixedWidth(16, p.big);
    FieldIsFixedWidth(8, p.small);
    FieldIsFixedWidth(4, p.n);
    FieldIsFixedWidth(4, p.m);
  }

  /** Printing is injective, with and without separators. */
  lemma {:induction false} StrInjective(p: Pid, q: Pid, readable: bool)
    requires p.InRange() && q.InRange() && Str(p, readable) == Str(q, readable)
    ensures p == q
  {
    hide FixedHex, Pow16, Str;
    StrIsFixed(p, readable);
    StrIsFixed(q, readable);
    var a, b := Fixed(p, readable), Fixed(q, readable);
    var o := if readable then 1 else 0;
    assert a[..16] == b[..16] && a[16 + o..32 + o] == b[16 + o..32 + o];
    assert a[32 + 2 * o..40 + 2 * o] == b[32 + 2 * o..40 + 2 * o];
    assert a[40 + 3 * o..44 + 3 * o] == b[40 + 3 * o..44 + 3 * o];
    assert a[44 + 4 * o..48 + 4 * o] == b[44 + 4 * o..48 + 4 * o];
    FieldsOf(p, readable);
    FieldsOf(q, readable);
    Widths();
    FixedHexInjective(16, p.base, q.base);
    FixedHexInjective(16, p.big, q.big);
    FixedHexInjective(8, p.small, q.small);
    FixedHexInjective(4, p.n, q.n);
    FixedHexInjective(4, p.m, q.m);
  }

  /** Where the components are in the printed form, and what they read as; colons stand between them if asked for. */
  lemma {:induction false} StrReadsBack(p: Pid, readable: bool)
    requires p.InRange()
    ensures var s, o := Str(p, readable), if readable then 1 else 0;
            && |s| == 48 + 4 * o
            && Reads(s[..16], p.base) && Reads(s[16 + o..32 + o], p.big) && Reads(s[32 + 2 * o..40 + 2 * o], p.small)
            && Reads(s[40 + 3 * o..44 + 3 * o], p.n) && Reads(s[44 + 4 * o..], p.m)
            && (readable ==> s[16] as int == s[33] as int == s[42] as int == s[47] as int == 58)
  {
    hide FixedHex, HexField, Pow16, Reads, Str;
    FieldsOf(p, readable);
    FieldsRead(p);
    StrIsFixed(p, readable);
    var s, o := Fixed(p, readable), if readable then 1 else 0;
    assert s[44 + 4 * o..] == s[44 + 4 * o..48 + 4 * o];
  }

  lemma {:induction false} FieldsRead(p: Pid)
    requires p.InRange()
    ensures Reads(FixedHex(16, p.base), p.base) && Reads(FixedHex(16, p.big), p.big)
    ensures Reads(FixedHex(8, p.small), p.small) && Reads(FixedHex(4, p.n), p.n) && Reads(FixedHex(4, p.m), p.m)
  {
    hide FixedHex, HexField, Pow16, Reads;
    Widths();
    FixedReads(16, p.base);
    FixedReads(16, p.big);
    FixedReads(8, p.small);
    FixedReads(4, p.n);
    FixedReads(4, p.m);
  }

  lemma {:induction false} FixedReads(w: nat, x: nat)
    requires w >= 1 && x < Pow16(w)
    ensures Reads(FixedHex(w, x), x)
  {
    hide FixedHex, HexField, Pow16, Reads;
    FieldIsFixedWidth(w, x);
    FieldReadsBack(w, x);
  }

  lemma {:induction false} FieldsOf(p: Pid, readable: bool)
    ensures var s, o := Fixed(p, readable), if readable then 1 else 0;
            && |s| == 48 + 4 * o
            && s[..16] == FixedHex(16, p.base)
            && s[16 + o..32 + o] == FixedHex(16, p.big)
            && s[32 + 2 * o..40 + 2 * o] == FixedHex(8, p.small)
            && s[40 + 3 * o..44 + 3 * o] == FixedHex(4, p.n)
            && s[44 + 4 * o..48 + 4 * o] == FixedHex(4, p.m)
            && (readable ==> s[16] == s[33] == s[42] == s[47] == ':')
  {
    hide FixedHex;
  }
}
