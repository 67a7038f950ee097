/** Escape sequences and quoted chunks: str::strencode, strdecode, enquote and extract. */
module Escapes {

  const BELL: char := '\U{0007}'
  const BACKSPACE: char := '\U{0008}'
  const VERTICAL_TAB: char := '\U{000B}'
  const FORM_FEED: char := '\U{000C}'

  // ---------------------------------------------------------------- encoding and decoding

  /** The text one character is written as. */
  function Escaped(c: char): (s: string) {
    if c == '\\' then "\\\\"
    else if c == BELL then "\\a"
    else if c == BACKSPACE then "\\b"
    else if c == FORM_FEED then "\\f"
    else if c == '\n' then "\\n"
    else if c == '\r' then "\\r"
    else if c == '\t' then "\\t"
    else if c == VERTICAL_TAB then "\\v"
    else [c]
  }

  function Encoded(s: string): (e: string) {
    if s == "" then "" else Escaped(s[0]) + Encoded(s[1..])
  }

  /** The character a backslash followed by `c` stands for; an unknown one stands for itself. */
  function Unescaped(c: char): (d: char) {
    if c == 'a' then BELL
    else if c == 'b' then BACKSPACE
    else if c == 'f' then FORM_FEED
    else if c == 'n' then '\n'
    else if c == 'r' then '\r'
    else if c == 't' then '\t'
    else if c == 'v' then VERTICAL_TAB
    else c
  }

  /** A backslash takes the next character with it; at the very end it stands for itself. */
  function Decoded(s: string): (d: string) {
    if s == "" then ""
    else if s[0] == '\\' && |s| > 1 then [Unescaped(s[1])] + Decoded(s[2..])
    else [s[0]] + Decoded(s[1..])
  }

  /** The control characters that have a letter of their own, by code. */
  predicate IsControl(c: char) {
    7 <= c as int <= 13
  }

  /** How many characters of `s` are written as two. */
  function Specials(s: string): (n: nat) {
    if s == "" then 0 else (if s[0] == '\\' || IsControl(s[0]) then 1 else 0) + Specials(s[1..])
  }

  /** What is encoded holds no control characters any more, and is longer by one for each of them and each backslash. */
  lemma {:induction false} EncodedIsPlain(s: string)
    ensures forall c :: c in Encoded(s) ==> !IsControl(c)
    ensures |Encoded(s)| == |s| + Specials(s)
  {
    if s != "" {
      EncodedIsPlain(s[1..]);
      EscapedIsPlain(s[0]);
      hide Escaped, IsControl;
    }
  }

  lemma {:induction false} EscapedIsPlain(c: char)
    ensures forall d :: d in Escaped(c) ==> !IsControl(d)
    ensures |Escaped(c)| == if c == '\\' || IsControl(c) then 2 else 1
  {
    assert BELL as int == 7 && BACKSPACE as int == 8 && VERTICAL_TAB as int == 11 && FORM_FEED as int == 12;
  }

  /** A backslash and one of the letters a, b, t, n, v, f, r stands for the character 7, 8, 9, 10, 11, 12 or 13; before
      anything else it stands for that, whatever follows; and at the very end for itself. */
  lemma {:induction false} DecodesByLetter(c: char, rest: string)
    ensures Decoded(['\\', c] + rest)
            == [if c == 'a' then 7 as char else if c == 'b' then 8 as char else if c == 't' then 9 as char
                else if c == 'n' then 10 as char else if c == 'v' then 11 as char else if c == 'f' then 12 as char
                else if c == 'r' then 13 as char else c]
               + Decoded(rest)
    ensures c != '\\' ==> Decoded([c] + rest) == [c] + Decoded(rest)
    ensures Decoded("\\") == "\\"
  {
    var s := ['\\', c] + rest;
    assert s[2..] == rest && ([c] + rest)[1..] == rest;
    assert "\\"[1..] == "";
    assert BELL as int == 7 && BACKSPACE as int == 8 && VERTICAL_TAB as int == 11 && FORM_FEED as int == 12;
    assert '\t' as int == 9 && '\n' as int == 10 && '\r' as int == 13;
  }

  /** Either the character itself, or a backslash and a letter that stands for it. */
  lemma {:induction false} EscapedShape(c: char)
    ensures var e := Escaped(c);
            || (e == [c] && c != '\\')
            || (|e| == 2 && e[0] == '\\' && Unescaped(e[1]) == c && e[1] !in {'\'', '\"'})
  {
  }

  /** The switch of the encoder. */
  method EscapeOf(each: char) returns (escape: bool, c: char)
    ensures Escaped(each) == if escape then ['\\', c] else [c]
  {
    escape, c := true, each;
    if each == '\\' {
      c := '\\';
    } else if each == BELL {
      c := 'a';
    } else if each == BACKSPACE {
      c := 'b';
    } else if each == FORM_FEED {
      c := 'f';
    } else if each == '\n' {
      c := 'n';
    } else if each == '\r' {
      c := 'r';
    } else if each == '\t' {
      c := 't';
    } else if each == VERTICAL_TAB {
      c := 'v';
    } else {
      escape := false;
    }
  }

  method StrEncode(s: string) returns (encoded: string)
    ensures encoded == Encoded(s)
    ensures Decoded(encoded) == s
    ensures forall c :: c in encoded ==> !IsControl(c)
    ensures |encoded| == |s| + Specials(s)
  {
    EncodedIsPlain(s);
    hide Escaped, Decoded;
    encoded := "";
    for i := 0 to |s|
      invariant encoded + Encoded(s[i..]) == Encoded(s)
    {
      ghost var before := encoded;
      var escape, c := EscapeOf(s[i]);
      if escape {
        encoded := encoded + ['\\'];
      }
      encoded := encoded + [c];
      assert encoded == before + Escaped(s[i]);
      assert s[i..][1..] == s[i + 1..];
    }
    DecodeUndoesEncode(s);
  }

  method StrDecode(s: string) returns (decoded: string)
    ensures decoded == Decoded(s)
  {
    decoded := "";
    var i := 0;
    while i < |s|
      invariant 0 <= i <= |s|
      invariant decoded + Decoded(s[i..]) == Decoded(s)
    {
      ghost var start := i;
      var c := s[i];
      if c == '\\' && i < |s| - 1 {
        i := i + 1;
        c := Unescaped(s[i]);
        assert s[start..][2..] == s[i + 1..];
      } else {
        assert s[start..][1..] == s[i + 1..];
      }
      decoded := decoded + [c];
      i := i + 1;
    }
  }

  lemma {:induction false} DecodeUndoesEncode(s: string)
    ensures Decoded(Encoded(s)) == s
  {
    hide Escaped, Unescaped, Decoded;
    if s == "" {
      EmptyDecodes();
    } else {
      DecodeUndoesEncode(s[1..]);
      EscapedShape(s[0]);
      DecodeBlock(Escaped(s[0]), s[0], Encoded(s[1..]));
    }
  }

  lemma {:induction false} EmptyDecodes()
    ensures Decoded("") == ""
  {
  }

  /** A whole block decodes to its character, whatever follows. */
  lemma {:induction false} DecodeBlock(block: string, c: char, rest: string)
    requires (block == [c] && c != '\\') || (|block| == 2 && block[0] == '\\' && Unescaped(block[1]) == c)
    ensures Decoded(block + rest) == [c] + Decoded(rest)
  {
    if |block| == 2 {
      assert (block + rest)[2..] == rest;
    } else {
      assert (block + rest)[1..] == rest;
    }
  }

  // ---------------------------------------------------------------- quoting

  /** Every closing character inside gets a backslash in front. */
  function Quoted(s: string, q: char): (r: string) {
    if s == "" then "" else (if s[0] == q then ['\\', q] else [s[0]]) + Quoted(s[1..], q)
  }

  function Enquoted(s: string, q: char): (r: string) {
    [q] + Quoted(s, q) + [q]
  }

  function Count(s: string, q: char): (n: nat) {
    if s == "" then 0 else (if s[0] == q then 1 else 0) + Count(s[1..], q)
  }

  /** Each character is still there, moved on by the quote in front and by one for each closing character so far; and
      nothing else is there but the two quotes and a backslash before each closing character. */
  lemma {:induction false} EnquotedAt(s: string, q: char, i: nat)
    requires i <= |s|
    ensures |Enquoted(s, q)| == |s| + 2 + Count(s, q)
    ensures Enquoted(s, q)[0] == q && Enquoted(s, q)[|s| + 1 + Count(s, q)] == q
    ensures Count(s[..i], q) <= i && (i < |s| ==> Count(s[..i + 1], q) == Count(s[..i], q) + if s[i] == q then 1 else 0)
    ensures i < |s| ==> var j := 1 + i + Count(s[..i + 1], q);
                        && j < |Enquoted(s, q)| && Enquoted(s, q)[j] == s[i]
                        && (s[i] == q ==> Enquoted(s, q)[j - 1] == '\\')
  {
    QuotedLength(s, q);
    if i < |s| {
      QuotedAt(s, q, i);
    } else {
      assert s[..i] == s;
      CountBound(s, q);
    }
  }

  lemma {:induction false} CountBound(s: string, q: char)
    ensures Count(s, q) <= |s|
  {
    if s != "" {
      CountBound(s[1..], q);
    }
  }

  lemma {:induction false} QuotedLength(s: string, q: char)
    ensures |Quoted(s, q)| == |s| + Count(s, q)
  {
    if s != "" {
      QuotedLength(s[1..], q);
    }
  }

  lemma {:induction false} QuotedAt(s: string, q: char, i: nat)
    requires i < |s|
    ensures Count(s[..i], q) <= i && Count(s[..i + 1], q) == Count(s[..i], q) + if s[i] == q then 1 else 0
    ensures var j := i + Count(s[..i + 1], q);
            && j < |Quoted(s, q)| && Quoted(s, q)[j] == s[i]
            && (s[i] == q ==> j >= 1 && Quoted(s, q)[j - 1] == '\\')
  {
    QuotedLength(s, q);
    if i == 0 {
      assert s[..1] == [s[0]] && s[..1][1..] == "" && s[..0] == "";
    } else {
      QuotedAt(s[1..], q, i - 1);
      assert s[..i + 1][1..] == s[1..][..i] && s[..i][1..] == s[1..][..i - 1];
    }
  }

  method Enquote(s: string, closing: char) returns (encoded: string)
    ensures encoded == Enquoted(s, closing)
    ensures |encoded| == |s| + 2 + Count(s, closing)
  {
    QuotedLength(s, closing);
    encoded := [closing];
    for i := 0 to |s|
      invariant encoded + Quoted(s[i..], closing) == [closing] + Quoted(s, closing)
    {
      ghost var before := encoded;
      if s[i] == closing {
        encoded := encoded + "\\";
      }
      encoded := encoded + [s[i]];
      assert encoded == before + if s[i] == closing then ['\\', closing] else [s[i]];
      assert s[i..][1..] == s[i + 1..];
    }
    encoded := encoded + [closing];
  }

  // ---------------------------------------------------------------- extraction

  /** How many backslashes stand directly before position `i`, not counting the first character. */
  function BackRun(s: string, i: nat): (n: nat)
    requires i <= |s|
  {
    if i <= 1 || s[i - 1] != '\\' then 0 else BackRun(s, i - 1) + 1
  }

  /** Position `i` repeats the first character, and no odd run of backslashes escapes it. */
  predicate Closes(s: string, i: nat)
    requires 0 < i < |s|
  {
    s[i] == s[0] && BackRun(s, i) % 2 == 0
  }

  /** `r` is the quoted chunk at the front of `s`: it ends with the first position that closes,
      or, if there is none, it is everything. */
  ghost predicate IsChunk(s: string, r: string) {
    if s == "" then r == "" else
      && 1 <= |r| <= |s| && r == s[..|r|]
      && (forall k :: 0 < k < |r| - 1 ==> !Closes(s, k))
      && ((|r| >= 2 && Closes(s, |r| - 1)) || |r| == |s|)
  }

  method Extract(s: string) returns (chunk: string)
    ensures IsChunk(s, chunk)
    ensures chunk == Extracted(s)
  {
    if |s| == 0 {
      return "";
    }
    var quote := s[0];
    chunk := [quote];
    var backs := 0;
    var i := 1;
    while i < |s|
      invariant 1 <= i <= |s|
      invariant chunk == s[..i]
      invariant backs == BackRun(s, i)
      invariant forall k :: 0 < k < i ==> !Closes(s, k)
    {
      chunk := chunk + [s[i]];
      if backs > 0 && s[i] != '\\' && s[i] != quote {
        backs := 0;
        i := i + 1;
        continue;
      }
      if s[i] == quote && backs % 2 != 0 {
        backs := 0;
        if quote == '\\' {
          NoRunOfQuotes(s, i);
        }
        i := i + 1;
        continue;
      } else if s[i] == quote && backs % 2 == 0 {
        i := i + 1;
        break;
      }
      if s[i] == '\\' {
        backs := backs + 1;
      }
      i := i + 1;
    }
    ChunkIsUnique(s, chunk);
  }

  /** With a backslash as the quote, the first one found always closes. */
  lemma {:induction false} NoRunOfQuotes(s: string, i: nat)
    requires 1 <= i < |s| && s[0] == '\\' && BackRun(s, i) % 2 != 0
    ensures exists k :: 0 < k < i && Closes(s, k)
  {
    var k := i - BackRun(s, i);
    RunIsBackslashes(s, i);
    assert Closes(s, k);
  }

  lemma {:induction false} RunIsBackslashes(s: string, i: nat)
    requires i <= |s|
    ensures BackRun(s, i) == 0 || BackRun(s, i) < i
    ensures forall j :: i - BackRun(s, i) <= j < i ==> s[j] == '\\'
    ensures BackRun(s, i) > 0 ==> BackRun(s, i - BackRun(s, i)) == 0
  {
    if i > 1 && s[i - 1] == '\\' {
      RunIsBackslashes(s, i - 1);
    }
  }

  /** The same, read off one character at a time: the number of characters up to and including
      the closing one, when `odd` says whether an odd run of backslashes stands before them. */
  function Scan(t: string, q: char, odd: bool): (n: nat)
    ensures n <= |t|
  {
    if t == "" then 0
    else if t[0] == q && !odd then 1
    else 1 + Scan(t[1..], q, t[0] == '\\' && !odd)
  }

  function Extracted(s: string): (r: string) {
    if s == "" then "" else s[..1 + Scan(s[1..], s[0], false)]
  }

  lemma {:induction false} ScanFinds(s: string, i: nat)
    requires 1 <= i <= |s|
    requires forall k :: 0 < k < i ==> !Closes(s, k)
    ensures var n := i + Scan(s[i..], s[0], BackRun(s, i) % 2 == 1);
            && i <= n <= |s|
            && (forall k :: 0 < k < n - 1 ==> !Closes(s, k))
            && ((n > i && Closes(s, n - 1)) || n == |s|)
    decreases |s| - i
  {
    if i < |s| {
      assert s[i..][1..] == s[i + 1..];
      if !Closes(s, i) {
        ScanFinds(s, i + 1);
      }
    }
  }

  lemma {:induction false} ChunkIsUnique(s: string, r: string)
    requires IsChunk(s, r)
    ensures r == Extracted(s)
  {
    if s != "" {
      ScanFinds(s, 1);
    }
  }

  // ---------------------------------------------------------------- round trips

  /** Enquoting leaves alone what escaping has produced, except for the closing character. */
  lemma {:induction false} QuotedEncoded(s: string, q: char)
    requires s != "" && q in {'\'', '\"'}
    ensures Quoted(Encoded(s), q)
            == (if s[0] == q then ['\\', q] else Escaped(s[0])) + Quoted(Encoded(s[1..]), q)
  {
    EscapedShape(s[0]);
    hide Escaped, Unescaped;
    QuotedBlock(Escaped(s[0]), Encoded(s[1..]), q);
  }

  lemma {:induction false} QuotedBlock(block: string, rest: string, q: char)
    requires |block| == 1 || (|block| == 2 && block[0] != q && block[1] != q)
    ensures Quoted(block + rest, q)
            == (if block[0] == q then ['\\', q] else block) + Quoted(rest, q)
  {
    assert (block + rest)[1..] == block[1..] + rest;
    if |block| == 2 {
      assert (block + rest)[1..][1..] == rest;
    } else {
      assert (block + rest)[1..] == rest;
    }
  }

  lemma {:induction false} QuotedDecodes(s: string, q: char)
    requires q in {'\'', '\"'}
    ensures Decoded(Quoted(Encoded(s), q)) == s
  {
    hide Escaped, Unescaped, Decoded;
    EmptyDecodes();
    if s != "" {
      QuotedEncoded(s, q);
      QuotedDecodes(s[1..], q);
      EscapedShape(s[0]);
      QuoteStandsForItself(q);
      DecodeBlock(if s[0] == q then ['\\', q] else Escaped(s[0]), s[0], Quoted(Encoded(s[1..]), q));
    }
  }

  lemma {:induction false} QuoteStandsForItself(q: char)
    requires q in {'\'', '\"'}
    ensures Unescaped(q) == q
  {
  }

  lemma {:induction false} ScanBlock(block: string, rest: string, q: char)
    requires (|block| == 1 && block[0] != q && block[0] != '\\') || (|block| == 2 && block[0] == '\\' != q)
    ensures Scan(block + rest, q, false) == |block| + Scan(rest, q, false)
  {
    assert (block + rest)[1..] == block[1..] + rest;
    if |block| == 2 {
      assert (block + rest)[1..][1..] == rest;
    } else {
      assert (block + rest)[1..] == rest;
    }
  }

  lemma {:induction false} ScanStopsAtTheEnd(s: string, q: char, rest: string)
    requires q in {'\'', '\"'}
    ensures Scan(Quoted(Encoded(s), q) + [q] + rest, q, false) == |Quoted(Encoded(s), q)| + 1
  {
    if s == "" {
      assert Quoted(Encoded(s), q) + [q] + rest == [q] + rest;
    } else {
      hide Escaped, Unescaped, Quoted, Encoded, Scan;
      var block := if s[0] == q then ['\\', q] else Escaped(s[0]);
      QuotedEncoded(s, q);
      EscapedShape(s[0]);
      ScanStopsAtTheEnd(s[1..], q, rest);
      ScanQuotedBlock(block, Quoted(Encoded(s[1..]), q), q, rest);
    }
  }

  lemma {:induction false} ScanQuotedBlock(block: string, tail: string, q: char, rest: string)
    requires (|block| == 1 && block[0] != q && block[0] != '\\') || (|block| == 2 && block[0] == '\\' != q)
    ensures Scan(block + tail + [q] + rest, q, false) == |block| + Scan(tail + [q] + rest, q, false)
  {
    hide Scan;
    ScanBlock(block, tail + [q] + rest, q);
    assert block + tail + [q] + rest == block + (tail + [q] + rest);
  }

  /** Print, lex and decode: whatever follows an encoded and enquoted string, extraction finds
      exactly that string again, and decoding what is between the quotes gives the original. */
  lemma {:induction false} PrintLexDecodeRoundTrip(s: string, q: char, rest: string)
    requires q in {'\'', '\"'}
    ensures var w := Enquoted(Encoded(s), q);
            && Extracted(w + rest) == w
            && Decoded(w[1..|w| - 1]) == s
  {
    var body := Quoted(Encoded(s), q);
    var w := Enquoted(Encoded(s), q);
    ScanStopsAtTheEnd(s, q, rest);
    assert (w + rest)[1..] == body + [q] + rest;
    assert (w + rest)[..|w|] == w;
    assert w[1..|w| - 1] == body;
    QuotedDecodes(s, q);
  }

  /** Every `q` in `s`, and the end of `s`, stand after an even run of backslashes. */
  predicate SafeToQuote(s: string, q: char, odd: bool) {
    if s == "" then !odd
    else if s[0] == q then !odd && SafeToQuote(s[1..], q, false)
    else SafeToQuote(s[1..], q, s[0] == '\\' && !odd)
  }

  /** Every `q` in `s` stands after an even run of backslashes. */
  predicate QuotesAreSafe(s: string, q: char, odd: bool) {
    if s == "" then true
    else if s[0] == q then !odd && QuotesAreSafe(s[1..], q, false)
    else QuotesAreSafe(s[1..], q, s[0] == '\\' && !odd)
  }

  lemma {:induction false} QuotedScansIff(s: string, q: char, odd: bool, rest: string)
    requires q != '\\'
    ensures Scan(Quoted(s, q) + [q] + rest, q, odd) == |Quoted(s, q)| + 1
            <==> if rest == "" then QuotesAreSafe(s, q, odd) else SafeToQuote(s, q, odd)
  {
    var t := Quoted(s, q) + [q] + rest;
    if s == "" {
      assert t == [q] + rest && t[1..] == rest;
      if odd && rest != "" {
        assert Scan(rest, q, false) >= 1;
      }
    } else {
      var tail := Quoted(s[1..], q) + [q] + rest;
      if s[0] == q {
        assert t == ['\\', q] + tail && t[1..] == [q] + tail && t[1..][1..] == tail;
      } else {
        assert t == [s[0]] + tail && t[1..] == tail;
      }
      QuotedScansIff(s[1..], q, s[0] != q && s[0] == '\\' && !odd, rest);
    }
  }

  /** With a backslash as the quote, the first one inside closes. */
  lemma {:induction false} BackslashScansIff(s: string, rest: string)
    ensures Scan(Quoted(s, '\\') + ['\\'] + rest, '\\', false) == |Quoted(s, '\\')| + 1 <==> '\\' !in s
  {
    var t := Quoted(s, '\\') + ['\\'] + rest;
    if s == "" {
      assert t == ['\\'] + rest;
    } else if s[0] == '\\' {
      assert t[0] == '\\';
    } else {
      assert t == [s[0]] + (Quoted(s[1..], '\\') + ['\\'] + rest);
      BackslashScansIff(s[1..], rest);
      assert s == [s[0]] + s[1..];
    }
  }

  /** Enquoting alone, without escaping first, is undone by extraction exactly for strings whose closing
      characters are not escaped already, and, if anything follows, whose end is not either. */
  lemma {:induction false} EnquoteAloneExtractsIff(s: string, q: char, rest: string)
    ensures Extracted(Enquoted(s, q) + rest) == Enquoted(s, q)
            <==> if q == '\\' then q !in s
                 else if rest == "" then QuotesAreSafe(s, q, false) else SafeToQuote(s, q, false)
  {
    var w := Enquoted(s, q);
    if q == '\\' {
      BackslashScansIff(s, rest);
    } else {
      QuotedScansIff(s, q, false, rest);
    }
    assert (w + rest)[1..] == Quoted(s, q) + [q] + rest;
    assert (w + rest)[..|w|] == w;
  }
}
