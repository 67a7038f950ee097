/** viua::cg::lex::tokenise: a tokeniser that loses nothing and knows where it is. */
module Lexer {
  import E = Escapes

  datatype Token = Token(line: nat, character: nat, content: string) {
    function Ends(): (e: nat) {
      character + |content|
    }
  }

  predicate IsBreaking(c: char) {
    || c == '\n' || c == '-' || c == '\t' || c == ' ' || c == '~' || c == '`' || c == '!' || c == '@' || c == '#'
    || c == '$' || c == '%' || c == '^' || c == '&' || c == '*' || c == '(' || c == ')' || c == '+' || c == '='
    || c == '{' || c == '}' || c == '[' || c == ']' || c == '|' || c == ':' || c == ';' || c == ',' || c == '.'
    || c == '<' || c == '>' || c == '/' || c == '?' || c == '\'' || c == '\"'
  }

  /** What separates words, by code: newline, tab, and what is printable in ASCII other than letters, digits, the
      underscore and the backslash. */
  predicate Separates(c: char) {
    var x := c as int;
    || x == 9 || x == 10
    || (32 <= x <= 126 && !(48 <= x <= 57) && !(65 <= x <= 90) && !(97 <= x <= 122) && x != 95 && x != 92)
  }

  lemma {:induction false} BreaksByCode(c: char)
    ensures IsBreaking(c) <==> Separates(c)
  {
  }

  predicate IsQuote(c: char) {
    c == '\'' || c == '\"'
  }

  function Concat(ts: seq<string>): (s: string) {
    if ts == [] then "" else Concat(ts[..|ts| - 1]) + ts[|ts| - 1]
  }

  function Contents(tokens: seq<Token>): (ts: seq<string>)
    ensures |ts| == |tokens|
  {
    seq(|tokens|, i requires 0 <= i < |tokens| => tokens[i].content)
  }

  // ---------------------------------------------------------------- what a token list must be

  /** A comment runs from a semicolon or two hyphens in a row to the end of the line. */
  predicate InComment(ts: seq<string>) {
    ts != [] &&
    var before, last := ts[..|ts| - 1], ts[|ts| - 1];
    last != "\n" && (last == ";" || (last == "-" && before != [] && before[|before| - 1] == "-") || InComment(before))
  }

  /** A semicolon, or the second of two hyphens in a row. */
  predicate OpensComment(ts: seq<string>, j: nat)
    requires j < |ts|
  {
    ts[j] == ";" || (ts[j] == "-" && j > 0 && ts[j - 1] == "-")
  }

  /** In a comment means: something opened one, with no newline since. */
  lemma {:induction false} InCommentIff(ts: seq<string>)
    ensures InComment(ts) <==> exists j :: 0 <= j < |ts| && OpensComment(ts, j) && "\n" !in ts[j..]
  {
    if ts != [] {
      var n := |ts| - 1;
      var before := ts[..n];
      InCommentIff(before);
      if InComment(before) && ts[n] != "\n" {
        var j :| 0 <= j < n && OpensComment(before, j) && "\n" !in before[j..];
        assert OpensComment(ts, j) && ts[j..] == before[j..] + [ts[n]];
      }
      if j :| 0 <= j < n && OpensComment(ts, j) && "\n" !in ts[j..] {
        assert OpensComment(before, j) && ts[j..] == before[j..] + [ts[n]];
      }
      assert ts[n..] == [ts[n]];
      assert OpensComment(ts, n) || !OpensComment(ts, n);
    }
  }

  /** The longest run of characters at the front that do not break. */
  function Word(rem: string): (w: string) {
    if rem == "" || IsBreaking(rem[0]) then "" else [rem[0]] + Word(rem[1..])
  }

  /** What the next token must be: a whole word, a quoted chunk, or one breaking character. */
  function NextToken(rem: string, comment: bool): (t: string)
    requires rem != ""
  {
    if !IsBreaking(rem[0]) then Word(rem)
    else if IsQuote(rem[0]) && !comment then E.Extracted(rem)
    else [rem[0]]
  }

  /** Token `k` is the next token after those before it; a word is only a token if something
      comes after it. */
  ghost predicate TokenOk(source: string, ts: seq<string>, k: nat)
    requires k < |ts|
  {
    var off := |Concat(ts[..k])|;
    && off < |source|
    && ts[k] == NextToken(source[off..], InComment(ts[..k]))
    && (!IsBreaking(source[off]) ==> off + |ts[k]| < |source|)
  }

  /** `ts` tokenises `source`: every token is the right one, nothing is lost between them, and
      only a last, unfinished word may be dropped. */
  ghost predicate Tokenises(source: string, ts: seq<string>) {
    && Concat(ts) <= source
    && (forall c :: c in source[|Concat(ts)|..] ==> !IsBreaking(c))
    && (forall k :: 0 <= k < |ts| ==> TokenOk(source, ts, k))
  }

  // ---------------------------------------------------------------- where tokens are

  /** The number of newline tokens. */
  function Lines(ts: seq<string>): (n: nat) {
    if ts == [] then 0 else Lines(ts[..|ts| - 1]) + if ts[|ts| - 1] == "\n" then 1 else 0
  }

  /** The length of everything after the last newline token. */
  function Column(ts: seq<string>): (n: nat) {
    if ts == [] || ts[|ts| - 1] == "\n" then 0 else Column(ts[..|ts| - 1]) + |ts[|ts| - 1]|
  }

  ghost predicate Positioned(tokens: seq<Token>) {
    forall k :: 0 <= k < |tokens|
      ==> tokens[k].line == Lines(Contents(tokens)[..k]) && tokens[k].character == Column(Contents(tokens)[..k])
  }

  /** The first token is at the start of the first line, and neighbouring tokens touch, except across the end of a line. */
  lemma {:induction false} NeighboursAreAdjacent(tokens: seq<Token>, k: nat)
    requires Positioned(tokens) && k < |tokens|
    ensures k == 0 ==> tokens[k].line == 0 && tokens[k].character == 0
    ensures k + 1 < |tokens|
            ==> if tokens[k].content == "\n" then
                  tokens[k + 1].line == tokens[k].line + 1 && tokens[k + 1].character == 0
                else
                  && tokens[k + 1].line == tokens[k].line
                  && tokens[k + 1].character == tokens[k].character + |tokens[k].content|
  {
    var ts := Contents(tokens);
    assert k == 0 ==> ts[..k] == [];
    if k + 1 < |tokens| {
      assert ts[..k + 1][..k] == ts[..k];
    }
  }

  // ---------------------------------------------------------------- steps of the loop

  lemma {:induction false} WordGrows(w: string, rest: string)
    requires forall c :: c in w ==> !IsBreaking(c)
    requires rest == "" || IsBreaking(rest[0])
    ensures Word(w + rest) == w
  {
    if w == "" {
      assert w + rest == rest;
    } else {
      assert w[0] in w;
      assert (w + rest)[1..] == w[1..] + rest;
      WordGrows(w[1..], rest);
    }
  }

  lemma {:induction false} ConcatPush(ts: seq<string>, t: string)
    ensures Concat(ts + [t]) == Concat(ts) + t
    ensures Lines(ts + [t]) == Lines(ts) + if t == "\n" then 1 else 0
    ensures Column(ts + [t]) == if t == "\n" then 0 else Column(ts) + |t|
    ensures InComment(ts + [t])
            <==> t != "\n" && (t == ";" || (t == "-" && ts != [] && ts[|ts| - 1] == "-") || InComment(ts))
  {
    assert (ts + [t])[..|ts|] == ts;
  }

  lemma {:induction false} TokensPush(source: string, ts: seq<string>, t: string)
    requires forall k :: 0 <= k < |ts| ==> TokenOk(source, ts, k)
    requires |Concat(ts)| < |source|
    requires t == NextToken(source[|Concat(ts)|..], InComment(ts))
    requires !IsBreaking(source[|Concat(ts)|]) ==> |Concat(ts)| + |t| < |source|
    ensures forall k :: 0 <= k < |ts + [t]| ==> TokenOk(source, ts + [t], k)
  {
    hide NextToken, IsBreaking, Concat, InComment;
    forall k | 0 <= k < |ts + [t]|
      ensures TokenOk(source, ts + [t], k)
    {
      if k < |ts| {
        assert TokenOk(source, ts, k);
        assert (ts + [t])[..k] == ts[..k];
      } else {
        assert (ts + [t])[..k] == ts;
      }
    }
  }

  lemma {:induction false} PositionsPush(tokens: seq<Token>, t: Token)
    requires Positioned(tokens)
    requires t.line == Lines(Contents(tokens)) && t.character == Column(Contents(tokens))
    ensures Positioned(tokens + [t]) && Contents(tokens + [t]) == Contents(tokens) + [t.content]
  {
    hide Lines, Column;
    var ts := Contents(tokens);
    assert Contents(tokens + [t]) == ts + [t.content];
    forall k | 0 <= k < |tokens + [t]|
      ensures (tokens + [t])[k].line == Lines((ts + [t.content])[..k])
      ensures (tokens + [t])[k].character == Column((ts + [t.content])[..k])
    {
      if k < |tokens| {
        assert (ts + [t.content])[..k] == ts[..k];
      } else {
        assert (ts + [t.content])[..k] == ts;
      }
    }
  }

  /** Everything the loop knows between two characters: `candidate` is the word being collected. */
  ghost predicate Loop(source: string, i: nat, tokens: seq<Token>, candidate: string,
                       line: nat, column: nat, hyphens: nat, comment: bool)
  {
    var ts := Contents(tokens);
    && i <= |source|
    && Concat(ts) + candidate == source[..i]
    && (forall c :: c in candidate ==> !IsBreaking(c))
    && (forall k :: 0 <= k < |ts| ==> TokenOk(source, ts, k))
    && Positioned(tokens)
    && line == Lines(ts) && column == Column(ts)
    && comment == InComment(ts)
    && (hyphens >= 1 <==> candidate == "" && ts != [] && ts[|ts| - 1] == "-")
  }

  lemma {:induction false} CollectStep(source: string, i: nat, tokens: seq<Token>, candidate: string,
                                       line: nat, column: nat, hyphens: nat, comment: bool)
    requires Loop(source, i, tokens, candidate, line, column, hyphens, comment)
    requires i < |source| && !IsBreaking(source[i])
    ensures Loop(source, i + 1, tokens, candidate + [source[i]], line, column, 0, comment)
  {
    hide IsBreaking, TokenOk, Positioned, Concat, Lines, Column, InComment;
    assert source[..i + 1] == source[..i] + [source[i]];
    assert Concat(Contents(tokens)) + (candidate + [source[i]]) == Concat(Contents(tokens)) + candidate + [source[i]];
  }

  /** A breaking character ends the word before it. */
  lemma {:induction false} FlushStep(source: string, i: nat, tokens: seq<Token>, candidate: string,
                                     line: nat, column: nat, hyphens: nat, comment: bool)
    requires Loop(source, i, tokens, candidate, line, column, hyphens, comment)
    requires i < |source| && IsBreaking(source[i]) && candidate != ""
    ensures hyphens == 0
    ensures Loop(source, i, tokens + [Token(line, column, candidate)], "", line, column + |candidate|, 0, comment)
  {
    hide IsBreaking, TokenOk, Positioned, Concat, Lines, Column, InComment;
    var ts := Contents(tokens);
    var t := Token(line, column, candidate);
    assert candidate[0] in candidate;
    NotSpecial(candidate);
    PositionsPush(tokens, t);
    ConcatPush(ts, candidate);
    assert source[|Concat(ts)|..] == candidate + source[i..];
    WordGrows(candidate, source[i..]);
    assert source[|Concat(ts)|] == candidate[0];
    TokensPush(source, ts, candidate);
    assert Concat(ts + [candidate]) + "" == Concat(ts + [candidate]);
  }

  lemma {:induction false} NotSpecial(word: string)
    requires word != "" && forall c :: c in word ==> !IsBreaking(c)
    ensures word != "\n" && word != ";" && word != "-"
  {
    assert word[0] in word;
  }

  /** A breaking character, or the quoted chunk it opens, becomes a token of its own. */
  lemma {:induction false} BreakStep(source: string, i: nat, tokens: seq<Token>, t: string,
                                     line: nat, column: nat, hyphens: nat, comment: bool)
    requires Loop(source, i, tokens, "", line, column, hyphens, comment)
    requires i < |source| && IsBreaking(source[i])
    requires t == NextToken(source[i..], comment) && 1 <= |t| && i + |t| <= |source| && t == source[i..i + |t|]
    ensures var newline := t == "\n";
            Loop(source, i + |t|, tokens + [Token(line, column, t)], "",
                 if newline then line + 1 else line,
                 if newline then 0 else column + |t|,
                 if t == "-" then hyphens + 1 else 0,
                 !newline && (t == ";" || (t == "-" && hyphens >= 1) || comment))
  {
    hide IsBreaking, TokenOk, Positioned, Concat, Lines, Column, InComment, NextToken;
    var ts := Contents(tokens);
    assert Concat(ts) + "" == Concat(ts);
    assert source[..i + |t|] == source[..i] + t;
    PositionsPush(tokens, Token(line, column, t));
    ConcatPush(ts, t);
    TokensPush(source, ts, t);
    assert Concat(ts + [t]) + "" == Concat(ts + [t]);
  }

  lemma {:induction false} SpecialsBreak()
    ensures forall c :: c == ';' || c == '-' || c == '\n' || IsQuote(c) ==> IsBreaking(c)
  {
  }

  lemma {:induction false} ChunkStep(source: string, i: nat)
    requires i < |source| && IsQuote(source[i])
    ensures var t := E.Extracted(source[i..]);
            && t == NextToken(source[i..], false)
            && 1 <= |t| && i + |t| <= |source| && t == source[i..i + |t|] && t[0] == source[i]
  {
    hide IsBreaking;
    SpecialsBreak();
  }

  lemma {:induction false} CharacterStep(source: string, i: nat, comment: bool)
    requires i < |source| && IsBreaking(source[i]) && (IsQuote(source[i]) ==> comment)
    ensures NextToken(source[i..], comment) == [source[i]] == source[i..i + 1]
  {
    hide IsBreaking;
  }

  lemma {:induction false} LoopStarts(source: string)
    ensures Loop(source, 0, [], "", 0, 0, 0, false)
  {
    assert Contents([]) == [];
  }

  lemma {:induction false} LoopEnds(source: string, tokens: seq<Token>, candidate: string,
                                    line: nat, column: nat, hyphens: nat, comment: bool)
    requires Loop(source, |source|, tokens, candidate, line, column, hyphens, comment)
    ensures Tokenises(source, Contents(tokens)) && Positioned(tokens)
    ensures source == "" || IsBreaking(source[|source| - 1]) ==> Concat(Contents(tokens)) == source
  {
    hide IsBreaking, TokenOk, Positioned, Concat, Lines, Column, InComment;
    var ts := Contents(tokens);
    assert source[..|source|] == source;
    assert source[|Concat(ts)|..] == candidate;
    if candidate != "" {
      assert candidate[|candidate| - 1] == source[|source| - 1];
      assert candidate[|candidate| - 1] in candidate;
    } else {
      assert Concat(ts) + "" == Concat(ts);
    }
  }

  // ---------------------------------------------------------------- the tokeniser

  /** No token is empty; only a quoted chunk has a separator inside; and after a word comes a separator. */
  ghost predicate Separated(ts: seq<string>) {
    && (forall k :: 0 <= k < |ts| ==> ts[k] != "")
    && (forall k, i :: 0 <= k < |ts| && 0 <= i < |ts[k]| && |ts[k]| > 1 && !IsQuote(ts[k][0]) ==> !Separates(ts[k][i]))
    && (forall k :: 0 <= k < |ts| - 1 && ts[k] != "" && ts[k + 1] != "" && !Separates(ts[k][0]) ==> Separates(ts[k + 1][0]))
  }

  lemma {:induction false} WordIsPlain(rem: string)
    ensures Word(rem) <= rem
    ensures forall i :: 0 <= i < |Word(rem)| ==> !IsBreaking(Word(rem)[i])
  {
    hide IsBreaking;
    if rem != "" && !IsBreaking(rem[0]) {
      WordIsPlain(rem[1..]);
    }
  }

  lemma {:induction false} TokenIsSeparate(source: string, ts: seq<string>, k: nat)
    requires k < |ts| && TokenOk(source, ts, k)
    ensures ts[k] != "" && ts[k][0] == source[|Concat(ts[..k])|]
    ensures |ts[k]| > 1 && !IsQuote(ts[k][0]) ==> forall i :: 0 <= i < |ts[k]| ==> !IsBreaking(ts[k][i])
    ensures !IsBreaking(ts[k][0])
            ==> var off := |Concat(ts[..k])| + |ts[k]|; off < |source| && IsBreaking(source[off])
  {
    hide InComment, Concat, IsBreaking, IsQuote;
    var rem := source[|Concat(ts[..k])|..];
    if !IsBreaking(rem[0]) {
      WordIsPlain(rem);
      WordStops(rem);
      assert Word(rem) != "";
    }
  }

  lemma {:induction false} TokensAreSeparated(source: string, ts: seq<string>)
    requires forall k :: 0 <= k < |ts| ==> TokenOk(source, ts, k)
    ensures Separated(ts)
  {
    hide InComment, Concat, IsBreaking, IsQuote, TokenOk, Separates;
    forall k | 0 <= k < |ts|
      ensures ts[k] != ""
      ensures |ts[k]| > 1 && !IsQuote(ts[k][0]) ==> forall i :: 0 <= i < |ts[k]| ==> !Separates(ts[k][i])
      ensures k + 1 < |ts| && !Separates(ts[k][0]) ==> ts[k + 1] != "" && Separates(ts[k + 1][0])
    {
      TokenIsSeparate(source, ts, k);
      forall i | 0 <= i < |ts[k]|
        ensures IsBreaking(ts[k][i]) <==> Separates(ts[k][i])
      {
        BreaksByCode(ts[k][i]);
      }
      if k + 1 < |ts| {
        TokenIsSeparate(source, ts, k + 1);
        BreaksByCode(ts[k + 1][0]);
        assert ts[..k + 1] == ts[..k] + [ts[k]];
        ConcatPush(ts[..k], ts[k]);
      }
    }
  }

  method Tokenise(source: string) returns (tokens: seq<Token>)
    ensures Tokenises(source, Contents(tokens))
    ensures Positioned(tokens)
    ensures Separated(Contents(tokens))
    ensures forall c :: c in source[|Concat(Contents(tokens))|..] ==> !Separates(c)
    ensures source == "" || Separates(source[|source| - 1]) ==> Concat(Contents(tokens)) == source
  {
    hide IsBreaking, NextToken, Loop, Positioned, Tokenises, Concat, Contents, E.Extracted, E.IsChunk, Separated, Separates;
    tokens := [];
    var candidate := "";
    var line: nat, column: nat := 0, 0;
    var limit := |source|;
    var hyphens: nat := 0;
    var comment := false;
    var i: nat := 0;
    LoopStarts(source);
    while i < limit
      invariant 0 <= i <= limit == |source|
      invariant Loop(source, i, tokens, candidate, line, column, hyphens, comment)
    {
      var current := source[i];
      var found := IsBreaking(current);
      ghost var hyphens0, comment0 := hyphens, comment;
      if !found {
        CollectStep(source, i, tokens, candidate, line, column, hyphens, comment);
        candidate := candidate + [current];
      }
      if current == ';' {
        comment := true;
      }
      if current == '-' {
        hyphens := hyphens + 1;
        if hyphens >= 2 {
          comment := true;
        }
      } else {
        hyphens := 0;
      }
      if found {
        if |candidate| > 0 {
          FlushStep(source, i, tokens, candidate, line, column, hyphens0, comment0);
          tokens := tokens + [Token(line, column, candidate)];
          column := column + |candidate|;
          candidate := "";
        }
        SpecialsBreak();
        if (current == '\'' || current == '\"') && !comment {
          var s := E.Extract(source[i..]);
          ChunkStep(source, i);
          BreakStep(source, i, tokens, s, line, column, hyphens0, comment0);
          tokens := tokens + [Token(line, column, s)];
          column := column + (|s| - 1);
          i := i + (|s| - 1);
        } else {
          CharacterStep(source, i, comment0);
          BreakStep(source, i, tokens, [current], line, column, hyphens0, comment0);
          tokens := tokens + [Token(line, column, [current])];
        }
        column := column + 1;
        if current == '\n' {
          line := line + 1;
          column := 0;
          comment := false;
        }
      } else {
        SpecialsBreak();
      }
      i := i + 1;
    }
    LoopEnds(source, tokens, candidate, line, column, hyphens, comment);
    InWords(source, Contents(tokens));
  }

  lemma {:induction false} InWords(source: string, ts: seq<string>)
    requires Tokenises(source, ts)
    ensures Separated(ts)
    ensures forall c :: c in source[|Concat(ts)|..] ==> !Separates(c)
    ensures source != "" ==> (IsBreaking(source[|source| - 1]) <==> Separates(source[|source| - 1]))
  {
    hide InComment, Concat, IsBreaking, Separated, TokenOk, Separates;
    TokensAreSeparated(source, ts);
    forall c | c in source[|Concat(ts)|..]
      ensures !Separates(c)
    {
      BreaksByCode(c);
    }
    if source != "" {
      BreaksByCode(source[|source| - 1]);
    }
  }

  /** Every source has one tokenisation only. */
  lemma {:induction false} TokenisationIsUnique(source: string, ts: seq<string>, us: seq<string>)
    requires Tokenises(source, ts) && Tokenises(source, us)
    ensures ts == us
  {
    hide NextToken, InComment, Concat, IsBreaking;
    var n := if |ts| < |us| then |ts| else |us|;
    SamePrefix(source, ts, us, n);
    NoMoreTokens(source, ts, us);
    NoMoreTokens(source, us, ts);
    assert ts[..n] == ts && us[..n] == us;
  }

  lemma {:induction false} SamePrefix(source: string, ts: seq<string>, us: seq<string>, n: nat)
    requires Tokenises(source, ts) && Tokenises(source, us) && n <= |ts| && n <= |us|
    ensures ts[..n] == us[..n]
  {
    hide NextToken, InComment, Concat, IsBreaking;
    if n > 0 {
      SamePrefix(source, ts, us, n - 1);
      assert TokenOk(source, ts, n - 1) && TokenOk(source, us, n - 1);
      assert ts[..n] == ts[..n - 1] + [ts[n - 1]] && us[..n] == us[..n - 1] + [us[n - 1]];
    }
  }

  /** What a tokenisation drops cannot hold another token. */
  lemma {:induction false} NoMoreTokens(source: string, ts: seq<string>, us: seq<string>)
    requires Tokenises(source, ts) && Tokenises(source, us)
    requires |ts| < |us| ==> us[..|ts|] == ts[..|ts|]
    ensures |us| <= |ts|
  {
    hide InComment, Concat, IsBreaking, TokenOk;
    if |ts| < |us| {
      assert ts[..|ts|] == ts;
      TokenNeedsBreak(source, us, |ts|);
      assert false;
    }
  }

  /** There is no token without a breaking character in it or after it. */
  lemma {:induction false} TokenNeedsBreak(source: string, ts: seq<string>, k: nat)
    requires k < |ts| && TokenOk(source, ts, k)
    ensures exists c :: c in source[|Concat(ts[..k])|..] && IsBreaking(c)
  {
    hide InComment, Concat, IsBreaking;
    var rem := source[|Concat(ts[..k])|..];
    if IsBreaking(rem[0]) {
      assert rem[0] in rem;
    } else {
      WordStops(rem);
      assert rem[|Word(rem)|] in rem;
    }
  }

  lemma {:induction false} WordStops(rem: string)
    ensures |Word(rem)| <= |rem|
    ensures |Word(rem)| < |rem| ==> IsBreaking(rem[|Word(rem)|])
  {
    hide IsBreaking;
    if rem != "" && !IsBreaking(rem[0]) {
      WordStops(rem[1..]);
    }
  }

  // ---------------------------------------------------------------- joining

  lemma {:induction false} ConcatSlices(ts: seq<string>, us: seq<string>)
    ensures Concat(ts + us) == Concat(ts) + Concat(us)
  {
    if us == [] {
      assert ts + us == ts;
    } else {
      var before, last := us[..|us| - 1], us[|us| - 1];
      ConcatSlices(ts, before);
      assert (ts + us)[..|ts + us| - 1] == ts + before;
    }
  }

  lemma {:induction false} JoinStep(tokens: seq<Token>, first: nat, i: nat)
    requires first <= i < |tokens|
    ensures var ts := Contents(tokens);
            Concat(ts[first..i + 1]) == (if first < i then Concat(ts[first..i]) else "") + tokens[i].content
  {
    hide Concat, Lines, Column, InComment;
    var ts := Contents(tokens);
    assert ts[first..i + 1] == ts[first..i] + [ts[i]];
    ConcatPush(ts[first..i], ts[i]);
    NothingJoined();
    assert first == i ==> ts[first..i] == [];
  }

  lemma {:induction false} NothingJoined()
    ensures Concat([]) == ""
  {
  }

  method JoinTokens(tokens: seq<Token>, first: nat, limit: nat) returns (joined: string)
    ensures var end := if limit < |tokens| then limit else |tokens|;
            joined == if first < end then Concat(Contents(tokens)[first..end]) else ""
  {
    hide Contents, Concat, Lines, Column, InComment;
    joined := "";
    var i := first;
    ghost var ts := Contents(tokens);
    while i < |tokens| && i < limit
      invariant first <= i && (i > first ==> i <= |tokens| && i <= limit)
      invariant joined == if first < i then Concat(ts[first..i]) else ""
      decreases limit - i
    {
      JoinStep(tokens, first, i);
      joined := joined + tokens[i].content;
      i := i + 1;
    }
  }

  /** Tokens joined in two parts give the whole source again. */
  lemma {:induction false} JoiningGivesTheSource(source: string, tokens: seq<Token>, k: nat)
    requires Tokenises(source, Contents(tokens)) && k <= |tokens|
    requires source == "" || Separates(source[|source| - 1])
    ensures Concat(Contents(tokens)[..k]) + Concat(Contents(tokens)[k..]) == source
  {
    hide IsBreaking, Separates, TokenOk, Concat;
    var ts := Contents(tokens);
    if source != "" {
      BreaksByCode(source[|source| - 1]);
    }
    ConcatSlices(ts[..k], ts[k..]);
    assert ts == ts[..k] + ts[k..];
  }
}
