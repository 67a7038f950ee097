/** str::levenshtein: the distance table, optimal over all edit scripts, and what is returned. */
module EditDistance {

  // ---------------------------------------------------------------- edit scripts

  /** One edit, read from left to right: write a new character, drop one of the source, or put a
      character in place of one of the source. */
  datatype Edit = Insert(c: char) | Delete | Put(c: char)

  type Script = seq<Edit>

  /** How many characters of the source the script reads. */
  function Consumed(script: Script): (n: nat) {
    if script == [] then 0
    else Consumed(script[..|script| - 1]) + if script[|script| - 1].Insert? then 0 else 1
  }

  /** What the script writes. */
  function Output(script: Script): (t: string) {
    if script == [] then ""
    else Output(script[..|script| - 1])
         + (match script[|script| - 1] case Insert(c) => [c] case Delete => "" case Put(c) => [c])
  }

  /** Insertions and deletions cost one; putting a character costs one unless it is the old one. */
  function Cost(script: Script, s: string): (n: nat)
    requires Consumed(script) <= |s|
  {
    if script == [] then 0 else
      var before, last := script[..|script| - 1], script[|script| - 1];
      Cost(before, s) + if last.Put? && s[Consumed(before)] == last.c then 0 else 1
  }

  predicate Transforms(script: Script, s: string, t: string) {
    Consumed(script) == |s| && Output(script) == t
  }

  // ---------------------------------------------------------------- the recurrence

  function Min(a: nat, b: nat): (m: nat) {
    if b < a then b else a
  }

  function DropLast(s: string): (r: string)
    requires s != ""
  {
    s[..|s| - 1]
  }

  function Last(s: string): (c: char)
    requires s != ""
  {
    s[|s| - 1]
  }

  function Distance(s: string, t: string): (d: nat)
    decreases |s| + |t|
  {
    if s == "" then |t|
    else if t == "" then |s|
    else
      Min(Min(Distance(DropLast(s), t) + 1, Distance(s, DropLast(t)) + 1),
          Distance(DropLast(s), DropLast(t)) + if Last(s) != Last(t) then 1 else 0)
  }

  // ---------------------------------------------------------------- optimality

  lemma {:induction false} CostOfPrefix(script: Script, s: string, s': string)
    requires Consumed(script) <= |s'| && s' <= s
    ensures Cost(script, s) == Cost(script, s')
  {
    if script != [] {
      CostOfPrefix(script[..|script| - 1], s, s');
    }
  }

  /** No script is cheaper than the distance. */
  lemma {:induction false} NoCheaperScript(script: Script, s: string, t: string)
    requires Transforms(script, s, t)
    ensures Cost(script, s) >= Distance(s, t)
    decreases |script|
  {
    if script != [] {
      var before, last := script[..|script| - 1], script[|script| - 1];
      match last {
        case Insert(c) =>
          assert t == Output(before) + [c];
          assert DropLast(t) == Output(before);
          NoCheaperScript(before, s, DropLast(t));
        case Delete =>
          CostOfPrefix(before, s, DropLast(s));
          NoCheaperScript(before, DropLast(s), t);
        case Put(c) =>
          assert t == Output(before) + [c];
          assert DropLast(t) == Output(before);
          CostOfPrefix(before, s, DropLast(s));
          NoCheaperScript(before, DropLast(s), DropLast(t));
      }
    }
  }

  lemma {:induction false} Extend(before: Script, last: Edit, s: string, s': string, t': string)
    requires Transforms(before, s', t')
    requires if last.Insert? then s == s' else s != "" && DropLast(s) == s'
    ensures Transforms(before + [last], s, t' + if last.Delete? then "" else [last.c])
    ensures Cost(before + [last], s)
            == Cost(before, s') + if last.Put? && Last(s) == last.c then 0 else 1
  {
    var script := before + [last];
    assert script[..|script| - 1] == before && script[|script| - 1] == last;
    CostOfPrefix(before, s, s');
  }

  lemma {:induction false} OneSided(s: string, t: string)
    ensures s == "" ==> Distance(s, t) == |t|
    ensures t == "" ==> Distance(s, t) == |s|
    ensures s == "" && t != "" ==> Distance(s, DropLast(t)) == |t| - 1
    ensures t == "" && s != "" ==> Distance(DropLast(s), t) == |s| - 1
    ensures s != "" ==> |DropLast(s)| < |s|
  {
  }

  /** Some script costs exactly the distance. */
  lemma {:induction false} BestScript(s: string, t: string) returns (script: Script)
    ensures Transforms(script, s, t) && Cost(script, s) == Distance(s, t)
    decreases |s| + |t|
  {
    if s == "" && t == "" {
      return [];
    }
    hide *;
    OneSided(s, t);
    if s != "" && (t == "" || Distance(s, t) == Distance(DropLast(s), t) + 1) {
      var before := BestScript(DropLast(s), t);
      Extend(before, Delete, s, DropLast(s), t);
      assert t + "" == t;
      return before + [Delete];
    }
    LastAgain(t);
    if s == "" || Distance(s, t) == Distance(s, DropLast(t)) + 1 {
      var before := BestScript(s, DropLast(t));
      Extend(before, Insert(Last(t)), s, s, DropLast(t));
      return before + [Insert(Last(t))];
    }
    DistanceStep(s, t);
    MinChoice(Distance(DropLast(s), t) + 1, Distance(s, DropLast(t)) + 1,
              Distance(DropLast(s), DropLast(t)) + if Last(s) != Last(t) then 1 else 0);
    var before := BestScript(DropLast(s), DropLast(t));
    Extend(before, Put(Last(t)), s, DropLast(s), DropLast(t));
    return before + [Put(Last(t))];
  }

  lemma {:induction false} LastAgain(t: string)
    requires t != ""
    ensures DropLast(t) + [Last(t)] == t && |DropLast(t)| < |t|
  {
  }

  lemma {:induction false} MinChoice(a: nat, b: nat, c: nat)
    ensures Min(Min(a, b), c) in {a, b, c}
  {
  }

  /** The distance is the least cost over all scripts from `s` to `t`. */
  lemma {:induction false} DistanceIsLeastCost(s: string, t: string)
    ensures exists script :: Transforms(script, s, t) && Cost(script, s) == Distance(s, t)
    ensures forall script :: Transforms(script, s, t) ==> Cost(script, s) >= Distance(s, t)
  {
    var best := BestScript(s, t);
    forall script | Transforms(script, s, t)
      ensures Cost(script, s) >= Distance(s, t)
    {
      NoCheaperScript(script, s, t);
    }
  }

  // ---------------------------------------------------------------- neighbouring cells

  /** One more character on either side changes the distance by at most one. */
  lemma {:induction false} OneMoreCharacter(s: string, t: string)
    ensures t != "" ==> Distance(s, DropLast(t)) <= Distance(s, t) + 1 && Distance(s, t) <= Distance(s, DropLast(t)) + 1
    ensures s != "" ==> Distance(DropLast(s), t) <= Distance(s, t) + 1 && Distance(s, t) <= Distance(DropLast(s), t) + 1
    decreases |s| + |t|
  {
    if s != "" && t != "" {
      OneMoreCharacter(DropLast(s), t);
      OneMoreCharacter(s, DropLast(t));
    }
  }

  // ---------------------------------------------------------------- the table

  /** Every cell holds the distance of the prefixes it stands for. */
  ghost predicate Filled(d: array2<nat>, source: string, target: string)
    reads d
  {
    && d.Length0 == |source| + 1 && d.Length1 == |target| + 1
    && forall i, j :: 0 <= i <= |source| && 0 <= j <= |target| ==> d[i, j] == Distance(source[..i], target[..j])
  }

  lemma {:induction false} CellRecurrence(source: string, target: string, i: nat, j: nat)
    requires 1 <= i <= |source| && 1 <= j <= |target|
    ensures Distance(source[..i], target[..j])
            == Min(Min(Distance(source[..i - 1], target[..j]) + 1, Distance(source[..i], target[..j - 1]) + 1),
                   Distance(source[..i - 1], target[..j - 1]) + if source[i - 1] != target[j - 1] then 1 else 0)
  {
    hide Distance, Min;
    var s, t := source[..i], target[..j];
    DistanceStep(s, t);
    assert DropLast(s) == source[..i - 1] && DropLast(t) == target[..j - 1];
  }

  lemma {:induction false} DistanceStep(s: string, t: string)
    requires s != "" && t != ""
    ensures Distance(s, t)
            == Min(Min(Distance(DropLast(s), t) + 1, Distance(s, DropLast(t)) + 1),
                   Distance(DropLast(s), DropLast(t)) + if Last(s) != Last(t) then 1 else 0)
  {
    hide Min, DropLast, Last;
  }

  method FillTable(source: string, target: string) returns (d: array2<nat>)
    ensures fresh(d) && Filled(d, source, target)
  {
    hide Distance;
    d := new nat[|source| + 1, |target| + 1]((i, j) => 0);
    for i := 0 to |source| + 1
      invariant forall k :: 0 <= k < i ==> d[k, 0] == k
    {
      d[i, 0] := i;
    }
    for j := 0 to |target| + 1
      invariant forall k :: 0 <= k <= |source| ==> d[k, 0] == k
      invariant forall k :: 0 <= k < j ==> d[0, k] == k
    {
      d[0, j] := j;
    }
    Borders(source, target);
    for i := 1 to |source| + 1
      invariant forall k, l :: 0 <= k <= |source| && 0 <= l <= |target| && (k < i || l == 0)
                  ==> d[k, l] == Distance(source[..k], target[..l])
    {
      for j := 1 to |target| + 1
        invariant forall k, l :: 0 <= k <= |source| && 0 <= l <= |target| && (k < i || l == 0 || (k == i && l < j))
                    ==> d[k, l] == Distance(source[..k], target[..l])
      {
        var cost := if source[i - 1] != target[j - 1] then 1 else 0;
        var deletion := d[i - 1, j] + 1;
        var insertion := d[i, j - 1] + 1;
        var substitution := d[i - 1, j - 1] + cost;
        CellRecurrence(source, target, i, j);
        d[i, j] := Min(Min(deletion, insertion), substitution);
      }
    }
  }

  lemma {:induction false} Borders(source: string, target: string)
    ensures forall k :: 0 <= k <= |source| ==> Distance(source[..k], target[..0]) == k
    ensures forall k :: 0 <= k <= |target| ==> Distance(source[..0], target[..k]) == k
  {
  }

  // ---------------------------------------------------------------- the value handed back

  /** The value handed back for two non-empty strings is the cell one short in each dimension. */
  method Levenshtein(source: string, target: string) returns (distance: nat)
    ensures source == "" || target == "" ==> distance == Distance(source, target)
    ensures source != "" && target != "" ==> distance == Distance(DropLast(source), DropLast(target))
    ensures distance <= Distance(source, target) <= distance + 1
    ensures source != "" && target != ""
            ==> (distance == Distance(source, target)
                 <==> || Last(source) == Last(target)
                      || Distance(DropLast(source), target) < Distance(DropLast(source), DropLast(target))
                      || Distance(source, DropLast(target)) < Distance(DropLast(source), DropLast(target)))
  {
    if |source| == 0 {
      return |target|;
    }
    if |target| == 0 {
      return |source|;
    }
    var table := FillTable(source, target);
    distance := table[|source| - 1, |target| - 1];
    OneMoreCharacter(DropLast(source), target);
    OneMoreCharacter(source, DropLast(target));
  }

  /** "a" and "b" are reported as equal. */
  lemma {:induction false} ReturnedValueCanBeShort()
    ensures Distance("a", "b") == 1 && Distance(DropLast("a"), DropLast("b")) == 0
  {
    assert DropLast("a") == "" && DropLast("b") == "";
  }
}
