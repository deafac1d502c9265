/** The glob matcher of KEYS and SCAN: an iterative loop that backtracks to the
    last star only, against two declarative relations. `Matches` is the
    relation the code's single-byte steps span; `DocMatches` is what the
    documentation says, where a closed class stands for one byte. */
module Glob {
  import opened Basics

  // --------------------------------------------------------------- classes

  /** The members of a class body and the position of the `]` that closes it. */
  datatype Class = Class(ranges: seq<(char, char)>, close: nat)

  /** Parses the body from position i; None when no `]` closes it. The byte
      under test plays no part, so where a class ends depends on the pattern
      alone. */
  function ParseBody(p: Bytes, i: nat): (c: Option<Class>)
    requires i <= |p|
    ensures c.Some? ==> i <= c.value.close < |p| && p[c.value.close] == ']'
    decreases |p| - i
  {
    if i == |p| then None
    else if p[i] == ']' then Some(Class([], i))
    else if p[i] == '\\' && i + 1 < |p| then
      AddRange((p[i + 1], p[i + 1]), ParseBody(p, i + 2))
    else if i + 2 < |p| && p[i + 1] == '-' && p[i + 2] != ']' then
      AddRange((p[i], p[i + 2]), ParseBody(p, i + 3))
    else AddRange((p[i], p[i]), ParseBody(p, i + 1))
  }

  function AddRange(r: (char, char), c: Option<Class>): Option<Class> {
    if c.None? then None else Some(Class([r] + c.value.ranges, c.value.close))
  }

  predicate InRanges(ranges: seq<(char, char)>, ch: char) {
    exists j :: 0 <= j < |ranges| && ranges[j].0 <= ch <= ranges[j].1
  }

  predicate Negated(p: Bytes, pos: nat) {
    pos + 1 < |p| && (p[pos + 1] == '^' || p[pos + 1] == '!')
  }

  /** The class that the `[` at pos opens, if it is ever closed. */
  function ClassAt(p: Bytes, pos: nat): (c: Option<Class>)
    requires pos < |p|
    ensures c.Some? ==> pos < c.value.close < |p|
  {
    ParseBody(p, pos + 1 + if Negated(p, pos) then 1 else 0)
  }

  predicate ClassMatches(p: Bytes, pos: nat, ch: char)
    requires pos < |p|
  {
    var c := ClassAt(p, pos);
    c.Some? && InRanges(c.value.ranges, ch) != Negated(p, pos)
  }

  lemma InRangesCons(r: (char, char), rs: seq<(char, char)>, ch: char)
    ensures InRanges([r] + rs, ch) <==> r.0 <= ch <= r.1 || InRanges(rs, ch)
  {
    if InRanges(rs, ch) {
      var j :| 0 <= j < |rs| && rs[j].0 <= ch <= rs[j].1;
      assert ([r] + rs)[j + 1] == rs[j];
    }
    if r.0 <= ch <= r.1 { assert ([r] + rs)[0] == r; }
  }

  /** With `matched` for the members seen so far, what remains of the body
      decides whether ch is in the class. */
  predicate Progress(whole: Option<Class>, left: Option<Class>, matched: bool, ch: char) {
    (left.Some? <==> whole.Some?) &&
    (left.Some? ==>
       left.value.close == whole.value.close &&
       (InRanges(whole.value.ranges, ch) <==> matched || InRanges(left.value.ranges, ch)))
  }

  lemma ProgressStep(whole: Option<Class>, left: Option<Class>, r: (char, char), matched: bool, ch: char)
    requires Progress(whole, AddRange(r, left), matched, ch)
    ensures Progress(whole, left, matched || r.0 <= ch <= r.1, ch)
  {
    if left.Some? { InRangesCons(r, left.value.ranges, ch); }
  }

  /** matchClass: the loop over the members of a class. */
  method MatchClass(p: Bytes, pos: nat, ch: char) returns (ok: bool, next: nat)
    requires pos < |p|
    ensures ok <==> ClassMatches(p, pos, ch)
    ensures next == if ClassAt(p, pos).Some? then ClassAt(p, pos).value.close + 1 else pos + 1
  {
    if pos + 1 >= |p| {
      return false, pos + 1;
    }
    var i := pos + 1;
    var negate := false;
    if p[i] == '^' || p[i] == '!' {
      negate := true;
      i := i + 1;
    }
    var matched := false;
    while i < |p|
      invariant pos < i <= |p| && negate == Negated(p, pos)
      invariant Progress(ClassAt(p, pos), ParseBody(p, i), matched, ch)
    {
      var c := p[i];
      if c == ']' {
        if negate {
          matched := !matched;
        }
        return matched, i + 1;
      }
      if c == '\\' && i + 1 < |p| {
        i := i + 1;
        ProgressStep(ClassAt(p, pos), ParseBody(p, i + 1), (p[i], p[i]), matched, ch);
        if ch == p[i] {
          matched := true;
        }
        i := i + 1;
        continue;
      }
      if i + 2 < |p| && p[i + 1] == '-' && p[i + 2] != ']' {
        ProgressStep(ClassAt(p, pos), ParseBody(p, i + 3), (c, p[i + 2]), matched, ch);
        if c <= ch <= p[i + 2] {
          matched := true;
        }
        i := i + 3;
        continue;
      }
      ProgressStep(ClassAt(p, pos), ParseBody(p, i + 1), (c, c), matched, ch);
      if ch == c {
        matched := true;
      }
      i := i + 1;
    }
    return false, pos + 1;
  }

  // ------------------------------------------------------------- relations

  /** Where the pattern stands after its token at pi consumed ch, as the code
      has it: a class that rejects ch still lets its `[` match literally. */
  function Step(p: Bytes, pi: nat, ch: char): (r: Option<nat>)
    requires pi < |p|
    ensures r.Some? ==> pi < r.value <= |p|
  {
    if p[pi] == '\\' && pi + 1 < |p| then
      if p[pi + 1] == ch then Some(pi + 2) else None
    else if p[pi] == '?' then Some(pi + 1)
    else if p[pi] == '[' && ClassMatches(p, pi, ch) then Some(ClassAt(p, pi).value.close + 1)
    else if p[pi] == ch then Some(pi + 1)
    else None
  }

  /** Where the token at pi ends, whatever byte it consumes. */
  function TokenEnd(p: Bytes, pi: nat): (r: nat)
    requires pi < |p|
    ensures pi < r <= |p|
  {
    if p[pi] == '\\' && pi + 1 < |p| then pi + 2
    else if p[pi] == '[' && ClassAt(p, pi).Some? then ClassAt(p, pi).value.close + 1
    else pi + 1
  }

  /** The documented meaning of the token at pi: a closed class is one byte of
      the set, an unclosed `[` is a literal. */
  predicate DocToken(p: Bytes, pi: nat, ch: char)
    requires pi < |p|
  {
    if p[pi] == '\\' && pi + 1 < |p| then p[pi + 1] == ch
    else if p[pi] == '?' then true
    else if p[pi] == '[' && ClassAt(p, pi).Some? then ClassMatches(p, pi, ch)
    else p[pi] == ch
  }

  /** p[pi..] matches s[si..] by the code's steps; a star takes any bytes. */
  ghost predicate Matches(p: Bytes, pi: nat, s: Bytes, si: nat)
    requires pi <= |p| && si <= |s|
    decreases |p| - pi, 0
  {
    if pi == |p| then si == |s|
    else if p[pi] == '*' then MatchesLater(p, pi + 1, s, si)
    else si < |s| && Step(p, pi, s[si]).Some? && Matches(p, Step(p, pi, s[si]).value, s, si + 1)
  }

  ghost predicate MatchesLater(p: Bytes, pi: nat, s: Bytes, si: nat)
    requires pi <= |p|
    decreases |p| - pi, 1
  {
    exists k :: si <= k <= |s| && Matches(p, pi, s, k)
  }

  /** p[pi..] matches s[si..] as documented. */
  ghost predicate DocMatches(p: Bytes, pi: nat, s: Bytes, si: nat)
    requires pi <= |p| && si <= |s|
    decreases |p| - pi, 0
  {
    if pi == |p| then si == |s|
    else if p[pi] == '*' then DocMatchesLater(p, pi + 1, s, si)
    else si < |s| && DocToken(p, pi, s[si]) && DocMatches(p, TokenEnd(p, pi), s, si + 1)
  }

  ghost predicate DocMatchesLater(p: Bytes, pi: nat, s: Bytes, si: nat)
    requires pi <= |p|
    decreases |p| - pi, 1
  {
    exists k :: si <= k <= |s| && DocMatches(p, pi, s, k)
  }

  // ---------------------------------------------------------------- matcher

  /** The result of the loop from a given state, for use in specifications of
      the callers. */
  function Loop(p: Bytes, s: Bytes, pi: nat, si: nat, star: int, mark: nat): (r: bool)
    requires pi <= |p| && mark <= si <= |s| && -1 <= star < |p|
    decreases |s| - mark, |s| - si, |p| - pi
  {
    if si == |s| then forall i :: pi <= i < |p| ==> p[i] == '*'
    else if pi < |p| && p[pi] == '*' then Loop(p, s, pi + 1, si, pi, si)
    else if pi < |p| && Step(p, pi, s[si]).Some? then
      Loop(p, s, Step(p, pi, s[si]).value, si + 1, star, mark)
    else if star >= 0 then Loop(p, s, star + 1, mark + 1, star, mark + 1)
    else false
  }

  function Accepts(p: Bytes, s: Bytes): (r: bool) {
    Loop(p, s, 0, 0, -1, 0)
  }

  /** globMatch. */
  method GlobMatch(p: Bytes, s: Bytes) returns (r: bool)
    ensures r == Accepts(p, s)
    ensures r ==> Matches(p, 0, s, 0)
    ensures '[' !in s || Uniform(p, 0) ==> (r <==> DocMatches(p, 0, s, 0))
  {
    GlobSound(p, s);
    if '[' !in s || Uniform(p, 0) { GlobComplete(p, s); }
    var pi: nat, si: nat := 0, 0;
    var star: int := -1;
    var mark: nat := 0;
    while si < |s|
      invariant pi <= |p| && mark <= si <= |s| && -1 <= star < |p|
      invariant Loop(p, s, pi, si, star, mark) == Accepts(p, s)
      decreases |s| - mark, |s| - si, |p| - pi
    {
      ghost var pi0 := pi;
      if pi < |p| {
        var c := p[pi];
        if c == '\\' && pi + 1 < |p| {
          pi := pi + 1;
          if p[pi] == s[si] {
            pi := pi + 1;
            si := si + 1;
            continue;
          }
        } else if c == '?' {
          pi := pi + 1;
          si := si + 1;
          continue;
        } else if c == '[' {
          var ok, next := MatchClass(p, pi, s[si]);
          if ok {
            pi := next;
            si := si + 1;
            continue;
          }
          if '[' == s[si] {
            pi := pi + 1;
            si := si + 1;
            continue;
          }
        } else if c == '*' {
          star := pi;
          mark := si;
          pi := pi + 1;
          continue;
        } else if c == s[si] {
          pi := pi + 1;
          si := si + 1;
          continue;
        }
      }
      if star >= 0 {
        pi := star + 1;
        mark := mark + 1;
        si := mark;
        continue;
      }
      return false;
    }
    ghost var tail := pi;
    while pi < |p| && p[pi] == '*'
      invariant tail <= pi <= |p|
      invariant forall i :: tail <= i < pi ==> p[i] == '*'
    {
      pi := pi + 1;
    }
    return pi == |p|;
  }

  // -------------------------------------------------------------- soundness

  lemma {:induction false} StarsMatchEmpty(p: Bytes, pi: nat, s: Bytes)
    requires pi <= |p|
    ensures Matches(p, pi, s, |s|) <==> forall i :: pi <= i < |p| ==> p[i] == '*'
    decreases |p| - pi
  {
    if pi < |p| && p[pi] == '*' {
      StarsMatchEmpty(p, pi + 1, s);
    }
  }

  /** Whatever the loop accepts is a match: from the current position, or from
      some later restart after the last star. */
  lemma {:induction false} LoopSound(p: Bytes, s: Bytes, pi: nat, si: nat, star: int, mark: nat)
    requires pi <= |p| && mark <= si <= |s| && -1 <= star < |p|
    requires Loop(p, s, pi, si, star, mark)
    ensures Matches(p, pi, s, si) ||
            (star >= 0 && MatchesLater(p, star + 1, s, mark + 1))
    decreases |s| - mark, |s| - si, |p| - pi
  {
    if si == |s| {
      StarsMatchEmpty(p, pi, s);
    } else if pi < |p| && p[pi] == '*' {
      LoopSound(p, s, pi + 1, si, pi, si);
    } else if pi < |p| && Step(p, pi, s[si]).Some? {
      LoopSound(p, s, Step(p, pi, s[si]).value, si + 1, star, mark);
    } else {
      LoopSound(p, s, star + 1, mark + 1, star, mark + 1);
    }
  }

  lemma GlobSound(p: Bytes, s: Bytes)
    ensures Accepts(p, s) ==> Matches(p, 0, s, 0)
  {
    if Accepts(p, s) { LoopSound(p, s, 0, 0, -1, 0); }
  }

  // ----------------------------------------------------------- completeness

  /** Every closed class that starts a token of p[pi..] accepts `[`, so none of
      them can be read literally. A caller can check this on the pattern. */
  predicate Uniform(p: Bytes, pi: nat)
    requires pi <= |p|
    decreases |p| - pi
  {
    pi == |p| ||
    ((p[pi] == '[' && ClassAt(p, pi).Some? ==> ClassMatches(p, pi, '[')) &&
     Uniform(p, TokenEnd(p, pi)))
  }

  /** The name has no `[`, or no token from pi on can be misread. */
  predicate Clear(p: Bytes, pi: nat, s: Bytes)
    requires pi <= |p|
  {
    '[' !in s || Uniform(p, pi)
  }

  /** On a clear pattern a step is the documented token, wherever it ends. */
  lemma ClearStep(p: Bytes, pi: nat, s: Bytes, si: nat)
    requires pi < |p| && si < |s| && Clear(p, pi, s)
    ensures Clear(p, TokenEnd(p, pi), s)
    ensures p[pi] != '*' ==>
              (Step(p, pi, s[si]).Some? <==> DocToken(p, pi, s[si]))
    ensures p[pi] != '*' && Step(p, pi, s[si]).Some? ==> Step(p, pi, s[si]).value == TokenEnd(p, pi)
  {
    assert s[si] in s;
  }

  lemma {:induction false} ClearMatches(p: Bytes, pi: nat, s: Bytes, si: nat)
    requires pi <= |p| && si <= |s| && Clear(p, pi, s)
    ensures Matches(p, pi, s, si) <==> DocMatches(p, pi, s, si)
    decreases |p| - pi
  {
    if pi == |p| {
    } else if p[pi] == '*' {
      var next := pi + 1;
      forall k | si <= k <= |s| ensures Matches(p, next, s, k) <==> DocMatches(p, next, s, k) {
        ClearMatches(p, next, s, k);
      }
      assert MatchesLater(p, next, s, si) <==> DocMatchesLater(p, next, s, si);
    } else if si < |s| {
      ClearStep(p, pi, s, si);
      ClearMatches(p, TokenEnd(p, pi), s, si + 1);
    }
  }

  /** n star-free tokens lead from a to b. */
  predicate Path(p: Bytes, a: nat, b: nat, n: nat)
    requires a <= |p| && b <= |p|
    decreases n
  {
    if n == 0 then a == b
    else a < |p| && p[a] != '*' && Path(p, TokenEnd(p, a), b, n - 1)
  }

  lemma {:induction false} PathExtend(p: Bytes, a: nat, b: nat, n: nat)
    requires a <= |p| && b < |p| && p[b] != '*' && Path(p, a, b, n)
    ensures Path(p, a, TokenEnd(p, b), n + 1)
    decreases n
  {
    if n > 0 { PathExtend(p, TokenEnd(p, a), b, n - 1); }
  }

  /** A match that starts at a must run through the same tokens to b. */
  lemma {:induction false} PathForced(p: Bytes, a: nat, b: nat, n: nat, s: Bytes, k: nat)
    requires a <= |p| && b <= |p| && k <= |s| && Path(p, a, b, n) && Clear(p, a, s)
    requires Matches(p, a, s, k)
    ensures k + n <= |s| && Matches(p, b, s, k + n)
    decreases n
  {
    if n > 0 {
      ClearStep(p, a, s, k);
      PathForced(p, TokenEnd(p, a), b, n - 1, s, k + 1);
    }
  }

  /** The loop misses nothing: restarting after an older star can only reach
      the newest one later than it was reached before. */
  lemma {:induction false} LoopComplete(p: Bytes, s: Bytes, pi: nat, si: nat, star: int, mark: nat)
    requires pi <= |p| && mark <= si <= |s| && -1 <= star < |p|
    requires Clear(p, pi, s)
    requires star >= 0 ==> Clear(p, star + 1, s) && Path(p, star + 1, pi, si - mark)
    requires Matches(p, pi, s, si) ||
             (star >= 0 && MatchesLater(p, star + 1, s, mark + 1))
    ensures Loop(p, s, pi, si, star, mark)
    decreases |s| - mark, |s| - si, |p| - pi
  {
    if !Matches(p, pi, s, si) {
      var restart := star + 1;
      var k :| mark < k <= |s| && Matches(p, restart, s, k);
      PathForced(p, restart, pi, si - mark, s, k);
    }
    if si == |s| {
      StarsMatchEmpty(p, pi, s);
    } else if pi < |p| && p[pi] == '*' {
      ClearStep(p, pi, s, si);
      assert MatchesLater(p, pi + 1, s, si);
      LoopComplete(p, s, pi + 1, si, pi, si);
    } else if pi < |p| && Step(p, pi, s[si]).Some? {
      ClearStep(p, pi, s, si);
      if star >= 0 { PathExtend(p, star + 1, pi, si - mark); }
      LoopComplete(p, s, TokenEnd(p, pi), si + 1, star, mark);
    } else {
      LoopComplete(p, s, star + 1, mark + 1, star, mark + 1);
    }
  }

  /** On clear inputs the matcher decides the documented relation. */
  lemma GlobComplete(p: Bytes, s: Bytes)
    requires '[' !in s || Uniform(p, 0)
    ensures Accepts(p, s) <==> DocMatches(p, 0, s, 0)
    ensures Accepts(p, s) <==> Matches(p, 0, s, 0)
  {
    ClearMatches(p, 0, s, 0);
    GlobSound(p, s);
    if Matches(p, 0, s, 0) { LoopComplete(p, s, 0, 0, -1, 0); }
  }

  // -------------------------------------- where code and documentation part

  /** A class that rejects `[` is read literally, so the code accepts a name of
      three bytes for a pattern that documents one byte. */
  lemma LiteralFallbackAccepts()
    ensures Accepts("[a]", "[a]") && !DocMatches("[a]", 0, "[a]", 0)
  {
    var p, s := "[a]", "[a]";
    assert ParseBody(p, 2) == Some(Class([], 2));
    assert [('a', 'a')] + [] == [('a', 'a')];
    assert ParseBody(p, 1) == Some(Class([('a', 'a')], 2));
    assert !ClassMatches(p, 0, '[');
    assert Step(p, 0, '[') == Some(1);
    assert Loop(p, s, 3, 3, -1, 0);
    assert Loop(p, s, 2, 2, -1, 0);
    assert Loop(p, s, 1, 1, -1, 0);
  }

  /** The same reading makes the code overlook a match: having gone through `[`
      and `a` literally it reaches the end of the name inside the class and
      does not go back to the star. */
  lemma LiteralFallbackMisses()
    ensures !Accepts("*[a]*", "[a") && DocMatches("*[a]*", 0, "[a", 0)
  {
    var p, s := "*[a]*", "[a";
    assert ParseBody(p, 3) == Some(Class([], 3));
    assert [('a', 'a')] + [] == [('a', 'a')];
    assert ParseBody(p, 2) == Some(Class([('a', 'a')], 3));
    assert !ClassMatches(p, 1, '[');
    assert ClassMatches(p, 1, 'a') by {
      assert InRanges([('a', 'a')], 'a') by { assert [('a', 'a')][0] == ('a', 'a'); }
    }
    assert Step(p, 1, '[') == Some(2);
    assert !Loop(p, s, 3, 2, 0, 0) by { assert p[3] != '*'; }
    assert !Loop(p, s, 2, 1, 0, 0);
    assert !Loop(p, s, 1, 0, 0, 0);
    assert DocMatches(p, 5, s, 2);
    assert DocMatches(p, 4, s, 2) by { assert DocMatchesLater(p, 5, s, 2); }
    assert DocMatches(p, 1, s, 1);
    assert DocMatchesLater(p, 1, s, 0);
  }

  /** A byte that the token at pi consumes. */
  function Sample(p: Bytes, pi: nat): (c: char)
    requires pi < |p| && p[pi] != '*'
    ensures Step(p, pi, c).Some?
  {
    if p[pi] == '\\' && pi + 1 < |p| then p[pi + 1] else p[pi]
  }

  /** A name that the code leads through a star-free p[pi..]. */
  function Render(p: Bytes, pi: nat): (s: Bytes)
    requires pi <= |p| && '*' !in p
    decreases |p| - pi
  {
    if pi == |p| then []
    else [Sample(p, pi)] + Render(p, Step(p, pi, Sample(p, pi)).value)
  }

  lemma {:induction false} RenderMatches(p: Bytes, pi: nat, pre: Bytes)
    requires pi <= |p| && '*' !in p
    ensures Matches(p, pi, pre + Render(p, pi), |pre|)
    decreases |p| - pi
  {
    if pi < |p| {
      var c := Sample(p, pi);
      var next := Step(p, pi, c).value;
      assert pre + Render(p, pi) == (pre + [c]) + Render(p, next);
      RenderMatches(p, next, pre + [c]);
    }
  }

  lemma {:induction false} RenderNotDocumented(p: Bytes, pi: nat, pre: Bytes)
    requires pi <= |p| && '*' !in p && !Uniform(p, pi)
    ensures !DocMatches(p, pi, pre + Render(p, pi), |pre|)
    decreases |p| - pi
  {
    var c := Sample(p, pi);
    var next := Step(p, pi, c).value;
    assert pre + Render(p, pi) == (pre + [c]) + Render(p, next);
    if DocToken(p, pi, c) {
      assert next == TokenEnd(p, pi);
      RenderNotDocumented(p, next, pre + [c]);
    }
  }

  lemma {:induction false} StarFreeLoop(p: Bytes, s: Bytes, pi: nat, si: nat)
    requires pi <= |p| && si <= |s| && '*' !in p
    ensures Loop(p, s, pi, si, -1, 0) <==> Matches(p, pi, s, si)
    decreases |p| - pi
  {
    if si == |s| {
      StarsMatchEmpty(p, pi, s);
    } else if pi < |p| && Step(p, pi, s[si]).Some? {
      StarFreeLoop(p, s, Step(p, pi, s[si]).value, si + 1);
    }
  }

  /** For a pattern without stars the code means what the documentation says,
      on every name, exactly when no closed class rejects `[`. */
  lemma StarFreeExact(p: Bytes)
    requires '*' !in p
    ensures (forall s :: Accepts(p, s) <==> DocMatches(p, 0, s, 0)) <==> Uniform(p, 0)
  {
    if Uniform(p, 0) {
      forall s ensures Accepts(p, s) <==> DocMatches(p, 0, s, 0) { GlobComplete(p, s); }
    } else {
      var s := [] + Render(p, 0);
      RenderMatches(p, 0, []);
      RenderNotDocumented(p, 0, []);
      StarFreeLoop(p, s, 0, 0);
      assert Accepts(p, s) && !DocMatches(p, 0, s, 0);
    }
  }

  // ------------------------------------------------------- what patterns mean

  /** A pattern that is one class takes one byte, by the class alone unless the byte
      is `[`. */
  lemma ClassPattern(p: Bytes, ch: char)
    requires |p| > 0 && p[0] == '[' && ClassAt(p, 0).Some? && ClassAt(p, 0).value.close == |p| - 1 && ch != '['
    ensures Accepts(p, [ch]) <==> ClassMatches(p, 0, ch)
  {
    hide ClassMatches;
    var s := [ch];
    if ClassMatches(p, 0, ch) {
      assert Step(p, 0, ch) == Some(|p|);
      assert Loop(p, s, |p|, 1, -1, 0);
    } else {
      assert Step(p, 0, ch) == None;
    }
  }

  predicate OpensNegation(c: char) { c == '^' || c == '!' }

  lemma OneRange(r: (char, char), ch: char)
    ensures InRanges([r], ch) <==> r.0 <= ch <= r.1
  {
    assert [r][0] == r;
  }

  /** `[lo-hi]` accepts the bytes from lo to hi. */
  lemma RangePattern(lo: char, hi: char, ch: char)
    requires lo != ']' && lo != '\\' && !OpensNegation(lo) && hi != ']' && ch != '['
    ensures Accepts(['[', lo, '-', hi, ']'], [ch]) <==> lo <= ch <= hi
  {
    var p := ['[', lo, '-', hi, ']'];
    assert ParseBody(p, 4) == Some(Class([], 4));
    assert [(lo, hi)] + [] == [(lo, hi)];
    assert ParseBody(p, 1) == Some(Class([(lo, hi)], 4));
    OneRange((lo, hi), ch);
    ClassPattern(p, ch);
  }

  /** `[^lo-hi]` and `[!lo-hi]` accept all other bytes. */
  lemma NegatedRangePattern(neg: char, lo: char, hi: char, ch: char)
    requires OpensNegation(neg) && lo != ']' && lo != '\\' && hi != ']' && ch != '['
    ensures Accepts(['[', neg, lo, '-', hi, ']'], [ch]) <==> !(lo <= ch <= hi)
  {
    var p := ['[', neg, lo, '-', hi, ']'];
    assert ParseBody(p, 5) == Some(Class([], 5));
    assert [(lo, hi)] + [] == [(lo, hi)];
    assert ParseBody(p, 2) == Some(Class([(lo, hi)], 5));
    OneRange((lo, hi), ch);
    ClassPattern(p, ch);
  }

  /** Bytes that stand for themselves in a class. */
  predicate PlainMembers(ms: Bytes) {
    ']' !in ms && '\\' !in ms && '-' !in ms
  }

  lemma {:induction false} ParseMembers(p: Bytes, i: nat, ms: Bytes, ch: char)
    requires i <= |p| && p[i..] == ms + "]" && PlainMembers(ms)
    ensures var c := ParseBody(p, i);
            c.Some? && c.value.close == |p| - 1 && (InRanges(c.value.ranges, ch) <==> ch in ms)
    decreases |ms|
  {
    assert |p| == i + |ms| + 1 && p[i] == (ms + "]")[0];
    if ms != [] {
      assert p[i + 1..] == ms[1..] + "]";
      ParseMembers(p, i + 1, ms[1..], ch);
      assert p[i + 1] == (ms + "]")[1];
      InRangesCons((p[i], p[i]), ParseBody(p, i + 1).value.ranges, ch);
      assert ms == [ms[0]] + ms[1..];
    }
  }

  /** `[abc]` accepts exactly its members. */
  lemma MembersPattern(ms: Bytes, ch: char)
    requires PlainMembers(ms) && (ms != [] ==> !OpensNegation(ms[0])) && ch != '['
    ensures Accepts("[" + ms + "]", [ch]) <==> ch in ms
  {
    var p := "[" + ms + "]";
    assert p[1..] == ms + "]";
    assert p[1] == if ms == [] then ']' else ms[0];
    assert !Negated(p, 0);
    ParseMembers(p, 1, ms, ch);
    assert ClassAt(p, 0) == ParseBody(p, 1);
    ClassPattern(p, ch);
  }

  /** `[^abc]` and `[!abc]` accept exactly the bytes that are not members. */
  lemma NegatedMembersPattern(neg: char, ms: Bytes, ch: char)
    requires OpensNegation(neg) && PlainMembers(ms) && ch != '['
    ensures Accepts(['[', neg] + ms + "]", [ch]) <==> ch !in ms
  {
    var p := ['[', neg] + ms + "]";
    assert p[2..] == ms + "]";
    assert Negated(p, 0);
    ParseMembers(p, 2, ms, ch);
    assert ClassAt(p, 0) == ParseBody(p, 2);
    ClassPattern(p, ch);
  }

  /** In a class a backslash makes the next byte a member, whatever it is. */
  lemma EscapedMemberPattern(c: char, ch: char)
    requires ch != '['
    ensures Accepts(['[', '\\', c, ']'], [ch]) <==> ch == c
  {
    var p := ['[', '\\', c, ']'];
    assert ParseBody(p, 3) == Some(Class([], 3));
    assert [(c, c)] + [] == [(c, c)];
    assert ParseBody(p, 1) == Some(Class([(c, c)], 3));
    OneRange((c, c), ch);
    ClassPattern(p, ch);
  }

  lemma {:induction false} NoBracketUniform(p: Bytes, pi: nat)
    requires pi <= |p| && '[' !in p
    ensures Uniform(p, pi)
    decreases |p| - pi
  {
    if pi < |p| {
      assert p[pi] in p;
      NoBracketUniform(p, TokenEnd(p, pi));
    }
  }

  /** Without classes the matcher decides its relation. */
  lemma NoBracketExact(p: Bytes, s: Bytes)
    requires '[' !in p
    ensures Accepts(p, s) <==> Matches(p, 0, s, 0)
  {
    NoBracketUniform(p, 0);
    GlobComplete(p, s);
  }

  /** Bytes that stand for themselves in a pattern. */
  predicate Ordinary(p: Bytes) {
    '*' !in p && '?' !in p && '[' !in p && '\\' !in p
  }

  lemma {:induction false} OrdinaryMatches(p: Bytes, q: Bytes, pi: nat, s: Bytes, si: nat)
    requires pi + |q| <= |p| && p[pi..pi + |q|] == q && Ordinary(q) && si <= |s|
    ensures Matches(p, pi, s, si) <==>
            si + |q| <= |s| && s[si..si + |q|] == q && Matches(p, pi + |q|, s, si + |q|)
    decreases |q|
  {
    if q != [] {
      assert p[pi] == q[0] && q[0] in q;
      assert p[pi + 1..pi + 1 + |q[1..]|] == q[1..];
      if si < |s| {
        OrdinaryMatches(p, q[1..], pi + 1, s, si + 1);
        assert si + |q| <= |s| ==> s[si..si + |q|] == [s[si]] + s[si + 1..si + |q|];
        assert q == [q[0]] + q[1..];
      }
    }
  }

  /** A pattern of ordinary bytes accepts itself alone. */
  lemma LiteralPattern(p: Bytes, s: Bytes)
    requires Ordinary(p)
    ensures Accepts(p, s) <==> s == p
  {
    NoBracketExact(p, s);
    OrdinaryMatches(p, p, 0, s, 0);
  }

  /** `p*` accepts exactly the names that start with p. */
  lemma PrefixPattern(p: Bytes, s: Bytes)
    requires Ordinary(p)
    ensures Accepts(p + "*", s) <==> p <= s
  {
    var q := p + "*";
    NoBracketExact(q, s);
    OrdinaryMatches(q, p, 0, s, 0);
    assert q[|p|] == '*';
    assert Matches(q, |q|, s, |s|);
    if |p| <= |s| { assert MatchesLater(q, |q|, s, |p|); }
  }

  /** `*p` accepts exactly the names that end with p. */
  lemma SuffixPattern(p: Bytes, s: Bytes)
    requires Ordinary(p)
    ensures Accepts("*" + p, s) <==> |p| <= |s| && s[|s| - |p|..] == p
  {
    var q := "*" + p;
    NoBracketExact(q, s);
    assert q[1..1 + |p|] == p;
    forall k | 0 <= k <= |s|
      ensures Matches(q, 1, s, k) <==> k + |p| == |s| && s[k..k + |p|] == p
    {
      OrdinaryMatches(q, p, 1, s, k);
    }
    assert Matches(q, 0, s, 0) <==> MatchesLater(q, 1, s, 0);
    if MatchesLater(q, 1, s, 0) {
      var k :| 0 <= k <= |s| && Matches(q, 1, s, k);
      assert s[k..] == s[k..k + |p|];
    }
    if |p| <= |s| && s[|s| - |p|..] == p {
      assert s[|s| - |p|..|s| - |p| + |p|] == p;
      assert Matches(q, 1, s, |s| - |p|);
    }
  }

  predicate OccursAt(p: Bytes, s: Bytes, k: nat) {
    k + |p| <= |s| && s[k..k + |p|] == p
  }

  /** `*p*` accepts exactly the names that contain p. */
  lemma InfixPattern(p: Bytes, s: Bytes)
    requires Ordinary(p)
    ensures Accepts("*" + p + "*", s) <==> exists k :: OccursAt(p, s, k)
  {
    var q := "*" + p + "*";
    NoBracketExact(q, s);
    assert q[1..1 + |p|] == p && q[1 + |p|] == '*';
    assert Matches(q, |q|, s, |s|);
    forall k | 0 <= k <= |s| ensures Matches(q, 1, s, k) <==> OccursAt(p, s, k) {
      OrdinaryMatches(q, p, 1, s, k);
      if k + |p| <= |s| { assert MatchesLater(q, |q|, s, k + |p|); }
    }
    assert Matches(q, 0, s, 0) <==> MatchesLater(q, 1, s, 0);
    if MatchesLater(q, 1, s, 0) {
      var k :| 0 <= k <= |s| && Matches(q, 1, s, k);
      assert OccursAt(p, s, k);
    }
    if k :| OccursAt(p, s, k) {
      assert Matches(q, 1, s, k);
    }
  }

  /** A pattern that is one token accepts the names of one byte that it takes. */
  lemma OneToken(p: Bytes, s: Bytes)
    requires p != [] && p[0] != '*'
    requires s != [] && Step(p, 0, s[0]).Some? ==> Step(p, 0, s[0]).value == |p|
    ensures Accepts(p, s) <==> |s| == 1 && Step(p, 0, s[0]).Some?
  {
    hide Step;
    if s != [] && Step(p, 0, s[0]).Some? {
      assert Accepts(p, s) == Loop(p, s, |p|, 1, -1, 0);
    }
  }

  /** `?` takes any one byte, a backslash makes the next byte ordinary, a backslash
      at the end and a bracket that is never closed stand for themselves. */
  lemma SingleTokenPatterns(c: char, s: Bytes)
    ensures Accepts("?", s) <==> |s| == 1
    ensures Accepts(['\\', c], s) <==> s == [c]
    ensures Accepts("\\", s) <==> s == "\\"
    ensures Accepts("[", s) <==> s == "["
  {
    assert ParseBody("[", 1) == None;
    OneToken("?", s);
    OneToken(['\\', c], s);
    OneToken("\\", s);
    OneToken("[", s);
    assert |s| == 1 ==> s == [s[0]];
  }
}
