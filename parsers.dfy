/**
 * The two text parsers of the order sheet: `clean_name`, which removes the
 * "Player First Name :" / "Player Last Name :" labels the vendor export puts
 * in front of a name, and `extract_jersey_number`, which finds the
 * requested number in the "Options Detail" text, e.g. "[Player Number : 52]".
 *
 * Both regular expressions are fixed and never need to backtrack (each
 * greedy `\s*` or `\d+` is followed by something it cannot consume, and the
 * two alternatives `First` and `Last` start with different letters), so a
 * pattern is written as a list of pieces matched left to right: a piece
 * tried at position `i` returns the position just after what it consumed.
 * The search (`re.search`) and the substitution (`re.sub` with an empty
 * replacement) are written once for any such pattern.
 */
module Parsers {
  import opened Wrappers
  import opened Text

  /** Lift a position found in `x` to the same position in `p + x`. */
  function Shift(r: Option<nat>, k: nat): Option<nat> {
    match r
    case None => None
    case Some(j) => Some(j + k)
  }

  // ---------------------------------------------------------------------
  // Runs of whitespace and digits
  // ---------------------------------------------------------------------

  /** The greedy `\s*` from position `i`: where the run of whitespace ends. */
  function SkipSpaces(s: string, i: nat): (j: nat)
    requires i <= |s|
    ensures i <= j <= |s|
    decreases |s| - i
  {
    if i < |s| && IsSpace(s[i]) then SkipSpaces(s, i + 1) else i
  }

  /** The greedy run of `\d` from position `i`: where the run of digits ends. */
  function SkipDigits(s: string, i: nat): (j: nat)
    requires i <= |s|
    ensures i <= j <= |s|
    ensures forall k :: i <= k < j ==> IsDigit(s[k])
    decreases |s| - i
  {
    if i < |s| && IsDigit(s[i]) then SkipDigits(s, i + 1) else i
  }

  /** A run ends exactly where the whitespace stops. */
  lemma {:induction false} SkipSpacesTo(s: string, i: nat, j: nat)
    requires i <= j <= |s|
    requires forall k :: i <= k < j ==> IsSpace(s[k])
    requires j == |s| || !IsSpace(s[j])
    ensures SkipSpaces(s, i) == j
    decreases j - i
  {
    if i < j {
      SkipSpacesTo(s, i + 1, j);
    }
  }

  lemma {:induction false} SkipDigitsTo(s: string, i: nat, j: nat)
    requires i <= j <= |s|
    requires forall k :: i <= k < j ==> IsDigit(s[k])
    requires j == |s| || !IsDigit(s[j])
    ensures SkipDigits(s, i) == j
    decreases j - i
  {
    if i < j {
      SkipDigitsTo(s, i + 1, j);
    }
  }

  lemma {:induction false} SkipSpacesShift(p: string, x: string, i: nat)
    requires i <= |x|
    ensures SkipSpaces(p + x, |p| + i) == |p| + SkipSpaces(x, i)
    decreases |x| - i
  {
    if i < |x| {
      assert (p + x)[|p| + i] == x[i];
      SkipSpacesShift(p, x, i + 1);
    }
  }

  lemma {:induction false} SkipDigitsShift(p: string, x: string, i: nat)
    requires i <= |x|
    ensures SkipDigits(p + x, |p| + i) == |p| + SkipDigits(x, i)
    decreases |x| - i
  {
    if i < |x| {
      assert (p + x)[|p| + i] == x[i];
      SkipDigitsShift(p, x, i + 1);
    }
  }

  // ---------------------------------------------------------------------
  // Fixed patterns
  // ---------------------------------------------------------------------

  /** One element of a fixed pattern. */
  datatype Piece =
    | Exact(w: string)             // literal text, case-sensitive
    | Folded(w: string)            // literal text ignoring ASCII letter case; `w` is in lower case
    | Either(a: string, b: string) // `(A|B)` ignoring ASCII letter case, `a` tried first
    | Blank                        // `\s*`, greedy
    | Digits                       // `\d+`, greedy

  /** The pieces of a pattern, first to last. */
  datatype Pattern = End | Then(first: Piece, rest: Pattern)

  /** Pattern `a` followed by pattern `b`. */
  function Append(a: Pattern, b: Pattern): Pattern {
    match a
    case End => b
    case Then(pc, rest) => Then(pc, Append(rest, b))
  }

  function Fold(c: char, fold: bool): char {
    if fold then LowerChar(c) else c
  }

  /** `s` has `w` at position `i`, ignoring ASCII letter case when `fold` holds. */
  predicate TextAt(s: string, i: nat, w: string, fold: bool) {
    i + |w| <= |s| && forall k :: 0 <= k < |w| ==> Fold(s[i + k], fold) == w[k]
  }

  /** `u` spells `w` (given in lower case), ignoring ASCII letter case. */
  predicate Spells(u: string, w: string) {
    |u| == |w| && forall k :: 0 <= k < |u| ==> LowerChar(u[k]) == w[k]
  }

  /** One piece tried at position `i`: where it ends, when it matches there. */
  function PieceAt(s: string, i: nat, pc: Piece): (r: Option<nat>)
    requires i <= |s|
    ensures r.Some? ==> i <= r.value <= |s|
  {
    match pc
    case Exact(w) => if TextAt(s, i, w, false) then Some(i + |w|) else None
    case Folded(w) => if TextAt(s, i, w, true) then Some(i + |w|) else None
    case Either(a, b) =>
      if TextAt(s, i, a, true) then Some(i + |a|)
      else if TextAt(s, i, b, true) then Some(i + |b|)
      else None
    case Blank => Some(SkipSpaces(s, i))
    case Digits => var j := SkipDigits(s, i); if i < j then Some(j) else None
  }

  /** A pattern that opens with non-empty literal text never matches the empty text. */
  predicate Consumes(pat: Pattern) {
    pat.Then? && (pat.first.Exact? || pat.first.Folded?) && pat.first.w != []
  }

  /** A whole pattern tried at position `i`: where the match ends, when there is one. */
  function PatternAt(s: string, i: nat, pat: Pattern): (r: Option<nat>)
    requires i <= |s|
    ensures r.Some? ==> i <= r.value <= |s|
    ensures r.Some? && Consumes(pat) ==> i < r.value
    decreases pat
  {
    match pat
    case End => Some(i)
    case Then(pc, rest) =>
      match PieceAt(s, i, pc)
      case None => None
      case Some(j) => PatternAt(s, j, rest)
  }

  /** Matching `a` then `b` is matching `a`, then `b` where `a` stopped. */
  lemma {:induction false} PatternAppend(s: string, i: nat, a: Pattern, b: Pattern)
    requires i <= |s|
    ensures PatternAt(s, i, Append(a, b)) ==
            match PatternAt(s, i, a)
            case None => None
            case Some(j) => PatternAt(s, j, b)
    decreases a
  {
    match a
    case End =>
    case Then(pc, rest) =>
      match PieceAt(s, i, pc)
      case None =>
      case Some(j) => PatternAppend(s, j, rest, b);
  }

  // What a pattern finds at position |p| + i of p + x it finds at i of x.

  lemma {:induction false} TextAtShift(p: string, x: string, i: nat, w: string, fold: bool)
    requires i <= |x|
    ensures TextAt(p + x, |p| + i, w, fold) == TextAt(x, i, w, fold)
  {
    if i + |w| <= |x| {
      assert forall j :: |p| + i <= j < |p| + i + |w| ==> (p + x)[j] == x[j - |p|];
    }
  }

  lemma {:induction false} PieceAtShift(p: string, x: string, i: nat, pc: Piece)
    requires i <= |x|
    ensures PieceAt(p + x, |p| + i, pc) == Shift(PieceAt(x, i, pc), |p|)
  {
    match pc
    case Exact(w) => TextAtShift(p, x, i, w, false);
    case Folded(w) => TextAtShift(p, x, i, w, true);
    case Either(a, b) => TextAtShift(p, x, i, a, true); TextAtShift(p, x, i, b, true);
    case Blank => SkipSpacesShift(p, x, i);
    case Digits => SkipDigitsShift(p, x, i);
  }

  lemma {:induction false} PatternAtShift(p: string, x: string, i: nat, pat: Pattern)
    requires i <= |x|
    ensures PatternAt(p + x, |p| + i, pat) == Shift(PatternAt(x, i, pat), |p|)
    decreases pat
  {
    match pat
    case End =>
    case Then(pc, rest) =>
      PieceAtShift(p, x, i, pc);
      match PieceAt(x, i, pc)
      case None =>
      case Some(j) => PatternAtShift(p, x, j, rest);
  }

  /** A pattern opening with literal text fails where that text does not start. */
  lemma {:induction false} PatternNeedsFirst(s: string, j: nat, pat: Pattern)
    requires j <= |s| && pat.Then? && pat.first.Exact? && pat.first.w != []
    requires j < |s| ==> s[j] != pat.first.w[0]
    ensures PatternAt(s, j, pat).None?
  {
    var w := pat.first.w;
    if j < |s| {
      assert !TextAt(s, j, w, false) by {
        assert Fold(s[j + 0], false) != w[0];
      }
    }
  }

  // A pattern matched piece by piece inside one text: each piece consumes
  // the part the text holds at its position, and the rest of the pattern
  // goes on from there.

  /** `s` holds `u` at position `i`. */
  predicate Holds(s: string, i: nat, u: string)
    ensures Holds(s, i, u) ==> i + |u| <= |s|
    decreases u
  {
    if u == [] then i <= |s| else i < |s| && s[i] == u[0] && Holds(s, i + 1, u[1..])
  }

  /** Holding, character by character. */
  lemma {:induction false} HoldsPointwise(s: string, i: nat, u: string)
    ensures Holds(s, i, u) <==> i + |u| <= |s| && forall k :: 0 <= k < |u| ==> s[i + k] == u[k]
    decreases u
  {
    if u != [] {
      HoldsPointwise(s, i + 1, u[1..]);
      if i + |u| <= |s| && forall k :: 0 <= k < |u| ==> s[i + k] == u[k] {
        forall k | 0 <= k < |u[1..]|
          ensures s[i + 1 + k] == u[1..][k]
        {
          assert s[i + (k + 1)] == u[k + 1];
        }
        assert s[i + 0] == u[0];
      }
      if Holds(s, i, u) {
        forall k | 0 <= k < |u|
          ensures s[i + k] == u[k]
        {
          if k > 0 {
            assert s[i + 1 + (k - 1)] == u[1..][k - 1];
          }
        }
      }
    }
  }

  /** Holding a concatenation is holding both halves, one after the other. */
  lemma {:induction false} HoldsSplit(s: string, i: nat, a: string, b: string)
    requires Holds(s, i, a + b)
    ensures Holds(s, i, a) && Holds(s, i + |a|, b)
  {
    HoldsPointwise(s, i, a + b);
    HoldsPointwise(s, i, a);
    HoldsPointwise(s, i + |a|, b);
    forall k | 0 <= k < |a|
      ensures s[i + k] == a[k]
    {
      assert (a + b)[k] == a[k];
    }
    forall k | 0 <= k < |b|
      ensures s[i + |a| + k] == b[k]
    {
      assert s[i + (|a| + k)] == (a + b)[|a| + k];
    }
  }

  lemma {:induction false} HoldsAt(s: string, i: nat, u: string, k: nat)
    requires Holds(s, i, u) && k < |u|
    ensures s[i + k] == u[k]
  {
    HoldsPointwise(s, i, u);
  }

  lemma {:induction false} TextHolds(s: string, i: nat, u: string, w: string, fold: bool)
    requires Holds(s, i, u) && |u| == |w| && forall k :: 0 <= k < |u| ==> Fold(u[k], fold) == w[k]
    ensures TextAt(s, i, w, fold)
  {
    forall k | 0 <= k < |w|
      ensures Fold(s[i + k], fold) == w[k]
    {
      HoldsAt(s, i, u, k);
    }
  }

  /** `\s*` consumes the whitespace `u` when a non-space, or the end, follows it. */
  lemma {:induction false} BlankAt(s: string, i: nat, u: string, pat: Pattern, e: nat)
    requires pat.Then? && pat.first == Blank && Holds(s, i, u) && AllSpace(u)
    requires i + |u| == |s| || !IsSpace(s[i + |u|])
    requires PatternAt(s, i + |u|, pat.rest) == Some(e)
    ensures PatternAt(s, i, pat) == Some(e)
  {
    forall k | i <= k < i + |u|
      ensures IsSpace(s[k])
    {
      HoldsAt(s, i, u, k - i);
    }
    SkipSpacesTo(s, i, i + |u|);
  }

  /** A word matched ignoring case consumes `u` when `u` spells it. */
  lemma {:induction false} FoldedAt(s: string, i: nat, u: string, w: string, rest: Pattern, e: nat)
    requires Holds(s, i, u) && Spells(u, w)
    requires PatternAt(s, i + |u|, rest) == Some(e)
    ensures PatternAt(s, i, Then(Folded(w), rest)) == Some(e)
  {
    TextHolds(s, i, u, w, true);
  }

  /** The case-sensitive colon. */
  lemma {:induction false} ColonAt(s: string, i: nat, pat: Pattern, e: nat)
    requires pat.Then? && pat.first == Exact(":") && i < |s| && s[i] == ':'
    requires PatternAt(s, i + 1, pat.rest) == Some(e)
    ensures PatternAt(s, i, pat) == Some(e)
  {
    assert TextAt(s, i, ":", false) by {
      assert Fold(s[i + 0], false) == ":"[0];
    }
  }

  /** The alternation `(First|Last)` consumes `u` when `u` spells either word. */
  lemma {:induction false} EitherAt(s: string, i: nat, u: string, pat: Pattern, e: nat)
    requires pat.Then? && pat.first == Either("first", "last") && Holds(s, i, u)
    requires FieldSpelled(u)
    requires PatternAt(s, i + |u|, pat.rest) == Some(e)
    ensures PatternAt(s, i, pat) == Some(e)
  {
    if Spells(u, "first") {
      TextHolds(s, i, u, "first", true);
    } else {
      TextHolds(s, i, u, "last", true);
      HoldsAt(s, i, u, 0);
      assert Fold(s[i + 0], true) == "last"[0] != "first"[0];
    }
  }

  /** `u` spells "First" or "Last", in any letter case. */
  predicate FieldSpelled(u: string) {
    Spells(u, "first") || Spells(u, "last")
  }

  /** The text at `i` starts with a letter that folds to the non-space `w[0]`. */
  lemma {:induction false} SpelledNotSpace(s: string, i: nat, u: string, w: string)
    requires Holds(s, i, u) && Spells(u, w) && w != [] && !IsSpace(w[0])
    ensures i < |s| && !IsSpace(s[i])
  {
    HoldsAt(s, i, u, 0);
    assert LowerChar(u[0]) == w[0];
  }

  lemma {:induction false} FieldNotSpace(s: string, i: nat, u: string)
    requires Holds(s, i, u) && FieldSpelled(u)
    ensures i < |s| && !IsSpace(s[i])
  {
    if Spells(u, "first") {
      SpelledNotSpace(s, i, u, "first");
    } else {
      SpelledNotSpace(s, i, u, "last");
    }
  }

  lemma {:induction false} TextFront(u: string, v: string, w: string, fold: bool)
    requires |u| == |w| && forall k :: 0 <= k < |u| ==> Fold(u[k], fold) == w[k]
    ensures TextAt(u + v, 0, w, fold)
  {
    assert forall k :: 0 <= k < |w| ==> (u + v)[0 + k] == u[k];
  }

  // Read backwards: what a match of each piece says about the text it
  // consumed.

  /** The greedy `\s*` stops at a non-space, or at the end. */
  lemma {:induction false} SkipSpacesRun(s: string, i: nat)
    requires i <= |s|
    ensures forall k :: i <= k < SkipSpaces(s, i) ==> IsSpace(s[k])
    ensures SkipSpaces(s, i) == |s| || !IsSpace(s[SkipSpaces(s, i)])
    decreases |s| - i
  {
    if i < |s| && IsSpace(s[i]) {
      SkipSpacesRun(s, i + 1);
    }
  }

  /** The greedy `\d+` stops at a non-digit, or at the end. */
  lemma {:induction false} SkipDigitsRun(s: string, i: nat)
    requires i <= |s|
    ensures SkipDigits(s, i) == |s| || !IsDigit(s[SkipDigits(s, i)])
    decreases |s| - i
  {
    if i < |s| && IsDigit(s[i]) {
      SkipDigitsRun(s, i + 1);
    }
  }

  /** A match that starts with `\s*` consumed a maximal run of whitespace. */
  lemma {:induction false} BlankBack(s: string, i: nat, pat: Pattern, e: nat) returns (j: nat)
    requires i <= |s| && pat.Then? && pat.first == Blank && PatternAt(s, i, pat) == Some(e)
    ensures i <= j <= |s| && AllSpace(s[i..j]) && (j == |s| || !IsSpace(s[j]))
    ensures PatternAt(s, j, pat.rest) == Some(e)
  {
    j := SkipSpaces(s, i);
    SkipSpacesRun(s, i);
    assert forall k :: 0 <= k < j - i ==> s[i..j][k] == s[i + k];
  }

  /** A match that starts with a word matched ignoring case consumed a spelling of the word. */
  lemma {:induction false} FoldedBack(s: string, i: nat, w: string, rest: Pattern, e: nat)
    requires i <= |s| && PatternAt(s, i, Then(Folded(w), rest)) == Some(e)
    ensures i + |w| <= |s| && Spells(s[i..i + |w|], w)
    ensures PatternAt(s, i + |w|, rest) == Some(e)
  {
    assert TextAt(s, i, w, true);
    var u := s[i..i + |w|];
    assert forall k :: 0 <= k < |w| ==> u[k] == s[i + k];
  }

  /** A match that starts with the alternation `(First|Last)` consumed a spelling of either word. */
  lemma {:induction false} EitherBack(s: string, i: nat, pat: Pattern, e: nat) returns (j: nat)
    requires i <= |s| && pat.Then? && pat.first == Either("first", "last") && PatternAt(s, i, pat) == Some(e)
    ensures i <= j <= |s| && FieldSpelled(s[i..j])
    ensures PatternAt(s, j, pat.rest) == Some(e)
  {
    if TextAt(s, i, "first", true) {
      j := i + 5;
      FoldedBack(s, i, "first", pat.rest, e);
    } else {
      j := i + 4;
      FoldedBack(s, i, "last", pat.rest, e);
    }
  }

  /** A match that starts with the colon consumed a colon. */
  lemma {:induction false} ColonBack(s: string, i: nat, pat: Pattern, e: nat)
    requires i <= |s| && pat.Then? && pat.first == Exact(":") && PatternAt(s, i, pat) == Some(e)
    ensures i < |s| && s[i] == ':'
    ensures PatternAt(s, i + 1, pat.rest) == Some(e)
  {
    assert TextAt(s, i, ":", false);
    assert Fold(s[i + 0], false) == ":"[0];
  }

  // ---------------------------------------------------------------------
  // re.search and re.sub for a fixed pattern
  // ---------------------------------------------------------------------

  /** re.search from position `i`: the first position at which the pattern matches. */
  function Search(s: string, i: nat, pat: Pattern): (r: Option<nat>)
    requires i <= |s|
    ensures r.None? ==> forall j :: i <= j <= |s| ==> PatternAt(s, j, pat).None?
    ensures r.Some? ==> i <= r.value <= |s| && PatternAt(s, r.value, pat).Some? &&
                        forall k :: i <= k < r.value ==> PatternAt(s, k, pat).None?
    decreases |s| - i
  {
    if PatternAt(s, i, pat).Some? then Some(i)
    else if i == |s| then None
    else Search(s, i + 1, pat)
  }

  /** re.sub(pattern, '', text) from position `i`: one left-to-right pass that drops every match it meets. */
  function Remove(s: string, i: nat, pat: Pattern): (r: string)
    requires i <= |s| && Consumes(pat)
    ensures |r| <= |s| - i
    decreases |s| - i
  {
    if i == |s| then []
    else
      match PatternAt(s, i, pat)
      case Some(e) => Remove(s, e, pat)
      case None => [s[i]] + Remove(s, i + 1, pat)
  }

  /** The pattern matches nowhere in `s`. */
  predicate MatchFree(s: string, pat: Pattern) {
    forall j :: 0 <= j < |s| ==> PatternAt(s, j, pat).None?
  }

  /** Text in which the pattern matches nowhere passes the substitution unchanged. */
  lemma {:induction false} RemoveNothing(s: string, i: nat, pat: Pattern)
    requires Consumes(pat) && MatchFree(s, pat) && i <= |s|
    ensures Remove(s, i, pat) == s[i..]
    decreases |s| - i
  {
    if i < |s| {
      RemoveNothing(s, i + 1, pat);
      assert s[i..] == [s[i]] + s[i + 1..];
    }
  }

  /** The pass over a position where a match starts resumes after the match. */
  lemma {:induction false} RemoveAtMatch(s: string, i: nat, e: nat, pat: Pattern)
    requires i < |s| && Consumes(pat) && PatternAt(s, i, pat) == Some(e)
    ensures Remove(s, i, pat) == Remove(s, e, pat)
  {
  }

  /** The pass over a position where no match starts copies that character. */
  lemma {:induction false} RemoveAtMiss(s: string, i: nat, pat: Pattern)
    requires i < |s| && Consumes(pat) && PatternAt(s, i, pat).None?
    ensures Remove(s, i, pat) == [s[i]] + Remove(s, i + 1, pat)
  {
  }

  /** Where the pass over `x` goes next from position `i < |x|`. */
  function RemoveNext(x: string, i: nat, pat: Pattern): (j: nat)
    requires i < |x|
    ensures PatternAt(x, i, pat).Some? ==> PatternAt(x, i, pat) == Some(j)
    ensures PatternAt(x, i, pat).None? ==> j == i + 1
  {
    match PatternAt(x, i, pat)
    case Some(e) => e
    case None => i + 1
  }

  /** Two passes standing on matches agree when they agree after the matches. */
  lemma {:induction false} RemoveBothMatch(s: string, k: nat, f: nat, x: string, i: nat, j: nat, pat: Pattern)
    requires k < |s| && i < |x| && Consumes(pat)
    requires PatternAt(s, k, pat) == Some(f) && PatternAt(x, i, pat) == Some(j)
    requires Remove(s, f, pat) == Remove(x, j, pat)
    ensures Remove(s, k, pat) == Remove(x, i, pat)
  {
    RemoveAtMatch(s, k, f, pat);
    RemoveAtMatch(x, i, j, pat);
  }

  /** Two passes standing on the same unmatched character agree when they agree after it. */
  lemma {:induction false} RemoveBothMiss(s: string, k: nat, x: string, i: nat, pat: Pattern)
    requires k < |s| && i < |x| && Consumes(pat) && s[k] == x[i]
    requires PatternAt(s, k, pat).None? && PatternAt(x, i, pat).None?
    requires Remove(s, k + 1, pat) == Remove(x, i + 1, pat)
    ensures Remove(s, k, pat) == Remove(x, i, pat)
  {
    RemoveAtMiss(s, k, pat);
    RemoveAtMiss(x, i, pat);
  }

  /**
   * One position of the pass over `s` from `k` and of the pass over `x`
   * from `i` agree, when `s` ends in `x` and `k` sits over `i`.
   */
  lemma {:induction false} RemoveShiftStep(s: string, k: nat, x: string, i: nat, j: nat, pat: Pattern)
    requires i <= k < |s| && i < |x| && Consumes(pat) && s[k] == x[i] && k - i == |s| - |x|
    requires j == RemoveNext(x, i, pat) && PatternAt(s, k, pat) == Shift(PatternAt(x, i, pat), k - i)
    requires Remove(s, k - i + j, pat) == Remove(x, j, pat)
    ensures Remove(s, k, pat) == Remove(x, i, pat)
  {
    if PatternAt(x, i, pat).Some? {
      RemoveBothMatch(s, k, k - i + j, x, i, j, pat);
    } else {
      RemoveBothMiss(s, k, x, i, pat);
    }
  }

  lemma {:induction false} RemoveShiftAt(p: string, x: string, i: nat, j: nat, pat: Pattern)
    requires i < |x| && Consumes(pat) && j == RemoveNext(x, i, pat)
    requires Remove(p + x, |p| + j, pat) == Remove(x, j, pat)
    ensures Remove(p + x, |p| + i, pat) == Remove(x, i, pat)
  {
    PatternAtShift(p, x, i, pat);
    assert (p + x)[|p| + i] == x[i];
    RemoveShiftStep(p + x, |p| + i, x, i, j, pat);
  }

  lemma {:induction false} RemoveShiftEnd(p: string, x: string, pat: Pattern)
    requires Consumes(pat)
    ensures Remove(p + x, |p| + |x|, pat) == Remove(x, |x|, pat)
  {
  }

  lemma {:induction false} RemoveShift(p: string, x: string, i: nat, pat: Pattern)
    requires i <= |x| && Consumes(pat)
    ensures Remove(p + x, |p| + i, pat) == Remove(x, i, pat)
    decreases |x| - i
  {
    if i < |x| {
      var j := RemoveNext(x, i, pat);
      RemoveShift(p, x, j, pat);
      RemoveShiftAt(p, x, i, j, pat);
    } else {
      RemoveShiftEnd(p, x, pat);
    }
  }

  /** Positions where no match starts are copied through one by one. */
  lemma {:induction false} RemoveCopies(s: string, i: nat, m: nat, pat: Pattern)
    requires i <= m <= |s| && Consumes(pat)
    requires forall j :: i <= j < m ==> PatternAt(s, j, pat).None?
    ensures Remove(s, i, pat) == s[i..m] + Remove(s, m, pat)
    decreases m - i
  {
    if i < m {
      RemoveCopies(s, i + 1, m, pat);
      RemoveCopiesStep(s, i, m, pat);
    }
  }

  lemma {:induction false} RemoveCopiesStep(s: string, i: nat, m: nat, pat: Pattern)
    requires i < m <= |s| && Consumes(pat) && PatternAt(s, i, pat).None?
    requires Remove(s, i + 1, pat) == s[i + 1..m] + Remove(s, m, pat)
    ensures Remove(s, i, pat) == s[i..m] + Remove(s, m, pat)
  {
    RemoveAtMiss(s, i, pat);
    assert s[i..m] == [s[i]] + s[i + 1..m];
  }

  /** A pass over a text that opens with a match and continues with match-free `y` leaves `y`. */
  lemma {:induction false} RemoveMatchThen(t: string, y: string, m: nat, pat: Pattern)
    requires Consumes(pat) && m <= |t| && PatternAt(t, 0, pat) == Some(m) && t[m..] == y && MatchFree(y, pat)
    ensures Remove(t, 0, pat) == y
  {
    assert Remove(t, 0, pat) == Remove(t, m, pat);
    assert t == t[..m] + y;
    RemoveShift(t[..m], y, 0, pat);
    RemoveNothing(y, 0, pat);
    assert y[0..] == y;
  }

  /**
   * A pass over q + t, where no match starts inside q and t opens with a
   * match of length m followed by match-free text y, keeps q and y.
   */
  lemma {:induction false} RemoveMatchInside(q: string, t: string, y: string, m: nat, pat: Pattern)
    requires Consumes(pat) && m <= |t| && PatternAt(t, 0, pat) == Some(m) && t[m..] == y && MatchFree(y, pat)
    requires forall j :: 0 <= j < |q| ==> PatternAt(q + t, j, pat).None?
    ensures Remove(q + t, 0, pat) == q + y
  {
    RemoveCopies(q + t, 0, |q|, pat);
    assert (q + t)[0..|q|] == q;
    RemoveShift(q, t, 0, pat);
    RemoveMatchThen(t, y, m, pat);
  }

  // ---------------------------------------------------------------------
  // extract_jersey_number: re.search(r'Player Number\s*:\s*(\d+)', text)
  // ---------------------------------------------------------------------

  /** `Player Number\s*:\s*`, case-sensitive: what stands in front of the captured digits. */
  const NumberLabel: Pattern := Then(Exact("Player Number"), Then(Blank, Then(Exact(":"), Then(Blank, End))))

  /** `Player Number\s*:\s*(\d+)`. */
  const NumberPattern: Pattern := Append(NumberLabel, Then(Digits, End))

  /** The value of the group `(\d+)` of a match found at position `j`. */
  function Captured(s: string, j: nat): (n: nat)
    requires j <= |s| && PatternAt(s, j, NumberPattern).Some?
  {
    PatternAppend(s, j, NumberLabel, Then(Digits, End));
    var b := PatternAt(s, j, NumberLabel).value;
    var e := SkipDigits(s, b);
    assert AllDigits(s[b..e]);
    DigitsValue(s[b..e])
  }

  /**
   * extract_jersey_number: absent for a missing cell; otherwise the number
   * captured at the first position where `Player Number\s*:\s*(\d+)`
   * matches, and absent exactly when it matches nowhere.
   */
  function ExtractJerseyNumber(val: Option<string>): (r: Option<nat>)
    ensures val.None? ==> r.None?
    ensures val.Some? ==> (r.None? <==> forall j :: 0 <= j <= |val.value| ==> PatternAt(val.value, j, NumberPattern).None?)
    ensures r.Some? ==>
              val.Some? &&
              exists j :: 0 <= j <= |val.value| && PatternAt(val.value, j, NumberPattern).Some? &&
                          (forall k :: 0 <= k < j ==> PatternAt(val.value, k, NumberPattern).None?) &&
                          r.value == Captured(val.value, j)
  {
    match val
    case None => None
    case Some(s) =>
      match Search(s, 0, NumberPattern)
      case None => None
      case Some(j) => Some(Captured(s, j))
  }

  /** No match where the text does not have a capital P: the pattern is case-sensitive. */
  lemma {:induction false} NumberNeedsP(s: string, j: nat)
    requires j <= |s| && (j < |s| ==> s[j] != 'P')
    ensures PatternAt(s, j, NumberPattern).None?
  {
    assert NumberPattern.Then? && NumberPattern.first == Exact("Player Number");
    PatternNeedsFirst(s, j, NumberPattern);
  }

  /** A text without a capital P holds no requested number. */
  lemma {:induction false} ExtractWithoutP(s: string)
    requires forall j :: 0 <= j < |s| ==> s[j] != 'P'
    ensures ExtractJerseyNumber(Some(s)).None?
  {
    forall j | 0 <= j <= |s|
      ensures PatternAt(s, j, NumberPattern).None?
    {
      NumberNeedsP(s, j);
    }
  }

  /** The option text the vendor export writes, "[Player Number : n]", gives back n. */
  lemma {:induction false} ExtractFromOptionText(n: nat)
    ensures ExtractJerseyNumber(Some("[Player Number : " + NatToString(n) + "]")) == Some(n)
  {
    var d := NatToString(n);
    var s := "[Player Number : " + d + "]";
    var e := 17 + |d|;
    assert s[1..e] == "Player Number" + " " + ":" + " " + d;
    assert s[e] == ']';
    NumberAt(s, 1, " ", " ", d, e);
    NumberNeedsP(s, 0);
    assert Search(s, 0, NumberPattern) == Some(1);
    NatToStringValue(n);
  }

  /** `str(52)` is "52". */
  lemma {:induction false} FiftyTwo(n: nat)
    requires n == 52
    ensures NatToString(n) == "52"
  {
    assert DigitChar(5) == '5' && DigitChar(2) == '2';
    assert NatToString(5) == "5";
    assert NatToString(52) == NatToString(5) + [DigitChar(2)];
  }

  /** The example in the source's own documentation, "[Player Number : 52]". */
  lemma {:induction false} ExtractExample(pre: string, d: string, post: string, n: nat)
    requires pre == "[Player Number : " && d == "52" && post == "]" && n == 52
    ensures ExtractJerseyNumber(Some(pre + d + post)) == Some(n)
  {
    FiftyTwo(n);
    ExtractFromOptionText(n);
  }

  /**
   * The marker written back for a changed order, "CHANGED: n", is not read
   * again as a number: the write-back is not a round trip.
   */
  lemma {:induction false} MarkerNotReparsed(n: nat)
    ensures ExtractJerseyNumber(Some("CHANGED: " + NatToString(n))).None?
  {
    var d := NatToString(n);
    var s := "CHANGED: " + d;
    assert forall j :: 0 <= j < |s| ==> s[j] != 'P' by {
      assert forall j :: 9 <= j < |s| ==> s[j] == d[j - 9];
    }
    ExtractWithoutP(s);
  }

  /** A match that starts with a case-sensitive word consumed that word. */
  lemma {:induction false} ExactBack(s: string, i: nat, w: string, rest: Pattern, e: nat)
    requires i <= |s| && PatternAt(s, i, Then(Exact(w), rest)) == Some(e)
    ensures i + |w| <= |s| && s[i..i + |w|] == w
    ensures PatternAt(s, i + |w|, rest) == Some(e)
  {
    assert TextAt(s, i, w, false);
    var u := s[i..i + |w|];
    assert forall k :: 0 <= k < |w| ==> u[k] == s[i + k];
  }

  /** `Player Number\s*:\s*` read back from a match: where the colon sits. */
  lemma {:induction false} NumberLabelBack(s: string, j: nat, b: nat) returns (c: nat)
    requires j <= |s| && PatternAt(s, j, NumberLabel) == Some(b)
    ensures j + 13 <= c < b <= |s|
    ensures s[j..j + 13] == "Player Number" && AllSpace(s[j + 13..c]) && s[c] == ':' && AllSpace(s[c + 1..b])
  {
    ExactBack(s, j, "Player Number", NumberLabel.rest, b);
    c := BlankBack(s, j + 13, NumberLabel.rest, b);
    ColonBack(s, c, NumberLabel.rest.rest, b);
    var x := BlankBack(s, c + 1, NumberLabel.rest.rest.rest, b);
    assert x == b;
  }

  /** Where the digits of a match of the number pattern start, and what they capture. */
  lemma {:induction false} DigitsBack(s: string, j: nat, e: nat) returns (b: nat)
    requires j <= |s| && PatternAt(s, j, NumberPattern) == Some(e)
    ensures PatternAt(s, j, NumberLabel) == Some(b) && b < e <= |s| && AllDigits(s[b..e])
    ensures Captured(s, j) == DigitsValue(s[b..e])
    ensures e == |s| || !IsDigit(s[e])
  {
    PatternAppend(s, j, NumberLabel, Then(Digits, End));
    b := PatternAt(s, j, NumberLabel).value;
    assert SkipDigits(s, b) == e;
    SkipDigitsRun(s, b);
  }

  /** The consecutive parts of a match of the number pattern make up its text. */
  lemma {:induction false} NumberOfSlices(s: string, j: nat, c: nat, b: nat, e: nat)
    requires j + 13 <= c < b <= e <= |s| && s[j..j + 13] == "Player Number" && s[c] == ':'
    ensures s[j..e] == "Player Number" + s[j + 13..c] + ":" + s[c + 1..b] + s[b..e]
  {
    assert s[c..c + 1] == ":";
    assert s[j..c] == s[j..j + 13] + s[j + 13..c];
    assert s[j..c + 1] == s[j..c] + s[c..c + 1];
    assert s[j..b] == s[j..c + 1] + s[c + 1..b];
    assert s[j..e] == s[j..b] + s[b..e];
  }

  /** The parts a match of the number pattern consumed: two runs of whitespace and the digits. */
  lemma {:induction false} NumberBack(s: string, j: nat, e: nat) returns (w1: string, w2: string, d: string)
    requires j <= |s| && PatternAt(s, j, NumberPattern) == Some(e)
    ensures AllSpace(w1) && AllSpace(w2) && d != [] && AllDigits(d)
    ensures s[j..e] == "Player Number" + w1 + ":" + w2 + d && Captured(s, j) == DigitsValue(d)
    ensures e == |s| || !IsDigit(s[e])
  {
    var b := DigitsBack(s, j, e);
    var c := NumberLabelBack(s, j, b);
    NumberOfSlices(s, j, c, b, e);
    w1, w2, d := s[j + 13..c], s[c + 1..b], s[b..e];
  }

  /**
   * Whatever `Player Number\s*:\s*(\d+)` matches is "Player Number",
   * whitespace, ":", whitespace and a run of digits that no digit follows,
   * and the number captured is that run's value; NumberAt is the converse.
   */
  lemma {:induction false} NumberMatchIsNumber(s: string, j: nat, e: nat)
    requires j <= |s| && PatternAt(s, j, NumberPattern) == Some(e)
    ensures exists w1, w2, d :: AllSpace(w1) && AllSpace(w2) && d != [] && AllDigits(d) &&
                                s[j..e] == "Player Number" + w1 + ":" + w2 + d && Captured(s, j) == DigitsValue(d)
    ensures e == |s| || !IsDigit(s[e])
  {
    var w1, w2, d := NumberBack(s, j, e);
  }

  /** `Player Number\s*:\s*` matches up to the first non-space after the colon. */
  lemma {:induction false} NumberLabelAt(s: string, j: nat, c: nat, b: nat)
    requires j + 13 <= c < b < |s| && s[j..j + 13] == "Player Number" && s[c] == ':' && !IsSpace(s[b])
    requires forall k :: j + 13 <= k < c ==> IsSpace(s[k])
    requires forall k :: c + 1 <= k < b ==> IsSpace(s[k])
    ensures PatternAt(s, j, NumberLabel) == Some(b)
  {
    SkipSpacesTo(s, c + 1, b);
    ColonAt(s, c, NumberLabel.rest.rest, b);
    SkipSpacesTo(s, j + 13, c);
    var u := s[j..j + 13];
    assert forall k :: 0 <= k < 13 ==> u[k] == s[j + k];
    assert TextAt(s, j, "Player Number", false);
  }

  /** Each character of an all-whitespace slice is whitespace. */
  lemma {:induction false} SliceSpaces(s: string, a: nat, b: nat)
    requires a <= b <= |s| && AllSpace(s[a..b])
    ensures forall k :: a <= k < b ==> IsSpace(s[k])
  {
    var u := s[a..b];
    assert forall k :: a <= k < b ==> u[k - a] == s[k];
  }

  /** Each character of an all-digit slice is a digit; a non-empty one opens with a non-space. */
  lemma {:induction false} SliceDigits(s: string, a: nat, b: nat)
    requires a < b <= |s| && AllDigits(s[a..b])
    ensures forall k :: a <= k < b ==> IsDigit(s[k])
    ensures !IsSpace(s[a])
  {
    var u := s[a..b];
    assert forall k :: a <= k < b ==> u[k - a] == s[k];
  }

  /** A slice that holds `x + y` holds `x`, then `y`. */
  lemma {:induction false} SliceSplit(s: string, j: nat, e: nat, x: string, y: string)
    requires j <= e <= |s| && s[j..e] == x + y
    ensures j + |x| <= e && s[j..j + |x|] == x && s[j + |x|..e] == y
  {
    assert s[j..j + |x|] == s[j..e][..|x|];
    assert s[j + |x|..e] == s[j..e][|x|..];
  }

  /** A run of digits after the label, that no digit follows, completes a match and is what it captures. */
  lemma {:induction false} DigitsFrom(s: string, j: nat, b: nat, e: nat)
    requires j <= b < e <= |s| && PatternAt(s, j, NumberLabel) == Some(b)
    requires forall k :: b <= k < e ==> IsDigit(s[k])
    requires e == |s| || !IsDigit(s[e])
    ensures PatternAt(s, j, NumberPattern) == Some(e) && Captured(s, j) == DigitsValue(s[b..e])
  {
    SkipDigitsTo(s, b, e);
    PatternAppend(s, j, NumberLabel, Then(Digits, End));
  }

  /** Where the parts of "Player Number" + w1 + ":" + w2 + d sit in `s` when `s` holds that text at `j`. */
  lemma {:induction false} NumberParts(s: string, j: nat, w1: string, w2: string, d: string, e: nat)
    requires j <= e <= |s| && s[j..e] == "Player Number" + w1 + ":" + w2 + d
    ensures var c := j + 13 + |w1|; var b := c + 1 + |w2|;
            b + |d| == e && s[j..j + 13] == "Player Number" && s[c] == ':' &&
            s[j + 13..c] == w1 && s[c + 1..b] == w2 && s[b..e] == d
  {
    var c := j + 13 + |w1|;
    assert "Player Number" + w1 + ":" + w2 + d == "Player Number" + (w1 + (":" + (w2 + d)));
    SliceSplit(s, j, e, "Player Number", w1 + (":" + (w2 + d)));
    SliceSplit(s, j + 13, e, w1, ":" + (w2 + d));
    SliceSplit(s, c, e, ":", w2 + d);
    assert s[c] == s[c..c + 1][0];
    SliceSplit(s, c + 1, e, w2, d);
  }

  /**
   * "Player Number", whitespace, ":", whitespace and a run of digits that
   * no digit follows: the number pattern matches all of it and captures
   * the run's value.
   */
  lemma {:induction false} NumberAt(s: string, j: nat, w1: string, w2: string, d: string, e: nat)
    requires j <= e <= |s| && s[j..e] == "Player Number" + w1 + ":" + w2 + d
    requires AllSpace(w1) && AllSpace(w2) && d != [] && AllDigits(d)
    requires e == |s| || !IsDigit(s[e])
    ensures PatternAt(s, j, NumberPattern) == Some(e) && Captured(s, j) == DigitsValue(d)
  {
    NumberParts(s, j, w1, w2, d, e);
    var c := j + 13 + |w1|;
    var b := c + 1 + |w2|;
    SliceSpaces(s, j + 13, c);
    SliceSpaces(s, c + 1, b);
    SliceDigits(s, b, e);
    NumberLabelAt(s, j, c, b);
    DigitsFrom(s, j, b, e);
  }

  // ---------------------------------------------------------------------
  // clean_name: re.sub(r'Player\s*(First|Last)\s*Name\s*[:]\s*', '', text,
  //                    flags=re.IGNORECASE).strip()
  // ---------------------------------------------------------------------

  // The label pattern, built from its tail: each constant is one piece in
  // front of the next.

  /** `\s*` at the end of the label. */
  const BlankEnd: Pattern := Then(Blank, End)

  /** `[:]\s*` */
  const ColonTail: Pattern := Then(Exact(":"), BlankEnd)

  /** `\s*[:]\s*` */
  const BlankColon: Pattern := Then(Blank, ColonTail)

  /** `Name\s*[:]\s*`, ignoring case. */
  const NameTail: Pattern := Then(Folded("name"), BlankColon)

  /** `\s*Name\s*[:]\s*`, ignoring case. */
  const BlankName: Pattern := Then(Blank, NameTail)

  /** `(First|Last)\s*Name\s*[:]\s*`, ignoring case. */
  const FieldWord: Pattern := Then(Either("first", "last"), BlankName)

  /** `\s*(First|Last)\s*Name\s*[:]\s*`, ignoring case. */
  const FieldTail: Pattern := Then(Blank, FieldWord)

  /** `Player\s*(First|Last)\s*Name\s*[:]\s*`, ignoring case. */
  const LabelPattern: Pattern := Then(Folded("player"), FieldTail)

  /** clean_name: "" for a missing cell; otherwise labels removed, then whitespace stripped. */
  function CleanName(val: Option<string>): (r: string)
    ensures val.None? ==> r == ""
    ensures val.Some? ==> |r| <= |val.value|
    ensures Trimmed(r)
  {
    match val
    case None => ""
    case Some(s) => Strip(Remove(s, 0, LabelPattern))
  }

  /** No label starts anywhere in `s`. */
  predicate LabelFree(s: string) {
    MatchFree(s, LabelPattern)
  }

  lemma {:induction false} StripTrimmed(s: string)
    requires Trimmed(s)
    ensures Strip(s) == s
  {
    if s != [] {
      assert LeadingSpaces(s) == 0;
      assert TrailingSpaces(s[0..]) == 0;
      assert s[0..|s|] == s;
    }
  }

  /**
   * A label as the vendor export may write it: "Player", whitespace,
   * "First" or "Last", whitespace, "Name", whitespace, ":", whitespace,
   * each word in any letter case and each run of whitespace of any length.
   */
  datatype Label = Label(player: string, w1: string, field: string, w2: string, name: string, w3: string, w4: string)

  predicate ValidLabel(l: Label) {
    Spells(l.player, "player") && FieldSpelled(l.field) && Spells(l.name, "name") &&
    AllSpace(l.w1) && AllSpace(l.w2) && AllSpace(l.w3) && AllSpace(l.w4)
  }

  function LabelText(l: Label): string {
    l.player + l.w1 + l.field + l.w2 + l.name + l.w3 + ":" + l.w4
  }

  /** Where each part of a label sits when the text holds the label at `i`. */
  lemma {:induction false} LabelSplit(s: string, i: nat, l: Label)
    requires Holds(s, i, LabelText(l))
    ensures var a1 := i + |l.player|; var a2 := a1 + |l.w1|; var a3 := a2 + |l.field|;
            var a4 := a3 + |l.w2|; var a5 := a4 + |l.name|; var c := a5 + |l.w3|;
            Holds(s, i, l.player) && Holds(s, a1, l.w1) && Holds(s, a2, l.field) && Holds(s, a3, l.w2) &&
            Holds(s, a4, l.name) && Holds(s, a5, l.w3) && Holds(s, c, ":") && Holds(s, c + 1, l.w4) &&
            c + 1 + |l.w4| == i + |LabelText(l)|
  {
    var p := l.player;
    HoldsSplit(s, i, p + l.w1 + l.field + l.w2 + l.name + l.w3 + ":", l.w4);
    HoldsSplit(s, i, p + l.w1 + l.field + l.w2 + l.name + l.w3, ":");
    HoldsSplit(s, i, p + l.w1 + l.field + l.w2 + l.name, l.w3);
    HoldsSplit(s, i, p + l.w1 + l.field + l.w2, l.name);
    HoldsSplit(s, i, p + l.w1 + l.field, l.w2);
    HoldsSplit(s, i, p + l.w1, l.field);
    HoldsSplit(s, i, p, l.w1);
  }

  /** `[:]\s*` at the end of a label. */
  lemma {:induction false} ColonFrom(s: string, c: nat, w4: string, e: nat)
    requires Holds(s, c, ":") && Holds(s, c + 1, w4) && AllSpace(w4) && e == c + 1 + |w4|
    requires e == |s| || !IsSpace(s[e])
    ensures PatternAt(s, c, ColonTail) == Some(e)
  {
    assert PatternAt(s, e, End) == Some(e);
    BlankAt(s, c + 1, w4, BlankEnd, e);
    HoldsAt(s, c, ":", 0);
    ColonAt(s, c, ColonTail, e);
  }

  /** `Name\s*[:]\s*`, given where the colon part matches. */
  lemma {:induction false} NameFrom(s: string, a4: nat, name: string, w3: string, e: nat)
    requires Spells(name, "name") && AllSpace(w3) && Holds(s, a4, name) && Holds(s, a4 + |name|, w3)
    requires Holds(s, a4 + |name| + |w3|, ":")
    requires PatternAt(s, a4 + |name| + |w3|, ColonTail) == Some(e)
    ensures PatternAt(s, a4, NameTail) == Some(e)
  {
    HoldsAt(s, a4 + |name| + |w3|, ":", 0);
    BlankAt(s, a4 + |name|, w3, BlankColon, e);
    FoldedAt(s, a4, name, "name", BlankColon, e);
  }

  /** `(First|Last)\s*Name\s*[:]\s*`, given where the name part matches. */
  lemma {:induction false} FieldFrom(s: string, a2: nat, field: string, w2: string, name: string, e: nat)
    requires FieldSpelled(field) && AllSpace(w2)
    requires Holds(s, a2, field) && Holds(s, a2 + |field|, w2)
    requires Spells(name, "name") && Holds(s, a2 + |field| + |w2|, name)
    requires PatternAt(s, a2 + |field| + |w2|, NameTail) == Some(e)
    ensures PatternAt(s, a2, FieldWord) == Some(e)
  {
    SpelledNotSpace(s, a2 + |field| + |w2|, name, "name");
    BlankAt(s, a2 + |field|, w2, BlankName, e);
    EitherAt(s, a2, field, FieldWord, e);
  }

  /** `Player\s*(First|Last)...`, given where the field word matches. */
  lemma {:induction false} LabelFrom(s: string, i: nat, l: Label, e: nat)
    requires ValidLabel(l)
    requires Holds(s, i, l.player) && Holds(s, i + |l.player|, l.w1) && Holds(s, i + |l.player| + |l.w1|, l.field)
    requires PatternAt(s, i + |l.player| + |l.w1|, FieldWord) == Some(e)
    ensures PatternAt(s, i, LabelPattern) == Some(e)
  {
    FieldTailFrom(s, i + |l.player|, l, e);
    FoldedAt(s, i, l.player, "player", FieldTail, e);
  }

  /** `\s*(First|Last)...`, given where the field word matches. */
  lemma {:induction false} FieldTailFrom(s: string, a1: nat, l: Label, e: nat)
    requires ValidLabel(l) && Holds(s, a1, l.w1) && Holds(s, a1 + |l.w1|, l.field)
    requires PatternAt(s, a1 + |l.w1|, FieldWord) == Some(e)
    ensures PatternAt(s, a1, FieldTail) == Some(e)
  {
    FieldNotSpace(s, a1 + |l.w1|, l.field);
    BlankAt(s, a1, l.w1, FieldTail, e);
  }

  /** The label pattern from the field word on, over the parts of a label laid out from `a2`. */
  lemma {:induction false} FieldWordAt(s: string, a2: nat, l: Label, e: nat)
    requires ValidLabel(l)
    requires var a3 := a2 + |l.field|; var a4 := a3 + |l.w2|; var a5 := a4 + |l.name|; var c := a5 + |l.w3|;
             Holds(s, a2, l.field) && Holds(s, a3, l.w2) && Holds(s, a4, l.name) && Holds(s, a5, l.w3) &&
             Holds(s, c, ":") && Holds(s, c + 1, l.w4) && e == c + 1 + |l.w4|
    requires e == |s| || !IsSpace(s[e])
    ensures PatternAt(s, a2, FieldWord) == Some(e)
  {
    var a4 := a2 + |l.field| + |l.w2|;
    NameAt(s, a4, l, e);
    FieldFrom(s, a2, l.field, l.w2, l.name, e);
  }

  /** The label pattern from the name word on. */
  lemma {:induction false} NameAt(s: string, a4: nat, l: Label, e: nat)
    requires ValidLabel(l)
    requires var a5 := a4 + |l.name|; var c := a5 + |l.w3|;
             Holds(s, a4, l.name) && Holds(s, a5, l.w3) && Holds(s, c, ":") && Holds(s, c + 1, l.w4) &&
             e == c + 1 + |l.w4|
    requires e == |s| || !IsSpace(s[e])
    ensures PatternAt(s, a4, NameTail) == Some(e)
  {
    ColonFrom(s, a4 + |l.name| + |l.w3|, l.w4, e);
    NameFrom(s, a4, l.name, l.w3, e);
  }

  /** The label pattern, piece by piece, over the parts of a label laid out from `i`. */
  lemma {:induction false} LabelPieces(s: string, i: nat, l: Label, e: nat)
    requires ValidLabel(l)
    requires var a1 := i + |l.player|; var a2 := a1 + |l.w1|; var a3 := a2 + |l.field|;
             var a4 := a3 + |l.w2|; var a5 := a4 + |l.name|; var c := a5 + |l.w3|;
             Holds(s, i, l.player) && Holds(s, a1, l.w1) && Holds(s, a2, l.field) && Holds(s, a3, l.w2) &&
             Holds(s, a4, l.name) && Holds(s, a5, l.w3) && Holds(s, c, ":") && Holds(s, c + 1, l.w4) &&
             e == c + 1 + |l.w4|
    requires e == |s| || !IsSpace(s[e])
    ensures PatternAt(s, i, LabelPattern) == Some(e)
  {
    var a1 := i + |l.player|;
    var a2 := a1 + |l.w1|;
    FieldWordAt(s, a2, l, e);
    LabelFrom(s, i, l, e);
  }

  /**
   * The label pattern matches exactly the label that the text holds at
   * `i`, when a non-space, or the end, follows the label.
   */
  lemma {:induction false} LabelAt(s: string, i: nat, l: Label, e: nat)
    requires ValidLabel(l) && Holds(s, i, LabelText(l)) && e == i + |LabelText(l)|
    requires e == |s| || !IsSpace(s[e])
    ensures PatternAt(s, i, LabelPattern) == Some(e)
  {
    LabelSplit(s, i, l);
    LabelPieces(s, i, l, e);
  }

  /** A label followed by text that starts with a non-space is matched in full. */
  lemma {:induction false} LabelMatched(l: Label, x: string)
    requires ValidLabel(l) && (x == [] || !IsSpace(x[0]))
    ensures PatternAt(LabelText(l) + x, 0, LabelPattern) == Some(|LabelText(l)|)
    ensures (LabelText(l) + x)[|LabelText(l)|..] == x
  {
    var t := LabelText(l);
    var s := t + x;
    assert x != [] ==> s[|t|] == x[0];
    HoldsPointwise(s, 0, t);
    assert forall k :: 0 <= k < |t| ==> s[0 + k] == t[k];
    LabelAt(s, 0, l, |t|);
  }

  /** `Name\s*[:]\s*` read back from a match: where the word, the colon and the end sit. */
  lemma {:induction false} NameTailBack(s: string, a4: nat, e: nat) returns (a5: nat, c: nat)
    requires a4 <= |s| && PatternAt(s, a4, NameTail) == Some(e)
    ensures a5 == a4 + 4 && a5 <= c < e <= |s|
    ensures Spells(s[a4..a5], "name") && AllSpace(s[a5..c]) && s[c] == ':' && AllSpace(s[c + 1..e])
    ensures e == |s| || !IsSpace(s[e])
  {
    FoldedBack(s, a4, "name", BlankColon, e);
    a5 := a4 + 4;
    c := BlankBack(s, a5, BlankColon, e);
    ColonBack(s, c, ColonTail, e);
    var b := BlankBack(s, c + 1, BlankEnd, e);
    assert b == e;
  }

  /** `(First|Last)\s*Name\s*[:]\s*` read back from a match. */
  lemma {:induction false} FieldWordBack(s: string, a2: nat, e: nat) returns (a3: nat, a4: nat)
    requires a2 <= |s| && PatternAt(s, a2, FieldWord) == Some(e)
    ensures a2 <= a3 <= a4 <= |s| && FieldSpelled(s[a2..a3]) && AllSpace(s[a3..a4])
    ensures PatternAt(s, a4, NameTail) == Some(e)
  {
    a3 := EitherBack(s, a2, FieldWord, e);
    a4 := BlankBack(s, a3, BlankName, e);
  }

  /** Seven consecutive slices and a colon make up the text of a label. */
  lemma {:induction false} LabelOfSlices(s: string, i: nat, a1: nat, a2: nat, a3: nat, a4: nat, a5: nat, c: nat, e: nat)
    requires i <= a1 <= a2 <= a3 <= a4 <= a5 <= c < e <= |s| && s[c] == ':'
    ensures s[i..e] == LabelText(Label(s[i..a1], s[a1..a2], s[a2..a3], s[a3..a4], s[a4..a5], s[a5..c], s[c + 1..e]))
  {
    assert s[c..c + 1] == ":";
    assert s[i..a2] == s[i..a1] + s[a1..a2];
    assert s[i..a3] == s[i..a2] + s[a2..a3];
    assert s[i..a4] == s[i..a3] + s[a3..a4];
    assert s[i..a5] == s[i..a4] + s[a4..a5];
    assert s[i..c] == s[i..a5] + s[a5..c];
    assert s[i..c + 1] == s[i..c] + s[c..c + 1];
    assert s[i..e] == s[i..c + 1] + s[c + 1..e];
  }

  /** `Player\s*` read back from a match: where the word and the whitespace after it end. */
  lemma {:induction false} PlayerBack(s: string, i: nat, e: nat) returns (a1: nat, a2: nat)
    requires i <= |s| && PatternAt(s, i, LabelPattern) == Some(e)
    ensures a1 == i + 6 && a1 <= a2 <= |s| && Spells(s[i..a1], "player") && AllSpace(s[a1..a2])
    ensures PatternAt(s, a2, FieldWord) == Some(e)
  {
    FoldedBack(s, i, "player", FieldTail, e);
    a1 := i + 6;
    a2 := BlankBack(s, a1, FieldTail, e);
  }

  /** The label whose text a match of the label pattern consumed. */
  lemma {:induction false} LabelBack(s: string, i: nat, e: nat) returns (l: Label)
    requires i <= |s| && PatternAt(s, i, LabelPattern) == Some(e)
    ensures ValidLabel(l) && s[i..e] == LabelText(l)
    ensures e == |s| || !IsSpace(s[e])
  {
    var a1, a2 := PlayerBack(s, i, e);
    var a3, a4 := FieldWordBack(s, a2, e);
    var a5, c := NameTailBack(s, a4, e);
    l := Label(s[i..a1], s[a1..a2], s[a2..a3], s[a3..a4], s[a4..a5], s[a5..c], s[c + 1..e]);
    LabelOfSlices(s, i, a1, a2, a3, a4, a5, c, e);
  }

  /**
   * The converse of LabelAt: whatever the label pattern matches is the
   * text of a label, and a non-space, or the end, follows it.
   */
  lemma {:induction false} LabelMatchIsLabel(s: string, i: nat, e: nat)
    requires i <= |s| && PatternAt(s, i, LabelPattern) == Some(e)
    ensures exists l :: ValidLabel(l) && s[i..e] == LabelText(l)
    ensures e == |s| || !IsSpace(s[e])
  {
    var l := LabelBack(s, i, e);
  }

  /**
   * clean_name on a labelled name: the label (any case, any whitespace)
   * is removed and the name itself comes back, provided the name has no
   * surrounding whitespace and carries no label of its own.
   */
  lemma {:induction false} CleanNameStripsLabel(l: Label, x: string)
    requires ValidLabel(l) && LabelFree(x) && Trimmed(x)
    ensures CleanName(Some(LabelText(l) + x)) == x
  {
    LabelMatched(l, x);
    RemoveMatchThen(LabelText(l) + x, x, |LabelText(l)|, LabelPattern);
    StripTrimmed(x);
  }

  /** A name without labels and without surrounding whitespace is left as it is. */
  lemma {:induction false} CleanNameKeepsPlain(x: string)
    requires LabelFree(x) && Trimmed(x)
    ensures CleanName(Some(x)) == x
  {
    RemoveNothing(x, 0, LabelPattern);
    assert x[0..] == x;
    StripTrimmed(x);
  }

  /** A text in which no character folds to `p` cannot hold a label. */
  lemma {:induction false} LabelFreeWithoutP(s: string)
    requires forall j :: 0 <= j < |s| ==> LowerChar(s[j]) != 'p'
    ensures LabelFree(s)
  {
    forall j | 0 <= j < |s|
      ensures PatternAt(s, j, LabelPattern).None?
    {
      assert !TextAt(s, j, "player", true) by {
        assert Fold(s[j + 0], true) != "player"[0];
      }
    }
  }

  /**
   * Where a label is immediately followed by text starting with "p" or
   * "P", no label starts within its "Player" word.
   */
  lemma {:induction false} OuterPlayerNoLabel(q: string, t: string, j: nat)
    requires Spells(q, "player") && t != [] && LowerChar(t[0]) == 'p' && j < 6
    ensures PatternAt(q + t, j, LabelPattern).None?
  {
    var s := q + t;
    if j == 0 {
      TextFront(q, t, "player", true);
      assert s[6] == t[0];
      SkipSpacesTo(s, 6, 6);
      assert PieceAt(s, 6, Blank) == Some(6);
      assert Fold(s[6 + 0], true) != "first"[0] && Fold(s[6 + 0], true) != "last"[0];
      assert PieceAt(s, 6, Either("first", "last")).None?;
    } else {
      assert s[j] == q[j] && LowerChar(q[j]) == "player"[j];
      assert Fold(s[j + 0], true) != "player"[0];
    }
  }

  /**
   * The substitution is a single pass: in "Player" + label + y the pass
   * removes the inner label and keeps the outer "Player", so what remains,
   * "Player" + y, can itself be a label.
   */
  lemma {:induction false} CleanNameSinglePass(l: Label, y: string)
    requires ValidLabel(l) && LabelFree(y) && Trimmed(y)
    ensures CleanName(Some(l.player + (LabelText(l) + y))) == l.player + y
  {
    LabelMatched(l, y);
    LabelOpens(l, y);
    SinglePassAfter(l.player, LabelText(l) + y, y, |LabelText(l)|);
  }

  /** A labelled text opens with the first letter of its "Player" word. */
  lemma {:induction false} LabelOpens(l: Label, y: string)
    requires ValidLabel(l)
    ensures (LabelText(l) + y)[0] == l.player[0]
  {
    assert LabelText(l) == l.player + (l.w1 + l.field + l.w2 + l.name + l.w3 + ":" + l.w4);
  }

  /** A spelling of "Player" in front of a label and match-free text survives the pass. */
  lemma {:induction false} SinglePassAfter(q: string, t: string, y: string, m: nat)
    requires Spells(q, "player") && t != [] && t[0] == q[0]
    requires m <= |t| && PatternAt(t, 0, LabelPattern) == Some(m) && t[m..] == y
    requires LabelFree(y) && Trimmed(y)
    ensures CleanName(Some(q + t)) == q + y
  {
    assert LowerChar(q[0]) == "player"[0];
    forall j | 0 <= j < |q|
      ensures PatternAt(q + t, j, LabelPattern).None?
    {
      OuterPlayerNoLabel(q, t, j);
    }
    RemoveMatchInside(q, t, y, m, LabelPattern);
    TrimmedJoin(q, y);
    StripTrimmed(q + y);
  }

  lemma {:induction false} TrimmedJoin(q: string, y: string)
    requires Spells(q, "player") && Trimmed(y)
    ensures Trimmed(q + y)
  {
    assert LowerChar(q[0]) == "player"[0];
    assert LowerChar(q[5]) == "player"[5];
    if y != [] {
      assert (q + y)[|q + y| - 1] == y[|y| - 1];
    }
  }

  /** No character of `s` folds to `p`. */
  predicate NoP(s: string) {
    forall k :: 0 <= k < |s| ==> LowerChar(s[k]) != 'p'
  }

  lemma {:induction false} NoPJoin(a: string, b: string)
    requires NoP(a) && NoP(b)
    ensures NoP(a + b)
  {
    forall k | 0 <= k < |a + b|
      ensures LowerChar((a + b)[k]) != 'p'
    {
      if k < |a| {
        assert (a + b)[k] == a[k];
      } else {
        assert (a + b)[k] == b[k - |a|];
      }
    }
  }

  /**
   * The nested example "PlayerPlayer First Name:First Name:John", built
   * from its parts: cleaning leaves "PlayerFirst Name:John", which still
   * starts with a label.
   */
  lemma {:induction false} SinglePassExample(q: string, w: string, f: string, nm: string, e: string, x: string)
    requires q == "Player" && w == " " && f == "First" && nm == "Name" && e == "" && x == "John"
    ensures var y := e + f + w + nm + e + ":" + e + x;
            CleanName(Some(q + (LabelText(Label(q, w, f, w, nm, e, e)) + y))) == q + y &&
            PatternAt(q + y, 0, LabelPattern).Some?
  {
    var l := Label(q, w, f, w, nm, e, e);
    var y := e + f + w + nm + e + ":" + e + x;
    assert NoP(e) && NoP(f) && NoP(w) && NoP(nm) && NoP(":") && NoP(x);
    NoPJoin(e, f);
    NoPJoin(e + f, w);
    NoPJoin(e + f + w, nm);
    NoPJoin(e + f + w + nm, e);
    NoPJoin(e + f + w + nm + e, ":");
    NoPJoin(e + f + w + nm + e + ":", e);
    NoPJoin(e + f + w + nm + e + ":" + e, x);
    LabelFreeWithoutP(y);
    assert y[0] == 'F' && y[|y| - 1] == 'n';
    ExampleLabelValid(l);
    CleanNameSinglePass(l, y);
    var l2 := Label(q, e, f, w, nm, e, e);
    ExampleLabelValid(l2);
    LabelMatched(l2, x);
    LabelTextAfterPlayer(l2, x);
  }

  /** A label text followed by `x`, regrouped after its "Player" word. */
  lemma {:induction false} LabelTextAfterPlayer(l: Label, x: string)
    ensures LabelText(l) + x == l.player + (l.w1 + l.field + l.w2 + l.name + l.w3 + ":" + l.w4 + x)
  {
  }

  lemma {:induction false} ExampleLabelValid(l: Label)
    requires l.player == "Player" && l.field == "First" && l.name == "Name"
    requires l.w1 in {"", " "} && l.w2 in {"", " "} && l.w3 in {"", " "} && l.w4 in {"", " "}
    ensures ValidLabel(l)
  {
  }

  /**
   * The example in the source's own documentation, built from its parts:
   * "Player First Name : John" gives "John".
   */
  lemma {:induction false} CleanExample(p: string, w: string, f: string, nm: string, x: string)
    requires p == "Player" && w == " " && f == "First" && nm == "Name" && x == "John"
    ensures CleanName(Some(LabelText(Label(p, w, f, w, nm, w, w)) + x)) == x
  {
    assert NoP(x);
    LabelFreeWithoutP(x);
    ExampleLabelValid(Label(p, w, f, w, nm, w, w));
    CleanNameStripsLabel(Label(p, w, f, w, nm, w, w), x);
  }
}
