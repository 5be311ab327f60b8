/**
 * The section extractor of the publisher: for a label, the first match of
 *
 *     ###\s+<label>\s*\n+([\s\S]*?)(?=\n###\s|$)      (flag i)
 *
 * in the issue body, trimmed, or "" when nothing matches.
 *
 * The module first states what the regular expression means, then gives a
 * scanner for this one pattern and proves that it finds exactly the match a
 * backtracking engine reports. A match at position p is described by the
 * widths the engine picks for its four variable parts (a `Split`); the engine
 * tries start positions from left to right and, at one position, explores the
 * greedy parts from longest to shortest and the lazy capture from shortest
 * to longest, so the match it reports is the first in that order.
 */
module Extract {
  import opened Wrappers
  import opened Text

  /**
   * The widths of `\s+` (ws1), the label's `\s*` (ws2), `\n+` (nl) and the
   * lazy capture (cap).
   */
  datatype Split = Split(ws1: nat, ws2: nat, nl: nat, cap: nat)

  function LabelStart(p: nat, m: Split): (i: nat) { p + 3 + m.ws1 }
  function LabelEnd(name: string, p: nat, m: Split): (i: nat) { LabelStart(p, m) + |name| }
  function NewlinesStart(name: string, p: nat, m: Split): (i: nat) { LabelEnd(name, p, m) + m.ws2 }
  function CaptureStart(name: string, p: nat, m: Split): (i: nat) { NewlinesStart(name, p, m) + m.nl }

  /** The name occurs at `i`, up to ASCII case. */
  predicate LabelAt(s: string, i: nat, name: string) {
    i + |name| <= |s| && forall k :: 0 <= k < |name| ==> SameLetter(s[i + k], name[k])
  }

  ghost predicate AllNewlineIn(s: string, i: nat, j: nat)
    requires i <= j <= |s|
  {
    forall k :: i <= k < j ==> s[k] == '\n'
  }

  /** The look-ahead `(?=\n###\s|$)` holds at `i`; without the m flag `$` is the end of input. */
  predicate IsStop(s: string, i: nat)
    requires i <= |s|
  {
    i == |s|
    || (i + 5 <= |s| && s[i] == '\n' && s[i + 1] == '#' && s[i + 2] == '#' && s[i + 3] == '#'
        && IsSpace(s[i + 4]))
  }

  /** The pattern matches `s` at `p` with the widths `m`. */
  ghost predicate IsMatch(s: string, name: string, p: nat, m: Split) {
    var q := CaptureStart(name, p, m);
    q + m.cap <= |s|
    && s[p] == '#' && s[p + 1] == '#' && s[p + 2] == '#'
    && 1 <= m.ws1 && AllSpaceIn(s, p + 3, LabelStart(p, m))
    && LabelAt(s, LabelStart(p, m), name)
    && AllSpaceIn(s, LabelEnd(name, p, m), NewlinesStart(name, p, m))
    && 1 <= m.nl && AllNewlineIn(s, NewlinesStart(name, p, m), q)
    && IsStop(s, q + m.cap)
  }

  /** `a` is explored before `b` by the backtracking engine at one start position. */
  ghost predicate Prior(a: Split, b: Split) {
    a.ws1 > b.ws1
    || (a.ws1 == b.ws1 && a.ws2 > b.ws2)
    || (a.ws1 == b.ws1 && a.ws2 == b.ws2 && a.nl > b.nl)
    || (a.ws1 == b.ws1 && a.ws2 == b.ws2 && a.nl == b.nl && a.cap < b.cap)
  }

  /** `m` is the match the engine reports when it tries position `p`. */
  ghost predicate FirstMatchAt(s: string, name: string, p: nat, m: Split) {
    IsMatch(s, name, p, m) && forall m' :: IsMatch(s, name, p, m') ==> !Prior(m', m)
  }

  /** `m` at `p` is the match `String.prototype.match` returns. */
  ghost predicate LeftmostMatch(s: string, name: string, p: nat, m: Split) {
    FirstMatchAt(s, name, p, m) && forall p': nat, m' :: p' < p ==> !IsMatch(s, name, p', m')
  }

  /** Capture group 1 of a match (of any split that fits in `s`). */
  function Capture(s: string, name: string, p: nat, m: Split): (c: string) {
    var q := CaptureStart(name, p, m);
    if q + m.cap <= |s| then s[q..q + m.cap] else ""
  }

  // ---------------------------------------------------------------- scanner

  /** The end of the run of newlines that starts at `i`. */
  function SkipNewlines(s: string, i: nat): (e: nat)
    requires i <= |s|
    ensures i <= e <= |s|
    decreases |s| - i
  {
    if i < |s| && s[i] == '\n' then SkipNewlines(s, i + 1) else i
  }

  /** SkipNewlines stops at the end of the maximal run of newlines. */
  lemma {:induction false} SkipNewlinesSpec(s: string, i: nat)
    requires i <= |s|
    ensures AllNewlineIn(s, i, SkipNewlines(s, i))
    ensures SkipNewlines(s, i) == |s| || s[SkipNewlines(s, i)] != '\n'
    decreases |s| - i
  {
    if i < |s| && s[i] == '\n' {
      SkipNewlinesSpec(s, i + 1);
    }
  }

  /** The last newline in `s[lo..hi]`, if any. */
  function LastNewline(s: string, lo: nat, hi: nat): (r: Option<nat>)
    requires lo <= hi <= |s|
    ensures r.Some? ==> lo <= r.value < hi
    decreases hi
  {
    if lo == hi then None
    else if s[hi - 1] == '\n' then Some(hi - 1)
    else LastNewline(s, lo, hi - 1)
  }

  /** LastNewline finds the last newline of `s[lo..hi]`, and finds none only when there is none. */
  lemma {:induction false} LastNewlineSpec(s: string, lo: nat, hi: nat)
    requires lo <= hi <= |s|
    ensures LastNewline(s, lo, hi).Some? ==>
              s[LastNewline(s, lo, hi).value] == '\n'
              && forall k :: LastNewline(s, lo, hi).value < k < hi ==> s[k] != '\n'
    ensures LastNewline(s, lo, hi).None? ==> forall k :: lo <= k < hi ==> s[k] != '\n'
    decreases hi
  {
    if lo < hi && s[hi - 1] != '\n' {
      LastNewlineSpec(s, lo, hi - 1);
    }
  }

  /** The first position at or after `q` where the look-ahead holds. */
  function NextStop(s: string, q: nat): (e: nat)
    requires q <= |s|
    ensures q <= e <= |s|
    decreases |s| - q
  {
    if IsStop(s, q) then q else NextStop(s, q + 1)
  }

  /** NextStop finds the first position at or after `q` where the look-ahead holds. */
  lemma {:induction false} NextStopSpec(s: string, q: nat)
    requires q <= |s|
    ensures IsStop(s, NextStop(s, q))
    ensures forall k :: q <= k < NextStop(s, q) ==> !IsStop(s, k)
    decreases |s| - q
  {
    if !IsStop(s, q) {
      NextStopSpec(s, q + 1);
    }
  }

  /**
   * The best completion once `\s+` has taken `k` characters: the label must
   * follow; `\s*` then backs off to the last newline of the white space after
   * the label, `\n+` takes the newline run there, and the capture runs to the
   * first stop.
   */
  function BestFor(s: string, name: string, p: nat, k: nat): (r: Option<Split>)
    requires p + 3 + k <= |s|
    ensures r.Some? ==> r.value.ws1 == k
  {
    var a := p + 3 + k;
    if !LabelAt(s, a, name) then None
    else
      var b := a + |name|;
      match LastNewline(s, b, SkipSpace(s, b))
      case None => None
      case Some(n) =>
        var q := SkipNewlines(s, n);
        Some(Split(k, n - b, q - n, NextStop(s, q) - q))
  }

  /** Backtracking over the width of `\s+`, from `k` down to 1. */
  function TryHeading(s: string, name: string, p: nat, k: nat): (r: Option<Split>)
    requires p + 3 + k <= |s|
    ensures r.Some? ==> 1 <= r.value.ws1 <= k
    decreases k
  {
    if k == 0 then None
    else match BestFor(s, name, p, k)
      case Some(m) => Some(m)
      case None => TryHeading(s, name, p, k - 1)
  }

  /** The engine's attempt at start position `p`. */
  function MatchAt(s: string, name: string, p: nat): (r: Option<Split>)
    ensures r.Some? ==> p + 3 + r.value.ws1 <= |s| && 1 <= r.value.ws1
    ensures r.Some? ==> s[p] == '#' && s[p + 1] == '#' && s[p + 2] == '#'
  {
    if p + 3 <= |s| && s[p] == '#' && s[p + 1] == '#' && s[p + 2] == '#' then
      TryHeading(s, name, p, SkipSpace(s, p + 3) - (p + 3))
    else None
  }

  /** The engine's scan over start positions `p`, `p + 1`, ... */
  function Find(s: string, name: string, p: nat): (r: Option<(nat, Split)>)
    requires p <= |s|
    ensures r.Some? ==> p <= r.value.0 <= |s| && MatchAt(s, name, r.value.0) == Some(r.value.1)
    decreases |s| - p
  {
    match MatchAt(s, name, p)
    case Some(m) => Some((p, m))
    case None => if p == |s| then None else Find(s, name, p + 1)
  }

  /** `extractField(name)` over the issue body. */
  function ExtractField(body: string, name: string): (r: string)
    ensures r != "" ==> !IsSpace(r[0]) && !IsSpace(r[|r| - 1])
  {
    match Find(body, name, 0)
    case None => ""
    case Some((p, m)) => Trim(Capture(body, name, p, m))
  }

  /** An extracted field is already trimmed: the script's second `trim` changes nothing. */
  lemma ExtractFieldTrimmed(body: string, name: string)
    ensures Trim(ExtractField(body, name)) == ExtractField(body, name)
  {
    TrimUnchanged(ExtractField(body, name));
  }

  // ----------------------------------------------------------- correctness

  /** BestFor, unfolded once its label and its newline are known. */
  lemma BestForShape(s: string, name: string, p: nat, k: nat, n: nat)
    requires p + 3 + k <= |s| && LabelAt(s, p + 3 + k, name)
    requires LastNewline(s, p + 3 + k + |name|, SkipSpace(s, p + 3 + k + |name|)) == Some(n)
    ensures BestFor(s, name, p, k)
            == Some(Split(k, n - (p + 3 + k + |name|), SkipNewlines(s, n) - n,
                          NextStop(s, SkipNewlines(s, n)) - SkipNewlines(s, n)))
  {
  }

  /** What BestFor finds is a match whose `\s+` has width `k`. */
  lemma BestForMatches(s: string, name: string, p: nat, k: nat)
    requires p + 3 + k <= |s| && BestFor(s, name, p, k).Some?
    requires 1 <= k && s[p] == '#' && s[p + 1] == '#' && s[p + 2] == '#'
    requires AllSpaceIn(s, p + 3, p + 3 + k)
    ensures IsMatch(s, name, p, BestFor(s, name, p, k).value)
  {
    var a := p + 3 + k;
    var b := a + |name|;
    LastNewlineSpec(s, b, SkipSpace(s, b));
    var n := LastNewline(s, b, SkipSpace(s, b)).value;
    BestForShape(s, name, p, k, n);
    var q := SkipNewlines(s, n);
    SkipNewlinesSpec(s, n);
    NextStopSpec(s, q);
    var m := BestFor(s, name, p, k).value;
    assert CaptureStart(name, p, m) == q;
  }

  /**
   * Every match is found by BestFor at the width of its `\s+`, and what
   * BestFor finds there is explored no later than it.
   */
  lemma BestForComplete(s: string, name: string, p: nat, m: Split)
    requires IsMatch(s, name, p, m)
    ensures BestFor(s, name, p, m.ws1).Some?
    ensures !Prior(m, BestFor(s, name, p, m.ws1).value)
  {
    var b := LabelEnd(name, p, m);
    MatchHasNewline(s, name, p, m);
    LastNewlineSpec(s, b, SkipSpace(s, b));
    var n := LastNewline(s, b, SkipSpace(s, b)).value;
    BestForNotAfter(s, name, p, m, n, SkipNewlines(s, n));
    BestForFrom(s, name, p, m, n);
  }

  /** BestFor at the `\s+` width of `m`, given what it builds its completion from. */
  lemma BestForFrom(s: string, name: string, p: nat, m: Split, n: nat)
    requires LabelStart(p, m) <= |s| && LabelAt(s, LabelStart(p, m), name)
    requires LastNewline(s, LabelEnd(name, p, m), SkipSpace(s, LabelEnd(name, p, m))) == Some(n)
    requires !Prior(m, Split(m.ws1, n - LabelEnd(name, p, m), SkipNewlines(s, n) - n,
                             NextStop(s, SkipNewlines(s, n)) - SkipNewlines(s, n)))
    ensures BestFor(s, name, p, m.ws1).Some?
    ensures !Prior(m, BestFor(s, name, p, m.ws1).value)
  {
    BestForShape(s, name, p, m.ws1, n);
  }

  /** The white space after a matched label holds a newline: the first of `\n+`. */
  lemma MatchHasNewline(s: string, name: string, p: nat, m: Split)
    requires IsMatch(s, name, p, m)
    ensures LastNewline(s, LabelEnd(name, p, m), SkipSpace(s, LabelEnd(name, p, m))).Some?
  {
    var b := LabelEnd(name, p, m);
    var n' := NewlinesStart(name, p, m);
    assert s[n'] == '\n';
    SkipSpaceMaximal(s, b, n' + 1);
    LastNewlineSpec(s, b, SkipSpace(s, b));
  }

  /**
   * Given the last newline `n` of the white space after the label and the end
   * `q` of the newline run there, the completion BestFor builds from them is
   * explored no later than the match `m`.
   */
  lemma BestForNotAfter(s: string, name: string, p: nat, m: Split, n: nat, q: nat)
    requires IsMatch(s, name, p, m)
    requires LabelEnd(name, p, m) <= n < SkipSpace(s, LabelEnd(name, p, m)) && s[n] == '\n'
    requires forall k :: n < k < SkipSpace(s, LabelEnd(name, p, m)) ==> s[k] != '\n'
    requires q == SkipNewlines(s, n)
    ensures !Prior(m, Split(m.ws1, n - LabelEnd(name, p, m), q - n, NextStop(s, q) - q))
  {
    var b := LabelEnd(name, p, m);
    var n' := NewlinesStart(name, p, m);
    var q' := CaptureStart(name, p, m);
    assert s[n'] == '\n';
    SkipSpaceMaximal(s, b, n' + 1);
    SkipNewlinesSpec(s, n);
    NextStopSpec(s, q);
    assert m.ws2 <= n - b;
    if m.ws2 == n - b {
      assert m.nl <= q - n;
      if m.nl == q - n {
        assert q' == q;
      }
    }
  }

  /** What TryHeading finds is a match whose `\s+` is at most `k` wide. */
  lemma {:induction false} TryHeadingSound(s: string, name: string, p: nat, k: nat)
    requires p + 3 + k <= |s|
    requires s[p] == '#' && s[p + 1] == '#' && s[p + 2] == '#' && AllSpaceIn(s, p + 3, p + 3 + k)
    requires TryHeading(s, name, p, k).Some?
    ensures TryHeading(s, name, p, k).value.ws1 <= k
    ensures IsMatch(s, name, p, TryHeading(s, name, p, k).value)
  {
    if BestFor(s, name, p, k).Some? {
      BestForMatches(s, name, p, k);
    } else {
      TryHeadingSound(s, name, p, k - 1);
    }
  }

  /**
   * A split `m` whose `\s+` width is at most `k`, and that the completion at
   * its own width is explored no later than, is explored no earlier than what
   * TryHeading finds.
   */
  lemma {:induction false} TryHeadingFirst(s: string, name: string, p: nat, k: nat, m: Split)
    requires p + 3 + k <= |s| && 1 <= m.ws1 <= k
    requires BestFor(s, name, p, m.ws1).Some? && !Prior(m, BestFor(s, name, p, m.ws1).value)
    ensures TryHeading(s, name, p, k).Some?
    ensures !Prior(m, TryHeading(s, name, p, k).value)
    decreases k
  {
    TryHeadingStep(s, name, p, k);
    var here := BestFor(s, name, p, k);
    if m.ws1 == k {
      assert here == BestFor(s, name, p, m.ws1);
      assert TryHeading(s, name, p, k) == here;
    } else if here.Some? {
      assert TryHeading(s, name, p, k) == here && here.value.ws1 > m.ws1;
    } else {
      TryHeadingFirst(s, name, p, k - 1, m);
      assert TryHeading(s, name, p, k) == TryHeading(s, name, p, k - 1);
    }
  }

  /** One step of the descent over `\s+` widths. */
  lemma TryHeadingStep(s: string, name: string, p: nat, k: nat)
    requires 0 < k && p + 3 + k <= |s|
    ensures TryHeading(s, name, p, k)
            == if BestFor(s, name, p, k).Some? then BestFor(s, name, p, k) else TryHeading(s, name, p, k - 1)
  {
  }

  /** The width of `\s+` never exceeds the run of white space after `###`. */
  lemma HeadingSpaceBound(s: string, name: string, p: nat, m: Split)
    requires IsMatch(s, name, p, m)
    ensures LabelStart(p, m) <= SkipSpace(s, p + 3)
  {
    SkipSpaceMaximal(s, p + 3, LabelStart(p, m));
  }

  /** At a `###`, MatchAt backtracks from the longest `\s+`. */
  lemma MatchAtHeading(s: string, name: string, p: nat)
    requires p + 3 <= |s| && s[p] == '#' && s[p + 1] == '#' && s[p + 2] == '#'
    ensures MatchAt(s, name, p) == TryHeading(s, name, p, SkipSpace(s, p + 3) - (p + 3))
  {
  }

  /** What MatchAt finds at `p` is a match there. */
  lemma MatchAtSound(s: string, name: string, p: nat)
    requires MatchAt(s, name, p).Some?
    ensures IsMatch(s, name, p, MatchAt(s, name, p).value)
  {
    TryHeadingSound(s, name, p, SkipSpace(s, p + 3) - (p + 3));
  }

  /** Every match at `p` is seen by MatchAt, and none is explored before what it finds. */
  lemma MatchAtFirst(s: string, name: string, p: nat, m: Split)
    requires IsMatch(s, name, p, m)
    ensures MatchAt(s, name, p).Some?
    ensures !Prior(m, MatchAt(s, name, p).value)
  {
    HeadingSpaceBound(s, name, p, m);
    BestForComplete(s, name, p, m);
    MatchAtFrom(s, name, p, m);
  }

  /** MatchAt at a `###` is no later than a split that the completion at its own width is no later than. */
  lemma MatchAtFrom(s: string, name: string, p: nat, m: Split)
    requires p + 3 <= |s| && s[p] == '#' && s[p + 1] == '#' && s[p + 2] == '#'
    requires 1 <= m.ws1 && p + 3 + m.ws1 <= SkipSpace(s, p + 3)
    requires BestFor(s, name, p, m.ws1).Some? && !Prior(m, BestFor(s, name, p, m.ws1).value)
    ensures MatchAt(s, name, p).Some?
    ensures !Prior(m, MatchAt(s, name, p).value)
  {
    MatchAtHeading(s, name, p);
    TryHeadingFirst(s, name, p, SkipSpace(s, p + 3) - (p + 3), m);
  }

  /** MatchAt finds exactly the match the engine reports at `p`. */
  lemma MatchAtCorrect(s: string, name: string, p: nat)
    requires MatchAt(s, name, p).Some?
    ensures FirstMatchAt(s, name, p, MatchAt(s, name, p).value)
  {
    MatchAtSound(s, name, p);
    forall m' | IsMatch(s, name, p, m')
      ensures !Prior(m', MatchAt(s, name, p).value)
    {
      MatchAtFirst(s, name, p, m');
    }
  }

  /** Find stops at the first start position, from `p` on, where MatchAt succeeds. */
  lemma {:induction false} FindFirst(s: string, name: string, p: nat)
    requires p <= |s| && Find(s, name, p).Some?
    ensures p <= Find(s, name, p).value.0
    ensures MatchAt(s, name, Find(s, name, p).value.0) == Some(Find(s, name, p).value.1)
    ensures forall p'' :: p <= p'' < Find(s, name, p).value.0 ==> MatchAt(s, name, p'').None?
    decreases |s| - p
  {
    if MatchAt(s, name, p).None? {
      FindFirst(s, name, p + 1);
      var e := Find(s, name, p).value.0;
      assert e == Find(s, name, p + 1).value.0;
      forall p'' | p <= p'' < e
        ensures MatchAt(s, name, p'').None?
      {
        if p'' > p {
          assert p + 1 <= p'' < Find(s, name, p + 1).value.0;
        }
      }
    }
  }

  /** When Find reports nothing, MatchAt fails at every position from `p` on. */
  lemma {:induction false} FindNone(s: string, name: string, p: nat)
    requires p <= |s| && Find(s, name, p).None?
    ensures forall p'' :: p <= p'' <= |s| ==> MatchAt(s, name, p'').None?
    decreases |s| - p
  {
    if p < |s| {
      FindNone(s, name, p + 1);
    }
  }

  /** Two different splits are always ordered by Prior. */
  lemma PriorTotal(a: Split, b: Split)
    requires a != b
    ensures Prior(a, b) || Prior(b, a)
  {
  }

  /** When the pattern matches nowhere, extractField returns "". */
  lemma ExtractFieldNoMatch(body: string, name: string)
    requires forall p, m :: !IsMatch(body, name, p, m)
    ensures ExtractField(body, name) == ""
  {
    if Find(body, name, 0).Some? {
      FindFirst(body, name, 0);
      var (p0, m0) := Find(body, name, 0).value;
      MatchAtSound(body, name, p0);
      assert false;
    }
  }

  /** When any match exists, a leftmost one does: the one Find reports. */
  lemma LeftmostExists(body: string, name: string, p: nat, m: Split)
    requires IsMatch(body, name, p, m)
    ensures Find(body, name, 0).Some?
    ensures LeftmostMatch(body, name, Find(body, name, 0).value.0, Find(body, name, 0).value.1)
  {
    MatchAtFirst(body, name, p, m);
    if Find(body, name, 0).None? {
      FindNone(body, name, 0);
    }
    FindFirst(body, name, 0);
    var (p0, m0) := Find(body, name, 0).value;
    MatchAtCorrect(body, name, p0);
    forall p': nat, m' | p' < p0 && IsMatch(body, name, p', m')
      ensures MatchAt(body, name, p').Some?
    {
      MatchAtFirst(body, name, p', m');
    }
  }

  /** extractField returns the trimmed capture of the leftmost match. */
  lemma ExtractFieldLeftmost(body: string, name: string, p: nat, m: Split)
    requires LeftmostMatch(body, name, p, m)
    ensures ExtractField(body, name) == Trim(Capture(body, name, p, m))
  {
    LeftmostExists(body, name, p, m);
    var (p0, m0) := Find(body, name, 0).value;
    LeftmostUnique(body, name, p, m, p0, m0);
  }

  /** The pattern has at most one leftmost match. */
  lemma LeftmostUnique(s: string, name: string, p1: nat, m1: Split, p2: nat, m2: Split)
    requires LeftmostMatch(s, name, p1, m1) && LeftmostMatch(s, name, p2, m2)
    ensures p1 == p2 && m1 == m2
  {
    assert !(p1 < p2) && !(p2 < p1);
    if m1 != m2 {
      PriorTotal(m1, m2);
    }
  }

  // ------------------------------------------------ properties of the match

  /**
   * The capture stops at the first `\n###` followed by white space after its
   * start, or at the end of the body: no such stop lies inside it.
   */
  lemma CaptureStopsAtFirstHeading(s: string, name: string, p: nat, m: Split)
    requires FirstMatchAt(s, name, p, m)
    ensures var q := CaptureStart(name, p, m);
            && (q + m.cap == |s| || (s[q + m.cap] == '\n' && s[q + m.cap + 1..q + m.cap + 4] == "###"
                                    && IsSpace(s[q + m.cap + 4])))
            && forall i :: q <= i < q + m.cap ==> !IsStop(s, i)
  {
    var q := CaptureStart(name, p, m);
    forall i | q <= i < q + m.cap
      ensures !IsStop(s, i)
    {
      var m' := m.(cap := i - q);
      assert IsStop(s, i) ==> IsMatch(s, name, p, m');
      assert Prior(m', m);
    }
  }

  /**
   * A capture that is all white space runs to the end of the body: if a
   * stop `\n###<ws>` followed it, `\s*` could have reached that newline,
   * and the engine would have preferred that match.
   */
  lemma BlankCaptureRunsToEnd(s: string, name: string, p: nat, m: Split)
    requires FirstMatchAt(s, name, p, m) && AllSpace(Capture(s, name, p, m))
    ensures CaptureStart(name, p, m) + m.cap == |s|
  {
    var e := CaptureStart(name, p, m) + m.cap;
    if e < |s| {
      var m' := BlankCaptureLonger(s, name, p, m);
      assert false;
    }
  }

  /** The match a blank capture followed by a stop would lose to. */
  lemma BlankCaptureLonger(s: string, name: string, p: nat, m: Split) returns (m': Split)
    requires IsMatch(s, name, p, m) && AllSpace(Capture(s, name, p, m))
    requires CaptureStart(name, p, m) + m.cap < |s|
    ensures IsMatch(s, name, p, m') && Prior(m', m)
  {
    var b := LabelEnd(name, p, m);
    var q := CaptureStart(name, p, m);
    var e := q + m.cap;
    assert s[e] == '\n' && s[e + 1] == '#';
    m' := Split(m.ws1, e - b, 1, |s| - (e + 1));
    assert NewlinesStart(name, p, m') == e;
    forall k | b <= k < e
      ensures IsSpace(s[k])
    {
      if k >= q {
        assert s[k] == Capture(s, name, p, m)[k - q];
      }
    }
  }

  /** A capture that is all white space leaves only white space after the label. */
  lemma BlankCaptureBlankTail(s: string, name: string, p: nat, m: Split)
    requires FirstMatchAt(s, name, p, m) && AllSpace(Capture(s, name, p, m))
    ensures AllSpaceIn(s, LabelEnd(name, p, m), |s|)
  {
    BlankCaptureRunsToEnd(s, name, p, m);
    var q := CaptureStart(name, p, m);
    var c := Capture(s, name, p, m);
    forall k | LabelEnd(name, p, m) <= k < |s|
      ensures IsSpace(s[k])
    {
      if k >= q {
        assert s[k] == c[k - q];
      }
    }
  }

  /** Only white space after the label makes the capture all white space. */
  lemma BlankTailBlankCapture(s: string, name: string, p: nat, m: Split)
    requires IsMatch(s, name, p, m) && AllSpaceIn(s, LabelEnd(name, p, m), |s|)
    ensures AllSpace(Capture(s, name, p, m))
  {
    var q := CaptureStart(name, p, m);
    var c := Capture(s, name, p, m);
    assert forall k :: 0 <= k < |c| ==> c[k] == s[q + k];
  }

  /**
   * extractField returns "" exactly when the pattern matches nowhere, or the
   * leftmost matching heading is followed by nothing but white space.
   */
  lemma ExtractFieldEmpty(body: string, name: string)
    ensures ExtractField(body, name) == "" <==>
              (forall p, m :: !IsMatch(body, name, p, m))
              || (exists p, m :: LeftmostMatch(body, name, p, m)
                                 && AllSpaceIn(body, LabelEnd(name, p, m), |body|))
  {
    if forall p, m :: !IsMatch(body, name, p, m) {
      ExtractFieldNoMatch(body, name);
    } else {
      var p: nat, m :| IsMatch(body, name, p, m);
      LeftmostExists(body, name, p, m);
      var (p0, m0) := Find(body, name, 0).value;
      ExtractFieldBlankTail(body, name, p0, m0);
      forall p1: nat, m1 | LeftmostMatch(body, name, p1, m1)
        ensures p1 == p0 && m1 == m0
      {
        LeftmostUnique(body, name, p1, m1, p0, m0);
      }
    }
  }

  /** For the leftmost match, extractField returns "" exactly when only white space follows its label. */
  lemma ExtractFieldBlankTail(body: string, name: string, p: nat, m: Split)
    requires LeftmostMatch(body, name, p, m)
    ensures ExtractField(body, name) == "" <==> AllSpaceIn(body, LabelEnd(name, p, m), |body|)
  {
    ExtractFieldLeftmost(body, name, p, m);
    if ExtractField(body, name) == "" {
      BlankCaptureBlankTail(body, name, p, m);
    }
    if AllSpaceIn(body, LabelEnd(name, p, m), |body|) {
      BlankTailBlankCapture(body, name, p, m);
    }
  }

  // ------------------------------------------------------ case-insensitivity

  /** Labels equal up to case occur at the same places. */
  lemma LabelAtIgnoresCase(s: string, i: nat, n1: string, n2: string)
    requires SameIgnoringCase(n1, n2)
    ensures LabelAt(s, i, n1) == LabelAt(s, i, n2)
  {
  }

  lemma BestForIgnoresCase(s: string, n1: string, n2: string, p: nat, k: nat)
    requires SameIgnoringCase(n1, n2) && p + 3 + k <= |s|
    ensures BestFor(s, n1, p, k) == BestFor(s, n2, p, k)
  {
    LabelAtIgnoresCase(s, p + 3 + k, n1, n2);
  }

  lemma {:induction false} TryHeadingIgnoresCase(s: string, n1: string, n2: string, p: nat, k: nat)
    requires SameIgnoringCase(n1, n2) && p + 3 + k <= |s|
    ensures TryHeading(s, n1, p, k) == TryHeading(s, n2, p, k)
    decreases k
  {
    if k > 0 {
      BestForIgnoresCase(s, n1, n2, p, k);
      TryHeadingIgnoresCase(s, n1, n2, p, k - 1);
    }
  }

  lemma {:induction false} FindIgnoresCase(s: string, n1: string, n2: string, p: nat)
    requires SameIgnoringCase(n1, n2) && p <= |s|
    ensures Find(s, n1, p) == Find(s, n2, p)
    decreases |s| - p
  {
    if p + 3 <= |s| {
      TryHeadingIgnoresCase(s, n1, n2, p, SkipSpace(s, p + 3) - (p + 3));
    }
    if p < |s| {
      FindIgnoresCase(s, n1, n2, p + 1);
    }
  }

  /** The label is matched case-insensitively: labels equal up to case extract the same text. */
  lemma ExtractFieldIgnoresCase(body: string, n1: string, n2: string)
    requires SameIgnoringCase(n1, n2)
    ensures ExtractField(body, n1) == ExtractField(body, n2)
  {
    FindIgnoresCase(body, n1, n2, 0);
    var f := Find(body, n1, 0);
    if f.Some? {
      CaptureLabelLength(body, n1, n2, f.value.0, f.value.1);
    }
  }

  /** A capture depends on the label only through its length. */
  lemma CaptureLabelLength(s: string, n1: string, n2: string, p: nat, m: Split)
    requires |n1| == |n2|
    ensures Capture(s, n1, p, m) == Capture(s, n2, p, m)
  {
  }
}
