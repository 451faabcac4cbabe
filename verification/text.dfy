/**
 String helpers standing in for the JavaScript string methods the combobox
 uses: `toLowerCase`, `includes`, `indexOf`, `lastIndexOf` and the unused
 `findLastSearchMatch` of the classic component.
 */
module Text {

  /** Case folding of one character: ASCII and basic Cyrillic capitals
      (the host data is Russian); every other character is left alone. */
  function LowerChar(c: char): char {
    if 'A' <= c <= 'Z' then (c as int + 32) as char
    else if 'А' <= c <= 'Я' then (c as int + 32) as char
    else if c == 'Ё' then 'ё'
    else c
  }

  /** `s.toLowerCase()`, character by character. */
  function Lower(s: string): (r: string)
    ensures |r| == |s|
  {
    if |s| == 0 then [] else [LowerChar(s[0])] + Lower(s[1..])
  }

  /** Each character is folded on its own, in place. */
  lemma {:induction false} LowerAt(s: string, i: nat)
    requires i < |s|
    ensures Lower(s)[i] == LowerChar(s[i])
  {
    if i > 0 {
      LowerAt(s[1..], i - 1);
      assert s[1..][i - 1] == s[i];
    }
  }

  /** `t` occurs in `s` starting at position `k`. */
  predicate OccursAt(s: string, t: string, k: nat) {
    k + |t| <= |s| && s[k..k + |t|] == t
  }

  /** `s.indexOf(t, from)`: the first occurrence at or after `from`, or -1. */
  function IndexFrom(s: string, t: string, from: nat): (r: int)
    decreases |s| - from
    ensures r == -1 || (from <= r && OccursAt(s, t, r))
    ensures r == -1 ==> forall k: nat :: from <= k ==> !OccursAt(s, t, k)
    ensures r != -1 ==> forall k: nat :: from <= k < r ==> !OccursAt(s, t, k)
  {
    if from + |t| > |s| then -1
    else if s[from..from + |t|] == t then from
    else IndexFrom(s, t, from + 1)
  }

  /** `s.indexOf(t)` */
  function IndexOf(s: string, t: string): int {
    IndexFrom(s, t, 0)
  }

  /** `s.lastIndexOf(t)` restricted to starts at or before `upTo`. */
  function LastIndexUpTo(s: string, t: string, upTo: nat): (r: int)
    decreases upTo
    ensures r == -1 || (0 <= r <= upTo && OccursAt(s, t, r))
    ensures r == -1 ==> forall k: nat :: k <= upTo ==> !OccursAt(s, t, k)
    ensures r != -1 ==> forall k: nat :: r < k <= upTo ==> !OccursAt(s, t, k)
  {
    if OccursAt(s, t, upTo) then upTo
    else if upTo == 0 then -1
    else LastIndexUpTo(s, t, upTo - 1)
  }

  /** `s.lastIndexOf(t)`: the last occurrence of `t` in `s`, or -1. */
  function LastIndexOf(s: string, t: string): (r: int)
    ensures r == -1 || (0 <= r && OccursAt(s, t, r))
    ensures r == -1 ==> forall k: nat :: !OccursAt(s, t, k)
    ensures r != -1 ==> forall k: nat :: r < k ==> !OccursAt(s, t, k)
  {
    if |t| > |s| then -1 else LastIndexUpTo(s, t, |s| - |t|)
  }

  /** `s.lastIndexOf(c)` for a single character. */
  function LastIndexOfChar(s: string, c: char): (r: int)
    ensures -1 <= r < |s|
    ensures r >= 0 ==> s[r] == c
    ensures forall k :: r < k < |s| ==> s[k] != c
  {
    if |s| == 0 then -1
    else if s[|s| - 1] == c then |s| - 1
    else LastIndexOfChar(s[..|s| - 1], c)
  }

  /** `s.includes(t)` */
  function Contains(s: string, t: string): (b: bool)
    ensures b <==> exists k: nat :: OccursAt(s, t, k)
  {
    IndexOf(s, t) != -1
  }

  /** The combobox's label test: `label.toLowerCase().includes(term.toLowerCase())`. */
  predicate Matches(caption: string, term: string) {
    Contains(Lower(caption), Lower(term))
  }

  /** Lowering commutes with slicing, so a match position in the lowered
      text is a position in the original text of the same length. */
  lemma {:induction false} LowerSlice(s: string, a: nat, b: nat)
    requires a <= b <= |s|
    ensures Lower(s)[a..b] == Lower(s[a..b])
  {
    if b > 0 {
      var tail := s[1..];
      assert Lower(s) == [LowerChar(s[0])] + Lower(tail);
      if a > 0 {
        assert tail[a - 1..b - 1] == s[a..b];
        LowerSlice(tail, a - 1, b - 1);
        assert Lower(s)[a..b] == Lower(tail)[a - 1..b - 1];
      } else {
        var pre := s[0..b];
        assert pre[1..] == tail[0..b - 1];
        LowerSlice(tail, 0, b - 1);
        assert Lower(s)[0..b] == [LowerChar(s[0])] + Lower(tail)[0..b - 1];
        assert Lower(pre) == [LowerChar(pre[0])] + Lower(pre[1..]);
      }
    }
  }

  /** `findLastSearchMatch`: the span `[start, end)` of the search term,
      preferring the part of the text after its last space and otherwise the
      last occurrence anywhere; `(-1, -1)` when there is none or the term is
      empty. */
  function FindLastSearchMatch(text: string, term: string): (r: (int, int))
    ensures r.0 == -1 <==> r.1 == -1
    ensures term == "" ==> r == (-1, -1)
    ensures r.0 != -1 ==> 0 <= r.0 && r.1 == r.0 + |term| <= |text|
    ensures r.0 != -1 ==> Lower(text)[r.0..r.1] == Lower(term)
    ensures r.0 == -1 && term != "" ==> !Contains(Lower(text), Lower(term))
  {
    if term == "" then (-1, -1)
    else
      var termLower := Lower(term);
      var hit := SuffixSpan(text, LastIndexOfChar(text, ' ') + 1, termLower);
      if hit != -1 then (hit, hit + |term|)
      else
        var m := LastIndexOf(Lower(text), termLower);
        LastHit(Lower(text), termLower);
        if m != -1 then (m, m + |term|) else (-1, -1)
  }

  /** The first hit of `t` in the lowered text from `a` on, as a position
      in the whole text; -1 when the lowered suffix does not contain `t`. */
  function SuffixSpan(text: string, a: nat, t: string): (r: int)
    requires a <= |text|
    ensures r == -1 <==> !Contains(Lower(text[a..]), t)
    ensures r != -1 ==> a <= r && OccursAt(Lower(text), t, r)
    ensures r != -1 ==> forall k: nat :: a <= k && OccursAt(Lower(text), t, k) ==> r <= k
  {
    if Contains(Lower(text[a..]), t) then
      LowerSlice(text, a, |text|);
      assert text[a..|text|] == text[a..];
      assert Lower(text)[a..] == Lower(text)[a..|text|];
      HitInSuffix(Lower(text), a, t);
      FirstInSuffix(Lower(text), a, t);
      a + IndexOf(Lower(text[a..]), t)
    else -1
  }

  /** No hit in the whole string starts between the suffix's start and
      the first hit in the suffix. */
  lemma FirstInSuffix(w: string, a: nat, t: string)
    requires a <= |w| && Contains(w[a..], t)
    ensures forall k: nat :: a <= k && OccursAt(w, t, k) ==> a + IndexOf(w[a..], t) <= k
  {
    forall k: nat | a <= k && OccursAt(w, t, k)
      ensures a + IndexOf(w[a..], t) <= k
    {
      assert w[a..][k - a..k - a + |t|] == w[k..k + |t|];
      assert OccursAt(w[a..], t, k - a);
    }
  }

  /** The first hit in a suffix, shifted back by the suffix's start, is a
      hit in the whole string. */
  lemma HitInSuffix(w: string, a: nat, t: string)
    requires a <= |w| && Contains(w[a..], t)
    ensures 0 <= IndexOf(w[a..], t) && OccursAt(w, t, a + IndexOf(w[a..], t))
  {
    var at := IndexOf(w[a..], t);
    assert OccursAt(w[a..], t, at);
    assert w[a..][at..at + |t|] == w[a + at..a + at + |t|];
  }

  /** The last hit in a string, or the absence of any. */
  lemma LastHit(s: string, t: string)
    ensures LastIndexOf(s, t) == -1 ==> !Contains(s, t)
    ensures LastIndexOf(s, t) != -1 ==> OccursAt(s, t, LastIndexOf(s, t))
  {
  }

  /** A hit in the part of the text after its last space is preferred. */
  lemma LastWordPreferred(text: string, term: string)
    requires term != ""
    requires Contains(Lower(text[LastIndexOfChar(text, ' ') + 1..]), Lower(term))
    ensures FindLastSearchMatch(text, term).0 > LastIndexOfChar(text, ' ')
    ensures forall k: nat :: LastIndexOfChar(text, ' ') < k && OccursAt(Lower(text), Lower(term), k) ==>
              FindLastSearchMatch(text, term).0 <= k
  {
  }

  /** Otherwise the span is the last occurrence in the whole text. */
  lemma FallbackIsLastOccurrence(text: string, term: string, k: nat)
    requires term != ""
    requires !Contains(Lower(text[LastIndexOfChar(text, ' ') + 1..]), Lower(term))
    requires OccursAt(Lower(text), Lower(term), k)
    ensures k <= FindLastSearchMatch(text, term).0
  {
    FallbackBranch(text, term);
  }

  /** Without a hit after the last space, the search falls back to
      `lastIndexOf` on the whole lowered text. */
  lemma FallbackBranch(text: string, term: string)
    requires term != ""
    requires !Contains(Lower(text[LastIndexOfChar(text, ' ') + 1..]), Lower(term))
    ensures FindLastSearchMatch(text, term).0 == LastIndexOf(Lower(text), Lower(term))
  {
    var t := Lower(term);
    var hit := SuffixSpan(text, LastIndexOfChar(text, ' ') + 1, t);
    assert hit == -1;
    var m := LastIndexOf(Lower(text), t);
    assert FindLastSearchMatch(text, term) == (if m != -1 then (m, m + |term|) else (-1, -1));
  }
}
