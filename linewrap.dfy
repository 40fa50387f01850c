/**
 * The two-line layout of a caption event: the running-length rule shared
 * with chunking, the "fits on line 1" pass over the plain words (which does
 * not stop at the first word that overflows), the midpoint rebalance when
 * everything fits, and the character-based fallback break.
 */
module LineWrap {
  import opened PyText

  /** Characters allowed on the first line (`char_wrap`). */
  const LineBudget := 30

  /** The ASS hard line break `\N`. */
  const LineBreak := "\\N"

  /**
   * The running length the source keeps while accumulating words: each word
   * adds its length, plus one for a separating space only once the running
   * length is already positive.
   */
  function RunLength(ws: seq<string>): nat {
    if ws == [] then 0
    else
      var n := RunLength(ws[..|ws| - 1]);
      n + |ws[|ws| - 1]| + (if n > 0 then 1 else 0)
  }

  /** The running length never decreases as words are appended. */
  lemma {:induction false} RunLengthPrefix(ws: seq<string>, k: nat)
    requires k <= |ws|
    ensures RunLength(ws[..k]) <= RunLength(ws)
    decreases |ws| - k
  {
    if k < |ws| {
      RunLengthPrefix(ws, k + 1);
      assert ws[..k + 1][..k] == ws[..k];
    } else {
      assert ws[..k] == ws;
    }
  }

  /** For non-empty words the running length is the length of their single-space join. */
  lemma {:induction false} RunLengthIsJoinLength(ws: seq<string>)
    requires forall k :: 0 <= k < |ws| ==> ws[k] != []
    ensures RunLength(ws) == |Join(" ", ws)|
    decreases |ws|
  {
    if |ws| > 0 {
      RunLengthIsJoinLength(ws[..|ws| - 1]);
      if |ws| == 1 {
        assert ws[..0] == [];
      } else {
        assert RunLength(ws[..|ws| - 1]) >= |ws[0]| > 0 by {
          RunLengthPrefix(ws[..|ws| - 1], 1);
          assert ws[..|ws| - 1][..1] == [ws[0]];
          assert [ws[0]][..0] == [];
        }
      }
    }
  }

  /**
   * With `e` empty texts before the first non-empty one, the single-space
   * join is exactly `e` characters longer than the running length: the
   * running length skips the space of every word it meets while still at 0.
   */
  lemma {:induction false} JoinLengthWithLeadingEmpty(ws: seq<string>, e: nat)
    requires e < |ws| && ws[e] != []
    requires forall k :: 0 <= k < e ==> ws[k] == []
    ensures |Join(" ", ws)| == RunLength(ws) + e
    decreases |ws|
  {
    var p := ws[..|ws| - 1];
    if |ws| == e + 1 {
      AllEmptyLengths(p);
      if e > 0 {
        assert Join(" ", ws) == Join(" ", p) + " " + ws[e];
      }
    } else {
      JoinLengthWithLeadingEmpty(p, e);
      assert RunLength(p) >= |ws[e]| > 0 by {
        RunLengthPrefix(p, e + 1);
        assert p[..e + 1][..e] == ws[..e];
        AllEmptyLengths(ws[..e]);
      }
    }
  }

  /** Only empty texts: the running length stays 0, while the join still holds the spaces between them. */
  lemma {:induction false} AllEmptyLengths(ws: seq<string>)
    requires forall k :: 0 <= k < |ws| ==> ws[k] == []
    ensures RunLength(ws) == 0
    ensures |Join(" ", ws)| == if ws == [] then 0 else |ws| - 1
    decreases |ws|
  {
    if ws != [] {
      AllEmptyLengths(ws[..|ws| - 1]);
    }
  }

  /** The words the wrap loop keeps on line 1: every word that still fits after the ones kept so far, even behind a word that did not. */
  function FitLine(ws: seq<string>): (l: seq<string>)
    ensures |l| <= |ws|
  {
    if ws == [] then []
    else
      var l := FitLine(ws[..|ws| - 1]);
      if RunLength(l + [ws[|ws| - 1]]) <= LineBudget then l + [ws[|ws| - 1]] else l
  }

  /** How many styled tokens go on line 1: the fitting count, or half of it (rounded down) when all words fit and there are at least two. */
  function Line1Count(ws: seq<string>): (k: nat)
    ensures k <= |ws|
  {
    var n := |FitLine(ws)|;
    if n == |ws| && n > 1 then n / 2 else n
  }

  /** The words the wrap loop sends to line 2: those that did not fit after the words kept before them. */
  function Overflow(ws: seq<string>): seq<string> {
    if ws == [] then []
    else
      var l := FitLine(ws[..|ws| - 1]);
      if RunLength(l + [ws[|ws| - 1]]) <= LineBudget then Overflow(ws[..|ws| - 1])
      else Overflow(ws[..|ws| - 1]) + [ws[|ws| - 1]]
  }

  /** Every word lands on exactly one of the two lines. */
  lemma {:induction false} FitOverflowPartition(ws: seq<string>)
    ensures multiset(FitLine(ws)) + multiset(Overflow(ws)) == multiset(ws)
    ensures |FitLine(ws)| + |Overflow(ws)| == |ws|
    decreases |ws|
  {
    if ws != [] {
      FitOverflowPartition(ws[..|ws| - 1]);
      LastSplit(ws);
    }
  }

  /**
   * Lines 151-160: every plain word that still fits after the words kept so
   * far goes to line 1, every other word to line 2.
   */
  method FitWords(plainWords: seq<string>) returns (line1: seq<string>, line2: seq<string>)
    ensures line1 == FitLine(plainWords) && line2 == Overflow(plainWords)
  {
    line1, line2 := [], [];
    var currentLineLength := 0;
    for i := 0 to |plainWords|
      invariant line1 == FitLine(plainWords[..i]) && line2 == Overflow(plainWords[..i])
      invariant currentLineLength == RunLength(line1)
    {
      var word := plainWords[i];
      FitLineStep(plainWords, i);
      RunLengthSnoc(line1, word);
      if currentLineLength + |word| + (if currentLineLength > 0 then 1 else 0) <= LineBudget {
        line1 := line1 + [word];
        currentLineLength := currentLineLength + |word| + (if currentLineLength > 0 then 1 else 0);
      } else {
        line2 := line2 + [word];
      }
    }
    assert plainWords[..|plainWords|] == plainWords;
  }

  /**
   * Lines 151-167: the wrap pass followed by the rebalance that moves the
   * second half of line 1 to line 2 when line 2 came out empty. Line 1 holds
   * the counted number of words; together the two lines hold every plain
   * word exactly once.
   */
  method SplitLines(plainWords: seq<string>) returns (line1: seq<string>, line2: seq<string>)
    ensures |line1| == Line1Count(plainWords)
    ensures multiset(line1) + multiset(line2) == multiset(plainWords)
  {
    line1, line2 := FitWords(plainWords);
    FitOverflowPartition(plainWords);
    if line2 == [] && |line1| > 1 {
      var midpoint := |line1| / 2;
      MultisetOfSplit(line1, midpoint);
      line1, line2 := line1[..midpoint], line1[midpoint..];
    }
  }

  lemma MultisetOfSplit(l: seq<string>, m: nat)
    requires m <= |l|
    ensures multiset(l[..m]) + multiset(l[m..]) == multiset(l)
  {
    assert l == l[..m] + l[m..];
  }

  lemma RunLengthSnoc(l: seq<string>, w: string)
    ensures RunLength(l + [w]) == RunLength(l) + |w| + (if RunLength(l) > 0 then 1 else 0)
  {
    assert (l + [w])[..|l|] == l;
  }

  lemma FitLineStep(ws: seq<string>, i: nat)
    requires i < |ws|
    ensures var l := FitLine(ws[..i]);
      FitLine(ws[..i + 1]) == (if RunLength(l + [ws[i]]) <= LineBudget then l + [ws[i]] else l) &&
      Overflow(ws[..i + 1]) == (if RunLength(l + [ws[i]]) <= LineBudget then Overflow(ws[..i]) else Overflow(ws[..i]) + [ws[i]])
  {
    assert ws[..i + 1][..i] == ws[..i];
  }

  /** If the whole word list fits the budget, the wrap loop keeps all of it on line 1. */
  lemma {:induction false} FitLineAll(ws: seq<string>)
    requires RunLength(ws) <= LineBudget
    ensures FitLine(ws) == ws
    decreases |ws|
  {
    if ws != [] {
      RunLengthPrefix(ws, |ws| - 1);
      FitLineAll(ws[..|ws| - 1]);
      assert ws[..|ws| - 1] + [ws[|ws| - 1]] == ws;
    }
  }

  /** A word list that fits the budget and has n >= 2 words is broken after n / 2 words. */
  lemma MidpointWhenAllFit(ws: seq<string>)
    requires |ws| >= 2 && RunLength(ws) <= LineBudget
    ensures Line1Count(ws) == |ws| / 2
  {
    FitLineAll(ws);
  }

  /** A single word stays on line 1 when it is at most the budget, and is pushed to line 2 otherwise. */
  lemma SingleWordLine(w: string)
    ensures Line1Count([w]) == if |w| <= LineBudget then 1 else 0
  {
    assert [w][..0] == [];
    RunLengthSnoc([], w);
    assert [] + [w] == [w];
  }

  /** If the first word fits, the wrap loop keeps at least one word on line 1. */
  lemma {:induction false} FitLineNonEmpty(ws: seq<string>)
    requires ws != [] && |ws[0]| <= LineBudget
    ensures |FitLine(ws)| >= 1
    decreases |ws|
  {
    if |ws| == 1 {
      assert ws[..0] == [];
      RunLengthSnoc([], ws[0]);
      assert [] + [ws[0]] == [ws[0]] == ws;
    } else {
      FitLineNonEmpty(ws[..|ws| - 1]);
    }
  }

  /** With two or more words and the first word within the budget, both lines receive at least one word. */
  lemma BothLinesNonEmpty(ws: seq<string>)
    requires |ws| >= 2 && |ws[0]| <= LineBudget
    ensures 0 < Line1Count(ws) < |ws|
  {
    FitLineNonEmpty(ws);
  }

  // ---------------------------------------------------------------------------
  // Fallback break (lines 180-191)

  /** `s.rfind(' ', 0, end)`: the last space strictly before `end`. */
  function LastSpaceBefore(s: string, end: nat): (r: Option<nat>)
    requires end <= |s|
    ensures r.Some? ==> r.value < end && s[r.value] == ' ' && forall k :: r.value < k < end ==> s[k] != ' '
    ensures r.None? ==> forall k :: 0 <= k < end ==> s[k] != ' '
  {
    if end == 0 then None
    else if s[end - 1] == ' ' then Some(end - 1)
    else LastSpaceBefore(s, end - 1)
  }

  /** `s.find(' ', start)`: the first space at or after `start`. */
  function FirstSpaceFrom(s: string, start: nat): (r: Option<nat>)
    requires start <= |s|
    ensures r.Some? ==> start <= r.value < |s| && s[r.value] == ' ' && forall k :: start <= k < r.value ==> s[k] != ' '
    ensures r.None? ==> forall k :: start <= k < |s| ==> s[k] != ' '
    decreases |s| - start
  {
    if start == |s| then None
    else if s[start] == ' ' then Some(start)
    else FirstSpaceFrom(s, start + 1)
  }

  /** The space the fallback breaks at: the last one before the midpoint, or, if there is none, the first one at or after it. */
  predicate IsFallbackSpace(s: string, p: nat) {
    p < |s| && s[p] == ' ' &&
    if p < |s| / 2 then forall k :: p < k < |s| / 2 ==> s[k] != ' '
    else forall k :: 0 <= k < p ==> s[k] != ' '
  }

  /**
   * The fallback two-line layout: replace the chosen space by `\N`, or, when
   * the text has no space at all, insert `\N` at the character midpoint.
   */
  function Fallback(s: string): (r: string)
    ensures (exists k :: 0 <= k < |s| && s[k] == ' ') ==>
              exists p: nat :: IsFallbackSpace(s, p) && r == s[..p] + LineBreak + s[p + 1..]
    ensures (forall k :: 0 <= k < |s| ==> s[k] != ' ') ==>
              r == s[..|s| / 2] + LineBreak + s[|s| / 2..]
  {
    var middle := |s| / 2;
    var before := LastSpaceBefore(s, middle);
    var breakPos := if before.Some? then before else FirstSpaceFrom(s, middle);
    if breakPos.Some? then
      assert IsFallbackSpace(s, breakPos.value);
      s[..breakPos.value] + LineBreak + s[breakPos.value + 1..]
    else
      s[..middle] + LineBreak + s[middle..]
  }
}
