/**
 * The text of one caption event: every word of the chunk up to the current
 * one is shown, every later word is wrapped in alpha override tags that make
 * it fully transparent, and the result is laid out on two lines, using the
 * break computed on the plain words or, when the two word counts disagree,
 * the character-based fallback.
 */
module Reveal {
  import opened PyText
  import opened LineWrap

  /** Override tag that makes the following text fully transparent. */
  const HideTag := "{\\alpha&HFF&}"

  /** Override tag that makes the following text opaque again. */
  const ShowTag := "{\\alpha&H00&}"

  /** A word that is not spoken yet: present, so it takes its place in the layout, but invisible. */
  function Pending(w: string): string {
    HideTag + w + ShowTag
  }

  /** The words of a chunk as they appear in event `i`: the first `i + 1` visible, the rest pending. */
  function RevealTokens(texts: seq<string>, i: nat): seq<string> {
    seq(|texts|, j requires 0 <= j < |texts| => if j <= i then texts[j] else Pending(texts[j]))
  }

  /** `complete_text`: every token followed by a space, then stripped. */
  function CompleteText(texts: seq<string>, i: nat): string {
    Strip(Terminated(RevealTokens(texts, i), " "))
  }

  /** The styled text has a different number of words from the plain text, so the fallback break is used. */
  predicate UsesFallback(texts: seq<string>, i: nat) {
    |Words(CompleteText(texts, i))| != |Words(Join(" ", texts))|
  }

  /**
   * The text of event `i` of a chunk: the styled words split after as many
   * words as the wrap pass keeps on line 1 of the plain text, or the fallback
   * break of the complete text.
   */
  function StyledText(texts: seq<string>, i: nat): string {
    var completeText := CompleteText(texts, i);
    var styledWords := Words(completeText);
    if !UsesFallback(texts, i) then
      var n1 := Line1Count(Words(Join(" ", texts)));
      Join(" ", styledWords[..n1]) + LineBreak + Join(" ", styledWords[n1..])
    else Fallback(completeText)
  }

  /** Lines 132-143: build `complete_text` word by word, then strip it. */
  method RevealText(chunkWords: seq<string>, i: nat) returns (completeText: string)
    ensures completeText == CompleteText(chunkWords, i)
  {
    completeText := "";
    ghost var tokens := RevealTokens(chunkWords, i);
    for j := 0 to |chunkWords|
      invariant completeText == Terminated(tokens[..j], " ")
    {
      var word := chunkWords[j];
      TerminatedStep(tokens, j, " ");
      if j < i {
        completeText := completeText + word + " ";
      } else if j == i {
        completeText := completeText + word + " ";
      } else {
        completeText := completeText + HideTag + word + ShowTag + " ";
      }
    }
    assert tokens[..|chunkWords|] == tokens;
    completeText := Strip(completeText);
  }

  /** Lines 132-191: the text of event `i` of a chunk. */
  method StyleText(chunkWords: seq<string>, i: nat) returns (styledText: string)
    ensures styledText == StyledText(chunkWords, i)
  {
    var completeText := RevealText(chunkWords, i);
    var plainText := Join(" ", chunkWords);
    var plainWords := Words(plainText);
    var line1Words, line2Words := SplitLines(plainWords);
    var styledWords := Words(completeText);
    if |styledWords| == |plainWords| {
      var line1 := Join(" ", styledWords[..|line1Words|]);
      var line2 := if styledWords[|line1Words|..] != [] then Join(" ", styledWords[|line1Words|..]) else "";
      styledText := line1 + LineBreak + line2;
    } else {
      styledText := Fallback(completeText);
    }
  }

  // ---------------------------------------------------------------------------
  // What the reveal text looks like

  lemma TagsNoSpace()
    ensures NoSpace(HideTag) && NoSpace(ShowTag)
  {
  }

  lemma TokensNoSpace(texts: seq<string>, i: nat)
    requires forall k :: 0 <= k < |texts| ==> NoSpace(texts[k])
    ensures forall k :: 0 <= k < |texts| ==> NoSpace(RevealTokens(texts, i)[k])
  {
    TagsNoSpace();
  }

  /** For single words, the styled words of event `i` are the non-empty tokens. */
  lemma CompleteTextWords(texts: seq<string>, i: nat)
    requires forall k :: 0 <= k < |texts| ==> NoSpace(texts[k])
    ensures Words(CompleteText(texts, i)) == NonEmpty(RevealTokens(texts, i))
  {
    var toks := RevealTokens(texts, i);
    WordsStrip(Terminated(toks, " "));
    if toks != [] {
      TokensNoSpace(texts, i);
      TerminatedIsJoin(toks, " ");
      JoinAppend(" ", toks, "");
      assert Join(" ", toks) + " " + "" == Join(" ", toks) + " ";
      WordsOfJoin(toks + [""]);
      NonEmptyAppend(toks, [""]);
      assert NonEmpty([""]) == [] by {
        assert [""][1..] == [];
      }
      assert NonEmpty(toks) + [] == NonEmpty(toks);
    }
  }

  /** For non-empty single words, `complete_text` is the tokens joined by single spaces. */
  lemma CompleteTextIsJoin(texts: seq<string>, i: nat)
    requires |texts| >= 1
    requires forall k :: 0 <= k < |texts| ==> texts[k] != [] && NoSpace(texts[k])
    ensures CompleteText(texts, i) == Join(" ", RevealTokens(texts, i))
  {
    var toks := RevealTokens(texts, i);
    TokensNoSpace(texts, i);
    TerminatedIsJoin(toks, " ");
    JoinEnds(toks);
    StripSpaceSuffix(Join(" ", toks));
  }

  /**
   * For whitespace-free words, the fallback break is taken exactly when some
   * word after the current one is empty: an empty visible word disappears
   * from both word lists, while an empty pending word still leaves its tags
   * behind.
   */
  lemma FallbackIffPendingEmpty(texts: seq<string>, i: nat)
    requires forall k :: 0 <= k < |texts| ==> NoSpace(texts[k])
    ensures UsesFallback(texts, i) <==> exists j :: i < j < |texts| && texts[j] == []
  {
    var n := |texts|;
    var m := if i + 1 <= n then i + 1 else n;
    CompleteTextWords(texts, i);
    WordsOfJoin(texts);
    RevealedCount(texts, i, m);
    NonEmptyLength(texts, m);
    DropsIffEmpty(texts, m);
  }

  lemma DropsIffEmpty(texts: seq<string>, m: nat)
    requires m <= |texts|
    ensures |NonEmpty(texts[m..])| != |texts| - m <==> exists j :: m <= j < |texts| && texts[j] == []
  {
    var rest := texts[m..];
    NonEmptyFull(rest);
    if exists j :: m <= j < |texts| && texts[j] == [] {
      var j :| m <= j < |texts| && texts[j] == [];
      assert rest[j - m] == [];
    } else {
      assert forall k :: 0 <= k < |rest| ==> rest[k] == texts[m + k];
    }
  }

  /** Every revealed word counts as in the plain text; every pending word counts once, empty or not. */
  lemma RevealedCount(texts: seq<string>, i: nat, m: nat)
    requires m == if i + 1 <= |texts| then i + 1 else |texts|
    ensures |NonEmpty(RevealTokens(texts, i))| == |NonEmpty(texts[..m])| + (|texts| - m)
  {
    var toks := RevealTokens(texts, i);
    NonEmptyLength(toks, m);
    assert toks[..m] == texts[..m];
    NonEmptyId(toks[m..]);
  }

  /**
   * For non-empty single words the event text is always the two-line form:
   * the tokens split after as many words as fit on line 1 of the plain text.
   */
  lemma StyledTwoLines(texts: seq<string>, i: nat)
    requires forall k :: 0 <= k < |texts| ==> texts[k] != [] && NoSpace(texts[k])
    ensures var toks := RevealTokens(texts, i);
            var k := Line1Count(texts);
            k <= |toks| && StyledText(texts, i) == Join(" ", toks[..k]) + LineBreak + Join(" ", toks[k..])
  {
    var toks := RevealTokens(texts, i);
    CompleteTextWords(texts, i);
    NonEmptyId(toks);
    WordsOfJoin(texts);
    NonEmptyId(texts);
  }

  /** A chunk of two or more words that fits the budget is split at its midpoint in every event. */
  lemma StyledMidpoint(texts: seq<string>, i: nat)
    requires |texts| >= 2 && RunLength(texts) <= LineBudget
    requires forall k :: 0 <= k < |texts| ==> texts[k] != [] && NoSpace(texts[k])
    ensures var toks := RevealTokens(texts, i);
            var k := |texts| / 2;
            StyledText(texts, i) == Join(" ", toks[..k]) + LineBreak + Join(" ", toks[k..])
  {
    StyledTwoLines(texts, i);
    MidpointWhenAllFit(texts);
  }

  /** A one-word chunk shows `w\N` when the word fits the line and `\Nw` when it does not. */
  lemma StyledSingleWord(w: string)
    requires w != [] && NoSpace(w)
    ensures StyledText([w], 0) == if |w| <= LineBudget then w + LineBreak else LineBreak + w
  {
    StyledTwoLines([w], 0);
    SingleWordLine(w);
    assert RevealTokens([w], 0) == [w];
    assert [w][..1] == [w] && [w][1..] == [];
    assert [w][..0] == [] && [w][0..] == [w];
  }
}
