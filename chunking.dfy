/**
 * Grouping the timed words of a transcript into caption chunks: a word joins
 * the current chunk while the running length stays within 30 characters;
 * otherwise the chunk is closed and the word opens the next one. A word
 * longer than the budget becomes a chunk on its own and is never split.
 */
module Chunking {
  import opened PyText
  import opened AssTime
  import opened LineWrap

  /** Characters allowed in a chunk (`max_chars`). */
  const MaxChars := 30

  /** A transcript word: stripped text and its SubRip start and end times. */
  datatype Word = Word(text: string, start: Time, end: Time)

  function Texts(ws: seq<Word>): seq<string> {
    seq(|ws|, i requires 0 <= i < |ws| => ws[i].text)
  }

  /** The running length of a chunk, as the chunking loop counts it. */
  function Width(c: seq<Word>): nat {
    RunLength(Texts(c))
  }

  /** The chunks laid end to end. */
  function Flatten(cs: seq<seq<Word>>): seq<Word> {
    if cs == [] then [] else Flatten(cs[..|cs| - 1]) + cs[|cs| - 1]
  }

  /**
   * What the greedy rule produces: the chunks partition the words in order,
   * no chunk is empty, only a single-word chunk may exceed the budget, and the
   * first word of every chunk after the first would not have fitted into the
   * chunk before it.
   */
  ghost predicate IsGreedyChunking(words: seq<Word>, chunks: seq<seq<Word>>) {
    && Flatten(chunks) == words
    && (forall ci :: 0 <= ci < |chunks| ==> ChunkFits(chunks[ci]))
    && (forall ci :: 1 <= ci < |chunks| ==> Overflows(chunks[ci - 1], chunks[ci]))
  }

  /** A chunk is non-empty and within the budget unless it is a single word. */
  predicate ChunkFits(c: seq<Word>) {
    c != [] && (|c| == 1 || Width(c) <= MaxChars)
  }

  /** The first word of `next` would have pushed `prev` past the budget. */
  predicate Overflows(prev: seq<Word>, next: seq<Word>) {
    next != [] && Width(prev + [next[0]]) > MaxChars
  }

  // ---------------------------------------------------------------------------
  // Facts about Texts, Width and Flatten

  lemma TextsSnoc(c: seq<Word>, w: Word)
    ensures Texts(c + [w]) == Texts(c) + [w.text]
  {
  }

  lemma TextsPrefix(c: seq<Word>, k: nat)
    requires k <= |c|
    ensures Texts(c[..k]) == Texts(c)[..k]
  {
  }

  lemma WidthSnoc(c: seq<Word>, w: Word)
    ensures Width(c + [w]) == Width(c) + |w.text| + (if Width(c) > 0 then 1 else 0)
  {
    TextsSnoc(c, w);
    RunLengthSnoc(Texts(c), w.text);
  }

  /** A prefix of a chunk is never wider than the chunk. */
  lemma WidthPrefix(c: seq<Word>, k: nat)
    requires k <= |c|
    ensures Width(c[..k]) <= Width(c)
  {
    TextsPrefix(c, k);
    RunLengthPrefix(Texts(c), k);
  }

  lemma FlattenSnoc(cs: seq<seq<Word>>, c: seq<Word>)
    ensures Flatten(cs + [c]) == Flatten(cs) + c
  {
    assert (cs + [c])[..|cs|] == cs;
  }

  lemma {:induction false} FlattenCons(c: seq<Word>, cs: seq<seq<Word>>)
    ensures Flatten([c] + cs) == c + Flatten(cs)
    decreases |cs|
  {
    if cs != [] {
      var p := cs[..|cs| - 1];
      FlattenCons(c, p);
      assert [c] + cs == ([c] + p) + [cs[|cs| - 1]];
      FlattenSnoc([c] + p, cs[|cs| - 1]);
      FlattenSnoc(p, cs[|cs| - 1]);
      assert cs == p + [cs[|cs| - 1]];
    } else {
      assert [c] + cs == [] + [c];
      FlattenSnoc([], c);
    }
  }

  /** Flattening distributes over splitting the chunk list at any point. */
  lemma {:induction false} FlattenSplit(cs: seq<seq<Word>>, n: nat)
    requires n <= |cs|
    ensures Flatten(cs) == Flatten(cs[..n]) + Flatten(cs[n..])
    decreases n
  {
    if n == 0 {
      assert cs[n..] == cs;
    } else {
      FlattenSplit(cs, n - 1);
      assert cs[n - 1..] == [cs[n - 1]] + cs[n..];
      FlattenCons(cs[n - 1], cs[n..]);
      assert cs[..n] == cs[..n - 1] + [cs[n - 1]];
      FlattenSnoc(cs[..n - 1], cs[n - 1]);
    }
  }

  // ---------------------------------------------------------------------------
  // The greedy rule determines the chunks

  /** Peeling off the first chunk leaves a greedy chunking of the remaining words. */
  lemma GreedyTail(words: seq<Word>, chunks: seq<seq<Word>>)
    requires IsGreedyChunking(words, chunks) && chunks != []
    ensures |chunks[0]| <= |words| && chunks[0] == words[..|chunks[0]|]
    ensures IsGreedyChunking(words[|chunks[0]|..], chunks[1..])
  {
    assert chunks == [chunks[0]] + chunks[1..];
    FlattenCons(chunks[0], chunks[1..]);
    var rest := chunks[1..];
    forall ci | 1 <= ci < |rest|
      ensures Overflows(rest[ci - 1], rest[ci])
    {
      assert rest[ci - 1] == chunks[ci] && rest[ci] == chunks[ci + 1];
    }
  }

  /** In two greedy chunkings of the same words, the first chunk of one is never shorter than the other's. */
  lemma GreedyFirstNotShorter(words: seq<Word>, a: seq<seq<Word>>, b: seq<seq<Word>>)
    requires IsGreedyChunking(words, a) && IsGreedyChunking(words, b)
    requires a != [] && b != []
    ensures |a[0]| >= |b[0]|
  {
    GreedyTail(words, a);
    GreedyTail(words, b);
    var p, q := |a[0]|, |b[0]|;
    if p < q {
      var rest := words[p..];
      assert a[1][0] == words[p] by {
        assert |rest| > 0 && Flatten(a[1..]) == rest;
        assert a[1..] != [];
        GreedyTail(rest, a[1..]);
      }
      assert a[0] + [a[1][0]] == b[0][..p + 1] by {
        PrefixStep(words, p);
        PrefixOfPrefix(words, q, p + 1);
      }
      assert Width(a[0] + [a[1][0]]) > MaxChars;
      WidthPrefix(b[0], p + 1);
      assert false;
    }
  }

  /** Any two chunkings that follow the greedy rule are the same: the rule fixes the chunks. */
  lemma {:induction false} GreedyUnique(words: seq<Word>, a: seq<seq<Word>>, b: seq<seq<Word>>)
    requires IsGreedyChunking(words, a) && IsGreedyChunking(words, b)
    ensures a == b
    decreases |words|
  {
    if a == [] || b == [] {
      if a != [] {
        GreedyTail(words, a);
      }
      if b != [] {
        GreedyTail(words, b);
      }
    } else {
      GreedyFirstNotShorter(words, a, b);
      GreedyFirstNotShorter(words, b, a);
      GreedyTail(words, a);
      GreedyTail(words, b);
      var p := |a[0]|;
      GreedyUnique(words[p..], a[1..], b[1..]);
      assert a == [a[0]] + a[1..];
      assert b == [b[0]] + b[1..];
    }
  }

  // ---------------------------------------------------------------------------
  // A recursive reference definition of the chunks

  /** The length of the first chunk: grow from `k` words while the next word still fits. */
  function FirstChunkLength(words: seq<Word>, k: nat): (n: nat)
    requires 1 <= k <= |words|
    requires k == 1 || Width(words[..k]) <= MaxChars
    ensures k <= n <= |words|
    ensures n == 1 || Width(words[..n]) <= MaxChars
    ensures n < |words| ==> Width(words[..n + 1]) > MaxChars
    decreases |words| - k
  {
    if k < |words| && Width(words[..k + 1]) <= MaxChars then FirstChunkLength(words, k + 1) else k
  }

  lemma GreedyCons(words: seq<Word>, n: nat, rest: seq<seq<Word>>)
    requires 1 <= n <= |words|
    requires n == 1 || Width(words[..n]) <= MaxChars
    requires n < |words| ==> Width(words[..n + 1]) > MaxChars
    requires IsGreedyChunking(words[n..], rest)
    ensures IsGreedyChunking(words, [words[..n]] + rest)
  {
    var cs := [words[..n]] + rest;
    FlattenCons(words[..n], rest);
    SplitAt(words, n);
    if rest != [] {
      GreedyTail(words[n..], rest);
      assert rest[0][0] == words[n];
      PrefixStep(words, n);
    } else {
      assert Flatten(rest) == [];
    }
    forall ci | 1 <= ci < |cs|
      ensures Overflows(cs[ci - 1], cs[ci])
    {
      if ci > 1 {
        assert cs[ci - 1] == rest[ci - 2] && cs[ci] == rest[ci - 1];
      }
    }
  }

  /** The chunks of a word list, defined by recursion on the first chunk. */
  function Chunks(words: seq<Word>): (cs: seq<seq<Word>>)
    ensures IsGreedyChunking(words, cs)
    decreases |words|
  {
    if words == [] then []
    else
      var n := FirstChunkLength(words, 1);
      var rest := Chunks(words[n..]);
      GreedyCons(words, n, rest);
      [words[..n]] + rest
  }

  // ---------------------------------------------------------------------------
  // The chunking loop (lines 71-88)

  lemma GreedyFirst(w: Word)
    ensures IsGreedyChunking([w], [[w]])
  {
    FlattenSnoc([], [w]);
    assert [] + [[w]] == [[w]];
  }

  lemma GreedyExtend(ws: seq<Word>, cs: seq<seq<Word>>, cur: seq<Word>, w: Word)
    requires cur != [] && IsGreedyChunking(ws, cs + [cur])
    requires Width(cur + [w]) <= MaxChars
    ensures IsGreedyChunking(ws + [w], cs + [cur + [w]])
  {
    var old_ := cs + [cur];
    var new_ := cs + [cur + [w]];
    FlattenSnoc(cs, cur);
    FlattenSnoc(cs, cur + [w]);
    forall ci | 1 <= ci < |new_|
      ensures Overflows(new_[ci - 1], new_[ci])
    {
      assert new_[ci - 1] == old_[ci - 1];
      assert new_[ci][0] == old_[ci][0];
    }
    forall ci | 0 <= ci < |new_|
      ensures ChunkFits(new_[ci])
    {
      if ci < |cs| {
        assert new_[ci] == old_[ci];
      }
    }
  }

  lemma GreedyClose(ws: seq<Word>, cs: seq<seq<Word>>, cur: seq<Word>, w: Word)
    requires cur != [] && IsGreedyChunking(ws, cs + [cur])
    requires Width(cur + [w]) > MaxChars
    ensures IsGreedyChunking(ws + [w], (cs + [cur]) + [[w]])
  {
    var old_ := cs + [cur];
    var new_ := old_ + [[w]];
    FlattenSnoc(old_, [w]);
    forall ci | 1 <= ci < |new_|
      ensures Overflows(new_[ci - 1], new_[ci])
    {
      if ci < |old_| {
        assert new_[ci - 1] == old_[ci - 1];
        assert new_[ci] == old_[ci];
      }
    }
    forall ci | 0 <= ci < |new_|
      ensures ChunkFits(new_[ci])
    {
      if ci < |old_| {
        assert new_[ci] == old_[ci];
      }
    }
  }

  /**
   * The chunking loop: a word opens a new chunk when adding it to a
   * non-empty current chunk would push the running length past the budget.
   * The result follows the greedy rule, so it is exactly `Chunks(words)`.
   */
  method ChunkWords(words: seq<Word>) returns (chunks: seq<seq<Word>>)
    ensures IsGreedyChunking(words, chunks)
    ensures chunks == Chunks(words)
  {
    chunks := [];
    var currentChunk: seq<Word> := [];
    var currentLength := 0;
    for idx := 0 to |words|
      invariant idx == 0 ==> chunks == [] && currentChunk == []
      invariant idx > 0 ==> currentChunk != [] && IsGreedyChunking(words[..idx], chunks + [currentChunk])
      invariant currentLength == Width(currentChunk)
    {
      var word := words[idx];
      assert words[..idx + 1] == words[..idx] + [word];
      WidthSnoc(currentChunk, word);
      if currentLength + |word.text| + (if currentLength > 0 then 1 else 0) > MaxChars && currentChunk != [] {
        GreedyClose(words[..idx], chunks, currentChunk, word);
        chunks := chunks + [currentChunk];
        currentChunk := [];
        currentLength := 0;
        WidthSnoc([], word);
        assert [] + [word] == [word];
      } else if currentChunk != [] {
        GreedyExtend(words[..idx], chunks, currentChunk, word);
      } else {
        GreedyFirst(word);
        assert words[..idx + 1] == [word];
        assert chunks + [[] + [word]] == [[word]];
      }
      currentChunk := currentChunk + [word];
      currentLength := currentLength + |word.text| + (if currentLength > 0 then 1 else 0);
    }
    if currentChunk != [] {
      chunks := chunks + [currentChunk];
    }
    assert words[..|words|] == words;
    GreedyUnique(words, chunks, Chunks(words));
  }

  /** Chunk `ci` sits in the flattened words right after the words of the chunks before it. */
  lemma ChunkOffset(cs: seq<seq<Word>>, ci: nat)
    requires ci < |cs|
    ensures |Flatten(cs[..ci])| + |cs[ci]| <= |Flatten(cs)|
    ensures Flatten(cs)[|Flatten(cs[..ci])|..|Flatten(cs[..ci])| + |cs[ci]|] == cs[ci]
  {
    FlattenSplit(cs, ci);
    assert cs[ci..] == [cs[ci]] + cs[ci + 1..];
    FlattenCons(cs[ci], cs[ci + 1..]);
  }

  /**
   * A chunk of two or more words whose first `e` word texts are empty and
   * whose next one is not joins by single spaces into at most 30 + `e`
   * characters, whatever the rest of its texts are.
   */
  lemma ChunkJoinBound(words: seq<Word>, chunks: seq<seq<Word>>, ci: nat, e: nat)
    requires IsGreedyChunking(words, chunks) && ci < |chunks| && |chunks[ci]| >= 2
    requires e < |chunks[ci]| && chunks[ci][e].text != []
    requires forall k :: 0 <= k < e ==> chunks[ci][k].text == []
    ensures |Join(" ", Texts(chunks[ci]))| <= MaxChars + e
  {
    var c := chunks[ci];
    assert ChunkFits(c);
    JoinLengthWithLeadingEmpty(Texts(c), e);
  }

  /** For words with non-empty text, a chunk of two or more words joined by single spaces is at most 30 characters long. */
  lemma MultiWordChunkFits(words: seq<Word>, chunks: seq<seq<Word>>, ci: nat)
    requires IsGreedyChunking(words, chunks) && ci < |chunks|
    requires forall k :: 0 <= k < |words| ==> words[k].text != []
    requires |chunks[ci]| >= 2
    ensures |Join(" ", Texts(chunks[ci]))| <= MaxChars
  {
    var c := chunks[ci];
    ChunkOffset(chunks, ci);
    var off := |Flatten(chunks[..ci])|;
    assert forall k :: 0 <= k < |c| ==> c[k] == words[off + k];
    assert ChunkFits(c);
    RunLengthIsJoinLength(Texts(c));
  }
}
