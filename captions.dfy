/**
 * `srt_to_ass`: a word-level SubRip transcript becomes an Advanced SubStation
 * Alpha track in which each chunk of words is shown as a sequence of events,
 * one per word, each revealing one more word of the chunk. An event lasts
 * from its word's start to the next word's start; the last event of the
 * track is held two seconds past the final word's end.
 */
module Captions {
  import opened PyText
  import opened AssTime
  import opened LineWrap
  import opened Chunking
  import opened Reveal

  /** The fixed head of the track: script info, one style (Montserrat-BlackItalic, size 200) and the events format line. */
  const Header: string :=
    "[Script Info]\n" +
    "Title: TikTok Style Subtitles\n" +
    "ScriptType: v4.00+\n" +
    "WrapStyle: 0\n" +
    "ScaledBorderAndShadow: yes\n" +
    "YCbCr Matrix: None\n" +
    "PlayResX: 1080\n" +
    "PlayResY: 1920\n" +
    "\n" +
    "[Aegisub Project Garbage]\n" +
    "Audio File: ?video\n" +
    "Video File: ?dummy\n" +
    "Video AR Mode: 4\n" +
    "Video AR Value: 1.777778\n" +
    "Video Zoom Percent: 0.500000\n" +
    "\n" +
    "[V4+ Styles]\n" +
    "Format: Name, Fontname, Fontsize, PrimaryColour, SecondaryColour, OutlineColour, BackColour, Bold, Italic, Underline, StrikeOut, ScaleX, ScaleY, Spacing, Angle, BorderStyle, Outline, Shadow, Alignment, MarginL, MarginR, MarginV, Encoding\n" +
    "Style: Default,Montserrat-BlackItalic,200,&H0002c2e8,&H000000FF,&H00000000,&H00000000,1,1,0,0,100,100,0,0,1,4,0,5,10,10,200,1\n" +
    "\n" +
    "[Events]\n" +
    "Format: Layer, Start, End, Style, Name, MarginL, MarginR, MarginV, Effect, Text\n"

  /** One SubRip cue as read from the transcript. */
  datatype SrtItem = SrtItem(text: string, start: Time, end: Time)

  /** One `Dialogue` event of the track. */
  datatype Event = Event(start: Time, end: Time, text: string)

  function ToWord(item: SrtItem): Word {
    Word(Strip(item.text), item.start, item.end)
  }

  /** Lines 63-69: each cue becomes a word with its text stripped and its times kept. */
  function WordsOf(items: seq<SrtItem>): (ws: seq<Word>)
    ensures |ws| == |items|
    ensures forall k :: 0 <= k < |items| ==> ws[k] == ToWord(items[k])
  {
    Map(ToWord, items)
  }

  predicate NoEmptyChunk(cs: seq<seq<Word>>) {
    forall ci :: 0 <= ci < |cs| ==> cs[ci] != []
  }

  /** When chunk `ci` stops being shown: the start of the next chunk, or the tail end of the last word. */
  function ChunkEnd(cs: seq<seq<Word>>, ci: nat): Time
    requires ci < |cs| && NoEmptyChunk(cs)
  {
    if ci < |cs| - 1 then cs[ci + 1][0].start else TailEnd(cs[ci][|cs[ci]| - 1].end)
  }

  /** How an event's text is made from its chunk's word texts and the index of the word being spoken. */
  type Style = (seq<string>, nat) -> string

  /** Event `i` of a chunk: from word `i`'s start to the next word's start (or the chunk end), with the text `style` gives it. */
  function EventAt(c: seq<Word>, end: Time, style: Style, i: nat): Event
    requires i < |c|
  {
    Event(c[i].start, if i < |c| - 1 then c[i + 1].start else end, style(Texts(c), i))
  }

  /** The first `n` events of a chunk. */
  function ChunkEvents(c: seq<Word>, end: Time, style: Style, n: nat): seq<Event>
    requires n <= |c|
  {
    if n == 0 then [] else ChunkEvents(c, end, style, n - 1) + [EventAt(c, end, style, n - 1)]
  }

  /** The events of the first `n` chunks, in order. */
  function EventsUpTo(cs: seq<seq<Word>>, style: Style, n: nat): seq<Event>
    requires n <= |cs| && NoEmptyChunk(cs)
  {
    if n == 0 then [] else EventsUpTo(cs, style, n - 1) + ChunkEvents(cs[n - 1], ChunkEnd(cs, n - 1), style, |cs[n - 1]|)
  }

  /** All events of a transcript: every word of every chunk, each revealing the chunk's words up to it; one event per word. */
  function Events(words: seq<Word>): (es: seq<Event>)
    ensures |es| == |words|
  {
    var cs := Chunks(words);
    EventsUpToTiming(cs, StyledText, |cs|);
    assert cs[..|cs|] == cs;
    EventsUpTo(cs, StyledText, |cs|)
  }

  /** Layer 0, then the start field. */
  const DialoguePrefix := "Dialogue: 0,"

  /** The fields after the end time: style `Default`, no name, zero margins, no effect. */
  const DialogueStyle := "Default,,0,0,0,,"

  /**
   * `Dialogue: 0,<start>,<end>,Default,,0,0,0,,<text>`. The line reads back
   * as its two timestamps and its text, whatever the text holds.
   */
  function DialogueLine(e: Event): (r: string)
    ensures ParseDialogue(r) == Some((TimestampToAss(e.start), TimestampToAss(e.end), e.text))
  {
    var a, b := TimestampToAss(e.start), TimestampToAss(e.end);
    NoCommaInTimestamp(e.start);
    NoCommaInTimestamp(e.end);
    DialogueOf(a, b, e.text);
    DialoguePrefix + a + "," + b + "," + DialogueStyle + e.text
  }

  function DialogueLines(es: seq<Event>): seq<string> {
    Map(DialogueLine, es)
  }

  /**
   * The content of the written track: the header, then one dialogue line per
   * cue, the lines joined by newlines and the last one ending in a newline;
   * just the header when there are no cues.
   */
  function Track(items: seq<SrtItem>): (r: string)
    ensures |DialogueLines(Events(WordsOf(items)))| == |items|
    ensures items == [] ==> r == Header
    ensures items != [] ==> r == Header + Join("\n", DialogueLines(Events(WordsOf(items)))) + "\n"
  {
    var lines := DialogueLines(Events(WordsOf(items)));
    HeaderAndLines(Header, lines);
    Header + Terminated(lines, "\n")
  }

  lemma HeaderAndLines(h: string, lines: seq<string>)
    ensures lines == [] ==> h + Terminated(lines, "\n") == h
    ensures lines != [] ==> h + Terminated(lines, "\n") == h + Join("\n", lines) + "\n"
  {
    if lines != [] {
      TerminatedIsJoin(lines, "\n");
      AppendAssoc(h, Join("\n", lines), "\n");
    } else {
      assert h + [] == h;
    }
  }

  /**
   * Lines 62-210: read the words, chunk them, emit one dialogue line per word
   * of every chunk, and assemble the track that is written to disk.
   */
  method SrtToAss(items: seq<SrtItem>) returns (lines: seq<string>, track: string)
    ensures lines == DialogueLines(Events(WordsOf(items)))
    ensures track == Track(items)
  {
    var words := ReadWords(items);
    var subtitleChunks := ChunkWords(words);
    lines := EmitChunks(subtitleChunks);
    assert Events(words) == EventsUpTo(subtitleChunks, StyledText, |subtitleChunks|);
    track := WriteTrack(Header, lines);
  }

  /** Lines 98-204: the dialogue lines of every chunk, chunk by chunk. */
  method EmitChunks(subtitleChunks: seq<seq<Word>>) returns (lines: seq<string>)
    requires NoEmptyChunk(subtitleChunks)
    ensures lines == DialogueLines(EventsUpTo(subtitleChunks, StyledText, |subtitleChunks|))
  {
    lines := [];
    for chunkIdx := 0 to |subtitleChunks|
      invariant lines == DialogueLines(EventsUpTo(subtitleChunks, StyledText, chunkIdx))
    {
      var chunk := subtitleChunks[chunkIdx];
      var endTime := ChunkEndTime(subtitleChunks, chunkIdx);
      var chunkLines := ChunkLines(chunk, endTime);
      DialogueLinesAppend(EventsUpTo(subtitleChunks, StyledText, chunkIdx), ChunkEvents(chunk, endTime, StyledText, |chunk|));
      lines := lines + chunkLines;
    }
  }

  /** Lines 63-69. */
  method ReadWords(items: seq<SrtItem>) returns (words: seq<Word>)
    ensures words == WordsOf(items)
  {
    words := [];
    for k := 0 to |items|
      invariant words == WordsOf(items[..k])
    {
      assert WordsOf(items[..k + 1]) == WordsOf(items[..k]) + [ToWord(items[k])] by {
        PrefixStep(items, k);
        MapSnoc(ToWord, items[..k], items[k]);
      }
      words := words + [Word(Strip(items[k].text), items[k].start, items[k].end)];
    }
    assert items[..|items|] == items;
  }

  /** Lines 102-124: the end of a chunk, with the tail extension and its carry written out as in the source. */
  method ChunkEndTime(subtitleChunks: seq<seq<Word>>, chunkIdx: nat) returns (endTime: Time)
    requires chunkIdx < |subtitleChunks| && NoEmptyChunk(subtitleChunks)
    ensures endTime == ChunkEnd(subtitleChunks, chunkIdx)
  {
    var chunk := subtitleChunks[chunkIdx];
    if chunkIdx < |subtitleChunks| - 1 {
      endTime := subtitleChunks[chunkIdx + 1][0].start;
    } else {
      var lastWordEnd := chunk[|chunk| - 1].end;
      var hours, minutes, seconds := lastWordEnd.hours, lastWordEnd.minutes, lastWordEnd.seconds + TailSeconds;
      if seconds >= 60 {
        minutes := minutes + seconds / 60;
        seconds := seconds % 60;
        if minutes >= 60 {
          hours := hours + minutes / 60;
          minutes := minutes % 60;
        }
      }
      endTime := Time(hours, minutes, seconds, lastWordEnd.milliseconds);
    }
  }

  /**
   * Lines 129-204: one dialogue line per word of a chunk. The event of word
   * `i` runs from its start to the next word's start, or to the chunk end
   * for the last word.
   */
  method ChunkLines(chunk: seq<Word>, endTime: Time) returns (chunkLines: seq<string>)
    ensures chunkLines == DialogueLines(ChunkEvents(chunk, endTime, StyledText, |chunk|))
  {
    var chunkWords := Texts(chunk);
    chunkLines := [];
    for i := 0 to |chunk|
      invariant chunkLines == DialogueLines(ChunkEvents(chunk, endTime, StyledText, i))
    {
      var styledText := StyleText(chunkWords, i);
      var wordStart := chunk[i].start;
      var wordEnd := if i < |chunk| - 1 then chunk[i + 1].start else endTime;
      var event := Event(wordStart, wordEnd, styledText);
      DialogueLinesSnoc(ChunkEvents(chunk, endTime, StyledText, i), event);
      chunkLines := chunkLines + [DialogueLine(event)];
    }
  }

  /** Lines 207-210: the header, then each line followed by a newline. */
  method WriteTrack(header: string, lines: seq<string>) returns (track: string)
    ensures track == header + Terminated(lines, "\n")
  {
    track := header;
    for k := 0 to |lines|
      invariant track == header + Terminated(lines[..k], "\n")
    {
      TerminatedStep(lines, k, "\n");
      ghost var done := Terminated(lines[..k], "\n");
      AppendAssoc(header, done, lines[k]);
      AppendAssoc(header, done + lines[k], "\n");
      track := track + lines[k] + "\n";
    }
    assert lines[..|lines|] == lines;
  }

  lemma DialogueLinesSnoc(es: seq<Event>, e: Event)
    ensures DialogueLines(es + [e]) == DialogueLines(es) + [DialogueLine(e)]
  {
    MapSnoc(DialogueLine, es, e);
  }

  lemma DialogueLinesAppend(a: seq<Event>, b: seq<Event>)
    ensures DialogueLines(a + b) == DialogueLines(a) + DialogueLines(b)
  {
    MapAppend(DialogueLine, a, b);
  }

  // ---------------------------------------------------------------------------
  // Timing of the events

  /** When the event of word `k` ends: the next word's start, or the tail end after the very last word. */
  function NextStart(ws: seq<Word>, k: nat): Time
    requires k < |ws|
  {
    if k + 1 < |ws| then ws[k + 1].start else TailEnd(ws[k].end)
  }

  /** Events `es` are those of the words of `f` from offset `off` on: each starts at its word and ends where the next word starts. */
  predicate Timed(es: seq<Event>, f: seq<Word>, off: nat) {
    off + |es| <= |f| &&
    forall i :: 0 <= i < |es| ==> es[i].start == f[off + i].start && es[i].end == NextStart(f, off + i)
  }

  lemma TimedAppend(a: seq<Event>, b: seq<Event>, f: seq<Word>, off: nat)
    requires Timed(a, f, off) && Timed(b, f, off + |a|)
    ensures Timed(a + b, f, off)
  {
    assert forall i :: |a| <= i < |a + b| ==> (a + b)[i] == b[i - |a|];
  }

  lemma {:induction false} ChunkEventsTimes(c: seq<Word>, end: Time, style: Style, n: nat)
    requires n <= |c|
    ensures |ChunkEvents(c, end, style, n)| == n
    ensures forall k :: 0 <= k < n ==>
              ChunkEvents(c, end, style, n)[k].start == c[k].start &&
              ChunkEvents(c, end, style, n)[k].end == if k < |c| - 1 then c[k + 1].start else end
  {
    if n > 0 {
      ChunkEventsTimes(c, end, style, n - 1);
    }
  }

  lemma {:induction false} ChunkEventText(c: seq<Word>, end: Time, style: Style, n: nat, k: nat)
    requires k < n <= |c|
    ensures |ChunkEvents(c, end, style, n)| == n
    ensures ChunkEvents(c, end, style, n)[k].text == style(Texts(c), k)
  {
    ChunkEventsTimes(c, end, style, n);
    if k < n - 1 {
      ChunkEventText(c, end, style, n - 1, k);
    }
  }

  /** Within the flattened words, the events of chunk `ci` start at their own word and end where the next word starts. */
  lemma ChunkEventsTiming(cs: seq<seq<Word>>, style: Style, ci: nat)
    requires NoEmptyChunk(cs) && ci < |cs|
    ensures Timed(ChunkEvents(cs[ci], ChunkEnd(cs, ci), style, |cs[ci]|), Flatten(cs), |Flatten(cs[..ci])|)
  {
    var c, end := cs[ci], ChunkEnd(cs, ci);
    var f := Flatten(cs);
    var off := |Flatten(cs[..ci])|;
    var ce := ChunkEvents(c, end, style, |c|);
    assert off + |c| <= |f| && forall k :: 0 <= k < |c| ==> c[k] == f[off + k] by {
      ChunkWordsAt(cs, ci);
    }
    assert end == NextStart(f, off + |c| - 1) by {
      ChunkEndIsNextStart(cs, ci);
    }
    assert |ce| == |c| && ce[|c| - 1].end == end &&
           (forall k :: 0 <= k < |c| ==> ce[k].start == c[k].start) &&
           (forall k :: 0 <= k < |c| - 1 ==> ce[k].end == c[k + 1].start) by {
      ChunkEventsTimes(c, end, style, |c|);
    }
    TimedAtOffset(ce, c, end, f, off);
  }

  /** Events timed by a chunk's own words and end are timed by the flattened words, at the chunk's offset. */
  lemma TimedAtOffset(ce: seq<Event>, c: seq<Word>, end: Time, f: seq<Word>, off: nat)
    requires |ce| == |c| && c != [] && off + |c| <= |f|
    requires forall k :: 0 <= k < |c| ==> c[k] == f[off + k]
    requires forall k :: 0 <= k < |c| ==> ce[k].start == c[k].start
    requires forall k :: 0 <= k < |c| - 1 ==> ce[k].end == c[k + 1].start
    requires ce[|c| - 1].end == end == NextStart(f, off + |c| - 1)
    ensures Timed(ce, f, off)
  {
    forall i | 0 <= i < |ce|
      ensures ce[i].start == f[off + i].start && ce[i].end == NextStart(f, off + i)
    {
      assert ce[i].start == c[i].start == f[off + i].start;
      if i < |c| - 1 {
        assert ce[i].end == c[i + 1].start == f[off + i + 1].start;
      }
    }
  }

  lemma ChunkWordsAt(cs: seq<seq<Word>>, ci: nat)
    requires ci < |cs|
    ensures |Flatten(cs[..ci])| + |cs[ci]| <= |Flatten(cs)|
    ensures forall i :: 0 <= i < |cs[ci]| ==> cs[ci][i] == Flatten(cs)[|Flatten(cs[..ci])| + i]
  {
    ChunkOffset(cs, ci);
  }

  /** A chunk ends where the word after its last word starts, or at the tail end of the very last word. */
  lemma ChunkEndIsNextStart(cs: seq<seq<Word>>, ci: nat)
    requires NoEmptyChunk(cs) && ci < |cs|
    ensures |Flatten(cs[..ci])| + |cs[ci]| <= |Flatten(cs)|
    ensures ChunkEnd(cs, ci) == NextStart(Flatten(cs), |Flatten(cs[..ci])| + |cs[ci]| - 1)
  {
    var c := cs[ci];
    var f := Flatten(cs);
    var off := |Flatten(cs[..ci])|;
    ChunkWordsAt(cs, ci);
    PrefixStep(cs, ci);
    FlattenSnoc(cs[..ci], c);
    if ci + 1 < |cs| {
      ChunkWordsAt(cs, ci + 1);
      assert cs[ci + 1][0] == f[off + |c|];
    } else {
      assert cs[..ci + 1] == cs;
    }
  }

  lemma {:induction false} EventsUpToTiming(cs: seq<seq<Word>>, style: Style, n: nat)
    requires NoEmptyChunk(cs) && n <= |cs|
    ensures |EventsUpTo(cs, style, n)| == |Flatten(cs[..n])|
    ensures Timed(EventsUpTo(cs, style, n), Flatten(cs), 0)
  {
    if n == 0 {
      assert cs[..0] == [];
    } else {
      var c := cs[n - 1];
      EventsUpToTiming(cs, style, n - 1);
      ChunkEventsTiming(cs, style, n - 1);
      ChunkEventsTimes(c, ChunkEnd(cs, n - 1), style, |c|);
      PrefixStep(cs, n - 1);
      FlattenSnoc(cs[..n - 1], c);
      TimedAppend(EventsUpTo(cs, style, n - 1), ChunkEvents(c, ChunkEnd(cs, n - 1), style, |c|), Flatten(cs), 0);
    }
  }

  /**
   * One event per word, in order: event `k` starts at word `k`'s start and
   * ends at word `k + 1`'s start, and the last event ends two seconds after
   * the last word's end (with the seconds/minutes carry).
   */
  lemma EventsTiming(words: seq<Word>)
    ensures |Events(words)| == |words|
    ensures forall k :: 0 <= k < |words| ==>
              Events(words)[k].start == words[k].start && Events(words)[k].end == NextStart(words, k)
  {
    var cs := Chunks(words);
    EventsUpToTiming(cs, StyledText, |cs|);
    assert cs[..|cs|] == cs;
  }

  /** Consecutive events meet: each ends exactly when the next begins, so no gap and no overlap. */
  lemma EventsBackToBack(words: seq<Word>)
    ensures forall k :: 0 <= k < |Events(words)| - 1 ==> Events(words)[k].end == Events(words)[k + 1].start
  {
    EventsTiming(words);
  }

  /** Word starts never decrease along the transcript. */
  predicate StartsOrdered(words: seq<Word>) {
    forall j, k :: 0 <= j <= k < |words| ==> Millis(words[j].start) <= Millis(words[k].start)
  }

  /**
   * When word starts never decrease and the last word ends no earlier than it
   * starts, no event ends before it starts and none outlasts the two-second
   * tail after the last word.
   */
  lemma EventsWithinTail(words: seq<Word>)
    requires words != [] && StartsOrdered(words)
    requires Millis(words[|words| - 1].start) <= Millis(words[|words| - 1].end)
    ensures forall k :: 0 <= k < |Events(words)| ==>
              Millis(Events(words)[k].start) <= Millis(Events(words)[k].end) <= Millis(words[|words| - 1].end) + 1000 * TailSeconds
  {
    var cs := Chunks(words);
    EventsUpToTiming(cs, StyledText, |cs|);
    assert cs[..|cs|] == cs;
    TimedWithinTail(Events(words), words);
  }

  lemma TimedWithinTail(es: seq<Event>, words: seq<Word>)
    requires words != [] && StartsOrdered(words)
    requires Millis(words[|words| - 1].start) <= Millis(words[|words| - 1].end)
    requires |es| == |words| && Timed(es, words, 0)
    ensures forall k :: 0 <= k < |es| ==>
              Millis(es[k].start) <= Millis(es[k].end) <= Millis(words[|words| - 1].end) + 1000 * TailSeconds
  {
    var last := |words| - 1;
    forall k | 0 <= k < |es|
      ensures Millis(es[k].start) <= Millis(es[k].end) <= Millis(words[last].end) + 1000 * TailSeconds
    {
      assert es[k].start == words[k].start && es[k].end == NextStart(words, k);
      if k < last {
        assert Millis(words[k + 1].start) <= Millis(words[last].start);
      }
    }
  }

  /** An empty transcript has no chunks and yields no dialogue lines. */
  lemma NoWordsNoLines()
    ensures Chunks([]) == []
    ensures DialogueLines(Events(WordsOf([]))) == []
  {
  }

  /**
   * Exactly one dialogue line per transcript cue, in cue order: line `k`
   * reads back as cue `k`'s start, the time its event ends and the event's
   * text.
   */
  lemma OneLinePerWord(items: seq<SrtItem>)
    ensures var words := WordsOf(items);
            var lines := DialogueLines(Events(words));
            |lines| == |items| &&
            forall k :: 0 <= k < |items| ==>
              ParseDialogue(lines[k]) == Some((TimestampToAss(items[k].start), TimestampToAss(NextStart(words, k)), Events(words)[k].text))
  {
    var words := WordsOf(items);
    var es := Events(words);
    EventsTiming(words);
    forall k | 0 <= k < |items|
      ensures ParseDialogue(DialogueLines(es)[k]) == Some((TimestampToAss(items[k].start), TimestampToAss(NextStart(words, k)), es[k].text))
    {
      assert es[k].start == items[k].start && es[k].end == NextStart(words, k);
      LineOfEvent(es, k);
    }
  }

  lemma LineOfEvent(es: seq<Event>, k: nat)
    requires k < |es|
    ensures |DialogueLines(es)| == |es|
    ensures ParseDialogue(DialogueLines(es)[k]) == Some((TimestampToAss(es[k].start), TimestampToAss(es[k].end), es[k].text))
  {
    assert DialogueLines(es)[k] == DialogueLine(es[k]);
  }

  // ---------------------------------------------------------------------------
  // Text of the events

  lemma {:induction false} EventsUpToPrefix(cs: seq<seq<Word>>, style: Style, m: nat, n: nat)
    requires NoEmptyChunk(cs) && m <= n <= |cs|
    ensures EventsUpTo(cs, style, m) <= EventsUpTo(cs, style, n)
    decreases n
  {
    if m < n {
      EventsUpToPrefix(cs, style, m, n - 1);
      PrefixExtend(EventsUpTo(cs, style, m), EventsUpTo(cs, style, n - 1), ChunkEvents(cs[n - 1], ChunkEnd(cs, n - 1), style, |cs[n - 1]|));
    }
  }

  /** Event `i` of chunk `ci` sits right after the events of the chunks before it and has the text `style` gives word `i` of that chunk. */
  lemma EventsUpToText(cs: seq<seq<Word>>, style: Style, ci: nat, i: nat)
    requires NoEmptyChunk(cs) && ci < |cs| && i < |cs[ci]|
    ensures var k := |Flatten(cs[..ci])| + i;
            k < |EventsUpTo(cs, style, |cs|)| && EventsUpTo(cs, style, |cs|)[k].text == style(Texts(cs[ci]), i)
  {
    var c := cs[ci];
    EventsUpToTiming(cs, style, ci);
    EventsUpToPrefix(cs, style, ci + 1, |cs|);
    ChunkEventText(c, ChunkEnd(cs, ci), style, |c|, i);
  }

  /**
   * Event `i` of chunk `ci` sits right after the events of the chunks before
   * it and shows that chunk's words with words `0..i` revealed.
   */
  lemma EventText(words: seq<Word>, ci: nat, i: nat)
    requires ci < |Chunks(words)| && i < |Chunks(words)[ci]|
    ensures var cs := Chunks(words);
            var k := |Flatten(cs[..ci])| + i;
            k < |Events(words)| && Events(words)[k].text == StyledText(Texts(cs[ci]), i)
  {
    EventsUpToText(Chunks(words), StyledText, ci, i);
  }

  /**
   * For non-empty single words, every event of a chunk of two or more words
   * is broken after half of the chunk's words: such a chunk fits the budget,
   * so the wrap pass keeps all of it on line 1 and the rebalance applies.
   */
  lemma EventMidpoint(words: seq<Word>, ci: nat, i: nat)
    requires ci < |Chunks(words)| && i < |Chunks(words)[ci]| && |Chunks(words)[ci]| >= 2
    requires forall k :: 0 <= k < |words| ==> words[k].text != [] && NoSpace(words[k].text)
    ensures var cs := Chunks(words);
            var toks := RevealTokens(Texts(cs[ci]), i);
            var n := |cs[ci]| / 2;
            var k := |Flatten(cs[..ci])| + i;
            k < |Events(words)| && n <= |toks| &&
            Events(words)[k].text == Join(" ", toks[..n]) + LineBreak + Join(" ", toks[n..])
  {
    var cs := Chunks(words);
    var texts := Texts(cs[ci]);
    EventText(words, ci, i);
    assert RunLength(texts) <= LineBudget && forall k :: 0 <= k < |texts| ==> texts[k] != [] && NoSpace(texts[k]) by {
      ChunkTextsPlain(words, ci);
    }
    StyledMidpoint(texts, i);
  }

  /** The chunks of words with non-empty, whitespace-free texts have such texts too, and a chunk of two or more words is within the budget. */
  lemma ChunkTextsPlain(words: seq<Word>, ci: nat)
    requires ci < |Chunks(words)|
    requires forall k :: 0 <= k < |words| ==> words[k].text != [] && NoSpace(words[k].text)
    ensures var c := Chunks(words)[ci];
            (|c| >= 2 ==> RunLength(Texts(c)) <= LineBudget) &&
            forall k :: 0 <= k < |c| ==> Texts(c)[k] != [] && NoSpace(Texts(c)[k])
  {
    var cs := Chunks(words);
    ChunkWordsAt(cs, ci);
    assert ChunkFits(cs[ci]);
  }

  // ---------------------------------------------------------------------------
  // Reading a dialogue line back


  /** Splits a dialogue line into its start field, end field and text, checking the fixed fields. */
  function ParseDialogue(line: string): Option<(string, string, string)> {
    if |line| < |DialoguePrefix| || line[..|DialoguePrefix|] != DialoguePrefix then None
    else match SplitFirst(line[|DialoguePrefix|..], ',')
      case None => None
      case Some((start, r1)) =>
        match SplitFirst(r1, ',')
        case None => None
        case Some((end, r2)) =>
          if |r2| < |DialogueStyle| || r2[..|DialogueStyle|] != DialogueStyle then None
          else Some((start, end, r2[|DialogueStyle|..]))
  }

  lemma DigitsNoComma(s: string)
    requires AllDigits(s)
    ensures ',' !in s
  {
    assert forall k :: 0 <= k < |s| ==> s[k] != ',';
  }

  /** An ASS timestamp is made of digits, ':' and '.', never a comma. */
  lemma NoCommaInTimestamp(t: Time)
    ensures ',' !in TimestampToAss(t)
  {
    DigitsNoComma(Decimal(t.hours));
    DigitsNoComma(ZeroPad(t.minutes, 2));
    DigitsNoComma(ZeroPad(t.seconds, 2));
    DigitsNoComma(ZeroPad(t.milliseconds / 10, 2));
    AssLayout(t);
  }

  /** A dialogue line built from two comma-free timestamps reads back as those timestamps and its text, whatever the text holds. */
  lemma DialogueOf(a: string, b: string, text: string)
    requires ',' !in a && ',' !in b
    ensures ParseDialogue(DialoguePrefix + a + "," + b + "," + DialogueStyle + text) == Some((a, b, text))
  {
    var tail := DialogueStyle + text;
    Reassociate(DialoguePrefix, a, b, DialogueStyle, text);
    var rest := a + [','] + (b + [','] + tail);
    PrefixAndRest(DialoguePrefix, rest);
    SplitFirstOf(a, ',', b + [','] + tail);
    SplitFirstOf(b, ',', tail);
    PrefixAndRest(DialogueStyle, text);
  }

  lemma Reassociate(p: string, a: string, b: string, d: string, t: string)
    ensures p + a + "," + b + "," + d + t == p + (a + [','] + (b + [','] + (d + t)))
  {
    AppendAssoc(p + a + "," + b + ",", d, t);
    AppendAssoc(p + a + "," + b, ",", d + t);
    AppendAssoc(p + a + ",", b, "," + (d + t));
    AppendAssoc(p + a, ",", b + ("," + (d + t)));
    AppendAssoc(p, a, "," + (b + ("," + (d + t))));
  }

  lemma PrefixAndRest(p: string, r: string)
    ensures (p + r)[..|p|] == p && (p + r)[|p|..] == r
  {
  }
}
