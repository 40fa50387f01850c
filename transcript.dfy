/**
 * The SubRip transcript written by `transcribe`: each recognised word, with
 * its start and end in integer milliseconds, becomes one numbered cue
 * `i\nHH:MM:SS,mmm --> HH:MM:SS,mmm\ntext\n`, and the cues are joined with
 * newlines. The speech recogniser itself is not modelled: its word list is
 * the input.
 */
module Transcript {
  import opened PyText
  import opened AssTime

  /** A recognised word: its text and its start and end in milliseconds. */
  datatype TimedWord = TimedWord(text: string, start: nat, end: nat)

  /**
   * Lines 129-130: `HH:MM:SS,mmm` with hours, minutes and seconds padded to
   * two digits and milliseconds to three. Read back, its four numbers are the
   * field split of `t`, and together they give back exactly `t`.
   */
  function SrtTimestamp(t: nat): (r: string)
    ensures ParseSrtFields(r) == Some((t / 3600000, (t % 3600000) / 60000, (t % 60000) / 1000, t % 1000))
    ensures ParseSrtTimestamp(r) == Some(t)
  {
    var a, b, c, d := ZeroPad(t / 3600000, 2), ZeroPad((t % 3600000) / 60000, 2), ZeroPad((t % 60000) / 1000, 2), ZeroPad(t % 1000, 3);
    var r := a + ":" + b + ":" + c + "," + d;
    SrtFieldsOf(a, b, c, d);
    ParseSrtOfFields(r, t);
    r
  }

  /** The four numbers of a cue timestamp are the field split `FromMillis` of the millisecond count. */
  lemma SrtFields(t: nat)
    ensures FromMillis(t) == Time(t / 3600000, (t % 3600000) / 60000, (t % 60000) / 1000, t % 1000)
  {
  }

  /** Reads the four numbers of an `HH:MM:SS,mmm` timestamp. */
  function ParseSrtFields(s: string): Option<(nat, nat, nat, nat)> {
    var f := Fields(s, {':', ','});
    if |f| == 4 && AllDigits(f[0]) && AllDigits(f[1]) && AllDigits(f[2]) && AllDigits(f[3])
       && f[0] != [] && f[1] != [] && f[2] != [] && f[3] != []
    then Some((ParseDigits(f[0]), ParseDigits(f[1]), ParseDigits(f[2]), ParseDigits(f[3])))
    else None
  }

  /** Reads an `HH:MM:SS,mmm` timestamp back into milliseconds. */
  function ParseSrtTimestamp(s: string): Option<nat> {
    match ParseSrtFields(s)
    case None => None
    case Some((h, m, sec, f)) => Some(3600000 * h + 60000 * m + 1000 * sec + f)
  }

  lemma SrtLayout(t: nat)
    ensures var a, b, c, d := ZeroPad(t / 3600000, 2), ZeroPad((t % 3600000) / 60000, 2), ZeroPad((t % 60000) / 1000, 2), ZeroPad(t % 1000, 3);
            SrtTimestamp(t) == a + [':'] + (b + [':'] + (c + [','] + d))
  {
    var a, b, c, d := ZeroPad(t / 3600000, 2), ZeroPad((t % 3600000) / 60000, 2), ZeroPad((t % 60000) / 1000, 2), ZeroPad(t % 1000, 3);
    var x, y := a + [':'], b + [':'];
    AppendAssoc(x, b, [':']);
    AppendAssoc(x, y, c);
    AppendAssoc(x, y + c, [',']);
    AppendAssoc(x, (y + c) + [','], d);
    AppendAssoc(y, c, [',']);
    AppendAssoc(y, c + [','], d);
  }

  /** A text whose four numbers are the field split of `t` reads back as `t`. */
  lemma ParseSrtOfFields(s: string, t: nat)
    requires ParseSrtFields(s) == Some((t / 3600000, (t % 3600000) / 60000, (t % 60000) / 1000, t % 1000))
    ensures ParseSrtTimestamp(s) == Some(t)
  {
    SrtFields(t);
  }

  /** Four digit strings joined as `a:b:c,d` read back as their four values. */
  lemma SrtFieldsOf(a: string, b: string, c: string, d: string)
    requires a != [] && b != [] && c != [] && d != []
    requires AllDigits(a) && AllDigits(b) && AllDigits(c) && AllDigits(d)
    ensures ParseSrtFields(a + ":" + b + ":" + c + "," + d) == Some((ParseDigits(a), ParseDigits(b), ParseDigits(c), ParseDigits(d)))
  {
    var seps := {':', ','};
    var s := a + ":" + b + ":" + c + "," + d;
    assert Fields(s, seps) == [a, b, c, d] by {
      DigitsAvoid(a, seps);
      DigitsAvoid(b, seps);
      DigitsAvoid(c, seps);
      DigitsAvoid(d, seps);
      FieldsOfFour(a, b, c, d, ':', ':', ',', seps);
    }
    ParseSrtFieldsOf(s, [a, b, c, d]);
  }

  lemma ParseSrtFieldsOf(s: string, f: seq<string>)
    requires |f| == 4 && Fields(s, {':', ','}) == f
    requires f[0] != [] && f[1] != [] && f[2] != [] && f[3] != []
    requires AllDigits(f[0]) && AllDigits(f[1]) && AllDigits(f[2]) && AllDigits(f[3])
    ensures ParseSrtFields(s) == Some((ParseDigits(f[0]), ParseDigits(f[1]), ParseDigits(f[2]), ParseDigits(f[3])))
  {
  }

  /**
   * `r` is `HH:MM:SS,mmm`: twelve characters, separators at 2, 5 and 8, and
   * four fixed-width digit fields that read back as `h`, `m`, `s` and `f`.
   */
  predicate SrtShaped(r: string, h: nat, m: nat, s: nat, f: nat) {
    |r| == 12 && r[2] == ':' && r[5] == ':' && r[8] == ',' &&
    AllDigits(r[..2]) && ParseDigits(r[..2]) == h &&
    AllDigits(r[3..5]) && ParseDigits(r[3..5]) == m &&
    AllDigits(r[6..8]) && ParseDigits(r[6..8]) == s &&
    AllDigits(r[9..]) && ParseDigits(r[9..]) == f
  }

  /** Below 100 hours a cue timestamp is exactly `HH:MM:SS,mmm`, each field holding its part of `t`. */
  lemma SrtTimestampWidth(t: nat)
    requires t < 100 * 3600000
    ensures SrtShaped(SrtTimestamp(t), t / 3600000, (t % 3600000) / 60000, (t % 60000) / 1000, t % 1000)
  {
    SrtLayout(t);
    SrtFields(t);
    DecimalWidth(t / 3600000, 2);
    DecimalWidth((t % 3600000) / 60000, 2);
    DecimalWidth((t % 60000) / 1000, 2);
    DecimalWidth(t % 1000, 3);
    SrtShapeOf(SrtTimestamp(t), ZeroPad(t / 3600000, 2), ZeroPad((t % 3600000) / 60000, 2), ZeroPad((t % 60000) / 1000, 2), ZeroPad(t % 1000, 3));
  }

  /** Fixed-width digit fields laid out as `a:b:c,d` give a string of that shape. */
  lemma SrtShapeOf(r: string, a: string, b: string, c: string, d: string)
    requires r == a + [':'] + (b + [':'] + (c + [','] + d))
    requires |a| == 2 && |b| == 2 && |c| == 2 && |d| == 3
    requires AllDigits(a) && AllDigits(b) && AllDigits(c) && AllDigits(d)
    ensures SrtShaped(r, ParseDigits(a), ParseDigits(b), ParseDigits(c), ParseDigits(d))
  {
    FourPieces(a, b, c, d, ':', ':', ',');
  }

  /** A cue timestamp holds only digits, ':' and ','. */
  lemma SrtTimestampChars(t: nat)
    ensures forall i :: 0 <= i < |SrtTimestamp(t)| ==>
              IsDigit(SrtTimestamp(t)[i]) || SrtTimestamp(t)[i] == ':' || SrtTimestamp(t)[i] == ','
  {
    SrtLayout(t);
  }

  /**
   * Line 132: the number, the time line and the text, each followed by a
   * newline. The cue reads back as its number, its two times and its text,
   * whatever the text holds.
   */
  function CueBlock(i: nat, w: TimedWord): (r: string)
    ensures ParseCue(r) == Some((i, w.start, w.end, w.text))
  {
    var s, e := SrtTimestamp(w.start), SrtTimestamp(w.end);
    NotInTimestamp(w.start, '\n');
    NotInTimestamp(w.end, '\n');
    NotInTimestamp(w.start, ' ');
    ParseCueOf(Decimal(i), s, e, w.text, w.start, w.end);
    Decimal(i) + "\n" + s + " --> " + e + "\n" + w.text + "\n"
  }

  /** `[f(i, x) for i, x in enumerate(s, 1)]`. */
  function Numbered<T>(f: (nat, T) -> string, s: seq<T>): (r: seq<string>)
    ensures |r| == |s|
  {
    seq(|s|, k requires 0 <= k < |s| => f(k + 1, s[k]))
  }

  lemma NumberedSnoc<T>(f: (nat, T) -> string, s: seq<T>, k: nat)
    requires k < |s|
    ensures Numbered(f, s[..k + 1]) == Numbered(f, s[..k]) + [f(k + 1, s[k])]
  {
  }

  lemma NumberedAt<T>(f: (nat, T) -> string, s: seq<T>, k: nat)
    requires k < |s|
    ensures Numbered(f, s)[k] == f(k + 1, s[k])
  {
  }

  /** The cues of a word list, numbered from 1 in word order. */
  function Cues(words: seq<TimedWord>): (cues: seq<string>)
    ensures |cues| == |words|
  {
    Numbered(CueBlock, words)
  }

  /** Lines 127-134: one cue per word, numbered from 1, joined with newlines. */
  method TranscribeToSrt(words: seq<TimedWord>) returns (srtLines: seq<string>, srtContent: string)
    ensures srtLines == Cues(words)
    ensures srtContent == Join("\n", srtLines)
  {
    srtLines := [];
    for k := 0 to |words|
      invariant srtLines == Numbered(CueBlock, words[..k])
    {
      var startTime := SrtTimestamp(words[k].start);
      var endTime := SrtTimestamp(words[k].end);
      NumberedSnoc(CueBlock, words, k);
      srtLines := srtLines + [Decimal(k + 1) + "\n" + startTime + " --> " + endTime + "\n" + words[k].text + "\n"];
    }
    assert words[..|words|] == words;
    srtContent := Join("\n", srtLines);
  }

  // ---------------------------------------------------------------------------
  // Reading a cue back

  const Arrow := "--> "

  /** Splits a time line `<start> --> <end>` into its two times. */
  function ParseTimeLine(line: string): Option<(nat, nat)> {
    match SplitFirst(line, ' ')
    case None => None
    case Some((a, rest)) =>
      if |rest| < |Arrow| || rest[..|Arrow|] != Arrow then None
      else match (ParseSrtTimestamp(a), ParseSrtTimestamp(rest[|Arrow|..]))
        case (Some(start), Some(end)) => Some((start, end))
        case _ => None
  }

  /** Splits a cue into its number, start, end and text; the text is everything between the time line and the final newline. */
  function ParseCue(block: string): Option<(nat, nat, nat, string)> {
    match SplitFirst(block, '\n')
    case None => None
    case Some((num, r1)) =>
      if num == [] || !AllDigits(num) then None
      else match SplitFirst(r1, '\n')
        case None => None
        case Some((times, text)) =>
          match ParseTimeLine(times)
          case None => None
          case Some((start, end)) =>
            if text == [] || text[|text| - 1] != '\n' then None
            else Some((ParseDigits(num), start, end, text[..|text| - 1]))
  }

  lemma CueLayout(d: string, s: string, e: string, t: string)
    ensures d + "\n" + s + " --> " + e + "\n" + t + "\n" == d + ['\n'] + ((s + [' '] + (Arrow + e)) + ['\n'] + (t + "\n"))
  {
    var x := s + [' '] + (Arrow + e);
    assert s + " --> " + e == x by {
      assert " --> " == [' '] + Arrow;
      AppendAssoc(s, [' '], Arrow);
      AppendAssoc(s + [' '], Arrow, e);
    }
    AppendAssoc(d + "\n", s + " --> ", e);
    AppendAssoc(d + "\n", x, "\n");
    AppendAssoc(d + "\n", x + "\n", t);
    AppendAssoc(d + "\n", x + "\n" + t, "\n");
    AppendAssoc(x + "\n", t, "\n");
    AppendAssoc(x, "\n", t + "\n");
    AppendAssoc(d, "\n", x + "\n" + (t + "\n"));
  }

  lemma NotInTimestamp(t: nat, c: char)
    requires !IsDigit(c) && c != ':' && c != ','
    ensures c !in SrtTimestamp(t)
  {
    SrtTimestampChars(t);
  }

  /** A cue made of a number, two timestamps free of newlines (the first also free of spaces) and any text reads back into those parts. */
  lemma ParseCueOf(d: string, s: string, e: string, text: string, start: nat, end: nat)
    requires d != [] && AllDigits(d)
    requires '\n' !in s && ' ' !in s && '\n' !in e
    requires ParseSrtTimestamp(s) == Some(start) && ParseSrtTimestamp(e) == Some(end)
    ensures ParseCue(d + "\n" + s + " --> " + e + "\n" + text + "\n") == Some((ParseDigits(d), start, end, text))
  {
    var times := s + [' '] + (Arrow + e);
    var tail := text + "\n";
    var rest := times + ['\n'] + tail;
    assert d + "\n" + s + " --> " + e + "\n" + text + "\n" == d + ['\n'] + rest by {
      CueLayout(d, s, e, text);
    }
    assert SplitFirst(d + ['\n'] + rest, '\n') == Some((d, rest)) by {
      assert '\n' !in d;
      SplitFirstOf(d, '\n', rest);
    }
    assert SplitFirst(rest, '\n') == Some((times, tail)) by {
      assert '\n' !in Arrow;
      SplitFirstOf(times, '\n', tail);
    }
    assert ParseTimeLine(times) == Some((start, end)) by {
      TimeLineOf(s, e, start, end);
    }
    assert tail[..|tail| - 1] == text;
  }

  lemma TimeLineOf(s: string, e: string, start: nat, end: nat)
    requires ' ' !in s
    requires ParseSrtTimestamp(s) == Some(start) && ParseSrtTimestamp(e) == Some(end)
    ensures ParseTimeLine(s + [' '] + (Arrow + e)) == Some((start, end))
  {
    SplitFirstOf(s, ' ', Arrow + e);
    assert (Arrow + e)[..|Arrow|] == Arrow && (Arrow + e)[|Arrow|..] == e;
  }

  /** Cue `k` of a transcript carries the number `k + 1` and word `k`'s times and text. */
  lemma CuesNumbered(words: seq<TimedWord>, k: nat)
    requires k < |words|
    ensures ParseCue(Cues(words)[k]) == Some((k + 1, words[k].start, words[k].end, words[k].text))
  {
    NumberedAt(CueBlock, words, k);
  }
}
