# Caption-track compiler of a short-video generator

This Dafny project models the text-and-timing core of a pipeline that turns a
narrated story into a captioned vertical video. The main part is `srt_to_ass`
(`backend/SrtEdit.py`). It reads a word-level SubRip transcript, one cue per
spoken word, and writes an Advanced SubStation Alpha (ASS) track with
"TikTok-style" captions. It works in these steps:

- **Chunking.** The words are grouped greedily by a running length with a
  budget of 30 characters. A word's separating space is skipped only while
  the running length is 0, that is, for the empty texts at the start of a
  chunk and for the first non-empty word after them. An empty text later in
  a chunk still adds its space. When every word text is non-empty, a chunk
  of two or more words joins with single spaces into at most 30 characters.
  A chunk that starts with k empty texts can reach 30 + k characters
  (`ChunkJoinBound`). A single word longer than the budget forms a chunk of
  its own.
- **One event per word.** Each word of a chunk gets one `Dialogue` event. The
  event shows the chunk's words up to that word. Every later word is wrapped
  in the alpha override tags `{\alpha&HFF&}…{\alpha&H00&}`, which keep it
  present in the layout but invisible.
- **Two-line layout.** The line break is computed on the plain words. A "fits
  on line 1" pass is followed by a midpoint rebalance when everything fits.
  The break is then applied by word count to the styled words. When the two
  word counts differ, a character-based fallback break is used instead.
- **Timing.** An event runs from its word's start to the next word's start.
  The last word of a chunk runs to the next chunk's first start. The very
  last word runs to its own end plus two seconds, with an explicit
  seconds→minutes→hours carry.
- **Rendering.** Times are written by `timestamp_to_ass` as `H:MM:SS.CC`. The
  track is the fixed header followed by one `Dialogue` line per event.

Two smaller pieces of `backend/Images.py` are modelled as well:

- The SubRip writer in `transcribe`. It formats integer milliseconds as
  `HH:MM:SS,mmm` and numbers the cues from 1.
- The prompt schedule in `gen_art`. It cuts the prompt into 17-character
  snippets, accumulates them, and requests an image for every prefix from the
  fourth snippet on, saved as `fram_<k-3>.png`.

Modules (one file each, imported by name):

- `PyText` (`pytext.dfy`): the Python string operations the code relies on.
  - `str.isspace`, `strip()`, `split()`, `' '.join`;
  - `str(n)` and `f"{n:0w}"` formatting;
  - field splitting used to read formatted strings back;
  - sequence helpers.
- `AssTime` (`asstime.dfy`):
  - the time record `(hours, minutes, seconds, milliseconds)`;
  - `timestamp_to_ass` and its parser;
  - the tail extension with its carry.
- `LineWrap` (`linewrap.dfy`):
  - the running-length rule;
  - the fit pass (`FitWords`) and rebalance (`SplitLines`) as loops;
  - their reference functions;
  - the fallback break (`rfind`/`find` of a space).
- `Chunking` (`chunking.dfy`):
  - the greedy chunking loop (`ChunkWords`);
  - the rule it follows (`IsGreedyChunking`), with proofs that the rule has
    exactly one solution (`Chunks`).
- `Reveal` (`reveal.dfy`):
  - the reveal text of one event (`RevealText`);
  - its two-line layout (`StyleText`);
  - the reference functions `CompleteText` and `StyledText`.
- `Captions` (`captions.dfy`):
  - `srt_to_ass` as a method (`SrtToAss`) with its loops split into
    `ReadWords`, `EmitChunks`, `ChunkEndTime`, `ChunkLines` and
    `WriteTrack`;
  - the event specification `Events`;
  - the timing, text and `Dialogue`-line lemmas.
- `Transcript` (`transcript.dfy`): the cue writer of `transcribe`.
- `ArtSchedule` (`artschedule.dfy`): the snippet schedule of `gen_art`.

Times from the transcript are the record `Time`. The recogniser's word times
are natural numbers of milliseconds. Strings are `seq<char>`.

Inputs stand in for the outside world:

- the subtitle cues read from the `.srt` file (`SrtItem`);
- the recognised words (`TimedWord`);
- the image prompt;
- the random seed.

Results stand in for the outputs:

- the dialogue lines and the track text that would be written;
- the cue list and SRT text;
- the list of image requests.

Notes on the code's behaviour, as the model follows it:

- The fallback break takes the last space (the character `' '` only)
  strictly before the midpoint of the text. Failing that it takes the first
  space at or after the midpoint. Failing that it inserts `\N` at the
  midpoint (`Fallback`).
- The fallback is taken exactly when some word after the current one has
  empty text (`FallbackIffPendingEmpty`).
- Word texts are not checked. They may be empty or contain inner
  whitespace, and `split()` then yields a different number of tokens. The
  lemmas that need clean words say so in their `requires`.
- The tail carry is a single pass. Minutes are carried into hours only when
  the seconds overflowed. For in-range times this equals adding 2000 ms and
  normalising (`TailEnd`).
- Malformed input (an empty word, `end < start`, unordered times) is not
  rejected.
- The last event of a transcript ends 2000 ms after the last word's end.

## Model

| member | source | states |
|---|---|---|
| AssTime.TimestampToAss | backend/SrtEdit.py:7-14 | the timestamp read back at `:` and `.` gives the hours, minutes, seconds and milliseconds div 10, for every time |
| AssTime.AssTimestampWidth | backend/SrtEdit.py:7-14 | for in-range fields the timestamp has the `H:MM:SS.CC` layout: the hours written unpadded as `str(hours)` (no leading zero), a colon, then three two-digit fields separated by `:` and `.` that read back as the minutes, seconds and centiseconds; 9 characters after the hours |
| AssTime.TailEnd | backend/SrtEdit.py:109-122 | the extended end is exactly 2000 ms later, has seconds < 60, keeps the milliseconds, keeps minutes < 60, and for an in-range time equals the normalised time 2000 ms later |
| AssTime.FromMillis | backend/Images.py:129-130 | the field split of a millisecond count is in range and adds back up to the count |
| AssTime.NormalIsFromMillis | backend/SrtEdit.py:110-122 | an in-range time is the field split of its own millisecond count, so the carry agrees with normalisation |
| PyText.StripTrims | backend/SrtEdit.py:66 | `strip()` removes the leading and trailing whitespace and nothing else: the result agrees character for character with the slice after the leading whitespace, and only whitespace follows it; with `Strip`'s own ensures, it neither starts nor ends with whitespace |
| PyText.WordsAreFields | backend/SrtEdit.py:148 | `split()` is exactly the non-empty pieces between whitespace characters, in order: the maximal whitespace-free runs |
| PyText.WordsOfJoin | backend/SrtEdit.py:145-148 | splitting the single-space join of whitespace-free words gives back the non-empty words |
| PyText.ZeroPad | backend/SrtEdit.py:14 | `f"{n:02d}"` has width max(2, digits) and reads back as `n` |
| PyText.Decimal | backend/SrtEdit.py:14 | `str(n)` is non-empty, all digits, has no leading zero unless it is `0`, and reads back as `n` |
| Chunking.ChunkWords | backend/SrtEdit.py:71-88 | the chunking loop returns a chunking that follows the greedy rule: the chunks laid end to end are the words, every chunk is non-empty and within 30 unless it is a single word, and each chunk's successor's first word would have overflowed it; it equals `Chunks(words)` |
| Chunking.Chunks | backend/SrtEdit.py:71-88 | the reference chunking follows the greedy rule |
| Chunking.GreedyUnique | backend/SrtEdit.py:71-88 | two chunkings that follow the greedy rule are equal, so the rule alone fixes the chunks |
| Chunking.GreedyTail | backend/SrtEdit.py:76-84 | the first chunk is a prefix of the words and the other chunks are the greedy chunking of the rest |
| Chunking.ChunkJoinBound | backend/SrtEdit.py:76-84 | a greedy chunk of two or more words whose first e texts are empty and whose next is not joins into at most 30 + e characters |
| Chunking.MultiWordChunkFits | backend/SrtEdit.py:76-84 | for non-empty word texts, a chunk of two or more words joined by single spaces is at most 30 characters |
| LineWrap.JoinLengthWithLeadingEmpty | backend/SrtEdit.py:84 | with e empty texts before the first non-empty one, the single-space join is exactly e characters longer than the running length |
| LineWrap.RunLengthIsJoinLength | backend/SrtEdit.py:84 | for non-empty words the running length equals the length of their single-space join |
| LineWrap.FitWords | backend/SrtEdit.py:151-160 | the wrap loop returns the fitting words and the overflowing words as defined by `FitLine` and `Overflow` |
| LineWrap.FitOverflowPartition | backend/SrtEdit.py:155-160 | every plain word lands on exactly one of the two lines (as multisets and by count) |
| LineWrap.SplitLines | backend/SrtEdit.py:151-167 | line 1 holds `Line1Count` words and the two lines hold every plain word exactly once |
| LineWrap.FitLineAll | backend/SrtEdit.py:155-160 | when the whole list fits the budget, the wrap loop keeps all of it on line 1 |
| LineWrap.MidpointWhenAllFit | backend/SrtEdit.py:162-167 | n >= 2 words within the budget are broken after n div 2 words |
| LineWrap.SingleWordLine | backend/SrtEdit.py:155-167 | a single word stays on line 1 iff it is at most 30 characters |
| LineWrap.BothLinesNonEmpty | backend/SrtEdit.py:155-167 | with two or more words and the first within the budget, both lines get at least one word |
| LineWrap.LastSpaceBefore | backend/SrtEdit.py:183 | `rfind(' ', 0, end)`: the found index is a space with no space after it before `end`; none found means no space before `end` |
| LineWrap.FirstSpaceFrom | backend/SrtEdit.py:185 | `find(' ', start)`: the found index is the first space at or after `start`; none found means none there |
| LineWrap.Fallback | backend/SrtEdit.py:180-191 | with a space present, one space chosen by the rfind-then-find rule is replaced by `\N`; without one, `\N` is inserted at the character midpoint |
| Reveal.RevealText | backend/SrtEdit.py:132-141 | the `complete_text` loop yields `CompleteText`: the revealed and tag-wrapped tokens, each followed by a space, stripped |
| Reveal.StyleText | backend/SrtEdit.py:143-191 | the layout of one event equals `StyledText` |
| Reveal.CompleteTextIsJoin | backend/SrtEdit.py:132-141 | for non-empty whitespace-free words the complete text is words 0..i plain and later words tag-wrapped, joined by single spaces with no trailing space |
| Reveal.CompleteTextWords | backend/SrtEdit.py:141-170 | the styled words of an event are its non-empty tokens |
| Reveal.FallbackIffPendingEmpty | backend/SrtEdit.py:170-179 | for whitespace-free words the fallback is used iff some word after the current one is empty |
| Reveal.StyledTwoLines | backend/SrtEdit.py:145-178 | for non-empty whitespace-free words every event is the tokens split after `Line1Count` of the plain words, the same count in every reveal step |
| Reveal.StyledMidpoint | backend/SrtEdit.py:162-178 | a chunk of n >= 2 words within 30 characters is split after n div 2 tokens in every event |
| Reveal.StyledSingleWord | backend/SrtEdit.py:155-178 | a one-word chunk shows `w\N` when the word is at most 30 characters and `\Nw` otherwise |
| Captions.WordsOf | backend/SrtEdit.py:63-69 | one word per cue, in order, with the text stripped and the times kept |
| Captions.ReadWords | backend/SrtEdit.py:62-69 | the loop collecting the words yields `WordsOf(items)` |
| Captions.SrtToAss | backend/SrtEdit.py:62-210 | the dialogue lines are those of `Events` of the transcript's words, and the track is the header followed by every line plus a newline |
| Captions.EmitChunks | backend/SrtEdit.py:98-204 | the chunk loop emits the dialogue lines of the events of all chunks, in order |
| Captions.ChunkEndTime | backend/SrtEdit.py:105-124 | the chunk end is the next chunk's first start, or the last word's end with the tail extension and carry |
| Captions.ChunkLines | backend/SrtEdit.py:129-204 | the per-word loop of one chunk emits the dialogue lines of that chunk's events |
| Captions.WriteTrack | backend/SrtEdit.py:207-210 | the written text is the header, then each line followed by a newline |
| Captions.Events | backend/SrtEdit.py:98-204 | the whole transcript gives exactly one event per word |
| Captions.Track | backend/SrtEdit.py:206-210 | the written track has one dialogue line per cue: it is the header, then the lines joined by newlines with a final newline, or just the header when there are no cues |
| Captions.EventsTiming | backend/SrtEdit.py:103-200 | one event per word; event k starts at word k's start and ends at word k+1's start, or 2 s after the last word's end |
| Captions.EventsBackToBack | backend/SrtEdit.py:193-200 | consecutive events abut: each ends exactly when the next begins |
| Captions.EventsWithinTail | backend/SrtEdit.py:103-124 | with ordered word starts, no event ends before it starts and none ends after the last word's end plus 2 s |
| Captions.EventsUpToTiming | backend/SrtEdit.py:98-124 | the events of the first n chunks are timed by the first words of the flattened chunks |
| Captions.ChunkEventsTiming | backend/SrtEdit.py:193-200 | a chunk's events start at their words and end at the next word's start, also across the chunk boundary |
| Captions.EventText | backend/SrtEdit.py:129-141 | the event of word i of chunk ci sits right after the earlier chunks' events and shows that chunk with words 0..i revealed |
| Captions.EventMidpoint | backend/SrtEdit.py:155-178 | for clean words, every event of a multi-word chunk is split after half of the chunk's words |
| Captions.NoWordsNoLines | backend/SrtEdit.py:71-90 | an empty transcript gives no chunks and no dialogue lines |
| Captions.OneLinePerWord | backend/SrtEdit.py:130-204 | exactly one dialogue line per cue, in cue order; line k reads back as cue k's start, the time its event ends, and its text |
| Captions.DialogueLine | backend/SrtEdit.py:203 | a dialogue line reads back as `Dialogue: 0,`, its two timestamps, `Default,,0,0,0,,` and the text, whatever the text holds |
| Captions.NoCommaInTimestamp | backend/SrtEdit.py:203 | an ASS timestamp contains no comma, so the fields of a dialogue line stay separable |
| Transcript.SrtTimestamp | backend/Images.py:129-130 | `HH:MM:SS,mmm` reads back as four colon/comma separated numbers that are the hours, minutes, seconds and milliseconds of the count, and together give back exactly the count |
| Transcript.SrtTimestampWidth | backend/Images.py:129-130 | below 100 hours a cue timestamp has the `HH:MM:SS,mmm` layout: 12 characters, separators `:`, `:`, `,` at positions 2, 5 and 8, and four fixed-width digit fields that read back as the hours, minutes, seconds and milliseconds of the count |
| Transcript.TranscribeToSrt | backend/Images.py:127-134 | the loop builds one cue per word, numbered from 1 in order, and the content is the cues joined by newlines |
| Transcript.CueBlock | backend/Images.py:132 | a cue reads back as its number, its start, its end and its text, whatever the text holds |
| Transcript.CuesNumbered | backend/Images.py:128-132 | cue k carries the number k+1 and word k's times and text |
| ArtSchedule.Snippets | backend/Images.py:71 | there are ceil(len/17) snippets |
| ArtSchedule.SnippetSizes | backend/Images.py:71 | every snippet has 1 to 17 characters and all but the last have exactly 17 |
| ArtSchedule.SnippetsRoundTrip | backend/Images.py:71-76 | the snippets glued together give back the prompt |
| ArtSchedule.ConcatSnippets | backend/Images.py:75-76 | the first k snippets glued together are the prompt's prefix of length min(17k, len) |
| ArtSchedule.GenArtTasks | backend/Images.py:71-80 | max(0, n-3) requests; request j belongs to snippet j+3, carries the prompt's prefix of length min(17(j+4), len), and has the shared seed |
| ArtSchedule.AccumulatedStep | backend/Images.py:75-76 | each accumulated prompt extends the previous one by exactly the next snippet |
| ArtSchedule.LastTaskIsWholePrompt | backend/Images.py:75-80 | the last request, if any, carries the whole prompt |
| ArtSchedule.FramePath | backend/Images.py:60 | for a requested snippet the path is the directory, `/fram_`, a digit string that reads back as index-3, and `.png` |
| ArtSchedule.FramePathsDistinct | backend/Images.py:60 | different requests write different `fram_<j>.png` files |

## Left out

- File and process I/O is not modelled:
  - `pysrt.open`, the `.ass` path derivation and the file write (`backend/SrtEdit.py:21-32, 207-210`);
  - the SRT file write in `transcribe`;
  - the saving of downloaded images.

  The model returns what would be written.
- The absolute font path from `os.getcwd()` is not modelled (it is computed and never used). The header is a constant with the font name inlined.
- The success message, the `print` calls in `gen_art`, and the CLI `main` are not modelled.
- The unused `visible_length` helper and the unused `chunk_text` join are not modelled (`backend/SrtEdit.py:93-95, 100`).
- pysrt's own `SubRipTime` normalisation is not modelled; the explicit carry code is modelled instead. `TailEnd` proves the two agree for in-range times.
- The external services are not modelled: the speech recogniser, the image generator, the language model, text-to-speech, `requests` and the `moviepy` audio load. Their results are inputs: the recognised words, the prompt, and the seed from `random.randint`.
- The `ThreadPoolExecutor` in `gen_art` is not modelled. The requests are an ordered list, and their completion order is not modelled.
