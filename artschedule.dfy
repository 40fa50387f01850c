/**
 * The image schedule of `gen_art`: the image prompt is cut into 17-character
 * snippets, the snippets are accumulated into a growing prefix, and from the
 * fourth snippet on every prefix is sent off as an image request whose
 * picture is saved as `fram_<index - 3>.png`. The image service, the thread
 * pool and the random seed generator are not modelled: the seed is a
 * parameter and a request is the record of what would be sent.
 */
module ArtSchedule {
  import opened PyText

  /** Characters per snippet. */
  const SnippetLength := 17

  /** Snippets accumulated before the first image is requested (`if index < 3: continue`). */
  const SkippedSnippets := 3

  function Min(a: int, b: int): int {
    if a <= b then a else b
  }

  /** `len(range(0, n, 17))`. */
  function SnippetCount(n: nat): nat {
    (n + SnippetLength - 1) / SnippetLength
  }

  /** Snippet `k` exists exactly when it starts inside the prompt. */
  lemma SnippetCountBound(n: nat, k: nat)
    ensures k < SnippetCount(n) <==> SnippetLength * k < n
  {
    var q := SnippetCount(n);
    assert SnippetLength * q <= n + SnippetLength - 1 < SnippetLength * q + SnippetLength;
  }

  /** Line 71: `[p[i:i+17] for i in range(0, len(p), 17)]`. */
  function Snippets(p: string): (r: seq<string>)
    ensures |r| == SnippetCount(|p|)
  {
    seq(SnippetCount(|p|), k requires 0 <= k < SnippetCount(|p|) =>
      SnippetCountBound(|p|, k);
      p[SnippetLength * k..Min(SnippetLength * k + SnippetLength, |p|)])
  }

  /** Every snippet holds between 1 and 17 characters, and all but the last hold exactly 17. */
  lemma SnippetSizes(p: string, k: nat)
    requires k < |Snippets(p)|
    ensures 0 < |Snippets(p)[k]| <= SnippetLength
    ensures k < |Snippets(p)| - 1 ==> |Snippets(p)[k]| == SnippetLength
  {
    SnippetCountBound(|p|, k);
    SnippetCountBound(|p|, k + 1);
  }

  /** The snippets glued back together, as `string += snippet` does. */
  function Concat(ss: seq<string>): string {
    if ss == [] then "" else Concat(ss[..|ss| - 1]) + ss[|ss| - 1]
  }

  /** The accumulated prompt after snippet `k`: the first `17 * (k + 1)` characters of the prompt, or all of it. */
  function Accumulated(p: string, k: nat): string {
    p[..Min(SnippetLength * (k + 1), |p|)]
  }

  /** Accumulating the first `k` snippets gives the prefix of length `17 * k` (or the whole prompt). */
  lemma {:induction false} ConcatSnippets(p: string, k: nat)
    requires k <= |Snippets(p)|
    ensures Concat(Snippets(p)[..k]) == p[..Min(SnippetLength * k, |p|)]
  {
    var ss := Snippets(p);
    if k > 0 {
      ConcatSnippets(p, k - 1);
      PrefixStep(ss, k - 1);
      SnippetCountBound(|p|, k - 1);
      var a, b := SnippetLength * (k - 1), Min(SnippetLength * k, |p|);
      assert ss[k - 1] == p[a..b];
      assert p[..a] + p[a..b] == p[..b];
    }
  }

  /** Cutting the prompt into snippets loses and adds nothing. */
  lemma SnippetsRoundTrip(p: string)
    ensures Concat(Snippets(p)) == p
  {
    var ss := Snippets(p);
    ConcatSnippets(p, |ss|);
    assert ss[..|ss|] == ss;
    SnippetCountBound(|p|, |ss|);
  }

  /** One image request: the snippet index it belongs to, the prompt sent and the seed shared by all requests. */
  datatype ImageTask = ImageTask(index: nat, prompt: string, seed: int)

  /** How many images a prompt of `n` snippets yields. */
  function TaskCount(n: nat): nat {
    if n > SkippedSnippets then n - SkippedSnippets else 0
  }

  /**
   * Lines 71-80: accumulate the snippets and submit one request per snippet
   * from index 3 on. Request `j` belongs to snippet `j + 3` and carries the
   * prompt's first `17 * (j + 4)` characters (or all of them).
   */
  method GenArtTasks(imagePrompt: string, seed: int) returns (tasks: seq<ImageTask>)
    ensures |tasks| == TaskCount(|Snippets(imagePrompt)|)
    ensures forall j :: 0 <= j < |tasks| ==>
              tasks[j] == ImageTask(j + SkippedSnippets, Accumulated(imagePrompt, j + SkippedSnippets), seed)
  {
    var snippets := Snippets(imagePrompt);
    var acc := "";
    tasks := [];
    for index := 0 to |snippets|
      invariant acc == Concat(snippets[..index])
      invariant |tasks| == TaskCount(index)
      invariant forall j :: 0 <= j < |tasks| ==>
                  tasks[j] == ImageTask(j + SkippedSnippets, Accumulated(imagePrompt, j + SkippedSnippets), seed)
    {
      PrefixStep(snippets, index);
      acc := acc + snippets[index];
      ConcatSnippets(imagePrompt, index + 1);
      if index < SkippedSnippets {
        continue;
      }
      tasks := tasks + [ImageTask(index, acc, seed)];
    }
  }

  /** The last request, when there is one, carries the whole prompt. */
  lemma LastTaskIsWholePrompt(p: string)
    requires |Snippets(p)| > SkippedSnippets
    ensures Accumulated(p, |Snippets(p)| - 1) == p
  {
    SnippetCountBound(|p|, |Snippets(p)|);
  }

  /** Each request's prompt extends the previous one's by exactly the next snippet. */
  lemma AccumulatedStep(p: string, k: nat)
    requires k + 1 < |Snippets(p)|
    ensures Accumulated(p, k + 1) == Accumulated(p, k) + Snippets(p)[k + 1]
  {
    SnippetCountBound(|p|, k + 1);
    var a, b := SnippetLength * (k + 1), Min(SnippetLength * (k + 2), |p|);
    assert p[..a] + p[a..b] == p[..b];
  }

  // ---------------------------------------------------------------------------
  // Frame files (line 60)

  /** `str(i)` for any integer. */
  function IntString(i: int): string {
    if i < 0 then "-" + Decimal(-i) else Decimal(i)
  }

  /**
   * Line 60: where the image of snippet `index` is saved. For a requested
   * snippet (index 3 on) the path is the directory, `/fram_`, a digit string
   * that reads back as `index - 3`, and `.png`.
   */
  function FramePath(directory: string, index: nat): (r: string)
    ensures index >= SkippedSnippets ==>
              |directory| + 10 < |r| &&
              r[..|directory| + 6] == directory + "/fram_" && r[|r| - 4..] == ".png" &&
              AllDigits(r[|directory| + 6..|r| - 4]) &&
              ParseDigits(r[|directory| + 6..|r| - 4]) == index - SkippedSnippets
  {
    var d := IntString(index - SkippedSnippets);
    var r := directory + "/fram_" + d + ".png";
    assert r[..|directory| + 6] == directory + "/fram_";
    assert r[|directory| + 6..|r| - 4] == d;
    assert r[|r| - 4..] == ".png";
    r
  }

  lemma DecimalInjective(a: nat, b: nat)
    requires Decimal(a) == Decimal(b)
    ensures a == b
  {
  }

  /** Different requests of the schedule never write the same file. */
  lemma FramePathsDistinct(directory: string, j1: nat, j2: nat)
    requires j1 != j2
    ensures FramePath(directory, j1 + SkippedSnippets) != FramePath(directory, j2 + SkippedSnippets)
  {
    var pre := directory + "/fram_";
    var d1, d2 := Decimal(j1), Decimal(j2);
    if pre + d1 + ".png" == pre + d2 + ".png" {
      var x, y := pre + d1 + ".png", pre + d2 + ".png";
      assert |d1| == |d2|;
      assert forall i :: 0 <= i < |d1| ==> d1[i] == x[|pre| + i] == y[|pre| + i] == d2[i];
      assert d1 == d2;
      DecimalInjective(j1, j2);
    }
  }
}
