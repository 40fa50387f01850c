/**
 * The handful of Python `str` operations the caption code depends on:
 * whitespace (`str.isspace`), `strip()`, argument-less `split()`, `join`,
 * decimal formatting with zero padding (`f"{n:02}"`), and the small parsers
 * used to read formatted timestamps back.
 */
module PyText {

  datatype Option<T> = None | Some(value: T)

  /** `c.isspace()`: the code points `str.split()` and `str.strip()` treat as whitespace. */
  predicate IsSpace(c: char) {
    || ('\t' <= c <= '\r')
    || ('\U{1C}' <= c <= ' ')
    || c == '\U{85}' || c == '\U{A0}' || c == '\U{1680}'
    || ('\U{2000}' <= c <= '\U{200A}')
    || c == '\U{2028}' || c == '\U{2029}' || c == '\U{202F}' || c == '\U{205F}' || c == '\U{3000}'
  }

  /** No whitespace anywhere in `s`. */
  predicate NoSpace(s: string) {
    forall i :: 0 <= i < |s| ==> !IsSpace(s[i])
  }

  // ---------------------------------------------------------------------------
  // strip()

  function StripLeft(s: string): (r: string)
    ensures |r| <= |s|
    ensures r == s[|s| - |r|..]
    ensures r == [] || !IsSpace(r[0])
    ensures forall i :: 0 <= i < |s| - |r| ==> IsSpace(s[i])
  {
    if s != [] && IsSpace(s[0]) then
      var r := StripLeft(s[1..]);
      assert s[1..][|s| - 1 - |r|..] == s[|s| - |r|..];
      r
    else s
  }

  function StripRight(s: string): (r: string)
    ensures |r| <= |s|
    ensures r == s[..|r|]
    ensures r == [] || !IsSpace(r[|r| - 1])
    ensures forall i :: |r| <= i < |s| ==> IsSpace(s[i])
  {
    if s != [] && IsSpace(s[|s| - 1]) then StripRight(s[..|s| - 1]) else s
  }

  /** `s.strip()`: the longest slice of `s` that neither starts nor ends with whitespace. */
  function Strip(s: string): (r: string)
    ensures r == [] || (!IsSpace(r[0]) && !IsSpace(r[|r| - 1]))
    ensures |r| <= |s|
    ensures s != [] && !IsSpace(s[0]) && !IsSpace(s[|s| - 1]) ==> r == s
  {
    StripRight(StripLeft(s))
  }

  /**
   * `s.strip()` removes whitespace at both ends and nothing else: the result
   * is, character for character, the slice of `s` after its `lead` leading
   * whitespace characters, and only whitespace follows that slice.
   */
  lemma StripTrims(s: string)
    ensures var r := Strip(s);
            var lead := |s| - |StripLeft(s)|;
            lead + |r| <= |s| &&
            (forall i :: 0 <= i < |r| ==> r[i] == s[lead + i]) &&
            (forall i :: 0 <= i < lead ==> IsSpace(s[i])) &&
            (forall i :: lead + |r| <= i < |s| ==> IsSpace(s[i]))
  {
    var l := StripLeft(s);
    SliceOfSlice(s, l, StripRight(l), |s| - |l|);
  }

  /** `r`, a prefix of the suffix `l` of `s` whose rest is whitespace, agrees with `s` from `lead` on, and only whitespace follows it. */
  lemma SliceOfSlice(s: string, l: string, r: string, lead: nat)
    requires lead + |l| == |s| && l == s[lead..]
    requires |r| <= |l| && r == l[..|r|]
    requires forall i :: |r| <= i < |l| ==> IsSpace(l[i])
    ensures lead + |r| <= |s|
    ensures forall i :: 0 <= i < |r| ==> r[i] == s[lead + i]
    ensures forall i :: lead + |r| <= i < |s| ==> IsSpace(s[i])
  {
    forall i | lead + |r| <= i < |s|
      ensures IsSpace(s[i])
    {
      assert s[i] == l[i - lead];
    }
  }

  /** Stripping `x + " "` gives back `x` when `x` neither starts nor ends with whitespace. */
  lemma StripSpaceSuffix(x: string)
    requires x != [] && !IsSpace(x[0]) && !IsSpace(x[|x| - 1])
    ensures Strip(x + " ") == x
  {
    assert (x + " ")[..|x|] == x;
  }

  // ---------------------------------------------------------------------------
  // split() with no argument

  /** The maximal whitespace-free prefix of `s`. */
  function Token(s: string): (r: string)
    ensures |r| <= |s|
    ensures r == s[..|r|] && NoSpace(r)
    ensures |r| < |s| ==> IsSpace(s[|r|])
  {
    if s == [] || IsSpace(s[0]) then [] else [s[0]] + Token(s[1..])
  }

  /** `s.split()`: the maximal runs of non-whitespace, in order. */
  function Words(s: string): (r: seq<string>)
    ensures forall k :: 0 <= k < |r| ==> r[k] != [] && NoSpace(r[k])
    decreases |s|
  {
    if s == [] then []
    else if IsSpace(s[0]) then Words(s[1..])
    else
      var t := Token(s);
      [t] + Words(s[|t|..])
  }

  /** The non-empty elements of `ts`, in order. */
  function NonEmpty(ts: seq<string>): (r: seq<string>)
    ensures |r| <= |ts|
  {
    if ts == [] then [] else (if ts[0] == [] then [] else [ts[0]]) + NonEmpty(ts[1..])
  }

  // ---------------------------------------------------------------------------
  // sep.join(ts) and "accumulate with +=" concatenations

  /** `sep.join(ts)`. */
  function Join(sep: string, ts: seq<string>): string {
    if |ts| == 0 then ""
    else if |ts| == 1 then ts[0]
    else Join(sep, ts[..|ts| - 1]) + sep + ts[|ts| - 1]
  }

  /** Every element followed by `t`, as built by a loop doing `acc += x + t`. */
  function Terminated(ts: seq<string>, t: string): string {
    if ts == [] then "" else Terminated(ts[..|ts| - 1], t) + ts[|ts| - 1] + t
  }

  // ---------------------------------------------------------------------------
  // Decimal formatting: str(n) and f"{n:0w}"

  predicate IsDigit(c: char) { '0' <= c <= '9' }

  predicate AllDigits(s: string) {
    forall i :: 0 <= i < |s| ==> IsDigit(s[i])
  }

  function DigitChar(d: nat): (c: char)
    requires d < 10
    ensures IsDigit(c) && c as int - '0' as int == d
  {
    ('0' as int + d) as char
  }

  /** The value of a string of decimal digits (leading zeros allowed). */
  function ParseDigits(s: string): nat
    requires AllDigits(s)
  {
    if s == [] then 0 else 10 * ParseDigits(s[..|s| - 1]) + (s[|s| - 1] as int - '0' as int)
  }

  /** `str(n)` for a non-negative integer: no leading zero unless `n` is 0, and reading it back gives `n`. */
  function Decimal(n: nat): (r: string)
    ensures r != [] && AllDigits(r)
    ensures r == "0" || r[0] != '0'
    ensures ParseDigits(r) == n
  {
    if n < 10 then [DigitChar(n)]
    else
      var r := Decimal(n / 10) + [DigitChar(n % 10)];
      assert r[..|r| - 1] == Decimal(n / 10);
      r
  }

  function Zeros(k: nat): (r: string)
    ensures |r| == k && AllDigits(r)
    ensures forall i :: 0 <= i < k ==> r[i] == '0'
  {
    seq(k, _ => '0')
  }

  /** `f"{n:0{width}}"`: `str(n)` left-padded with zeros to at least `width` characters. */
  function ZeroPad(n: nat, width: nat): (r: string)
    ensures |r| == if |Decimal(n)| < width then width else |Decimal(n)|
    ensures AllDigits(r) && ParseDigits(r) == n
  {
    var d := Decimal(n);
    if |d| >= width then d
    else
      LeadingZeros(width - |d|, d);
      Zeros(width - |d|) + d
  }

  lemma {:induction false} LeadingZeros(k: nat, d: string)
    requires AllDigits(d)
    ensures AllDigits(Zeros(k) + d) && ParseDigits(Zeros(k) + d) == ParseDigits(d)
    decreases |d|
  {
    var s := Zeros(k) + d;
    if d == [] {
      AllZerosParse(k);
      assert s == Zeros(k);
    } else {
      LeadingZeros(k, d[..|d| - 1]);
      assert s[..|s| - 1] == Zeros(k) + d[..|d| - 1];
    }
  }

  lemma {:induction false} AllZerosParse(k: nat)
    ensures ParseDigits(Zeros(k)) == 0
  {
    if k > 0 {
      AllZerosParse(k - 1);
      assert Zeros(k)[..k - 1] == Zeros(k - 1);
    }
  }

  function Pow10(w: nat): nat {
    if w == 0 then 1 else 10 * Pow10(w - 1)
  }

  /** A number below 10^w has at most w decimal digits. */
  lemma {:induction false} DecimalWidth(n: nat, w: nat)
    requires 1 <= w && n < Pow10(w)
    ensures |Decimal(n)| <= w
  {
    if n >= 10 {
      DecimalWidth(n / 10, w - 1);
    }
  }

  // ---------------------------------------------------------------------------
  // Splitting a formatted string back into its fields

  predicate Avoids(s: string, seps: set<char>) {
    forall i :: 0 <= i < |s| ==> s[i] !in seps
  }

  /** The pieces of `s` between separator characters (`re.split` on a character class). */
  function Fields(s: string, seps: set<char>): (r: seq<string>)
    ensures |r| >= 1
  {
    if s == [] then [[]]
    else
      var rest := Fields(s[1..], seps);
      if s[0] in seps then [[]] + rest else [[s[0]] + rest[0]] + rest[1..]
  }

  lemma {:induction false} FieldsOfPlain(a: string, seps: set<char>)
    requires Avoids(a, seps)
    ensures Fields(a, seps) == [a]
  {
    if a != [] {
      FieldsOfPlain(a[1..], seps);
      assert [a[0]] + a[1..] == a;
    }
  }

  lemma {:induction false} FieldsOfSeparated(a: string, c: char, b: string, seps: set<char>)
    requires Avoids(a, seps) && c in seps
    ensures Fields(a + [c] + b, seps) == [a] + Fields(b, seps)
  {
    if a == [] {
      assert (a + [c] + b)[1..] == b;
    } else {
      FieldsOfSeparated(a[1..], c, b, seps);
      assert (a + [c] + b)[1..] == a[1..] + [c] + b;
      assert [a[0]] + a[1..] == a;
    }
  }

  /** Four separator-free pieces joined by three separators split back into those four pieces. */
  lemma FieldsOfFour(a: string, b: string, c: string, d: string, x: char, y: char, z: char, seps: set<char>)
    requires Avoids(a, seps) && Avoids(b, seps) && Avoids(c, seps) && Avoids(d, seps)
    requires x in seps && y in seps && z in seps
    ensures Fields(a + [x] + b + [y] + c + [z] + d, seps) == [a, b, c, d]
  {
    assert a + [x] + b + [y] + c + [z] + d == a + [x] + (b + [y] + (c + [z] + d)) by {
      AppendAssoc(a + [x] + b + [y], c + [z], d);
      AppendAssoc(a + [x] + b + [y], c, [z]);
      AppendAssoc(a + [x] + b, [y], c + [z] + d);
      AppendAssoc(a + [x], b, [y] + (c + [z] + d));
      AppendAssoc(b, [y], c + [z] + d);
      AppendAssoc(a, [x], b + [y] + (c + [z] + d));
    }
    FieldsOfSeparated(a, x, b + [y] + (c + [z] + d), seps);
    FieldsOfSeparated(b, y, c + [z] + d, seps);
    FieldsOfSeparated(c, z, d, seps);
    FieldsOfPlain(d, seps);
  }

  /** A separator-free prefix joins the first field of what follows it. */
  lemma {:induction false} FieldsOfPrefix(a: string, b: string, seps: set<char>)
    requires Avoids(a, seps)
    ensures Fields(a + b, seps) == [a + Fields(b, seps)[0]] + Fields(b, seps)[1..]
  {
    var f := Fields(b, seps);
    if a == [] {
      assert a + b == b && a + f[0] == f[0];
      assert f == [f[0]] + f[1..];
    } else {
      FieldsOfPrefix(a[1..], b, seps);
      assert (a + b)[1..] == a[1..] + b;
      assert [a[0]] + (a[1..] + Fields(b, seps)[0]) == a + Fields(b, seps)[0];
    }
  }


  /** Splits `s` at the first occurrence of `c`, if any (`s.partition(c)`). */
  function SplitFirst(s: string, c: char): Option<(string, string)> {
    if s == [] then None
    else if s[0] == c then Some(([], s[1..]))
    else match SplitFirst(s[1..], c)
      case None => None
      case Some(p) => Some(([s[0]] + p.0, p.1))
  }

  lemma {:induction false} SplitFirstOf(a: string, c: char, b: string)
    requires c !in a
    ensures SplitFirst(a + [c] + b, c) == Some((a, b))
  {
    if a == [] {
      assert (a + [c] + b)[1..] == b;
    } else {
      SplitFirstOf(a[1..], c, b);
      assert (a + [c] + b)[1..] == a[1..] + [c] + b;
      assert [a[0]] + a[1..] == a;
    }
  }

  // ---------------------------------------------------------------------------
  // Facts about split(), strip() and join()

  /** `[f(x) for x in s]`. */
  function Map<A, B>(f: A -> B, s: seq<A>): (r: seq<B>)
    ensures |r| == |s|
  {
    seq(|s|, k requires 0 <= k < |s| => f(s[k]))
  }

  lemma MapAppend<A, B>(f: A -> B, a: seq<A>, b: seq<A>)
    ensures Map(f, a + b) == Map(f, a) + Map(f, b)
  {
  }

  lemma MapSnoc<A, B>(f: A -> B, s: seq<A>, x: A)
    ensures Map(f, s + [x]) == Map(f, s) + [f(x)]
  {
    MapAppend(f, s, [x]);
  }

  /** The four pieces of `a x b y c z d` sit at fixed offsets, with the separators between them. */
  lemma FourPieces<T>(a: seq<T>, b: seq<T>, c: seq<T>, d: seq<T>, x: T, y: T, z: T)
    ensures var s, i, j, k := a + [x] + (b + [y] + (c + [z] + d)), |a|, |a| + 1 + |b|, |a| + 2 + |b| + |c|;
            |s| == k + 1 + |d| && s[..i] == a && s[i] == x && s[i + 1..j] == b && s[j] == y &&
            s[j + 1..k] == c && s[k] == z && s[k + 1..] == d
  {
    var u := c + [z] + d;
    var t := b + [y] + u;
    var s, i := a + [x] + t, |a|;
    Around(a, x, t);
    Around(b, y, u);
    Around(c, z, d);
    var j, k := i + 1 + |b|, i + 2 + |b| + |c|;
    Within(s, i + 1, j);
    Within(s, j + 1, k);
    Within(s, j + 1, |s|);
    Within(s, i + 1, |s|);
    Beyond(s, i + 1, j + 1);
    Beyond(s, j + 1, k + 1);
  }

  /** `a`, then `x`, then `t`. */
  lemma Around<T>(a: seq<T>, x: T, t: seq<T>)
    ensures var s := a + [x] + t;
            |s| == |a| + 1 + |t| && s[..|a|] == a && s[|a|] == x && s[|a| + 1..] == t
  {
    var s := a + [x] + t;
    assert s[|a| + 1..] == t;
  }

  /** A prefix of a suffix is a slice. */
  lemma Within<T>(s: seq<T>, p: nat, q: nat)
    requires p <= q <= |s|
    ensures s[p..][..q - p] == s[p..q]
    ensures p < q ==> s[p..][0] == s[p]
  {
  }

  /** A suffix of a suffix is a suffix. */
  lemma Beyond<T>(s: seq<T>, p: nat, q: nat)
    requires p <= q <= |s|
    ensures s[p..][q - p..] == s[q..]
  {
  }

  lemma AppendAssoc<T>(a: seq<T>, b: seq<T>, c: seq<T>)
    ensures (a + b) + c == a + (b + c)
  {
  }

  lemma PrefixExtend<T>(a: seq<T>, b: seq<T>, x: seq<T>)
    requires a <= b
    ensures a <= b + x
  {
    assert forall k :: 0 <= k < |a| ==> (b + x)[k] == b[k];
  }

  lemma PrefixStep<T>(s: seq<T>, j: nat)
    requires j < |s|
    ensures s[..j + 1] == s[..j] + [s[j]]
    ensures s[..j + 1][..j] == s[..j]
  {
  }

  lemma PrefixOfPrefix<T>(s: seq<T>, j: nat, k: nat)
    requires k <= j <= |s|
    ensures s[..j][..k] == s[..k]
  {
  }

  lemma SplitAt<T>(s: seq<T>, m: nat)
    requires m <= |s|
    ensures s == s[..m] + s[m..]
  {
  }

  /** Each loop step adds one element and its terminator. */
  lemma TerminatedStep(ts: seq<string>, j: nat, t: string)
    requires j < |ts|
    ensures Terminated(ts[..j + 1], t) == Terminated(ts[..j], t) + ts[j] + t
  {
    PrefixStep(ts, j);
  }

  /** Filtering counts the two halves of a split separately. */
  lemma NonEmptyLength(ts: seq<string>, m: nat)
    requires m <= |ts|
    ensures |NonEmpty(ts)| == |NonEmpty(ts[..m])| + |NonEmpty(ts[m..])|
  {
    SplitAt(ts, m);
    NonEmptyAppend(ts[..m], ts[m..]);
  }

  /** A non-empty sequence is its prefix followed by its last element. */
  lemma LastSplit<T>(s: seq<T>)
    requires |s| > 0
    ensures s == s[..|s| - 1] + [s[|s| - 1]]
    ensures multiset(s) == multiset(s[..|s| - 1]) + multiset{s[|s| - 1]}
  {
  }

  lemma JoinCons(sep: string, ts: seq<string>)
    requires |ts| >= 2
    ensures Join(sep, ts) == ts[0] + sep + Join(sep, ts[1..])
    decreases |ts|
  {
    if |ts| > 2 {
      JoinCons(sep, ts[..|ts| - 1]);
      assert ts[..|ts| - 1][1..] == ts[1..][..|ts[1..]| - 1];
      assert ts[..|ts| - 1][0] == ts[0];
    } else {
      assert ts[..1] == [ts[0]];
      assert ts[1..] == [ts[1]];
    }
  }

  lemma JoinAppend(sep: string, ts: seq<string>, t: string)
    requires |ts| >= 1
    ensures Join(sep, ts + [t]) == Join(sep, ts) + sep + t
  {
    assert (ts + [t])[..|ts|] == ts;
  }

  /** Accumulating `x + t` for every element is the join by `t` plus one trailing `t`. */
  lemma {:induction false} TerminatedIsJoin(ts: seq<string>, t: string)
    requires |ts| >= 1
    ensures Terminated(ts, t) == Join(t, ts) + t
    decreases |ts|
  {
    if |ts| > 1 {
      TerminatedIsJoin(ts[..|ts| - 1], t);
    } else {
      assert ts[..0] == [];
    }
  }

  lemma {:induction false} TokenOfPlain(a: string, b: string)
    requires NoSpace(a)
    requires b == [] || IsSpace(b[0])
    ensures Token(a + b) == a
  {
    if a != [] {
      TokenOfPlain(a[1..], b);
      assert (a + b)[1..] == a[1..] + b;
    }
  }

  lemma WordsSpaceCons(c: char, s: string)
    requires IsSpace(c)
    ensures Words([c] + s) == Words(s)
  {
    assert ([c] + s)[1..] == s;
  }

  /** Splitting a join by single spaces gives back the non-empty elements. */
  lemma {:induction false} WordsOfJoin(ts: seq<string>)
    requires forall k :: 0 <= k < |ts| ==> NoSpace(ts[k])
    ensures Words(Join(" ", ts)) == NonEmpty(ts)
    decreases |ts|
  {
    if |ts| == 0 {
    } else if |ts| == 1 {
      WordsOfPlain(ts[0]);
      assert ts[1..] == [];
    } else {
      var rest := Join(" ", ts[1..]);
      JoinCons(" ", ts);
      WordsOfJoin(ts[1..]);
      WordsOfSpaced(ts[0], rest);
      assert ts == [ts[0]] + ts[1..];
    }
  }

  lemma WordsOfSpaced(t: string, rest: string)
    requires NoSpace(t)
    ensures Words(t + " " + rest) == (if t == [] then [] else [t]) + Words(rest)
  {
    var s := t + " " + rest;
    if t == [] {
      assert s == [' '] + rest;
      WordsSpaceCons(' ', rest);
    } else {
      TokenOfPlain(t, " " + rest);
      assert s == t + (" " + rest);
      assert s[|t|..] == [' '] + rest;
      WordsSpaceCons(' ', rest);
    }
  }

  lemma WordsOfPlain(t: string)
    requires NoSpace(t)
    ensures Words(t) == if t == [] then [] else [t]
  {
    if t != [] {
      TokenOfPlain(t, []);
      assert t + [] == t;
      assert t[|t|..] == [];
    }
  }

  lemma {:induction false} WordsStripLeft(s: string)
    ensures Words(StripLeft(s)) == Words(s)
    decreases |s|
  {
    if s != [] && IsSpace(s[0]) {
      WordsStripLeft(s[1..]);
    }
  }

  lemma {:induction false} WordsSpaceSnoc(s: string, c: char)
    requires IsSpace(c)
    ensures Words(s + [c]) == Words(s)
    decreases |s|
  {
    var x := s + [c];
    if s == [] {
      assert x[1..] == [];
    } else if IsSpace(s[0]) {
      assert x[1..] == s[1..] + [c];
      WordsSpaceSnoc(s[1..], c);
    } else {
      var t := Token(s);
      if |t| == |s| {
        assert t == s;
        TokenOfPlain(s, [c]);
        assert x[|s|..] == [c];
        assert [c][1..] == [];
        assert s[|t|..] == [];
      } else {
        TokenOfPlain(t, s[|t|..] + [c]);
        assert x == t + (s[|t|..] + [c]);
        TokenOfPlain(t, s[|t|..]);
        assert s == t + s[|t|..];
        assert x[|t|..] == s[|t|..] + [c];
        WordsSpaceSnoc(s[|t|..], c);
      }
    }
  }

  lemma {:induction false} WordsStripRight(s: string)
    ensures Words(StripRight(s)) == Words(s)
    decreases |s|
  {
    if s != [] && IsSpace(s[|s| - 1]) {
      var p, c := s[..|s| - 1], s[|s| - 1];
      WordsStripRight(p);
      assert Words(s) == Words(p) by {
        assert p + [c] == s;
        WordsSpaceSnoc(p, c);
      }
    }
  }

  /** `s.strip().split() == s.split()`. */
  lemma WordsStrip(s: string)
    ensures Words(Strip(s)) == Words(s)
  {
    WordsStripLeft(s);
    WordsStripRight(StripLeft(s));
  }
  /** The characters `str.isspace` accepts, as a set. */
  const Whitespace: set<char> := {
    '\t', '\n', '\U{B}', '\U{C}', '\r', '\U{1C}', '\U{1D}', '\U{1E}', '\U{1F}', ' ',
    '\U{85}', '\U{A0}', '\U{1680}',
    '\U{2000}', '\U{2001}', '\U{2002}', '\U{2003}', '\U{2004}', '\U{2005}',
    '\U{2006}', '\U{2007}', '\U{2008}', '\U{2009}', '\U{200A}',
    '\U{2028}', '\U{2029}', '\U{202F}', '\U{205F}', '\U{3000}'
  }

  lemma InWhitespace(c: char)
    ensures c in Whitespace <==> IsSpace(c)
  {
  }

  /**
   * `s.split()` is exactly the non-empty pieces of `s` between whitespace
   * characters, in order: the maximal whitespace-free runs of `s`.
   */
  lemma {:induction false} WordsAreFields(s: string)
    ensures Words(s) == NonEmpty(Fields(s, Whitespace))
    decreases |s|
  {
    if s == [] {
    } else if IsSpace(s[0]) {
      WordsAreFields(s[1..]);
      FieldsOfSpace(s);
    } else {
      WordsAreFields(s[|Token(s)|..]);
      FieldsOfToken(s);
    }
  }

  lemma FieldsOfSpace(s: string)
    requires s != [] && IsSpace(s[0])
    ensures NonEmpty(Fields(s, Whitespace)) == NonEmpty(Fields(s[1..], Whitespace))
  {
    InWhitespace(s[0]);
    var f := Fields(s[1..], Whitespace);
    assert Fields(s, Whitespace) == [[]] + f;
    assert ([[]] + f)[1..] == f;
  }

  /** A leading token is the first field, and what follows it starts a new field. */
  lemma FieldsOfToken(s: string)
    requires s != [] && !IsSpace(s[0])
    ensures NonEmpty(Fields(s, Whitespace)) == [Token(s)] + NonEmpty(Fields(s[|Token(s)|..], Whitespace))
  {
    var t := Token(s);
    var rest := s[|t|..];
    var f := Fields(rest, Whitespace);
    assert t != [] by {
      assert Token(s) == [s[0]] + Token(s[1..]);
    }
    assert Avoids(t, Whitespace) by {
      forall i | 0 <= i < |t| ensures t[i] !in Whitespace {
        InWhitespace(t[i]);
      }
    }
    assert f[0] == [] by {
      if rest != [] {
        InWhitespace(rest[0]);
      }
    }
    assert Fields(s, Whitespace) == [t] + f[1..] by {
      assert t + rest == s;
      FieldsOfPrefix(t, rest, Whitespace);
      assert t + f[0] == t;
    }
    assert NonEmpty([t] + f[1..]) == [t] + NonEmpty(f[1..]) by {
      assert ([t] + f[1..])[1..] == f[1..];
    }
    assert NonEmpty(f) == NonEmpty(f[1..]) by {
      assert f == [f[0]] + f[1..];
    }
  }



  lemma {:induction false} NonEmptyAppend(a: seq<string>, b: seq<string>)
    ensures NonEmpty(a + b) == NonEmpty(a) + NonEmpty(b)
  {
    if a == [] {
      assert a + b == b;
    } else {
      NonEmptyAppend(a[1..], b);
      TailOfAppend(a, b);
      var head := if a[0] == [] then [] else [a[0]];
      AppendAssoc(head, NonEmpty(a[1..]), NonEmpty(b));
    }
  }

  lemma TailOfAppend<T>(a: seq<T>, b: seq<T>)
    requires a != []
    ensures (a + b)[0] == a[0] && (a + b)[1..] == a[1..] + b
  {
  }

  /** Filtering drops something exactly when some element is empty. */
  lemma {:induction false} NonEmptyFull(ts: seq<string>)
    ensures |NonEmpty(ts)| == |ts| <==> forall k :: 0 <= k < |ts| ==> ts[k] != []
  {
    if ts != [] {
      NonEmptyFull(ts[1..]);
      if ts[0] != [] {
        assert forall k :: 1 <= k < |ts| ==> ts[k] == ts[1..][k - 1];
      }
    }
  }

  lemma NonEmptyId(ts: seq<string>)
    requires forall k :: 0 <= k < |ts| ==> ts[k] != []
    ensures NonEmpty(ts) == ts
    decreases |ts|
  {
    if ts != [] {
      NonEmptyId(ts[1..]);
      assert [ts[0]] + ts[1..] == ts;
    }
  }

  /** A single-space join of whitespace-free, non-empty pieces starts with the first piece's first character and ends with the last piece's last character. */
  lemma {:induction false} JoinEnds(ts: seq<string>)
    requires |ts| >= 1
    requires forall k :: 0 <= k < |ts| ==> ts[k] != []
    ensures var j := Join(" ", ts); |j| >= 1 && j[0] == ts[0][0] && j[|j| - 1] == ts[|ts| - 1][|ts[|ts| - 1]| - 1]
    decreases |ts|
  {
    if |ts| > 1 {
      JoinEnds(ts[..|ts| - 1]);
    }
  }
}
