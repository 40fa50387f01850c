/**
 * Caption time values: the (hours, minutes, seconds, milliseconds) record a
 * SubRip time carries, its rendering as an Advanced SubStation Alpha
 * timestamp `H:MM:SS.CC` (`timestamp_to_ass`), and the two-second tail
 * extension with its explicit seconds/minutes carry.
 */
module AssTime {
  import opened PyText

  datatype Time = Time(hours: nat, minutes: nat, seconds: nat, milliseconds: nat)

  /** Seconds added after the last word of the final chunk. */
  const TailSeconds := 2

  /** The total number of milliseconds a time stands for. */
  function Millis(t: Time): nat {
    3600000 * t.hours + 60000 * t.minutes + 1000 * t.seconds + t.milliseconds
  }

  /** Every field below its unit's rollover point (hours are unbounded). */
  predicate Normal(t: Time) {
    t.minutes < 60 && t.seconds < 60 && t.milliseconds < 1000
  }

  /** Splits a millisecond count into fields: `t // 3600000`, `(t % 3600000) // 60000`, `(t % 60000) // 1000`, `t % 1000`. */
  function FromMillis(n: nat): (t: Time)
    ensures Normal(t) && Millis(t) == n
  {
    var h, r := n / 3600000, n % 3600000;
    assert n == 3600000 * h + r;
    assert r % 60000 == n % 60000 by { ModOfMod(n, 60, 60000); }
    assert (n % 60000) % 1000 == n % 1000 by { ModOfMod(n, 60, 1000); }
    Time(h, r / 60000, (n % 60000) / 1000, n % 1000)
  }

  lemma ModOfMod(n: nat, k: nat, d: nat)
    requires k > 0 && d > 0
    ensures (n % (k * d)) % d == n % d
  {
    var q := n / (k * d);
    var r := n % (k * d);
    assert n == (q * k) * d + r;
    var q2, r2 := r / d, r % d;
    assert n == (q * k + q2) * d + r2;
    DivModUnique(n, d, q * k + q2, r2);
  }

  lemma DivModUnique(n: int, d: int, q: int, r: int)
    requires d > 0 && 0 <= r < d && n == q * d + r
    ensures n / d == q && n % d == r
  {
    var q', r' := n / d, n % d;
    assert (q - q') * d == r' - r;
    if q' < q {
      MulAtLeast(q - q', d);
    } else if q' > q {
      MulAtLeast(q' - q, d);
    }
  }

  lemma MulAtLeast(x: int, d: int)
    requires x >= 1 && d > 0
    ensures x * d >= d
  {
    assert x * d == (x - 1) * d + d;
  }

  /** A normal time is exactly the field split of its own millisecond count. */
  lemma NormalIsFromMillis(t: Time)
    requires Normal(t)
    ensures FromMillis(Millis(t)) == t
  {
    var n := Millis(t);
    var low := 60000 * t.minutes + 1000 * t.seconds + t.milliseconds;
    DivModUnique(n, 3600000, t.hours, low);
    var sub := 1000 * t.seconds + t.milliseconds;
    DivModUnique(low, 60000, t.minutes, sub);
    DivModUnique(n, 60000, 60 * t.hours + t.minutes, sub);
    DivModUnique(sub, 1000, t.seconds, t.milliseconds);
    DivModUnique(n, 1000, 3600 * t.hours + 60 * t.minutes + t.seconds, t.milliseconds);
  }

  /**
   * The end of the final chunk: the last word's end with two seconds added to
   * its seconds field, then the seconds carried into minutes and, only when
   * that carry happened, the minutes carried into hours.
   */
  function TailEnd(t: Time): (e: Time)
    ensures Millis(e) == Millis(t) + 1000 * TailSeconds
    ensures e.seconds < 60 && e.milliseconds == t.milliseconds
    ensures t.minutes < 60 ==> e.minutes < 60
    ensures Normal(t) ==> Normal(e) && e == FromMillis(Millis(t) + 1000 * TailSeconds)
  {
    var s := t.seconds + TailSeconds;
    var e :=
      if s >= 60 then
        var m := t.minutes + s / 60;
        if m >= 60 then Time(t.hours + m / 60, m % 60, s % 60, t.milliseconds)
        else Time(t.hours, m, s % 60, t.milliseconds)
      else Time(t.hours, t.minutes, s, t.milliseconds);
    if Normal(t) then NormalIsFromMillis(e); e else e
  }

  /**
   * `timestamp_to_ass`: hours unpadded, minutes and seconds two digits,
   * centiseconds (milliseconds truncated to hundredths) two digits. Read back
   * at ':' and '.', it gives the hours, minutes, seconds and centiseconds.
   */
  function TimestampToAss(t: Time): (r: string)
    ensures ParseAss(r) == Some((t.hours, t.minutes, t.seconds, t.milliseconds / 10))
  {
    var a, b, c, d := Decimal(t.hours), ZeroPad(t.minutes, 2), ZeroPad(t.seconds, 2), ZeroPad(t.milliseconds / 10, 2);
    AssFieldsOf(a, b, c, d);
    a + ":" + b + ":" + c + "." + d
  }

  /** Reads an `H:MM:SS.CC` timestamp back into its four numbers. */
  function ParseAss(s: string): Option<(nat, nat, nat, nat)> {
    var f := Fields(s, {':', '.'});
    if |f| == 4 && AllDigits(f[0]) && AllDigits(f[1]) && AllDigits(f[2]) && AllDigits(f[3])
       && f[0] != [] && f[1] != [] && f[2] != [] && f[3] != []
    then Some((ParseDigits(f[0]), ParseDigits(f[1]), ParseDigits(f[2]), ParseDigits(f[3])))
    else None
  }

  lemma DigitsAvoid(s: string, seps: set<char>)
    requires AllDigits(s)
    requires forall c | c in seps :: !IsDigit(c)
    ensures Avoids(s, seps)
  {
  }

  /** Four digit strings joined as `a:b:c.d` read back as their four values. */
  lemma AssFieldsOf(a: string, b: string, c: string, d: string)
    requires a != [] && b != [] && c != [] && d != []
    requires AllDigits(a) && AllDigits(b) && AllDigits(c) && AllDigits(d)
    ensures ParseAss(a + ":" + b + ":" + c + "." + d) == Some((ParseDigits(a), ParseDigits(b), ParseDigits(c), ParseDigits(d)))
  {
    var seps := {':', '.'};
    var s := a + ":" + b + ":" + c + "." + d;
    assert Fields(s, seps) == [a, b, c, d] by {
      DigitsAvoid(a, seps);
      DigitsAvoid(b, seps);
      DigitsAvoid(c, seps);
      DigitsAvoid(d, seps);
      FieldsOfFour(a, b, c, d, ':', ':', '.', seps);
    }
    ParseAssOf(s, [a, b, c, d]);
  }

  lemma ParseAssOf(s: string, f: seq<string>)
    requires |f| == 4 && Fields(s, {':', '.'}) == f
    requires f[0] != [] && f[1] != [] && f[2] != [] && f[3] != []
    requires AllDigits(f[0]) && AllDigits(f[1]) && AllDigits(f[2]) && AllDigits(f[3])
    ensures ParseAss(s) == Some((ParseDigits(f[0]), ParseDigits(f[1]), ParseDigits(f[2]), ParseDigits(f[3])))
  {
  }

  lemma AssLayout(t: Time)
    ensures TimestampToAss(t) ==
      Decimal(t.hours) + [':'] + (ZeroPad(t.minutes, 2) + [':'] + (ZeroPad(t.seconds, 2) + ['.'] + ZeroPad(t.milliseconds / 10, 2)))
  {
    var x, y := Decimal(t.hours) + [':'], ZeroPad(t.minutes, 2) + [':'];
    var c, d := ZeroPad(t.seconds, 2), ZeroPad(t.milliseconds / 10, 2);
    AppendAssoc(x, ZeroPad(t.minutes, 2), [':']);
    AppendAssoc(x, y, c);
    AppendAssoc(x, y + c, ['.']);
    AppendAssoc(x, (y + c) + ['.'], d);
    AppendAssoc(y, c, ['.']);
    AppendAssoc(y, c + ['.'], d);
  }

  /**
   * `r` is `H:MM:SS.CC` with hours written as `h`: a colon after `h`, then
   * three two-digit fields separated by `:` and `.` that read back as `m`,
   * `s` and `cs`.
   */
  predicate AssShaped(r: string, h: string, m: nat, s: nat, cs: nat) {
    var n := |h|;
    |r| == n + 9 && r[..n + 1] == h + ":" && r[n + 3] == ':' && r[n + 6] == '.' &&
    AllDigits(r[n + 1..n + 3]) && ParseDigits(r[n + 1..n + 3]) == m &&
    AllDigits(r[n + 4..n + 6]) && ParseDigits(r[n + 4..n + 6]) == s &&
    AllDigits(r[n + 7..]) && ParseDigits(r[n + 7..]) == cs
  }

  /**
   * For a normal time the minute, second and centisecond fields are exactly
   * two digits each: `H:MM:SS.CC`, the hours written unpadded as `str(hours)`.
   */
  lemma AssTimestampWidth(t: Time)
    requires Normal(t)
    ensures AssShaped(TimestampToAss(t), Decimal(t.hours), t.minutes, t.seconds, t.milliseconds / 10)
  {
    AssLayout(t);
    DecimalWidth(t.minutes, 2);
    DecimalWidth(t.seconds, 2);
    DecimalWidth(t.milliseconds / 10, 2);
    AssShapeOf(TimestampToAss(t), Decimal(t.hours), ZeroPad(t.minutes, 2), ZeroPad(t.seconds, 2), ZeroPad(t.milliseconds / 10, 2));
  }

  /** Two-digit fields laid out as `h:b:c.d` give a string of that shape. */
  lemma AssShapeOf(r: string, h: string, b: string, c: string, d: string)
    requires r == h + [':'] + (b + [':'] + (c + ['.'] + d))
    requires |b| == 2 && |c| == 2 && |d| == 2 && AllDigits(b) && AllDigits(c) && AllDigits(d)
    ensures AssShaped(r, h, ParseDigits(b), ParseDigits(c), ParseDigits(d))
  {
    FourPieces(h, b, c, d, ':', ':', '.');
    assert r[..|h| + 1] == r[..|h|] + [':'];
  }
}
