/**
 * `secondsToTimeSpan` of the shared `common` package: a number of seconds
 * broken down into days, hours, minutes and seconds and written as
 * "1d 2h 50min 30sec", leaving out every unit whose count is not positive.
 *
 * The argument is an integer number of seconds; `Math.floor` of a quotient
 * by a positive divisor is Dafny's `/` on `int`.
 */
module Date {
  import opened Js

  const SecondsPerDay := 24 * 60 * 60
  const SecondsPerHour := 60 * 60
  const SecondsPerMinute := 60

  /** The four counts, largest unit first. */
  datatype TimeSpan = TimeSpan(days: int, hours: int, minutes: int, seconds: int)

  /**
   * The floor-division breakdown: the counts add back up to `total`, and
   * every count below days is within its unit's range, even for a negative
   * `total`.
   */
  function Breakdown(total: int): (t: TimeSpan)
    ensures t.days * SecondsPerDay + t.hours * SecondsPerHour + t.minutes * SecondsPerMinute + t.seconds == total
    ensures 0 <= t.hours < 24 && 0 <= t.minutes < 60 && 0 <= t.seconds < 60
  {
    var rest := total % SecondsPerDay;
    TimeSpan(total / SecondsPerDay, rest / SecondsPerHour, rest % SecondsPerHour / SecondsPerMinute, rest % SecondsPerMinute)
  }

  /** Those two facts determine the breakdown: no other counts satisfy them. */
  lemma BreakdownUnique(total: int, t: TimeSpan)
    requires t.days * SecondsPerDay + t.hours * SecondsPerHour + t.minutes * SecondsPerMinute + t.seconds == total
    requires 0 <= t.hours < 24 && 0 <= t.minutes < 60 && 0 <= t.seconds < 60
    ensures t == Breakdown(total)
  {
    var b := Breakdown(total);
    var r := t.hours * SecondsPerHour + t.minutes * SecondsPerMinute + t.seconds;
    var rb := b.hours * SecondsPerHour + b.minutes * SecondsPerMinute + b.seconds;
    assert 0 <= r < SecondsPerDay && 0 <= rb < SecondsPerDay;
    assert (t.days - b.days) * SecondsPerDay == rb - r;
    assert t.days == b.days;
    assert t.hours == b.hours;
    assert t.minutes == b.minutes;
  }

  /** `${count}${unit}` when the count is positive, otherwise "". */
  function Display(count: int, unit: string): string {
    if count > 0 then NatToString(count) + unit else ""
  }

  /** The word a count contributes: none when its count is not positive. */
  function Unit(count: int, unit: string): seq<string> {
    if count > 0 then [NatToString(count) + unit] else []
  }

  /** The words of `t`: one per positive count, days, hours, minutes, seconds in that order. */
  function Units(t: TimeSpan): seq<string> {
    Unit(t.days, "d") + Unit(t.hours, "h") + Unit(t.minutes, "min") + Unit(t.seconds, "sec")
  }

  // ----- Words and single-space joining, the reference for the final string expression -----

  /** The longest prefix of `s` without white space. */
  function LeadingWord(s: string): (w: string)
    ensures |w| <= |s| && w == s[..|w|] && NoWhitespace(w)
    ensures |w| < |s| ==> IsWhitespace(s[|w|])
  {
    if s == [] || IsWhitespace(s[0]) then [] else [s[0]] + LeadingWord(s[1..])
  }

  /** The maximal runs of non-white-space characters of `s`, in order. */
  function Words(s: string): seq<string>
    decreases |s|
  {
    if s == [] then []
    else if IsWhitespace(s[0]) then Words(s[1..])
    else
      var w := LeadingWord(s);
      [w] + Words(s[|w|..])
  }

  /** `parts` joined with one space between consecutive parts. */
  function JoinSpaces(parts: seq<string>): string {
    if parts == [] then ""
    else if |parts| == 1 then parts[0]
    else parts[0] + " " + JoinSpaces(parts[1..])
  }

  /** Each part is a word: non-empty and free of white space. */
  predicate AllWords(parts: seq<string>) {
    forall i :: 0 <= i < |parts| ==> parts[i] != "" && NoWhitespace(parts[i])
  }

  /** What `secondsToTimeSpan` returns for the breakdown `t`. */
  function Render(t: TimeSpan): string {
    JoinSpaces(Units(t))
  }

  /**
   * `secondsToTimeSpan`: `amount` loses the whole days, then the whole
   * hours, then the whole minutes; the displays are put into the template
   * "d h m s", which is trimmed and has its white-space runs collapsed.
   */
  method SecondsToTimeSpan(seconds: int) returns (span: string)
    ensures span == Render(Breakdown(seconds))
  {
    var amount := seconds;
    var d := amount / SecondsPerDay;
    FloorStep(amount, SecondsPerDay, 1);
    amount := amount - d * SecondsPerDay;
    var h := amount / SecondsPerHour;
    FloorStep(amount, SecondsPerHour, 24);
    amount := amount - h * SecondsPerHour;
    var m := amount / SecondsPerMinute;
    FloorStep(amount, SecondsPerMinute, 60);
    amount := amount - m * SecondsPerMinute;
    var s := amount;
    BreakdownUnique(seconds, TimeSpan(d, h, m, s));

    var dDisplay := if d > 0 then NatToString(d) + "d" else "";
    var hDisplay := if h > 0 then NatToString(h) + "h" else "";
    var mDisplay := if m > 0 then NatToString(m) + "min" else "";
    var sDisplay := if s > 0 then NatToString(s) + "sec" else "";

    span := CollapseWhitespace(Trim(dDisplay + " " + hDisplay + " " + mDisplay + " " + sDisplay));
    TemplateWords(TimeSpan(d, h, m, s));
  }

  /**
   * `Math.floor(amount / unit)` whole units leave between 0 and `unit - 1`;
   * when `amount` is below `n` units, fewer than `n` units fit.
   */
  lemma FloorStep(amount: int, unit: int, n: int)
    requires unit > 0 && n > 0
    ensures 0 <= amount - amount / unit * unit < unit
    ensures 0 <= amount < n * unit ==> 0 <= amount / unit < n
  {
  }

  // ----- Proof that trimming and collapsing the template gives the joined words -----

  /** A display never holds white space. */
  lemma DisplayNoWhitespace(count: int, unit: string)
    requires NoWhitespace(unit)
    ensures NoWhitespace(Display(count, unit))
    ensures Words(Display(count, unit)) == Unit(count, unit)
  {
    var s := Display(count, unit);
    if count > 0 {
      assert s == NatToString(count) + unit;
      forall i | 0 <= i < |s| ensures !IsWhitespace(s[i]) {
        if i >= |NatToString(count)| {
          assert s[i] == unit[i - |NatToString(count)|];
        }
      }
    }
    WordsOfWord(s);
  }

  /** The template string of `t` trims and collapses to its words joined by single spaces. */
  lemma TemplateWords(t: TimeSpan)
    ensures CollapseWhitespace(Trim(Display(t.days, "d") + " " + Display(t.hours, "h") + " "
      + Display(t.minutes, "min") + " " + Display(t.seconds, "sec"))) == Render(t)
  {
    var a, b, c, e := Display(t.days, "d"), Display(t.hours, "h"), Display(t.minutes, "min"), Display(t.seconds, "sec");
    DisplayNoWhitespace(t.days, "d");
    DisplayNoWhitespace(t.hours, "h");
    DisplayNoWhitespace(t.minutes, "min");
    DisplayNoWhitespace(t.seconds, "sec");
    var x := a + " " + b + " " + c + " " + e;
    calc {
      Words(x);
      { WordsSplit(a + " " + b + " " + c, e); }
      Words(a + " " + b + " " + c) + Words(e);
      { WordsSplit(a + " " + b, c); }
      Words(a + " " + b) + Words(c) + Words(e);
      { WordsSplit(a, b); }
      Words(a) + Words(b) + Words(c) + Words(e);
      Units(t);
    }
    TrimCollapse(x);
  }

  /** The prefix before a white-space character is the leading word whatever follows. */
  lemma {:induction false} LeadingWordAppend(u: string, z: string)
    requires z == [] || IsWhitespace(z[0])
    ensures LeadingWord(u + z) == LeadingWord(u)
  {
    if u == [] {
      assert u + z == z;
    } else {
      assert (u + z)[0] == u[0] && (u + z)[1..] == u[1..] + z;
      if !IsWhitespace(u[0]) {
        LeadingWordAppend(u[1..], z);
      }
    }
  }

  /** A word on its own is one word; the empty string is none. */
  lemma WordsOfWord(w: string)
    requires NoWhitespace(w)
    ensures Words(w) == if w == [] then [] else [w]
  {
    if w != [] {
      LeadingWordAll(w);
      assert w[|w|..] == [];
    }
  }

  lemma {:induction false} LeadingWordAll(w: string)
    requires NoWhitespace(w)
    ensures LeadingWord(w) == w
  {
    if w != [] {
      LeadingWordAll(w[1..]);
      assert w == [w[0]] + w[1..];
    }
  }

  /** A single space separates the words of the two sides. */
  lemma WordsSplit(x: string, y: string)
    ensures Words(x + " " + y) == Words(x) + Words(y)
  {
    assert x + " " + y == x + ([' '] + y);
    WordsSep(x, [' '] + y);
  }

  /** White space at the front of `z` ends the last word of `x`. */
  lemma {:induction false} WordsSep(x: string, z: string)
    requires z != [] && IsWhitespace(z[0])
    ensures Words(x + z) == Words(x) + Words(z[1..])
    decreases |x|
  {
    if x == [] {
      assert x + z == z;
    } else if IsWhitespace(x[0]) {
      assert (x + z)[1..] == x[1..] + z;
      WordsSep(x[1..], z);
    } else {
      var w := LeadingWord(x);
      LeadingWordAppend(x, z);
      assert (x + z)[|w|..] == x[|w|..] + z;
      WordsSep(x[|w|..], z);
    }
  }

  /** Trailing white space adds no word. */
  lemma {:induction false} WordsTrailing(u: string, z: string)
    requires forall i :: 0 <= i < |z| ==> IsWhitespace(z[i])
    ensures Words(u + z) == Words(u)
    decreases |u| + |z|
  {
    if u == [] {
      assert u + z == z;
      if z != [] {
        WordsTrailing([], z[1..]);
        assert [] + z[1..] == z[1..];
      }
    } else if IsWhitespace(u[0]) {
      assert (u + z)[1..] == u[1..] + z;
      WordsTrailing(u[1..], z);
    } else {
      var w := LeadingWord(u);
      LeadingWordAppend(u, z);
      assert (u + z)[|w|..] == u[|w|..] + z;
      WordsTrailing(u[|w|..], z);
    }
  }

  /** Leading white space adds no word. */
  lemma {:induction false} WordsLeading(s: string)
    ensures Words(TrimStart(s)) == Words(s)
  {
    if s != [] && IsWhitespace(s[0]) {
      WordsLeading(s[1..]);
    }
  }

  /** `replaceAll(/\s+/g, " ")` keeps a word in front as it is. */
  lemma {:induction false} CollapseWord(w: string, rest: string)
    requires NoWhitespace(w)
    ensures CollapseWhitespace(w + rest) == w + CollapseWhitespace(rest)
  {
    if w != [] {
      assert (w + rest)[0] == w[0] && (w + rest)[1..] == w[1..] + rest;
      CollapseWord(w[1..], rest);
    } else {
      assert w + rest == rest;
    }
  }

  /** A string with no white space at either end collapses to its words joined by single spaces. */
  lemma {:induction false} CollapseTrimmed(t: string)
    requires t == [] || (!IsWhitespace(t[0]) && !IsWhitespace(t[|t| - 1]))
    ensures CollapseWhitespace(t) == JoinSpaces(Words(t))
    decreases |t|
  {
    if t != [] {
      var w := LeadingWord(t);
      var rest := t[|w|..];
      assert t == w + rest;
      CollapseWord(w, rest);
      assert Words(t) == [w] + Words(rest);
      if rest == [] {
        assert Words(rest) == [];
      } else {
        var t' := AfterWord(t);
        CollapseTrimmed(t');
        JoinCons(w, Words(t'));
      }
    }
  }

  /**
   * Past the first word and the white space after it comes a shorter string
   * with no white space at either end; it collapses, and splits into words,
   * as what follows the first word does.
   */
  lemma AfterWord(t: string) returns (t': string)
    requires t != [] && !IsWhitespace(t[0]) && !IsWhitespace(t[|t| - 1])
    requires |LeadingWord(t)| < |t|
    ensures |t'| < |t| && t' != [] && !IsWhitespace(t'[0]) && !IsWhitespace(t'[|t'| - 1])
    ensures CollapseWhitespace(t[|LeadingWord(t)|..]) == " " + CollapseWhitespace(t')
    ensures Words(t[|LeadingWord(t)|..]) == Words(t') != []
  {
    var rest := t[|LeadingWord(t)|..];
    assert IsWhitespace(rest[0]) && |rest| > 1 && rest[|rest| - 1] == t[|t| - 1];
    t' := TrimStart(rest[1..]);
    TrimStartKeepsEnd(rest[1..]);
    WordsLeading(rest[1..]);
    WordsOfNonBlank(t');
  }

  /** Trimming the front of a string that ends in a word leaves a non-empty string ending the same way. */
  lemma TrimStartKeepsEnd(u: string)
    requires u != [] && !IsWhitespace(u[|u| - 1])
    ensures TrimStart(u) != [] && TrimStart(u)[|TrimStart(u)| - 1] == u[|u| - 1]
  {
  }

  /** A string that starts with a word has at least one word. */
  lemma WordsOfNonBlank(s: string)
    requires s != [] && !IsWhitespace(s[0])
    ensures Words(s) != []
  {
  }

  /** Joining a word in front of at least one more adds one space. */
  lemma JoinCons(w: string, ws: seq<string>)
    requires ws != []
    ensures JoinSpaces([w] + ws) == w + " " + JoinSpaces(ws)
  {
    assert ([w] + ws)[1..] == ws;
  }

  /** `trim()` then `replaceAll(/\s+/g, " ")` joins the words of `x` with single spaces. */
  lemma TrimCollapse(x: string)
    ensures CollapseWhitespace(Trim(x)) == JoinSpaces(Words(x))
  {
    WordsLeading(x);
    WordsTrimEnd(TrimStart(x));
    TrimmedEnds(x);
    CollapseTrimmed(Trim(x));
  }

  /** `trim()` leaves white space at neither end. */
  lemma TrimmedEnds(x: string)
    ensures Trim(x) == [] || (!IsWhitespace(Trim(x)[0]) && !IsWhitespace(Trim(x)[|Trim(x)| - 1]))
  {
  }

  /** Trailing white space adds no word. */
  lemma WordsTrimEnd(y: string)
    ensures Words(TrimEnd(y)) == Words(y)
  {
    var t := TrimEnd(y);
    assert y == y[..|t|] + y[|t|..];
    forall i | 0 <= i < |y[|t|..]| ensures IsWhitespace(y[|t|..][i]) {
      assert y[|t|..][i] == y[|t| + i];
    }
    WordsTrailing(t, y[|t|..]);
  }

  // ----- What the result looks like -----

  /** Splitting a single-space join at its white space gives the parts back. */
  lemma {:induction false} WordsJoin(parts: seq<string>)
    requires AllWords(parts)
    ensures Words(JoinSpaces(parts)) == parts
  {
    if parts != [] {
      WordsOfWord(parts[0]);
      if |parts| > 1 {
        WordsJoin(parts[1..]);
        WordsSplit(parts[0], JoinSpaces(parts[1..]));
      }
    }
  }

  /** No space at either end and never two spaces in a row. */
  predicate SingleSpaced(s: string) {
    (s == [] || (s[0] != ' ' && s[|s| - 1] != ' '))
    && forall i :: 0 <= i < |s| - 1 ==> !(s[i] == ' ' && s[i + 1] == ' ')
  }

  /** Words joined by single spaces are single-spaced, and empty only when there are no words. */
  lemma {:induction false} JoinSpacesShape(parts: seq<string>)
    requires AllWords(parts)
    ensures SingleSpaced(JoinSpaces(parts))
    ensures JoinSpaces(parts) == "" <==> parts == []
  {
    if |parts| > 1 {
      var head, tail := parts[0], JoinSpaces(parts[1..]);
      JoinSpacesShape(parts[1..]);
      var s := head + " " + tail;
      assert head[0] != ' ' && tail[|tail| - 1] != ' ' && head[|head| - 1] != ' ' && tail[0] != ' ' by {
        assert !IsWhitespace(head[0]) && !IsWhitespace(head[|head| - 1]);
      }
      forall i | 0 <= i < |s| - 1 ensures !(s[i] == ' ' && s[i + 1] == ' ') {
        if i < |head| - 1 {
          assert s[i + 1] == head[i + 1] && !IsWhitespace(head[i + 1]);
        } else if i == |head| - 1 {
          assert s[i] == head[i];
        } else if i == |head| {
          assert s[i + 1] == tail[0];
        } else {
          assert s[i] == tail[i - |head| - 1] && s[i + 1] == tail[i - |head|];
        }
      }
    } else if |parts| == 1 {
      forall i | 0 <= i < |parts[0]| - 1 ensures !(parts[0][i] == ' ' && parts[0][i + 1] == ' ') {
        assert !IsWhitespace(parts[0][i]);
      }
    }
  }

  /** The word of one count is a word. */
  lemma UnitIsWord(count: int, unit: string)
    requires unit != "" && NoWhitespace(unit)
    ensures AllWords(Unit(count, unit))
  {
    DisplayNoWhitespace(count, unit);
    if count > 0 {
      assert Unit(count, unit)[0] == Display(count, unit);
    }
  }

  lemma AllWordsAppend(a: seq<string>, b: seq<string>)
    requires AllWords(a) && AllWords(b)
    ensures AllWords(a + b)
  {
    forall i | 0 <= i < |a + b| ensures (a + b)[i] != "" && NoWhitespace((a + b)[i]) {
      if i >= |a| {
        assert (a + b)[i] == b[i - |a|];
      }
    }
  }

  /** The words of a breakdown are words. */
  lemma UnitsAreWords(t: TimeSpan)
    ensures AllWords(Units(t))
  {
    UnitIsWord(t.days, "d");
    UnitIsWord(t.hours, "h");
    UnitIsWord(t.minutes, "min");
    UnitIsWord(t.seconds, "sec");
    AllWordsAppend(Unit(t.days, "d"), Unit(t.hours, "h"));
    AllWordsAppend(Unit(t.days, "d") + Unit(t.hours, "h"), Unit(t.minutes, "min"));
    AllWordsAppend(Unit(t.days, "d") + Unit(t.hours, "h") + Unit(t.minutes, "min"), Unit(t.seconds, "sec"));
  }

  /**
   * The words of the result are, in order, "<days>d", "<hours>h",
   * "<minutes>min" and "<seconds>sec", each present exactly when its count is
   * positive; the result is single-spaced.
   */
  lemma TimeSpanWords(seconds: int)
    ensures Words(Render(Breakdown(seconds))) == Units(Breakdown(seconds))
    ensures SingleSpaced(Render(Breakdown(seconds)))
  {
    UnitsAreWords(Breakdown(seconds));
    WordsJoin(Units(Breakdown(seconds)));
    JoinSpacesShape(Units(Breakdown(seconds)));
  }

  /** For a non-negative number of seconds the result is empty exactly for zero. */
  lemma TimeSpanEmpty(seconds: int)
    requires seconds >= 0
    ensures Render(Breakdown(seconds)) == "" <==> seconds == 0
  {
    var t := Breakdown(seconds);
    UnitsAreWords(t);
    JoinSpacesShape(Units(t));
    assert Units(t) == [] <==> t.days <= 0 && t.hours <= 0 && t.minutes <= 0 && t.seconds <= 0 by {
      assert |Units(t)| == |Unit(t.days, "d")| + |Unit(t.hours, "h")| + |Unit(t.minutes, "min")| + |Unit(t.seconds, "sec")|;
    }
    if seconds == 0 {
      assert t == TimeSpan(0, 0, 0, 0) by {
        BreakdownUnique(0, TimeSpan(0, 0, 0, 0));
      }
    } else if t.hours == 0 && t.minutes == 0 && t.seconds == 0 {
      assert t.days * SecondsPerDay == seconds;
    }
  }

  /** A negative number of seconds shows no days: it reads as the time of day it reaches counting back from midnight. */
  lemma TimeSpanNegative(seconds: int)
    requires seconds < 0
    ensures Breakdown(seconds).days < 0
    ensures Render(Breakdown(seconds)) == Render(Breakdown(seconds % SecondsPerDay))
  {
    var t, u := Breakdown(seconds), Breakdown(seconds % SecondsPerDay);
    assert u.days == 0;
    assert t.hours == u.hours && t.minutes == u.minutes && t.seconds == u.seconds;
  }
}
