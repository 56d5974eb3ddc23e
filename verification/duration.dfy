/** The human-readable countdown text of `formatTimeLeft` (src/utils.ts),
    with a reader for that text that serves as its inverse. */
module Duration {
  import opened Types
  import opened Numerals

  /** The text shown when no numeric remaining time is known. */
  const NEXT_DAY_TEXT := "Next day's first prayer"

  /** `Math.floor(t / 3600)`. Dafny's division by a positive divisor already
      rounds toward negative infinity, as `Math.floor` does. */
  function HoursOf(t: int): int {
    t / 3600
  }

  /** JavaScript's `%`: the remainder of the quotient truncated toward zero, so the
      result takes the sign of the dividend. */
  function JsRemainder(a: int, b: int): (r: int)
    requires b > 0
    ensures a >= 0 ==> 0 <= r < b && a == b * (a / b) + r
    ensures a < 0 ==> -b < r <= 0 && a == -(b * ((-a) / b)) + r
  {
    if a >= 0 then a % b else -((-a) % b)
  }

  /** `Math.floor((t % 3600) / 60)`. */
  function MinutesOf(t: int): int {
    JsRemainder(t, 3600) / 60
  }

  /** The unit name: singular for exactly one, plural otherwise. */
  function UnitWord(n: int, singular: string): string {
    if n == 1 then singular else singular + "s"
  }

  /** "<n> <unit>" for a positive count, empty otherwise. */
  function Component(n: int, singular: string): string {
    if n > 0 then NatToString(n) + " " + UnitWord(n, singular) else ""
  }

  /** `[a, b].filter(Boolean).join(" and ")`. */
  function JoinNonEmpty(a: string, b: string): string {
    if a != "" && b != "" then a + " and " + b else a + b
  }

  /** The countdown text for a number of seconds, or the next-day text for `null`.
      Whole hours and whole minutes are shown; left-over seconds are dropped. */
  function FormatTimeLeft(timeLeftSeconds: Option<int>): (r: string)
    ensures timeLeftSeconds.None? ==> r == NEXT_DAY_TEXT
    ensures timeLeftSeconds.Some? ==> (r == "" <==> timeLeftSeconds.value < 60)
  {
    match timeLeftSeconds
    case None => NEXT_DAY_TEXT
    case Some(t) =>
      JoinNonEmpty(Component(HoursOf(t), "hour"), Component(MinutesOf(t), "minute"))
  }

  // ---------------------------------------------------------------------------
  // Reading the text back.

  /** What a countdown text says. */
  datatype Reading = NextDay | Remaining(hours: nat, minutes: nat)

  /** `s.split(" ")`: the maximal space-free pieces of `s`, empty pieces included. */
  function Words(s: string): (w: seq<string>)
    ensures |w| >= 1
    decreases |s|
  {
    if |s| == 0 then [""]
    else
      var rest := Words(s[1..]);
      if s[0] == ' ' then [""] + rest else [[s[0]] + rest[0]] + rest[1..]
  }

  /** A count followed by its unit: a positive numeral without leading zero, then
      the singular word exactly when the count is one and the plural otherwise. */
  function ParseAmount(number: string, word: string, singular: string): (r: Option<nat>)
    ensures r.Some? ==> r.value > 0
  {
    if |number| >= 1 && IsDigits(number) && number[0] != '0' && ParseNat(number) > 0
       && (word == singular || word == singular + "s")
       && ((word == singular) <==> ParseNat(number) == 1)
    then Some(ParseNat(number))
    else None
  }

  /** Reads a countdown text back into hours and minutes; `None` for any text
      the formatter cannot produce. */
  function ParseTimeLeft(s: string): Option<Reading> {
    if s == NEXT_DAY_TEXT then Some(NextDay)
    else if s == "" then Some(Remaining(0, 0))
    else
      var w := Words(s);
      if |w| == 2 then
        match ParseAmount(w[0], w[1], "hour")
        case Some(h) => Some(Remaining(h, 0))
        case None =>
          match ParseAmount(w[0], w[1], "minute")
          case Some(m) => Some(Remaining(0, m))
          case None => None
      else if |w| == 5 && w[2] == "and" then
        match (ParseAmount(w[0], w[1], "hour"), ParseAmount(w[3], w[4], "minute"))
        case (Some(h), Some(m)) => Some(Remaining(h, m))
        case _ => None
      else None
  }

  function Clamp(n: int): nat {
    if n > 0 then n else 0
  }

  /** What the formatter is meant to say about its input. */
  function Meaning(timeLeftSeconds: Option<int>): Reading {
    match timeLeftSeconds
    case None => NextDay
    case Some(t) => Remaining(Clamp(HoursOf(t)), Clamp(MinutesOf(t)))
  }

  // ---------------------------------------------------------------------------
  // Properties.

  /** For a non-negative count, hours and minutes decompose it, with seconds left over. */
  lemma Decomposition(t: int)
    requires t >= 0
    ensures HoursOf(t) >= 0 && 0 <= MinutesOf(t) < 60
    ensures t == 3600 * HoursOf(t) + 60 * MinutesOf(t) + t % 60
  {
    var q, r := t / 60, t % 60;
    var h, m := q / 60, q % 60;
    DivMod3600(t, h, 60 * m + r);
    DivMod60(60 * m + r, m, r);
  }

  lemma DivMod3600(a: int, q: int, r: int)
    requires 0 <= r < 3600 && a == 3600 * q + r
    ensures a / 3600 == q && a % 3600 == r
  {
  }

  lemma DivMod60(a: int, q: int, r: int)
    requires 0 <= r < 60 && a == 60 * q + r
    ensures a / 60 == q && a % 60 == r
  {
  }

  /** Left-over seconds never show: rounding down to a whole minute keeps the text. */
  lemma SecondsDiscarded(t: int)
    requires t >= 0
    ensures FormatTimeLeft(Some(t)) == FormatTimeLeft(Some(t - t % 60))
  {
    var t' := t - t % 60;
    Decomposition(t);
    var h, m := HoursOf(t), MinutesOf(t);
    assert t' == 3600 * h + 60 * m;
    DivMod3600(t', h, 60 * m);
    DivMod60(60 * m, m, 0);
    assert HoursOf(t') == h;
    assert MinutesOf(t') == m;
    SameHoursAndMinutes(t, t');
  }

  lemma SameHoursAndMinutes(t: int, t': int)
    requires HoursOf(t) == HoursOf(t') && MinutesOf(t) == MinutesOf(t')
    ensures FormatTimeLeft(Some(t)) == FormatTimeLeft(Some(t'))
  {
  }

  /** `part` occurs in `s` starting at index `i`. */
  predicate OccursAt(s: string, part: string, i: int) {
    0 <= i <= |s| - |part| && s[i..i + |part|] == part
  }

  ghost predicate Contains(s: string, part: string) {
    exists i :: OccursAt(s, part, i)
  }

  lemma NoLetterNoAnd(s: string)
    requires 'a' !in s
    ensures !Contains(s, " and ")
  {
    forall i
      ensures !OccursAt(s, " and ", i)
    {
      if 0 <= i <= |s| - 5 {
        assert s[i + 1] in s;
      }
    }
  }

  lemma ComponentHasNoLetterA(n: int, singular: string)
    requires singular == "hour" || singular == "minute"
    ensures 'a' !in Component(n, singular)
  {
    if n > 0 {
      var digits, unit := NatToString(n), UnitWord(n, singular);
      NumeralHasOnlyDigits(n, 'a');
      assert 'a' !in unit;
      assert Component(n, singular) == digits + (" " + unit);
    }
  }

  /** The text joins two parts with " and " exactly when both hours and minutes are shown. */
  lemma AndExactlyWhenBoth(t: int)
    ensures Contains(FormatTimeLeft(Some(t)), " and ") <==> HoursOf(t) > 0 && MinutesOf(t) > 0
  {
    var a, b := Component(HoursOf(t), "hour"), Component(MinutesOf(t), "minute");
    var r := FormatTimeLeft(Some(t));
    if HoursOf(t) > 0 && MinutesOf(t) > 0 {
      assert OccursAt(r, " and ", |a|);
    } else {
      ComponentHasNoLetterA(HoursOf(t), "hour");
      ComponentHasNoLetterA(MinutesOf(t), "minute");
      assert r == a + b;
      NoLetterNoAnd(r);
    }
  }

  lemma {:induction false} WordsOfPlain(a: string)
    requires ' ' !in a
    ensures Words(a) == [a]
    decreases |a|
  {
    if |a| > 0 {
      WordsOfPlain(a[1..]);
      assert [a[0]] + a[1..] == a;
    }
  }

  lemma {:induction false} WordsOfJoin(a: string, b: string)
    requires ' ' !in a
    ensures Words(a + " " + b) == [a] + Words(b)
    decreases |a|
  {
    var s := a + " " + b;
    if |a| == 0 {
      assert s[1..] == b;
    } else {
      assert s[1..] == a[1..] + " " + b;
      WordsOfJoin(a[1..], b);
      assert [a[0]] + a[1..] == a;
    }
  }

  /** A printed count holds digits only. */
  lemma NumeralHasOnlyDigits(n: nat, c: char)
    requires !IsDigit(c)
    ensures c !in NatToString(n)
  {
    var s := NatToString(n);
    assert forall i | 0 <= i < |s| :: s[i] != c by {
      assert IsDigits(s);
    }
  }

  /** The words of a shown component followed by more text. */
  lemma WordsOfComponentThen(n: int, singular: string, rest: string)
    requires n > 0 && (singular == "hour" || singular == "minute")
    ensures Words(Component(n, singular) + " " + rest) == [NatToString(n), UnitWord(n, singular)] + Words(rest)
  {
    var digits, unit := NatToString(n), UnitWord(n, singular);
    NumeralHasOnlyDigits(n, ' ');
    UnitWordHasNoSpace(n, singular);
    var tail := unit + " " + rest;
    assert Component(n, singular) == digits + " " + unit;
    assert Component(n, singular) + " " + rest == digits + " " + tail;
    WordsOfJoin(unit, rest);
    WordsOfJoin(digits, tail);
  }

  lemma UnitWordHasNoSpace(n: int, singular: string)
    requires singular == "hour" || singular == "minute"
    ensures ' ' !in UnitWord(n, singular)
  {
  }

  /** The words of a shown component on its own. */
  lemma WordsOfComponent(n: int, singular: string)
    requires n > 0 && (singular == "hour" || singular == "minute")
    ensures Words(Component(n, singular)) == [NatToString(n), UnitWord(n, singular)]
  {
    var digits, unit := NatToString(n), UnitWord(n, singular);
    NumeralHasOnlyDigits(n, ' ');
    UnitWordHasNoSpace(n, singular);
    assert Component(n, singular) == digits + " " + unit;
    WordsOfJoin(digits, unit);
    WordsOfPlain(unit);
  }

  lemma ParseAmountOfComponent(n: int, singular: string)
    requires n > 0 && (singular == "hour" || singular == "minute")
    ensures ParseAmount(NatToString(n), UnitWord(n, singular), singular) == Some(n)
  {
    ParseNatToString(n);
  }

  /** A shown component is never the next-day text: it starts with a digit. */
  lemma ComponentIsNotNextDay(n: int, singular: string, rest: string)
    requires n > 0
    ensures Component(n, singular) + rest != NEXT_DAY_TEXT
  {
    assert (Component(n, singular) + rest)[0] == NatToString(n)[0];
  }

  lemma WordsOfBoth(h: int, m: int)
    requires h > 0 && m > 0
    ensures Words(Component(h, "hour") + " and " + Component(m, "minute"))
         == [NatToString(h), UnitWord(h, "hour"), "and", NatToString(m), UnitWord(m, "minute")]
  {
    var a, b := Component(h, "hour"), Component(m, "minute");
    assert a + " and " + b == a + " " + ("and" + " " + b);
    WordsOfComponentThen(h, "hour", "and" + " " + b);
    WordsOfJoin("and", b);
    WordsOfComponent(m, "minute");
  }

  lemma RoundTripBoth(t: int)
    requires HoursOf(t) > 0 && MinutesOf(t) > 0
    ensures ParseTimeLeft(FormatTimeLeft(Some(t))) == Some(Remaining(HoursOf(t), MinutesOf(t)))
  {
    var h, m := HoursOf(t), MinutesOf(t);
    var a, b := Component(h, "hour"), Component(m, "minute");
    var r := FormatTimeLeft(Some(t));
    assert r == a + " and " + b;
    WordsOfBoth(h, m);
    ComponentIsNotNextDay(h, "hour", " and " + b);
    assert r != "";
    ParseAmountOfComponent(h, "hour");
    ParseAmountOfComponent(m, "minute");
  }

  lemma RoundTripHoursOnly(t: int)
    requires HoursOf(t) > 0 && MinutesOf(t) <= 0
    ensures ParseTimeLeft(FormatTimeLeft(Some(t))) == Some(Remaining(HoursOf(t), 0))
  {
    var h := HoursOf(t);
    assert FormatTimeLeft(Some(t)) == Component(h, "hour");
    WordsOfComponent(h, "hour");
    ComponentIsNotNextDay(h, "hour", "");
    ParseAmountOfComponent(h, "hour");
  }

  lemma RoundTripMinutesOnly(t: int)
    requires HoursOf(t) <= 0 && MinutesOf(t) > 0
    ensures ParseTimeLeft(FormatTimeLeft(Some(t))) == Some(Remaining(0, MinutesOf(t)))
  {
    var m := MinutesOf(t);
    assert FormatTimeLeft(Some(t)) == Component(m, "minute");
    WordsOfComponent(m, "minute");
    ComponentIsNotNextDay(m, "minute", "");
    assert UnitWord(m, "minute") != "hour" && UnitWord(m, "minute") != "hours";
    ParseAmountOfComponent(m, "minute");
  }

  /** Reading the text back recovers exactly what it was meant to say: the
      next-day marker, or the whole hours and minutes (zero when not shown). */
  lemma RoundTrip(timeLeftSeconds: Option<int>)
    ensures ParseTimeLeft(FormatTimeLeft(timeLeftSeconds)) == Some(Meaning(timeLeftSeconds))
  {
    if timeLeftSeconds.Some? {
      var t := timeLeftSeconds.value;
      var h, m := HoursOf(t), MinutesOf(t);
      if h > 0 && m > 0 {
        RoundTripBoth(t);
      } else if h > 0 {
        RoundTripHoursOnly(t);
      } else if m > 0 {
        RoundTripMinutesOnly(t);
      } else {
        assert FormatTimeLeft(timeLeftSeconds) == "";
      }
    }
  }

  /** The worked examples of the countdown text. */
  lemma Examples()
    ensures FormatTimeLeft(None) == "Next day's first prayer"
    ensures FormatTimeLeft(Some(0)) == ""
    ensures FormatTimeLeft(Some(59)) == ""
    ensures FormatTimeLeft(Some(150)) == "2 minutes"
    ensures FormatTimeLeft(Some(3661)) == "1 hour and 1 minute"
    ensures FormatTimeLeft(Some(7200)) == "2 hours"
  {
    TwoMinutes();
    HourAndMinute();
    TwoHours();
  }

  lemma TwoMinutes()
    ensures FormatTimeLeft(Some(150)) == "2 minutes"
  {
    assert HoursOf(150) == 0 && MinutesOf(150) == 2;
    assert NatToString(2) == "2";
    assert Component(2, "minute") == "2 minutes";
  }

  lemma HourAndMinute()
    ensures FormatTimeLeft(Some(3661)) == "1 hour and 1 minute"
  {
    assert HoursOf(3661) == 1 && MinutesOf(3661) == 1;
    assert NatToString(1) == "1";
    assert Component(1, "hour") == "1 hour" && Component(1, "minute") == "1 minute";
  }

  lemma TwoHours()
    ensures FormatTimeLeft(Some(7200)) == "2 hours"
  {
    assert HoursOf(7200) == 2 && MinutesOf(7200) == 0;
    assert NatToString(2) == "2";
    assert Component(2, "hour") == "2 hours";
  }
}
