/** One refresh of the next-prayer data and one tick of the countdown
    (src/prayerTimes.ts). The prayer-time calculation is a collaborator whose
    result is an input. */
module Prayer {
  import opened Types
  import opened Geocode
  import opened Settings
  import opened Duration

  /** The fixed calculation convention: Umm al-Qura, standard (non-Hanafi) Asr. */
  const UMM_AL_QURA := CalculationOptions("Umm al-Qura University, Makkah", false)

  /** The status text of a failed refresh: a warning sign, then the message. */
  const UNAVAILABLE_TEXT := "\U{26A0}\U{FE0F} Prayer Times Unavailable"

  /** `data.extras.nextPrayer` of a calculation: the name and whole seconds left. */
  datatype NextPrayer = NextPrayer(name: string, remainingSeconds: int)

  /** A calculation result reduced to what the code reads: whether `error` is set,
      and the next prayer when `data` is present. */
  datatype Calculation = Calculation(error: bool, data: Option<NextPrayer>)

  /** The prayer-time calculation: instant (ms), coordinates, options. */
  type Calculator = (int, Coordinates, CalculationOptions) -> Calculation

  /** A calculation the code accepts: no error and data present. */
  predicate Succeeded(c: Calculation) {
    !c.error && c.data.Some?
  }

  /** The outcome of `updatePrayerTimes`: the data returned (`null` as `None`), the
      store and status bar after, and the effects in order. */
  datatype Update = Update(data: Option<PrayerData>, store: Store, status: StatusBar, effects: seq<Effect>)

  /** `updatePrayerTimes`: resolves the coordinates, runs the calculation once with the
      fixed convention, and either reports the next prayer for the resolved city or
      shows the unavailable text. */
  function UpdatePrayerTimes(store: Store, answer: Option<string>, geo: Geocoder, calculate: Calculator,
                             nowMs: int, status: StatusBar): (u: Update)
    ensures var r := GetUserCity(store, answer, geo);
            var result := calculate(nowMs, r.coordinates, UMM_AL_QURA);
            && u.store == r.store
            && u.effects == r.effects + [Calculate(nowMs, r.coordinates, UMM_AL_QURA)]
            && (u.data.None? <==> !Succeeded(result))
            && (u.data.None? ==> u.status == StatusBar(UNAVAILABLE_TEXT, true))
            && (u.data.Some? ==>
                  && u.status == status
                  && u.data.value.name == result.data.value.name
                  && u.data.value.remainingSeconds == result.data.value.remainingSeconds
                  && u.data.value.city == r.coordinates.city)
  {
    var resolved := GetUserCity(store, answer, geo);
    var coordinates := resolved.coordinates;
    var result := calculate(nowMs, coordinates, UMM_AL_QURA);
    var effects := resolved.effects + [Calculate(nowMs, coordinates, UMM_AL_QURA)];
    if result.error || result.data.None? then
      Update(None, resolved.store, StatusBar(UNAVAILABLE_TEXT, true), effects)
    else
      var next := result.data.value;
      Update(Some(PrayerData(next.name, next.remainingSeconds, coordinates.city)), resolved.store, status, effects)
  }

  /** Every calculation a refresh starts uses the Umm al-Qura convention without Hanafi Asr. */
  lemma CalculationConvention(store: Store, answer: Option<string>, geo: Geocoder, calculate: Calculator,
                              nowMs: int, status: StatusBar)
    ensures var u := UpdatePrayerTimes(store, answer, geo, calculate, nowMs, status);
            forall e | e in u.effects && e.Calculate? ::
              e.options == CalculationOptions("Umm al-Qura University, Makkah", false)
  {
  }

  // ---------------------------------------------------------------------------
  // The countdown tick.

  /** `Math.floor((target - now) / 1000)`: whole seconds left, rounded down. */
  function TimeLeft(targetMs: int, nowMs: int): int {
    (targetMs - nowMs) / 1000
  }

  /** The seconds left are the largest whole number of seconds that fit before the target. */
  lemma TimeLeftIsFloor(targetMs: int, nowMs: int)
    ensures 1000 * TimeLeft(targetMs, nowMs) <= targetMs - nowMs < 1000 * TimeLeft(targetMs, nowMs) + 1000
  {
  }

  /** `toUpperCase` on ASCII letters; other characters are kept. */
  function UpperChar(c: char): char {
    if 'a' <= c <= 'z' then (c as int - 32) as char else c
  }

  function ToUpperCase(s: string): (u: string)
    ensures |u| == |s|
    ensures forall i | 0 <= i < |s| :: u[i] == UpperChar(s[i])
  {
    seq(|s|, i requires 0 <= i < |s| => UpperChar(s[i]))
  }

  /** Upper-casing leaves no lower-case ASCII letter and is idempotent. */
  lemma UpperCaseIsIdempotent(s: string)
    ensures forall i | 0 <= i < |s| :: !('a' <= ToUpperCase(s)[i] <= 'z')
    ensures ToUpperCase(ToUpperCase(s)) == ToUpperCase(s)
  {
  }

  /** The countdown text: "<time left> until <PRAYER> in <city>". */
  function CountdownText(timeLeft: int, prayer: string, city: string): string {
    FormatTimeLeft(Some(timeLeft)) + " until " + ToUpperCase(prayer) + " in " + city
  }

  /** One firing of the countdown interval: render and show while at least a whole
      second is left; otherwise leave the status bar as it was. */
  function Tick(status: StatusBar, targetMs: int, nowMs: int, prayer: string, city: string): (s: StatusBar)
    ensures targetMs - nowMs >= 1000 ==>
      s == StatusBar(CountdownText(TimeLeft(targetMs, nowMs), prayer, city), true)
    ensures targetMs - nowMs < 1000 ==> s == status
  {
    var timeLeft := TimeLeft(targetMs, nowMs);
    if timeLeft > 0 then StatusBar(CountdownText(timeLeft, prayer, city), true) else status
  }

  /** In the last minute the duration part is empty, so the text starts with " until ". */
  lemma LastMinuteText(status: StatusBar, targetMs: int, nowMs: int, prayer: string, city: string)
    requires 1000 <= targetMs - nowMs < 60000
    ensures Tick(status, targetMs, nowMs, prayer, city).text == " until " + ToUpperCase(prayer) + " in " + city
  {
    var t := TimeLeft(targetMs, nowMs);
    assert 0 < t < 60;
    assert FormatTimeLeft(Some(t)) == "";
    var rest := " until " + ToUpperCase(prayer) + " in " + city;
    assert CountdownText(t, prayer, city) == "" + rest;
  }

  /** The text of a tick reads back as the whole hours and minutes left. */
  lemma TickTextReadsBack(status: StatusBar, targetMs: int, nowMs: int, prayer: string, city: string)
    requires targetMs - nowMs >= 1000
    ensures var t := TimeLeft(targetMs, nowMs);
            var text := Tick(status, targetMs, nowMs, prayer, city).text;
            exists shown | ParseTimeLeft(shown) == Some(Remaining(HoursOf(t), MinutesOf(t))) ::
              text == shown + " until " + ToUpperCase(prayer) + " in " + city
  {
    var t := TimeLeft(targetMs, nowMs);
    RoundTrip(Some(t));
    Decomposition(t);
    var shown := FormatTimeLeft(Some(t));
    assert ParseTimeLeft(shown) == Some(Remaining(HoursOf(t), MinutesOf(t)));
  }
}
