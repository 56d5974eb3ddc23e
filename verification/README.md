# Prayer-times status bar extension, modelled in Dafny

This project models the decision logic of a small editor extension that shows
a countdown to the next prayer in a status bar item. The model covers four parts:

- the countdown text (`formatTimeLeft`), with a reader for that text that serves
  as its inverse;
- the interpretation of the geocoding service's reply, with the Makkah fallback;
- the city-resolution policy over the editor's per-user key-value store
  (`getUserCity`, `changeCity`);
- one refresh of the next-prayer data, one countdown tick, and the driver that
  owns the countdown and hourly intervals (`refreshPrayerTimes`, activation,
  the change-city command, disposal).

Everything the code asks of the outside world becomes an input or an `Effect`
in a returned log. That covers the answer typed into the input box, what the
geocoding service replies for a city, `parseFloat`, the prayer-time
calculation's result and the clock. The effects are prompts, geocoding
requests, messages shown to the user, and calculations started. Each callback
(a refresh, a timer firing, the change-city command, `dispose`) runs as one
atomic step.

Files, one module each:

| file | module | source |
|---|---|---|
| types.dfy | `Types` | src/types.ts, src/constants.ts |
| numerals.dfy | `Numerals` | integer printing inside the template literals of src/utils.ts |
| duration.dfy | `Duration` | `formatTimeLeft`, src/utils.ts |
| geocode.dfy | `Geocode` | `fetchCoordinatesForCity`, src/utils.ts |
| settings.dfy | `Settings` | src/userSettings.ts |
| prayer.dfy | `Prayer` | src/prayerTimes.ts |
| driver.dfy | `Driver` | src/extension.ts |

Semantics that had to be written out:

- `Math.floor(t / 3600)`, `Math.floor(x / 60)` and `Math.floor(ms / 1000)` are
  Dafny's `/`. With a positive divisor that rounds toward negative infinity.
- JavaScript's `%` truncates toward zero, so `Duration.JsRemainder` models it.
  As a result a negative count formats as `""`, exactly as the code does.
- JavaScript truthiness of a `string | undefined` is `Types.Truthy`: present and
  non-empty. It is used for the stored city, the prompt's answer, `latt`,
  `longt` and `standard.city`.

Behaviour worth knowing:

- A countdown tick with no time left does not stop its interval. It keeps
  firing and changes nothing (src/prayerTimes.ts:43-49,
  `Driver.ExpiredCountdownKeepsRunning`).
- The next prayer is never chosen by this code. It is read from the
  calculation's `data.extras.nextPrayer` (src/prayerTimes.ts:23), so the model
  takes it as an input.
- The change-city command refreshes even when no name was entered
  (src/extension.ts:45-48). If no city is stored, that refresh asks for a city
  a second time. `Driver.RefreshAfterChangeStarts` states which effect follows
  the change.
- A failed lookup shows an error message (src/utils.ts:25).

## Model

| member | source | states |
|---|---|---|
| Numerals.NatToString | src/utils.ts:39 | the printed count is a non-empty run of decimal digits with no leading zero |
| Numerals.ParseNatToString | src/utils.ts:39 | reading a printed count back gives the count |
| Numerals.NatToStringInjective | src/utils.ts:39 | two different counts never print alike |
| Duration.JsRemainder | src/utils.ts:37 | the remainder of the quotient truncated toward zero: a = b·(a div b) + r with 0 ≤ r < b for a non-negative dividend, and a = −(b·((−a) div b)) + r with −b < r ≤ 0 for a negative one |
| Duration.FormatTimeLeft | src/utils.ts:32-43 | `null` gives exactly "Next day's first prayer"; for a count, the text is empty exactly when the count is under 60 seconds, negatives included |
| Duration.Decomposition | src/utils.ts:36-37 | for t ≥ 0, hours ≥ 0, 0 ≤ minutes < 60 and t = 3600·hours + 60·minutes + t mod 60 |
| Duration.SecondsDiscarded | src/utils.ts:36-42 | rounding a count down to a whole minute leaves the text unchanged |
| Duration.AndExactlyWhenBoth | src/utils.ts:38-42 | the text contains " and " exactly when hours > 0 and minutes > 0 |
| Duration.RoundTrip | src/utils.ts:32-43 | the text reads back as the next-day marker or as exactly the whole hours and minutes, zero when not shown; the reader accepts "hour"/"minute" only for a count of 1 and the plural form only otherwise |
| Duration.Examples | src/utils.ts:32-43 | `null` → "Next day's first prayer", 0 → "", 59 → "", 150 → "2 minutes", 3661 → "1 hour and 1 minute", 7200 → "2 hours" |
| Geocode.InterpretReply | src/utils.ts:12-29 | the lookup fails exactly when the reply is a transport failure, not OK, not a JSON object, or lacks a non-empty `latt` or `longt`; a failure yields exactly the fallback coordinates; a success yields the parsed latitude and longitude and labels the result with `standard.city` when non-empty, otherwise with the requested city |
| Geocode.LookupEffects | src/utils.ts:9-28 | every lookup sends exactly one request for the city, followed by nothing on success and by exactly one error naming the city when it fell back |
| Geocode.CityLabelNonEmpty | src/utils.ts:22 | a lookup for a non-empty city name never yields an empty city label |
| Geocode.FailedLookupIsMakkah | src/utils.ts:24-29 | an unanswered lookup for "Nowhere" yields exactly (21.42251, 39.826168, "Makkah") |
| Settings.Save | src/userSettings.ts:25-26 | afterwards the store holds the coordinates' city label and the coordinates under the two keys; every other key is unchanged |
| Settings.GetUserCity | src/userSettings.ts:6-33 | with a non-empty stored city: no prompt or lookup, store unchanged, stored coordinates returned (fallback if absent); with no city and an empty or missing answer: fallback returned, store unchanged, prompt and warning only; with an answer: the effects are exactly the prompt followed by that answer's lookup effects (no warning), and the geocoded value is stored and returned |
| Settings.ChangeCity | src/userSettings.ts:35-49 | always prompts; an empty answer changes nothing; a non-empty answer overwrites both keys with the geocoded result, and the effects are exactly the prompt, the lookup's request and any error, then the confirmation with the raw answer |
| Settings.PersistsGeocodedLabel | src/userSettings.ts:24-27 | when the lookup falls back, the fallback is still persisted, with "Makkah" as the stored city rather than the typed answer |
| Settings.ResolutionIsIdempotent | src/userSettings.ts:9-32 | once a city is stored or an answer was given, a second resolution returns the same coordinates from the same store with no effects |
| Settings.ChangeThenResolve | src/userSettings.ts:43-46 | after a named city change, resolution returns the newly geocoded coordinates with no prompt |
| Settings.WellTypedPreserved | src/userSettings.ts:25-26 | neither operation stores a value of the wrong type under its two keys |
| Prayer.UpdatePrayerTimes | src/prayerTimes.ts:8-32 | resolves coordinates, then starts exactly one calculation with those coordinates and the fixed convention; returns nothing exactly when the calculation reports an error or no data, and then shows "⚠️ Prayer Times Unavailable"; otherwise returns the next prayer's name and seconds with the resolved city, and leaves the status bar untouched |
| Prayer.CalculationConvention | src/prayerTimes.ts:15-18 | every calculation started uses "Umm al-Qura University, Makkah" with `hanafiAsr` false |
| Prayer.TimeLeftIsFloor | src/prayerTimes.ts:42 | the seconds left are the largest whole number of seconds that fit before the target |
| Prayer.ToUpperCase | src/prayerTimes.ts:46 | the result has the same length; each ASCII lower-case letter becomes upper case, and everything else is kept |
| Prayer.UpperCaseIsIdempotent | src/prayerTimes.ts:46 | upper-casing leaves no lower-case ASCII letter, and doing it twice changes nothing more |
| Prayer.Tick | src/prayerTimes.ts:40-49 | with at least a whole second left, the text becomes "<time left> until <PRAYER> in <city>" and is shown; otherwise the status bar is unchanged |
| Prayer.LastMinuteText | src/prayerTimes.ts:43-47 | between one and sixty seconds before the target, the text is " until <PRAYER> in <city>" with no duration |
| Prayer.TickTextReadsBack | src/prayerTimes.ts:44-46 | the rendered text is a duration that reads back as the hours and minutes left, followed by " until <PRAYER> in <city>" |
| Driver.AtMostOneCountdown | src/extension.ts:28-32 | in a valid state at most one countdown interval is live |
| Driver.Clear | src/extension.ts:29 | the cleared handle is no longer live and every other live interval is kept |
| Driver.Restart | src/extension.ts:28-32 | the countdown the variable names is cleared, a fresh handle becomes the countdown, aimed at now + remainingSeconds·1000 for the returned prayer and city, every other live interval is kept, and the bookkeeping stays valid |
| Driver.Refresh | src/extension.ts:24-34 | on `null` the intervals and the countdown variable are untouched; on data the countdown variable names a new live countdown aimed at now + remainingSeconds·1000; the store, status and log are those of one `updatePrayerTimes` call |
| Driver.RefreshRestartsCountdown | src/extension.ts:28-32 | in a valid state a refresh with data leaves exactly one live countdown: it is fresh, the previous one is cleared, and the hourly interval is untouched |
| Driver.Activate | src/extension.ts:18-41 | activation is the first refresh: store, status and log are those of one `updatePrayerTimes`, a countdown is live exactly when it returned data and is aimed at now + remainingSeconds·1000 for that prayer and city; exactly one hourly interval of 3,600,000 ms is live, at most one countdown, and exactly one position of the log starts a calculation |
| Driver.ResolutionCalculatesNothing | src/userSettings.ts:6-33 | resolving coordinates never starts a calculation, on any of its three paths |
| Driver.OneCalculation | src/extension.ts:36 | one refresh starts a calculation at exactly one position of its effects, so a double start is excluded |
| Driver.Fire | src/extension.ts:38-41 | a countdown firing changes the status bar to the tick's result and nothing else, so every interval stays live; the hourly interval performs a full refresh; a cleared handle does nothing |
| Driver.ExpiredCountdownKeepsRunning | src/prayerTimes.ts:43-49 | a countdown whose time is up fires without changing anything and is not cleared |
| Driver.ChangeCityCommand | src/extension.ts:43-49 | the end state is a refresh run against the changed store, with the change's effects logged first, so the countdown restarts from the new city; the log grows by all effects of `changeCity` followed by exactly the effects of that refresh |
| Driver.RefreshAfterChangeStarts | src/extension.ts:45-48 | the refresh after a change starts with a calculation if a city is stored by then, and with the first-run prompt if not, even when the change was declined |
| Driver.ChangeCityRefreshesForNewCity | src/extension.ts:45-48 | after a named change, the refresh neither prompts nor looks up: its only effect is a calculation for the newly geocoded coordinates |
| Driver.Dispose | src/extension.ts:53-60 | the countdown (if any) and the hourly interval are cleared and nothing else changes: store, status, log, both variables and the handle counter are kept; in a valid state no interval stays live |
| Driver.Step | src/extension.ts:18-61 | every event keeps the driver's bookkeeping valid and never changes the hourly variable |
| Driver.RunKeepsTimersSound | src/extension.ts:22-60 | after any sequence of timer firings, city changes and disposals the bookkeeping holds, at most one countdown is live, and the only hourly interval that can be live is the one registered before the run |
| Driver.DisposedStaysQuiet | src/extension.ts:53-60 | once nothing is live, further firings change nothing |

## Left out

- Host UI: creating the status bar item, registering the command, `context.subscriptions`, and the input box itself. The answer typed is an input; prompts and messages are entries in the effect log.
- Network and parsing: `fetch`, `response.json()`, `encodeURIComponent` and `parseFloat`. The service's reply is an input (`HttpReply`), and `parseFloat` is an arbitrary function given as a parameter. A `NaN` latitude is a floating-point detail this model does not represent.
- The astronomical prayer-time calculation (`calculatePrayerTimes`). Its result is an abstract input: an error flag and an optional next prayer.
- Real-time scheduling and async interleaving. Each callback is one atomic step, so overlapping refreshes and a late result overwriting a newer one are not modelled. Neither is a refresh suspended on the input box or the lookup when `dispose` runs, which on resuming starts a countdown that nothing clears. The two clock readings in one refresh (src/prayerTimes.ts:14 and src/extension.ts:31) are taken as the same instant.
- Activation order: with no stored city, the first-run prompt is issued before the hourly interval is registered, and every other effect of the first refresh lands after it. Registration is not an `Effect` in the log, so the model does not observe this order.
- Event order after disposal: `Driver.Run` accepts a change-city command after `Disposed`, which the host cannot deliver because the command's registration is disposed with the intervals. The invariants proved over `Run` therefore cover more runs than the host can produce.
- `console.error` logging and the wording of thrown errors.
- Settings.GetUserCity: a value of the wrong type under `userCity` or `userCoordinates` is read as absent, whereas the host would hand it through unchanged. The extension never writes such a value (`Settings.WellTypedPreserved`).
- Prayer.ToUpperCase: maps ASCII letters only, not the full Unicode case mapping of `toUpperCase`. The prayer names the calculation reports are ASCII.
- Numerals.NatToString: JavaScript prints integers of 10^21 or more in exponent notation. That is not modelled, because such counts are far beyond a day's countdown. Second counts are integers; the code only ever passes `Math.floor` results.
- `deactivate` is empty in the source and has no counterpart.
