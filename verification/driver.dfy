/** The extension's driver (src/extension.ts): the refresh that restarts the
    countdown, the hourly refresh, the change-city command and disposal, as a
    state machine over the set of live interval timers. Each callback runs as
    one atomic step; the clock reading and the user's answers are inputs. */
module Driver {
  import opened Types
  import opened Geocode
  import opened Settings
  import opened Prayer

  /** A timer handle, as returned by `setInterval`. */
  type Handle = nat

  /** What a live interval does when it fires. */
  datatype Timer = Countdown(targetMs: int, prayer: string, city: string) | Hourly

  /** The period an interval was registered with, in milliseconds. */
  function Period(t: Timer): nat {
    match t
    case Countdown(_, _, _) => UPDATE_INTERVAL
    case Hourly => HOURLY_UPDATE_INTERVAL
  }

  /** The collaborators the extension runs against: geocoding and the calculation. */
  datatype Env = Env(geo: Geocoder, calculate: Calculator)

  /** The activated extension: its store and status bar, the live intervals, the
      `countdownInterval` and `hourlyUpdateInterval` variables, the next fresh handle,
      and everything asked of the host so far. */
  datatype Extension = Extension(
    store: Store,
    status: StatusBar,
    timers: map<Handle, Timer>,
    countdown: Option<Handle>,
    hourly: Handle,
    nextHandle: nat,
    log: seq<Effect>)

  /** The bookkeeping the driver keeps: handles are fresh, the hourly variable names
      the one hourly interval, and a live countdown is the one the variable names. */
  predicate Valid(x: Extension) {
    && x.hourly < x.nextHandle
    && (x.countdown.Some? ==> x.countdown.value < x.nextHandle && x.countdown.value != x.hourly)
    && (forall h | h in x.timers :: h < x.nextHandle)
    && (forall h | h in x.timers :: x.timers[h].Hourly? <==> h == x.hourly)
    && (forall h | h in x.timers && x.timers[h].Countdown? :: x.countdown == Some(h))
  }

  /** The live countdown intervals. */
  function LiveCountdowns(x: Extension): set<Handle> {
    set h | h in x.timers && x.timers[h].Countdown?
  }

  /** Never two countdowns writing the status bar at once. */
  lemma AtMostOneCountdown(x: Extension)
    requires Valid(x)
    ensures |LiveCountdowns(x)| <= 1
  {
    if x.countdown.Some? && x.countdown.value in LiveCountdowns(x) {
      assert LiveCountdowns(x) == {x.countdown.value};
    } else {
      assert LiveCountdowns(x) == {};
    }
  }

  /** `clearInterval(h)`; clearing a handle that is not live changes nothing. */
  function Clear(timers: map<Handle, Timer>, h: Handle): (t: map<Handle, Timer>)
    ensures h !in t
    ensures forall k | k in timers && k != h :: k in t && t[k] == timers[k]
    ensures t.Keys <= timers.Keys
  {
    timers - {h}
  }

  /** Clears the countdown the variable names, if any, and starts a fresh one for
      `data`, aimed at `now + remainingSeconds * 1000`. */
  function Restart(x: Extension, data: PrayerData, nowMs: int): (y: Extension)
    ensures y.countdown == Some(x.nextHandle) && y.nextHandle == x.nextHandle + 1
    ensures x.nextHandle in y.timers
    ensures y.timers[x.nextHandle] == Countdown(nowMs + data.remainingSeconds * 1000, data.name, data.city)
    ensures x.countdown.Some? && x.countdown.value != x.nextHandle ==> x.countdown.value !in y.timers
    ensures forall h | h in x.timers && Some(h) != x.countdown && h != x.nextHandle :: h in y.timers && y.timers[h] == x.timers[h]
    ensures y.timers.Keys <= x.timers.Keys + {x.nextHandle}
    ensures Valid(x) ==> Valid(y)
    ensures y.store == x.store && y.status == x.status && y.log == x.log && y.hourly == x.hourly
  {
    var cleared := if x.countdown.Some? then Clear(x.timers, x.countdown.value) else x.timers;
    var h := x.nextHandle;
    var target := nowMs + data.remainingSeconds * 1000;
    x.(timers := cleared[h := Countdown(target, data.name, data.city)],
       countdown := Some(h),
       nextHandle := h + 1)
  }

  /** `refreshPrayerTimes`: on data, restarts the countdown for the returned prayer;
      on `null`, the intervals and the countdown variable are left alone. */
  function Refresh(x: Extension, env: Env, answer: Option<string>, nowMs: int): (y: Extension)
    ensures var u := UpdatePrayerTimes(x.store, answer, env.geo, env.calculate, nowMs, x.status);
            && y.store == u.store && y.status == u.status && y.log == x.log + u.effects
            && y.hourly == x.hourly
            && (u.data.None? ==> y.timers == x.timers && y.countdown == x.countdown)
            && (u.data.Some? ==>
                  && y.countdown == Some(x.nextHandle)
                  && x.nextHandle in y.timers
                  && y.timers[x.nextHandle]
                       == Countdown(nowMs + u.data.value.remainingSeconds * 1000, u.data.value.name, u.data.value.city))
    ensures forall h | h in x.timers && Some(h) != x.countdown && h != x.nextHandle :: h in y.timers && y.timers[h] == x.timers[h]
    ensures Valid(x) ==> Valid(y)
  {
    var u := UpdatePrayerTimes(x.store, answer, env.geo, env.calculate, nowMs, x.status);
    var x' := x.(store := u.store, status := u.status, log := x.log + u.effects);
    assert Valid(x) ==> Valid(x');
    match u.data
    case None => x'
    case Some(data) => Restart(x', data, nowMs)
  }

  /** A refresh with data leaves exactly one live countdown: a fresh one, the previous
      one cleared, and the hourly interval untouched. */
  lemma RefreshRestartsCountdown(x: Extension, env: Env, answer: Option<string>, nowMs: int)
    requires Valid(x)
    requires UpdatePrayerTimes(x.store, answer, env.geo, env.calculate, nowMs, x.status).data.Some?
    ensures var y := Refresh(x, env, answer, nowMs);
            && y.countdown.Some?
            && y.countdown.value !in x.timers
            && (x.countdown.Some? ==> x.countdown.value !in y.timers)
            && LiveCountdowns(y) == {y.countdown.value}
            && (x.hourly in y.timers <==> x.hourly in x.timers)
  {
    var y := Refresh(x, env, answer, nowMs);
    assert Valid(y);
    assert y.countdown == Some(x.nextHandle);
  }

  /** `activate`: registers the hourly interval and performs the first refresh.
      Registration is not an effect, so the log holds the first refresh's effects only. */
  function Activate(store: Store, env: Env, answer: Option<string>, nowMs: int): (x: Extension)
    ensures Valid(x)
    ensures x.hourly in x.timers && x.timers[x.hourly] == Hourly && Period(x.timers[x.hourly]) == 3600000
    ensures forall h | h in x.timers && x.timers[h].Hourly? :: h == x.hourly
    ensures |LiveCountdowns(x)| <= 1
    ensures ExactlyOneCalculation(x.log)
    ensures var u := UpdatePrayerTimes(store, answer, env.geo, env.calculate, nowMs, StatusBar("", false));
            && x.store == u.store && x.status == u.status && x.log == u.effects
            && (x.countdown.Some? <==> u.data.Some?)
            && (u.data.Some? ==>
                  && x.countdown.value in x.timers
                  && x.timers[x.countdown.value]
                       == Countdown(nowMs + u.data.value.remainingSeconds * 1000, u.data.value.name, u.data.value.city))
  {
    var initial := Extension(store, StatusBar("", false), map[0 := Hourly], None, 0, 1, []);
    assert Valid(initial);
    var x := Refresh(initial, env, answer, nowMs);
    AtMostOneCountdown(x);
    OneCalculation(store, answer, env, nowMs, StatusBar("", false));
    assert x.log == UpdatePrayerTimes(store, answer, env.geo, env.calculate, nowMs, StatusBar("", false)).effects;
    x
  }

  /** Exactly one position of the log starts a calculation. */
  predicate ExactlyOneCalculation(log: seq<Effect>) {
    exists i | 0 <= i < |log| :: log[i].Calculate? && forall j | 0 <= j < |log| && j != i :: !log[j].Calculate?
  }

  /** Resolving coordinates never starts a calculation. */
  lemma ResolutionCalculatesNothing(store: Store, answer: Option<string>, geo: Geocoder)
    ensures var r := GetUserCity(store, answer, geo);
            forall i | 0 <= i < |r.effects| :: !r.effects[i].Calculate?
  {
    if !HasCity(store) && Truthy(answer) {
      var lookup := FetchCoordinatesForCity(geo, answer.value);
      assert GetUserCity(store, answer, geo).effects == [Prompt(CITY_PROMPT)] + LookupEffects(answer.value, lookup);
    }
  }

  /** A single refresh asks for exactly one calculation, as its last effect. */
  lemma OneCalculation(store: Store, answer: Option<string>, env: Env, nowMs: int, status: StatusBar)
    ensures var u := UpdatePrayerTimes(store, answer, env.geo, env.calculate, nowMs, status);
            ExactlyOneCalculation(u.effects)
  {
    var u := UpdatePrayerTimes(store, answer, env.geo, env.calculate, nowMs, status);
    var r := GetUserCity(store, answer, env.geo);
    ResolutionCalculatesNothing(store, answer, env.geo);
    assert u.effects == r.effects + [Calculate(nowMs, r.coordinates, UMM_AL_QURA)];
    var i := |u.effects| - 1;
    assert u.effects[i].Calculate?;
    assert forall j | 0 <= j < |u.effects| && j != i :: u.effects[j] == r.effects[j];
  }

  /** One firing of a live interval: a countdown ticks (and keeps running even when
      the time is up); the hourly interval refreshes. A cleared handle never fires. */
  function Fire(x: Extension, env: Env, h: Handle, answer: Option<string>, nowMs: int): (y: Extension)
    ensures Valid(x) ==> Valid(y)
    ensures h !in x.timers ==> y == x
    ensures h in x.timers && x.timers[h].Countdown? ==>
      y == x.(status := Tick(x.status, x.timers[h].targetMs, nowMs, x.timers[h].prayer, x.timers[h].city))
    ensures h in x.timers && x.timers[h].Hourly? ==> y == Refresh(x, env, answer, nowMs)
  {
    if h !in x.timers then x
    else
      match x.timers[h]
      case Countdown(target, prayer, city) => x.(status := Tick(x.status, target, nowMs, prayer, city))
      case Hourly => Refresh(x, env, answer, nowMs)
  }

  /** A countdown whose time is up keeps firing without touching anything. */
  lemma ExpiredCountdownKeepsRunning(x: Extension, env: Env, h: Handle, answer: Option<string>, nowMs: int)
    requires h in x.timers && x.timers[h].Countdown? && x.timers[h].targetMs - nowMs < 1000
    ensures Fire(x, env, h, answer, nowMs) == x
  {
  }

  /** The change-city command: `changeCity` runs to completion, then a refresh; the
      effects of the change come before everything the refresh asks, and the
      countdown is restarted from the changed store. */
  function ChangeCityCommand(x: Extension, env: Env, newCity: Option<string>, answer: Option<string>, nowMs: int): (y: Extension)
    ensures Valid(x) ==> Valid(y)
    ensures var c := ChangeCity(x.store, newCity, env.geo);
            y.log == x.log + c.effects + UpdatePrayerTimes(c.store, answer, env.geo, env.calculate, nowMs, x.status).effects
    ensures var c := ChangeCity(x.store, newCity, env.geo);
            y == Refresh(x.(store := c.store, log := x.log + c.effects), env, answer, nowMs)
  {
    var c := ChangeCity(x.store, newCity, env.geo);
    var x' := x.(store := c.store, log := x.log + c.effects);
    assert Valid(x) ==> Valid(x');
    Refresh(x', env, answer, nowMs)
  }

  /** The refresh that follows a city change starts with a calculation when a city is
      stored by then, and with the first-run prompt when none is. */
  lemma RefreshAfterChangeStarts(x: Extension, env: Env, newCity: Option<string>, answer: Option<string>, nowMs: int)
    ensures var c := ChangeCity(x.store, newCity, env.geo);
            var y := ChangeCityCommand(x, env, newCity, answer, nowMs);
            && |y.log| > |x.log| + |c.effects|
            && y.log[|x.log| + |c.effects|]
                 == (if HasCity(c.store)
                     then Calculate(nowMs, StoredCoordinates(c.store).GetOr(FALLBACK_COORDINATES), UMM_AL_QURA)
                     else Prompt(CITY_PROMPT))
  {
    var c := ChangeCity(x.store, newCity, env.geo);
    var x' := x.(store := c.store, log := x.log + c.effects);
    var u := UpdatePrayerTimes(c.store, answer, env.geo, env.calculate, nowMs, x.status);
    var r := GetUserCity(c.store, answer, env.geo);
    assert ChangeCityCommand(x, env, newCity, answer, nowMs).log == x.log + c.effects + u.effects;
    assert u.effects == r.effects + [Calculate(nowMs, r.coordinates, UMM_AL_QURA)];
  }

  /** A city change with a name is followed by a refresh that does not ask again and
      computes for the newly geocoded coordinates. */
  lemma ChangeCityRefreshesForNewCity(x: Extension, env: Env, newCity: Option<string>, answer: Option<string>, nowMs: int)
    requires Valid(x) && Truthy(newCity)
    ensures var c := ChangeCity(x.store, newCity, env.geo);
            var looked := FetchCoordinatesForCity(env.geo, newCity.value);
            ChangeCityCommand(x, env, newCity, answer, nowMs).log
              == x.log + c.effects + [Calculate(nowMs, looked.coordinates, UMM_AL_QURA)]
  {
    ChangeThenResolve(x.store, newCity, answer, env.geo);
  }

  /** The disposable's `dispose`: clears the countdown, if any, and the hourly interval. */
  function Dispose(x: Extension): (y: Extension)
    ensures Valid(x) ==> Valid(y) && y.timers == map[]
    ensures x.countdown.Some? ==> x.countdown.value !in y.timers
    ensures x.hourly !in y.timers
    ensures y == x.(timers := y.timers)
  {
    var timers := if x.countdown.Some? then Clear(x.timers, x.countdown.value) else x.timers;
    x.(timers := Clear(timers, x.hourly))
  }

  // ---------------------------------------------------------------------------
  // Runs.

  /** Something that can happen to the activated extension. */
  datatype Event =
    | FireTimer(handle: Handle, answer: Option<string>, nowMs: int)
    | ChangeCityRequested(newCity: Option<string>, answer: Option<string>, nowMs: int)
    | Disposed

  function Step(x: Extension, env: Env, e: Event): (y: Extension)
    ensures Valid(x) ==> Valid(y)
    ensures y.hourly == x.hourly
  {
    match e
    case FireTimer(h, answer, nowMs) => Fire(x, env, h, answer, nowMs)
    case ChangeCityRequested(newCity, answer, nowMs) => ChangeCityCommand(x, env, newCity, answer, nowMs)
    case Disposed => Dispose(x)
  }

  /** Any sequence of events, in any order. This over-approximates the host, which
      cannot deliver a change-city command after disposal: the command's
      registration is disposed together with the intervals. */
  function Run(x: Extension, env: Env, events: seq<Event>): Extension
    decreases |events|
  {
    if |events| == 0 then x else Run(Step(x, env, events[0]), env, events[1..])
  }

  /** Whatever happens after activation, the bookkeeping holds, there is at most one
      live countdown, and at most one live hourly interval. */
  lemma {:induction false} RunKeepsTimersSound(x: Extension, env: Env, events: seq<Event>)
    requires Valid(x)
    ensures Valid(Run(x, env, events))
    ensures |LiveCountdowns(Run(x, env, events))| <= 1
    ensures var y := Run(x, env, events);
            forall h | h in y.timers && y.timers[h].Hourly? :: h == x.hourly
    decreases |events|
  {
    if |events| == 0 {
      AtMostOneCountdown(x);
    } else {
      RunKeepsTimersSound(Step(x, env, events[0]), env, events[1..]);
    }
  }

  /** Once disposed, firing changes nothing: no interval outlives disposal. This holds
      for atomic callbacks; a refresh suspended across `dispose` is not modelled. */
  lemma {:induction false} DisposedStaysQuiet(x: Extension, env: Env, fires: seq<Event>)
    requires x.timers == map[]
    requires forall i | 0 <= i < |fires| :: fires[i].FireTimer?
    ensures Run(x, env, fires) == x
    decreases |fires|
  {
    if |fires| > 0 {
      DisposedStaysQuiet(Step(x, env, fires[0]), env, fires[1..]);
    }
  }
}
