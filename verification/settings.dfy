/** The city-resolution policy of src/userSettings.ts over the host's
    per-user key-value store. The answer to the input box and the geocoding
    collaborators are inputs; what the code asks of the host is returned as effects. */
module Settings {
  import opened Types
  import opened Geocode

  const USER_CITY := "userCity"
  const USER_COORDINATES := "userCoordinates"

  const CITY_PROMPT := "Enter your city for prayer times"
  const NEW_CITY_PROMPT := "Enter a new city for prayer times"
  const NO_CITY_WARNING := "No city provided. Using Makkah as default."

  /** A stored value: the extension stores a city name and a coordinate record. */
  datatype Value = Text(text: string) | Record(coordinates: Coordinates)

  /** The host's global state: any keys, two of which this code reads and writes. */
  type Store = map<string, Value>

  function StoredCity(store: Store): Option<string> {
    if USER_CITY in store && store[USER_CITY].Text? then Some(store[USER_CITY].text) else None
  }

  function StoredCoordinates(store: Store): Option<Coordinates> {
    if USER_COORDINATES in store && store[USER_COORDINATES].Record? then Some(store[USER_COORDINATES].coordinates) else None
  }

  /** Under its two keys the store holds values of the types this code writes. */
  predicate WellTyped(store: Store) {
    && (USER_CITY in store ==> store[USER_CITY].Text?)
    && (USER_COORDINATES in store ==> store[USER_COORDINATES].Record?)
  }

  /** Writes the resolved city label and its coordinates; every other key is kept. */
  function Save(store: Store, c: Coordinates): (s: Store)
    ensures StoredCity(s) == Some(c.city) && StoredCoordinates(s) == Some(c)
    ensures s.Keys == store.Keys + {USER_CITY, USER_COORDINATES}
    ensures forall k | k in store && k != USER_CITY && k != USER_COORDINATES :: s[k] == store[k]
    ensures WellTyped(s)
  {
    store[USER_CITY := Text(c.city)][USER_COORDINATES := Record(c)]
  }

  /** The outcome of resolving coordinates: the value returned, the store after, the effects. */
  datatype Resolution = Resolution(coordinates: Coordinates, store: Store, effects: seq<Effect>)

  /** `if (!city)` on the stored city is false: a non-empty city is stored. */
  predicate HasCity(store: Store) {
    Truthy(StoredCity(store))
  }

  /** `getUserCity`: a stored city short-cuts to the stored coordinates; otherwise the
      user is asked, and a non-empty answer is geocoded and persisted. */
  function GetUserCity(store: Store, answer: Option<string>, geo: Geocoder): (r: Resolution)
    ensures HasCity(store) ==> r == Resolution(StoredCoordinates(store).GetOr(FALLBACK_COORDINATES), store, [])
    ensures !HasCity(store) && !Truthy(answer) ==>
      r == Resolution(FALLBACK_COORDINATES, store, [Prompt(CITY_PROMPT), ShowWarning(NO_CITY_WARNING)])
    ensures !HasCity(store) && Truthy(answer) ==>
      && r.coordinates == FetchCoordinatesForCity(geo, answer.value).coordinates
      && r.store == Save(store, r.coordinates)
      && |r.effects| >= 2
      && r.effects[..2] == [Prompt(CITY_PROMPT), GeocodeRequest(answer.value)]
      && r.effects == [Prompt(CITY_PROMPT)] + LookupEffects(answer.value, FetchCoordinatesForCity(geo, answer.value))
  {
    if HasCity(store) then
      Resolution(StoredCoordinates(store).GetOr(FALLBACK_COORDINATES), store, [])
    else if !Truthy(answer) then
      Resolution(FALLBACK_COORDINATES, store, [Prompt(CITY_PROMPT), ShowWarning(NO_CITY_WARNING)])
    else
      var lookup := FetchCoordinatesForCity(geo, answer.value);
      Resolution(lookup.coordinates, Save(store, lookup.coordinates),
                 [Prompt(CITY_PROMPT)] + LookupEffects(answer.value, lookup))
  }

  /** The outcome of `changeCity`: the store after, the effects. */
  datatype Change = Change(store: Store, effects: seq<Effect>)

  /** `changeCity`: always asks; an empty answer changes nothing, a non-empty one
      overwrites both keys with the geocoded result and confirms with the raw answer. */
  function ChangeCity(store: Store, answer: Option<string>, geo: Geocoder): (c: Change)
    ensures !Truthy(answer) ==> c == Change(store, [Prompt(NEW_CITY_PROMPT)])
    ensures Truthy(answer) ==>
      && c.store == Save(store, FetchCoordinatesForCity(geo, answer.value).coordinates)
      && |c.effects| >= 2
      && c.effects[0] == Prompt(NEW_CITY_PROMPT)
      && c.effects[|c.effects| - 1] == ShowInformation("City updated to " + answer.value)
      && c.effects == [Prompt(NEW_CITY_PROMPT)] + LookupEffects(answer.value, FetchCoordinatesForCity(geo, answer.value))
                      + [ShowInformation("City updated to " + answer.value)]
  {
    if Truthy(answer) then
      var lookup := FetchCoordinatesForCity(geo, answer.value);
      Change(Save(store, lookup.coordinates),
             [Prompt(NEW_CITY_PROMPT)] + LookupEffects(answer.value, lookup)
             + [ShowInformation("City updated to " + answer.value)])
    else
      Change(store, [Prompt(NEW_CITY_PROMPT)])
  }

  // ---------------------------------------------------------------------------
  // Properties.

  /** A resolution that asked and got a name persists the geocoded label, not the raw
      answer, and it does so even when the geocoder fell back to Makkah. */
  lemma PersistsGeocodedLabel(store: Store, answer: Option<string>, geo: Geocoder)
    requires !HasCity(store) && Truthy(answer)
    requires FetchCoordinatesForCity(geo, answer.value).failed
    ensures GetUserCity(store, answer, geo).store == Save(store, FALLBACK_COORDINATES)
    ensures StoredCity(GetUserCity(store, answer, geo).store) == Some("Makkah")
  {
  }

  /** Once a resolution has persisted a city, resolving again neither asks nor looks
      anything up, and returns the same coordinates from the same store. */
  lemma {:induction false} ResolutionIsIdempotent(store: Store, first: Option<string>, second: Option<string>, geo: Geocoder)
    requires HasCity(store) || Truthy(first)
    ensures var r1 := GetUserCity(store, first, geo);
            var r2 := GetUserCity(r1.store, second, geo);
            r2 == Resolution(r1.coordinates, r1.store, [])
  {
    var r1 := GetUserCity(store, first, geo);
    if !HasCity(store) {
      CityLabelNonEmpty(geo, first.value);
      assert HasCity(r1.store);
    }
  }

  /** After a city change with a name, the next resolution returns the newly geocoded
      coordinates without asking. */
  lemma ChangeThenResolve(store: Store, newCity: Option<string>, answer: Option<string>, geo: Geocoder)
    requires Truthy(newCity)
    ensures var c := ChangeCity(store, newCity, geo);
            GetUserCity(c.store, answer, geo)
              == Resolution(FetchCoordinatesForCity(geo, newCity.value).coordinates, c.store, [])
  {
    CityLabelNonEmpty(geo, newCity.value);
  }

  /** Neither operation ever stores a value of the wrong type under its keys. */
  lemma WellTypedPreserved(store: Store, answer: Option<string>, geo: Geocoder)
    requires WellTyped(store)
    ensures WellTyped(GetUserCity(store, answer, geo).store)
    ensures WellTyped(ChangeCity(store, answer, geo).store)
  {
  }
}
