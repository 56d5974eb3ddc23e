/** Records and constants shared by the extension's components
    (src/types.ts and src/constants.ts). */
module Types {

  /** A value that may be absent: `undefined` / `null` on the TypeScript side. */
  datatype Option<+T> = None | Some(value: T) {
    /** The value, or `default` when absent (the `x || default` idiom for objects). */
    function GetOr(default: T): T {
      match this
      case Some(v) => v
      case None => default
    }
  }

  /** JavaScript truthiness of a `string | undefined`: present and non-empty. */
  predicate Truthy(s: Option<string>) {
    s.Some? && s.value != ""
  }

  /** A resolved location. Latitude and longitude are only carried, never computed on. */
  datatype Coordinates = Coordinates(latitude: real, longitude: real, city: string)

  /** The location used whenever a city cannot be resolved. */
  const FALLBACK_COORDINATES := Coordinates(21.42251, 39.826168, "Makkah")

  /** Period of the countdown interval, in milliseconds. */
  const UPDATE_INTERVAL: nat := 5000

  /** Period of the full refresh, in milliseconds (one hour). */
  const HOURLY_UPDATE_INTERVAL: nat := 60 * 60 * 1000

  /** The `standard` sub-object of a geocoding reply. */
  datatype Standard = Standard(city: Option<string>)

  /** The decoded JSON body of a geocoding reply; every field is optional. */
  datatype GeocodeResponse = GeocodeResponse(latt: Option<string>, longt: Option<string>, standard: Option<Standard>)

  /** The next prayer and the whole seconds left until it, for one city. */
  datatype PrayerData = PrayerData(name: string, remainingSeconds: int, city: string)

  /** The options handed to the prayer-time calculation. */
  datatype CalculationOptions = CalculationOptions(convention: string, hanafiAsr: bool)

  /** The status bar item: its text and whether it has been shown. */
  datatype StatusBar = StatusBar(text: string, visible: bool)

  /** What the extension asks of its host and collaborators, in order. */
  datatype Effect =
    | Prompt(message: string)
    | GeocodeRequest(city: string)
    | ShowError(message: string)
    | ShowWarning(message: string)
    | ShowInformation(message: string)
    | Calculate(nowMs: int, coordinates: Coordinates, options: CalculationOptions)
}
