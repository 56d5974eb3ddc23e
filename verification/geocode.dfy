/** How `fetchCoordinatesForCity` (src/utils.ts) turns the geocoding
    service's reply into coordinates, falling back to Makkah on any failure. */
module Geocode {
  import opened Types

  /** What the HTTP exchange produced: a transport failure, or a reply with its
      `ok` flag and its decoded JSON body (`None` when the body is not a JSON object). */
  datatype HttpReply = NetworkFailure | Reply(ok: bool, body: Option<GeocodeResponse>)

  /** The collaborators the lookup calls but does not define: what the service
      answers for a city, and `parseFloat`. */
  datatype Geocoder = Geocoder(reply: string -> HttpReply, parseFloat: string -> real)

  /** The coordinates handed back, and whether the fallback path was taken. */
  datatype Lookup = Lookup(coordinates: Coordinates, failed: bool)

  /** A reply the lookup accepts: OK status, a body, and non-empty `latt` and `longt`. */
  predicate Usable(reply: HttpReply) {
    && reply.Reply?
    && reply.ok
    && reply.body.Some?
    && Truthy(reply.body.value.latt)
    && Truthy(reply.body.value.longt)
  }

  /** The geocoder's own city name when it gives a non-empty one. */
  function StandardCity(data: GeocodeResponse): Option<string> {
    match data.standard
    case Some(Standard(city)) => city
    case None => None
  }

  /** The city label of an accepted reply: `data?.standard?.city || city`. */
  function CityLabel(data: GeocodeResponse, city: string): string {
    if Truthy(StandardCity(data)) then StandardCity(data).value else city
  }

  /** The message shown when the lookup falls back. */
  function FailureMessage(city: string): string {
    "Could not fetch coordinates for " + city + ". Using Makkah as default."
  }

  /** Interprets one reply for the requested `city`. */
  function InterpretReply(city: string, reply: HttpReply, parseFloat: string -> real): (l: Lookup)
    ensures l.failed <==> !Usable(reply)
    ensures l.failed ==> l.coordinates == FALLBACK_COORDINATES
    ensures !l.failed ==>
      && l.coordinates.latitude == parseFloat(reply.body.value.latt.value)
      && l.coordinates.longitude == parseFloat(reply.body.value.longt.value)
    ensures !l.failed && Truthy(StandardCity(reply.body.value)) ==> l.coordinates.city == StandardCity(reply.body.value).value
    ensures !l.failed && !Truthy(StandardCity(reply.body.value)) ==> l.coordinates.city == city
  {
    match reply
    case NetworkFailure => Lookup(FALLBACK_COORDINATES, true)
    case Reply(ok, body) =>
      if !ok then Lookup(FALLBACK_COORDINATES, true)
      else
        match body
        case None => Lookup(FALLBACK_COORDINATES, true)
        case Some(data) =>
          if !Truthy(data.latt) || !Truthy(data.longt) then Lookup(FALLBACK_COORDINATES, true)
          else Lookup(Coordinates(parseFloat(data.latt.value), parseFloat(data.longt.value), CityLabel(data, city)), false)
  }

  /** `fetchCoordinatesForCity(city)`: one request, then interpretation of the reply. */
  function FetchCoordinatesForCity(geo: Geocoder, city: string): Lookup {
    InterpretReply(city, geo.reply(city), geo.parseFloat)
  }

  /** What the lookup asks of the outside world: one request, then an error
      message naming the city if it fell back. */
  function LookupEffects(city: string, l: Lookup): (e: seq<Effect>)
    ensures |e| >= 1 && e[0] == GeocodeRequest(city)
    ensures |e| == if l.failed then 2 else 1
    ensures ShowError(FailureMessage(city)) in e <==> l.failed
  {
    [GeocodeRequest(city)] + (if l.failed then [ShowError(FailureMessage(city))] else [])
  }

  /** A lookup for a non-empty city name always labels its result with a
      non-empty city, whichever path it takes. */
  lemma CityLabelNonEmpty(geo: Geocoder, city: string)
    requires city != ""
    ensures FetchCoordinatesForCity(geo, city).coordinates.city != ""
  {
  }

  /** A lookup for "Nowhere" that the service cannot answer yields exactly Makkah. */
  lemma FailedLookupIsMakkah(geo: Geocoder)
    requires geo.reply("Nowhere") == NetworkFailure
    ensures FetchCoordinatesForCity(geo, "Nowhere").coordinates == Coordinates(21.42251, 39.826168, "Makkah")
  {
  }
}
