/**
 The place-string rule of the geocoding worker: a reverse-geocoding answer with an
 address becomes `"<city>, <state>"` for the United States and `"<city>, <country>"`
 elsewhere; an answer without an address becomes null. The HTTP request to the
 geocoding service is not modelled; its settled outcome is an input.
 */
module Geocode {
  import opened Wrappers
  import opened Catalog

  /** The fields of the answer's `address` object that the rule reads. */
  datatype Address = Address(city: Option<string>, state: Option<string>, country: Option<string>, countryCode: Option<string>)

  /** How the request settles: an answer (`data && data.address` may be absent) or a rejection. */
  datatype GeoResponse = Answered(address: Option<Address>) | RequestFailed

  /** A template literal renders a missing field as `undefined`. */
  function Text(field: Option<string>): string {
    if field.Some? then field.value else "undefined"
  }

  /** The region half of the place string: the state for `us`, the country otherwise. */
  function Region(a: Address): (region: string)
    ensures a.countryCode == Some("us") ==> region == Text(a.state)
    ensures a.countryCode != Some("us") ==> region == Text(a.country)
  {
    if a.countryCode == Some("us") then Text(a.state) else Text(a.country)
  }

  /** `${city}, ${region}`. */
  function PlaceString(a: Address): (place: string)
    ensures |place| == |Text(a.city)| + 2 + |Region(a)|
    ensures place[..|Text(a.city)|] == Text(a.city)
    ensures place[|Text(a.city)|..|Text(a.city)| + 2] == ", "
    ensures place[|Text(a.city)| + 2..] == Region(a)
  {
    Text(a.city) + ", " + Region(a)
  }

  /** The value written back to `location`: the place string, or null without an address. */
  function Resolved(address: Option<Address>): (location: Option<string>)
    ensures address.None? ==> location == None
    ensures address.Some? ==> location == Some(PlaceString(address.value))
  {
    if address.Some? then Some(PlaceString(address.value)) else None
  }

  /** A city name that does not itself begin with `{` (every real one). */
  predicate PlainCity(address: Option<Address>) {
    address.None? || |Text(address.value.city)| == 0 || Text(address.value.city)[0] != '{'
  }

  /** The written value never reads as a pending marker, so a resolved row is not picked again. */
  lemma ResolvedNotPending(address: Option<Address>)
    requires PlainCity(address)
    ensures !IsPending(Resolved(address))
  {
    if address.Some? {
      var place := PlaceString(address.value);
      if |Text(address.value.city)| == 0 {
        assert place[0] == ',';
      } else {
        assert place[0] == Text(address.value.city)[0];
      }
    }
  }
}
