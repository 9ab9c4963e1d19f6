/** `handleSearch`: a search with a location leads to the listings page, with
    the four form values in its query string; one without is refused. */
module Search {
  import opened Wrappers
  import opened JsText
  import opened UriComponent
  import opened Feedback

  /** The four values read from the search form: the text field, the two date
      fields and the select. */
  datatype SearchQuery = SearchQuery(location: string, checkin: string, checkout: string, guests: string)

  const LocationPrefix := "listings.html?location="
  const MissingLocation := "Please enter a location to search."

  /** The listings URL: the location passed through `encodeURIComponent`, the
      dates and the guest count inserted as they are. */
  function SearchUrl(q: SearchQuery): string {
    LocationPrefix + Encode(q.location) + "&" + RawParams(q)
  }

  /** The rest of the query string after the location: the dates and the
      guest count, unencoded. */
  function RawParams(q: SearchQuery): string {
    "checkin=" + q.checkin + "&checkout=" + q.checkout + "&guests=" + q.guests
  }

  /** `handleSearch` once the form has been read: it goes on exactly when
      `location.trim()` is not empty, that is when the location holds a
      character that is not white space; it then logs the four values, shows a
      confirmation naming the location and the guests, and navigates to the
      listings URL. Otherwise it shows the missing-location message and stays. */
  function HandleSearch(q: SearchQuery): (r: Outcome)
    ensures r.Navigate? <==> !AllWhiteSpace(q.location)
    ensures r.Navigate? ==> r.url == SearchUrl(q)
    ensures r.Navigate? ==> r.message == "Searching for properties in " + q.location + " for " + q.guests
    ensures r.Reject? ==> r.message == MissingLocation
  {
    TrimEmptyIff(q.location);
    if Trim(q.location) != [] then
      var log := LogRecord("Search parameters:",
        [("location", q.location), ("checkin", q.checkin), ("checkout", q.checkout), ("guests", q.guests)]);
      Navigate(log, "Searching for properties in " + q.location + " for " + q.guests, SearchUrl(q))
    else
      Reject(MissingLocation)
  }

  /** The longest prefix of `s` without `c`. */
  function TakeUntil(s: string, c: char): (r: string)
    ensures |r| <= |s| && r == s[..|r|]
    ensures forall k :: 0 <= k < |r| ==> r[k] != c
    ensures |r| < |s| ==> s[|r|] == c
  {
    if s == [] || s[0] == c then [] else [s[0]] + TakeUntil(s[1..], c)
  }

  /** A reader for the `location` parameter of a listings URL: the text after
      `location=` up to the first `&`, percent-decoded. */
  function LocationParam(url: string): Option<string> {
    if |url| >= |LocationPrefix| && url[..|LocationPrefix|] == LocationPrefix
    then Decode(TakeUntil(url[|LocationPrefix|..], '&'))
    else None
  }

  lemma DropPrefix(a: string, b: string)
    ensures |a + b| >= |a| && (a + b)[..|a|] == a && (a + b)[|a|..] == b
  {
  }

  lemma TakeUntilStopsAt(e: string, c: char, rest: string)
    requires forall k :: 0 <= k < |e| ==> e[k] != c
    ensures TakeUntil(e + [c] + rest, c) == e
  {
    var s := e + [c] + rest;
    assert s[|e|] == c;
    assert forall k :: 0 <= k < |e| ==> s[k] == e[k];
  }

  /** The encoded location never holds a character that would end or split a
      query parameter: no `&`, `=`, `?` or `#`. */
  lemma EncodedLocationIsQuerySafe(location: string)
    ensures forall k :: 0 <= k < |Encode(location)| ==>
              Encode(location)[k] !in {'&', '=', '?', '#'}
  {
    EncodeIsPercentEncoded(location);
    PercentEncodedAlphabet(Encode(location));
  }

  /** Reading the `location` parameter back from the listings URL gives the
      location that was typed, whatever the other three values are. */
  lemma SearchUrlLocationRoundTrip(q: SearchQuery)
    ensures LocationParam(SearchUrl(q)) == Some(q.location)
  {
    var e := Encode(q.location);
    var url := SearchUrl(q);
    assert url == LocationPrefix + (e + ['&'] + RawParams(q));
    DropPrefix(LocationPrefix, e + ['&'] + RawParams(q));
    EncodedLocationIsQuerySafe(q.location);
    TakeUntilStopsAt(e, '&', RawParams(q));
    DecodeEncode(q.location);
  }

  /** A blank or white-space-only location is refused without navigation. */
  lemma BlankLocationExamples(checkin: string, checkout: string, guests: string)
    ensures HandleSearch(SearchQuery("", checkin, checkout, guests)) == Reject(MissingLocation)
    ensures HandleSearch(SearchQuery(" \t ", checkin, checkout, guests)) == Reject(MissingLocation)
  {
  }

  /** The space in a location is written `%20`; letters stay as they are. */
  lemma EncodeLocationExample()
    ensures Encode("Kigali City") == "Kigali%20City"
  {
    var kigali, space, city := "Kigali", " ", "City";
    EncodeAppend(kigali + space, city);
    EncodeAppend(kigali, space);
    assert kigali + space + city == "Kigali City";
    assert Encode(kigali) == kigali && Encode(city) == city;
    assert Encode(space) == "%20";
    assert kigali + "%20" + city == "Kigali%20City";
  }
}
