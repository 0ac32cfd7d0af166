/**
  The status handling of the two lookups, findAddressInfo and validateAddress,
  once the provider has answered. The HTTP request itself is not modelled: each
  lookup is a function of the decoded reply body, a status string and the list
  of results.
*/
module Geocoding {
  import opened Wrappers
  import opened AddressComponents

  /** One geocoded result; only its address components are read here. */
  datatype GeocodeResult = GeocodeResult(addressComponents: seq<Component>)

  /** The reply body: the provider's status code and its results, best first. */
  datatype GeocodeResponse<R> = GeocodeResponse(status: string, results: seq<R>)

  const StatusOk: string := "OK"
  const ValidatePrefix: string := "Error validating address: "
  const FindPrefix: string := "Error finding address info: "
  const GeocodingPrefix: string := "Geocoding error: "

  /** The error raised inside the lookup for a status other than OK. */
  function GeocodingError(status: string): (r: string)
  {
    GeocodingPrefix + status
  }

  /**
    validateAddress: on OK the first result, which is undefined (None) when the
    list is empty; otherwise the status error, rewrapped by the catch block.
  */
  function ValidateAddress<R>(response: GeocodeResponse<R>): (r: Result<Option<R>, string>)
  {
    if response.status == StatusOk then
      Success(if |response.results| > 0 then Some(response.results[0]) else None)
    else
      Failure(ValidatePrefix + GeocodingError(response.status))
  }

  /**
    findAddressInfo: on OK the city, state and country parsed from the first
    result's components; otherwise the status error, rewrapped by the catch
    block. On OK with no result, reading address_components of undefined
    raises a TypeError inside the try; its message text comes from the
    JavaScript engine and is the parameter `typeErrorMessage`.
  */
  function FindAddressInfo(response: GeocodeResponse<GeocodeResult>, typeErrorMessage: string): (r: Result<ParsedAddress, string>)
  {
    if response.status != StatusOk then
      Failure(FindPrefix + GeocodingError(response.status))
    else if |response.results| == 0 then
      Failure(FindPrefix + typeErrorMessage)
    else
      var address := Parse(response.results[0].addressComponents);
      Success(ParsedAddress(address.city, address.state, address.country))
  }

  /** The text that follows `prefix` in `message`, if `message` starts with it. */
  function After(prefix: string, message: string): (r: Option<string>)
    ensures r.Some? ==> message == prefix + r.value
    ensures r.None? <==> !(|prefix| <= |message| && message[..|prefix|] == prefix)
  {
    if |prefix| <= |message| && message[..|prefix|] == prefix then
      assert message == message[..|prefix|] + message[|prefix|..];
      Some(message[|prefix|..])
    else
      None
  }

  lemma AfterConcat(prefix: string, rest: string)
    ensures After(prefix, prefix + rest) == Some(rest)
  {
    assert (prefix + rest)[..|prefix|] == prefix;
    assert (prefix + rest)[|prefix|..] == rest;
  }

  // ---------------------------------------------------------------------------
  // Outcomes of findAddressInfo

  /** Success exactly on status OK with at least one result, and then the record parsed from the first result. */
  lemma FindAddressInfoOutcome(response: GeocodeResponse<GeocodeResult>, typeErrorMessage: string)
    ensures FindAddressInfo(response, typeErrorMessage).Success? <==> response.status == "OK" && |response.results| > 0
    ensures FindAddressInfo(response, typeErrorMessage).Success? ==>
      FindAddressInfo(response, typeErrorMessage).value == Parse(response.results[0].addressComponents)
    ensures response.status != "OK" ==>
      FindAddressInfo(response, typeErrorMessage) == Failure("Error finding address info: Geocoding error: " + response.status)
    ensures response.status == "OK" && response.results == [] ==>
      FindAddressInfo(response, typeErrorMessage) == Failure("Error finding address info: " + typeErrorMessage)
  {
    if response.status == StatusOk && |response.results| > 0 {
      var a := Parse(response.results[0].addressComponents);
      assert ParsedAddress(a.city, a.state, a.country) == a;
    } else if response.status != StatusOk {
      assert FindPrefix + GeocodingError(response.status)
        == "Error finding address info: Geocoding error: " + response.status;
    }
  }

  /** The provider's status can be read back from the failure message. */
  lemma FindAddressInfoNamesStatus(response: GeocodeResponse<GeocodeResult>, typeErrorMessage: string)
    requires response.status != "OK"
    ensures FindAddressInfo(response, typeErrorMessage).Failure?
    ensures After("Error finding address info: Geocoding error: ", FindAddressInfo(response, typeErrorMessage).error)
      == Some(response.status)
  {
    assert FindPrefix + GeocodingError(response.status)
      == "Error finding address info: Geocoding error: " + response.status;
    AfterConcat("Error finding address info: Geocoding error: ", response.status);
  }

  /** A ZERO_RESULTS reply fails with a message that carries the status literally. */
  lemma ZeroResultsExample(results: seq<GeocodeResult>, typeErrorMessage: string)
    ensures FindAddressInfo(GeocodeResponse("ZERO_RESULTS", results), typeErrorMessage)
      == Failure("Error finding address info: Geocoding error: ZERO_RESULTS")
  {
    assert "ZERO_RESULTS" != StatusOk by {
      assert "ZERO_RESULTS"[0] != StatusOk[0];
    }
    FindAddressInfoOutcome(GeocodeResponse("ZERO_RESULTS", results), typeErrorMessage);
    assert "Error finding address info: Geocoding error: " + "ZERO_RESULTS"
      == "Error finding address info: Geocoding error: ZERO_RESULTS";
  }

  // ---------------------------------------------------------------------------
  // Outcomes of validateAddress, and how the two lookups agree

  /** Success exactly on status OK, carrying the first result when there is one. */
  lemma ValidateAddressOutcome<R>(response: GeocodeResponse<R>)
    ensures ValidateAddress(response).Success? <==> response.status == "OK"
    ensures ValidateAddress(response) == Success(None) <==> response.status == "OK" && response.results == []
    ensures forall x :: ValidateAddress(response) == Success(Some(x)) <==>
      response.status == "OK" && |response.results| > 0 && x == response.results[0]
    ensures response.status != "OK" ==>
      ValidateAddress(response) == Failure("Error validating address: Geocoding error: " + response.status)
    ensures response.status != "OK" ==>
      After("Error validating address: Geocoding error: ", ValidateAddress(response).error) == Some(response.status)
  {
    if response.status != StatusOk {
      assert ValidatePrefix + GeocodingError(response.status)
        == "Error validating address: Geocoding error: " + response.status;
      AfterConcat("Error validating address: Geocoding error: ", response.status);
    }
  }

  /**
    For the same reply, findAddressInfo succeeds exactly when validateAddress
    yields a result, and then returns the parse of that result; their status
    failures carry the same geocoding error.
  */
  lemma LookupsAgree(response: GeocodeResponse<GeocodeResult>, typeErrorMessage: string)
    ensures FindAddressInfo(response, typeErrorMessage).Success? <==>
      ValidateAddress(response).Success? && ValidateAddress(response).value.Some?
    ensures FindAddressInfo(response, typeErrorMessage).Success? ==>
      FindAddressInfo(response, typeErrorMessage).value
        == Parse(ValidateAddress(response).value.value.addressComponents)
    ensures ValidateAddress(response).Failure? ==>
      FindAddressInfo(response, typeErrorMessage).Failure? &&
      After("Error finding address info: ", FindAddressInfo(response, typeErrorMessage).error)
        == Some("Geocoding error: " + response.status) &&
      After("Error validating address: ", ValidateAddress(response).error)
        == Some("Geocoding error: " + response.status)
  {
    FindAddressInfoOutcome(response, typeErrorMessage);
    if response.status != StatusOk {
      AfterConcat(FindPrefix, GeocodingError(response.status));
      AfterConcat(ValidatePrefix, GeocodingError(response.status));
    }
  }
}
