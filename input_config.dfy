/** The run's configuration: a JSON object that must carry every known
    parameter, where the required ones may not be the empty string. */
module InputConfig {

  import opened Wrappers

  /** A parsed JSON value. */
  datatype JsonValue =
    | JNull
    | JBool(b: bool)
    | JNumber(n: int)
    | JString(s: string)
    | JArray(items: seq<JsonValue>)
    | JObject(fields: map<string, JsonValue>)

  type Config = map<string, JsonValue>

  /** Every parameter the configuration must name, in the order they are checked. */
  const AllInputParams: seq<string> :=
    ["sourceIp", "username", "hostname", "password", "domain", "include", "exclude", "log_level"]

  /** The parameters that may not be given as the empty string. */
  const RequiredInputParams: seq<string> :=
    ["sourceIp", "hostname", "username", "password", "include", "exclude"]

  /** A parameter fails the check when it is absent, or required and "". */
  predicate Rejects(data: Config, param: string)
    ensures param in data && param !in RequiredInputParams ==> !Rejects(data, param)
    ensures param !in data ==> Rejects(data, param)
  {
    param !in data || (param in RequiredInputParams && data[param] == JString(""))
  }

  /** The first of `params` that fails the check: the one the error names. */
  function FirstRejected(data: Config, params: seq<string>): (r: Option<string>)
    ensures r.None? <==> forall i :: 0 <= i < |params| ==> !Rejects(data, params[i])
    ensures r.Some? ==> exists i ::
      && 0 <= i < |params| && params[i] == r.value && Rejects(data, params[i])
      && forall j :: 0 <= j < i ==> !Rejects(data, params[j])
  {
    if params == [] then None
    else if Rejects(data, params[0]) then Some(params[0])
    else
      var r := FirstRejected(data, params[1..]);
      assert forall i :: 1 <= i < |params| ==> params[1..][i - 1] == params[i];
      r
  }

  /** A configuration is accepted when no known parameter fails the check. */
  predicate Accepted(data: Config)
    ensures Accepted(data) <==> forall i :: 0 <= i < |AllInputParams| ==> !Rejects(data, AllInputParams[i])
  {
    forall p :: p in AllInputParams ==> p in data && (p in RequiredInputParams ==> data[p] != JString(""))
  }

  /** get_input_details, after the file is read: `parsed` is None when the
      text is not JSON. The second result is the parameter the error names. */
  method GetInputDetails(parsed: Option<Config>) returns (result: Option<Config>, missing: Option<string>)
    ensures parsed.None? ==> result.None? && missing.None?
    ensures parsed.Some? ==> missing == FirstRejected(parsed.value, AllInputParams)
    ensures parsed.Some? ==> (result.Some? <==> Accepted(parsed.value))
    ensures result.Some? ==> parsed.Some? && result.value == parsed.value
  {
    missing := None;
    if parsed.None? {
      return None, None;
    }
    var data := parsed.value;
    var validInput := true;
    var i := 0;
    while i < |AllInputParams|
      invariant 0 <= i <= |AllInputParams|
      invariant validInput && missing.None?
      invariant forall j :: 0 <= j < i ==> !Rejects(data, AllInputParams[j])
    {
      var param := AllInputParams[i];
      if param !in data || (param in RequiredInputParams && data[param] == JString("")) {
        missing := Some(param);
        validInput := false;
        break;
      }
      i := i + 1;
    }
    AcceptedByFirstRejected(data);
    if validInput {
      result := Some(data);
    } else {
      result := None;
    }
  }

  /** Acceptance is exactly the absence of a rejected parameter. */
  lemma AcceptedByFirstRejected(data: Config)
    ensures Accepted(data) <==> FirstRejected(data, AllInputParams).None?
  {
    if Accepted(data) {
      assert forall i :: 0 <= i < |AllInputParams| ==> AllInputParams[i] in AllInputParams;
    } else {
      var p :| p in AllInputParams && !(p in data && (p in RequiredInputParams ==> data[p] != JString("")));
      var i :| 0 <= i < |AllInputParams| && AllInputParams[i] == p;
      assert Rejects(data, AllInputParams[i]);
    }
  }

  /** A configuration whose every parameter is "" is refused, and the error
      names the first parameter checked. */
  lemma AllEmptyRejected(data: Config)
    requires forall p :: p in AllInputParams ==> p in data && data[p] == JString("")
    ensures !Accepted(data)
    ensures FirstRejected(data, AllInputParams) == Some("sourceIp")
  {
    assert Rejects(data, AllInputParams[0]);
  }
}
