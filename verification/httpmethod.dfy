/** The HTTP request methods of the networking layer, their raw string
    values, and whether a response may come back without a body. */
module HttpMethods {
  import opened Results

  datatype Method = GET | POST | HEAD | PUT | DELETE | OPTIONS | TRACE | CONNECT

  /** Every case, in declaration order. */
  const ALL_METHODS: seq<Method> := [GET, POST, HEAD, PUT, DELETE, OPTIONS, TRACE, CONNECT]

  /** `rawValue`: the case name itself. */
  function RawValue(m: Method): (s: string)
    ensures |s| >= 3
  {
    match m
    case GET => "GET"
    case POST => "POST"
    case HEAD => "HEAD"
    case PUT => "PUT"
    case DELETE => "DELETE"
    case OPTIONS => "OPTIONS"
    case TRACE => "TRACE"
    case CONNECT => "CONNECT"
  }

  /** `init(rawValue:)`: exact, case-sensitive match on the case names. */
  function FromRawValue(s: string): (r: Option<Method>)
    ensures r.Some? ==> RawValue(r.value) == s
  {
    if s == "GET" then Some(GET)
    else if s == "POST" then Some(POST)
    else if s == "HEAD" then Some(HEAD)
    else if s == "PUT" then Some(PUT)
    else if s == "DELETE" then Some(DELETE)
    else if s == "OPTIONS" then Some(OPTIONS)
    else if s == "TRACE" then Some(TRACE)
    else if s == "CONNECT" then Some(CONNECT)
    else None
  }

  /** Where in the case list a method sits. */
  function Position(m: Method): (k: nat)
    ensures k < |ALL_METHODS| && ALL_METHODS[k] == m
  {
    match m
    case GET => 0
    case POST => 1
    case HEAD => 2
    case PUT => 3
    case DELETE => 4
    case OPTIONS => 5
    case TRACE => 6
    case CONNECT => 7
  }

  /** Raw values round-trip, and a string has a case exactly when it is
      some case's raw value. */
  lemma RawValueRoundTrip(m: Method, s: string)
    ensures FromRawValue(RawValue(m)) == Some(m)
    ensures FromRawValue(s).Some? <==> exists k :: 0 <= k < |ALL_METHODS| && RawValue(ALL_METHODS[k]) == s
  {
    match FromRawValue(s)
    case Some(found) =>
      assert RawValue(ALL_METHODS[Position(found)]) == s;
    case None =>
      forall k | 0 <= k < |ALL_METHODS| ensures RawValue(ALL_METHODS[k]) != s {
        assert FromRawValue(RawValue(ALL_METHODS[k])).Some?;
      }
  }

  /** There are exactly eight methods, each listed once. */
  lemma EightMethods(m: Method)
    ensures |ALL_METHODS| == 8
    ensures m in ALL_METHODS
    ensures forall i, j :: 0 <= i < j < |ALL_METHODS| ==> ALL_METHODS[i] != ALL_METHODS[j]
  {
  }

  /** `allowsEmptyResponseData`: only GET and POST insist on a body. */
  function AllowsEmptyResponseData(m: Method): (allowed: bool)
    ensures !allowed <==> m == GET || m == POST
  {
    match m
    case GET => false
    case POST => false
    case _ => true
  }

  lemma EmptyResponseRule(m: Method)
    ensures !AllowsEmptyResponseData(m) <==> m == GET || m == POST
    ensures |set k | 0 <= k < |ALL_METHODS| && AllowsEmptyResponseData(ALL_METHODS[k])| == 6
  {
    var allowed := set k | 0 <= k < |ALL_METHODS| && AllowsEmptyResponseData(ALL_METHODS[k]);
    assert allowed == {2, 3, 4, 5, 6, 7};
  }
}
