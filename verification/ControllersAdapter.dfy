/** Request-parameter helpers shared by the HTTP handlers: comma-separated
    lists, integers with a default, the language code and identifiers. */
module ControllersAdapter {
  import opened Common
  import opened Strings

  const DefaultLang: string := "en"
  const DefaultNbIdsList: int := 30
  const DefaultLimitWords: int := 15
  const DefaultOffsetWords: int := 0

  /** HTTP 400 Bad Request. */
  const StatusBadRequest: nat := 400

  /** The parts of a request the helpers read: the path parameters bound by
      the route pattern and the query string. */
  datatype Request = Request(pathParams: map<string, string>, query: map<string, string>)

  /** A path parameter; the empty string when the route binds none of that
      name. */
  function Param(req: Request, name: string): string
  {
    if name in req.pathParams then req.pathParams[name] else ""
  }

  /** A query parameter; the empty string when absent. */
  function Query(req: Request, name: string): string
  {
    if name in req.query then req.query[name] else ""
  }

  /** A comma-separated query parameter as its list of items: nothing for an
      empty value, otherwise every piece between commas, in order, empty
      pieces included. */
  function GetQueryParamList(req: Request, name: string): (r: seq<string>)
    ensures Query(req, name) == "" ==> r == []
    ensures Query(req, name) != "" ==>
      && |r| == Count(Query(req, name), ',') + 1
      && (forall i :: 0 <= i < |r| ==> ',' !in r[i])
      && Join(r, ",") == Query(req, name)
  {
    var raw := Query(req, name);
    if raw == "" then [] else Split(raw, ',')
  }

  /** A list without commas and not reduced to one empty item survives being
      sent as a comma-separated parameter. */
  lemma QueryParamListRoundTrip(items: seq<string>, name: string)
    requires |items| > 0 && items != [""]
    requires forall i :: 0 <= i < |items| ==> ',' !in items[i]
    ensures GetQueryParamList(Request(map[], map[name := Join(items, ",")]), name) == items
  {
    SplitJoin(items, ',');
    if |items| == 1 {
      assert Join(items, ",") == items[0];
    } else {
      assert |Join(items, ",")| >= 1;
    }
  }

  /** What an integer parameter read produces: the value returned, the error
      returned, and the status of an error response written to the client,
      if any. */
  datatype IntParam = IntParam(value: int, error: Option<string>, response: Option<nat>)

  /** The integer helper as the handlers have it: it reads the PATH
      parameter of that name and, for a negative number, writes a 400
      response yet returns zero with no error. */
  function GetQueryParamIntAsWritten(req: Request, name: string, defaultValue: int): (r: IntParam)
    ensures Param(req, name) == "" && defaultValue >= 0 ==> r == IntParam(defaultValue, None, None)
    ensures r.response.Some? ==> r.response.value == StatusBadRequest && r.value == 0
    ensures r.error.Some? ==> r.response.Some?
    ensures r.response.None? ==> r.value >= 0
    ensures Param(req, name) != "" ==>
      (r.error.Some? <==> Atoi(Param(req, name)).Err?)
    ensures Param(req, name) != "" && Atoi(Param(req, name)).Err? ==>
      r.response == Some(StatusBadRequest) && r.value == 0
    ensures Param(req, name) != "" && Atoi(Param(req, name)).Ok? ==>
      var n := Atoi(Param(req, name)).value;
      && (n < 0 ==> r == IntParam(0, None, Some(StatusBadRequest)))
      && (n >= 0 ==> r == IntParam(n, None, None))
    ensures Param(req, name) == "" && defaultValue < 0 ==> r == IntParam(0, None, Some(StatusBadRequest))
  {
    var raw := Param(req, name);
    var parsed := if raw != "" then Atoi(raw) else Ok(defaultValue);
    match parsed
    case Err(e) => IntParam(0, Some(e), Some(StatusBadRequest))
    case Ok(n) =>
      if n < 0 then IntParam(0, None, Some(StatusBadRequest))
      else IntParam(n, None, None)
  }

  /** The error message written for a rejected integer parameter. */
  function InvalidParameter(name: string): string
  {
    "Invalid '" + name + "' parameter"
  }

  /** The integer helper as its name and documentation describe it: it reads
      the QUERY parameter, and every rejection both writes a 400 response
      and returns an error. */
  function GetQueryParamInt(req: Request, name: string, defaultValue: int): (r: IntParam)
    ensures r.error.None? <==> r.response.None?
    ensures r.response.Some? ==> r.response.value == StatusBadRequest && r.value == 0
    ensures r.error.None? ==> r.value >= 0
    ensures Query(req, name) == "" ==>
      (r.error.None? <==> defaultValue >= 0) && (defaultValue >= 0 ==> r.value == defaultValue)
    ensures Query(req, name) != "" ==>
      (r.error.None? <==> Atoi(Query(req, name)).Ok? && Atoi(Query(req, name)).value >= 0)
      && (r.error.None? ==> r.value == Atoi(Query(req, name)).value)
  {
    var raw := Query(req, name);
    var parsed := if raw != "" then Atoi(raw) else Ok(defaultValue);
    match parsed
    case Err(e) => IntParam(0, Some(e), Some(StatusBadRequest))
    case Ok(n) =>
      if n < 0 then IntParam(0, Some(InvalidParameter(name)), Some(StatusBadRequest))
      else IntParam(n, None, None)
  }

  /** Every non-negative 64-bit number sent as the query parameter is read
      back as itself. */
  lemma GetQueryParamIntReadsWhatWasSent(name: string, defaultValue: int, n: int)
    requires 0 <= n <= MaxInt64
    ensures GetQueryParamInt(Request(map[], map[name := Itoa(n)]), name, defaultValue) == IntParam(n, None, None)
  {
    AtoiItoa(n);
  }

  /** A negative number is answered with a 400 while the caller is told
      there was no error, so it carries on with zero. */
  lemma NegativeIntAcceptedWithoutError()
    ensures GetQueryParamIntAsWritten(Request(map["nb" := "-1"], map[]), "nb", DefaultNbIdsList)
      == IntParam(0, None, Some(StatusBadRequest))
  {
    assert Atoi("-1") == Ok(-1) by {
      assert "-1"[1..] == "1";
      assert DigitsValue("1") == 1 by {
        assert "1"[..0] == "";
      }
    }
  }

  /** The word-identifier route `/words/q` binds no path parameter, so the
      requested count in its query string is never seen: the helper always
      falls back to the default, where the query-reading helper returns the
      requested count. */
  lemma RequestedCountIgnoredOnQuizRoute(n: int)
    requires 0 <= n <= MaxInt64
    ensures var req := Request(map[], map["nb" := Itoa(n)]);
      && GetQueryParamIntAsWritten(req, "nb", DefaultNbIdsList) == IntParam(DefaultNbIdsList, None, None)
      && GetQueryParamInt(req, "nb", DefaultNbIdsList) == IntParam(n, None, None)
  {
    AtoiItoa(n);
  }

  /** The language code: the query's `lang`, or English when absent. */
  function GetQueryParamLang(req: Request): (lang: string)
    ensures lang != ""
    ensures Query(req, "lang") != "" ==> lang == Query(req, "lang")
    ensures Query(req, "lang") == "" ==> lang == DefaultLang
  {
    var lang := Query(req, "lang");
    if lang == "" then DefaultLang else lang
  }

  /** A UUID parser, `uuid.Parse`: `None` where it reports an error. */
  type UuidParser = string -> Option<Uuid>

  /** Parses one identifier, giving the nil identifier and `false` on
      failure. */
  function ParseUuid(parse: UuidParser, id: string): (r: (Uuid, bool))
    ensures r.1 <==> parse(id).Some?
    ensures r.1 ==> parse(id) == Some(r.0)
    ensures !r.1 ==> r.0 == NilUuid
  {
    match parse(id)
    case None => (NilUuid, false)
    case Some(u) => (u, true)
  }

  /** Parses every identifier, all or nothing: the first failure gives no
      list and `false`. */
  method ParseUuids(parse: UuidParser, ids: seq<string>) returns (parsed: seq<Uuid>, ok: bool)
    ensures ok <==> forall i :: 0 <= i < |ids| ==> parse(ids[i]).Some?
    ensures ok ==> |parsed| == |ids| && forall i :: 0 <= i < |ids| ==> parse(ids[i]) == Some(parsed[i])
    ensures !ok ==> parsed == []
  {
    parsed := [];
    var i := 0;
    while i < |ids|
      invariant 0 <= i <= |ids| && |parsed| == i
      invariant forall k :: 0 <= k < i ==> parse(ids[k]) == Some(parsed[k])
    {
      var current := ParseUuid(parse, ids[i]);
      if !current.1 {
        return [], false;
      }
      parsed := parsed + [current.0];
      i := i + 1;
    }
    ok := true;
  }
}
