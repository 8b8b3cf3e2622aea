/** The backend's version routes: one handler that answers every request
    with exactly one response, chosen by the method, the path and what the
    version service returns. */
module VersionApi {
  import opened Wrappers
  import opened GoStrings
  import opened VersionProvider

  const VersionPrefix := "/api/v1/version/"
  const LatestPath := "/api/v1/version/latest"

  /** The JSON envelope: status "ok" with data, or status "error" with a message. */
  datatype Response = Response(status: string, data: Option<Info>, error: string)

  /** Which service method the handler called, if any. */
  datatype Call = NoCall | LatestCall | GetCall(version: string)

  /** The one response written: status code and body, and the call made. */
  datatype Outcome = Outcome(code: int, body: Response, call: Call)

  /** The version service, as the answers it gives. */
  datatype Service = Service(latest: LatestReply, get: string -> GetReply)

  function OkResponse(info: Info): Response
  {
    Response("ok", Some(info), "")
  }

  function ErrorResponse(message: string): Response
  {
    Response("error", None, message)
  }

  /** VersionHandler.ServeHTTP. */
  function ServeHTTP(verb: string, path: string, svc: Service): Outcome
  {
    if verb != "GET" then Outcome(405, ErrorResponse("method not allowed"), NoCall)
    else if path == LatestPath then
      if svc.latest.err.Some? then Outcome(500, ErrorResponse("failed to load latest version"), LatestCall)
      else Outcome(200, OkResponse(svc.latest.info), LatestCall)
    else if !HasPrefix(path, VersionPrefix) then Outcome(404, ErrorResponse("not found"), NoCall)
    else
      var version := path[|VersionPrefix|..];
      if version == "" then Outcome(404, ErrorResponse("not found"), NoCall)
      else
        var r := svc.get(version);
        if r.err.Some? then Outcome(500, ErrorResponse("failed to load version"), GetCall(version))
        else if !r.ok then Outcome(404, ErrorResponse("version not found"), GetCall(version))
        else Outcome(200, OkResponse(r.info), GetCall(version))
  }

  /** Every response is one of four codes, and its envelope agrees with it:
      200 exactly when the status is "ok", carrying data; otherwise an error
      message and no data. */
  lemma ResponsesWellFormed(verb: string, path: string, svc: Service)
    ensures var o := ServeHTTP(verb, path, svc);
      && o.code in {200, 404, 405, 500}
      && (o.code == 200 <==> o.body.status == "ok")
      && (o.code == 200 ==> o.body.data.Some? && o.body.error == "")
      && (o.code != 200 ==> o.body.status == "error" && o.body.data.None? && o.body.error != "")
  {
  }

  /** Any method other than GET gets 405 without consulting the service. */
  lemma OnlyGetConsults(verb: string, path: string, svc: Service)
    ensures ServeHTTP(verb, path, svc).call != NoCall ==> verb == "GET"
    ensures verb != "GET" ==> ServeHTTP(verb, path, svc).code == 405
  {
  }

  /** The latest path is served by Latest only, and the version string
      "latest" is never looked up with Get. */
  lemma LatestPathUsesLatest(path: string, svc: Service)
    ensures var o := ServeHTTP("GET", path, svc);
      && (o.call == LatestCall <==> path == LatestPath)
      && (path == LatestPath ==> (o.code == 200 <==> svc.latest.err.None?) && o.code in {200, 500})
      && (path == LatestPath && o.code == 200 ==> o.body.data == Some(svc.latest.info))
      && o.call != GetCall("latest")
  {
  }

  /** A GET under the prefix with a non-empty version other than "latest"
      passes that version to Get and reports its answer: 500 on an error,
      404 when missing, 200 with the entry when found. */
  lemma VersionPathUsesGet(version: string, svc: Service)
    requires version != "" && version != "latest"
    ensures var o := ServeHTTP("GET", VersionPrefix + version, svc);
      && o.call == GetCall(version)
      && (svc.get(version).err.Some? ==> o.code == 500)
      && (svc.get(version).err.None? && !svc.get(version).ok ==> o.code == 404)
      && (svc.get(version).err.None? && svc.get(version).ok ==> o.code == 200 && o.body == OkResponse(svc.get(version).info))
  {
    var path := VersionPrefix + version;
    assert path[..|VersionPrefix|] == VersionPrefix;
    assert path[|VersionPrefix|..] == version;
  }

  /** Paths outside the prefix, and the bare prefix, are 404 without a call. */
  lemma OtherPathsNotFound(path: string, svc: Service)
    requires !HasPrefix(path, VersionPrefix) || path == VersionPrefix
    ensures ServeHTTP("GET", path, svc) == Outcome(404, ErrorResponse("not found"), NoCall)
  {
  }

  /** The service of the in-memory provider built from a list. */
  function ProviderService(list: seq<Info>): Service
  {
    Service(LatestLookup(EntriesOf(list), LatestOf(list)), version => GetLookup(EntriesOf(list), version))
  }

  /** Served from an in-memory provider, a version route never fails with
      500: it answers 200 with the last entry listed under the version, or
      404 when the version was not listed. */
  lemma ProviderRoutes(list: seq<Info>, version: string)
    requires version != "" && version != "latest"
    ensures var o := ServeHTTP("GET", VersionPrefix + version, ProviderService(list));
      && o.code in {200, 404}
      && (o.code == 200 <==> exists i | 0 <= i < |list| :: list[i].version == version)
      && forall i | 0 <= i < |list| && list[i].version == version
           && (forall j | i < j < |list| :: list[j].version != version) :: o.body == OkResponse(list[i])
  {
    var svc := ProviderService(list);
    GetOfBuiltTable(list, version);
    VersionPathUsesGet(version, svc);
  }

  /** The handler tests: the latest route and a listed version answer 200
      with that entry; an unlisted version answers 404. */
  lemma HandlerScenarios()
    ensures var e := Info("0.1.0", "abc123", "2025-01-01T00:00:00Z");
      ServeHTTP("GET", "/api/v1/version/latest", ProviderService([e])) == Outcome(200, OkResponse(e), LatestCall)
    ensures var e := Info("0.2.0", "def456", "2025-02-01T00:00:00Z");
      ServeHTTP("GET", "/api/v1/version/0.2.0", ProviderService([e])).code == 200
      && ServeHTTP("GET", "/api/v1/version/0.2.0", ProviderService([e])).body.data == Some(e)
    ensures var e := Info("0.3.0", "ghi789", "2025-03-01T00:00:00Z");
      ServeHTTP("GET", "/api/v1/version/9.9.9", ProviderService([e])).code == 404
  {
    var e1 := Info("0.1.0", "abc123", "2025-01-01T00:00:00Z");
    LatestOfBuiltTable([e1]);
    var e2 := Info("0.2.0", "def456", "2025-02-01T00:00:00Z");
    ProviderRoutes([e2], "0.2.0");
    assert VersionPrefix + "0.2.0" == "/api/v1/version/0.2.0";
    var e3 := Info("0.3.0", "ghi789", "2025-03-01T00:00:00Z");
    ProviderRoutes([e3], "9.9.9");
    assert VersionPrefix + "9.9.9" == "/api/v1/version/9.9.9";
  }
}
