/**
 * The HTTP layer of the file-sharing server: the method/path dispatch of
 * `handleRequest`, the `Bearer ` header parse of `authenticateRequest`, the
 * `substr` extraction of ids and tokens from paths, the defaults `handleShare`
 * supplies, and the status codes each handler chooses. Requests are reduced to the
 * strings the handlers read; response headers and JSON bodies are left out, and a
 * reply carries only its status and the payload that matters (file content or the
 * share token).
 */
module WebServer {
  import opened CppString
  import FileManager
  import Users

  // ---------------------------------------------------------------------------
  // Dispatch

  datatype Route =
    | Preflight | Register | Login | Upload | Download | Share | List
    | SharedAccess | SharedWithMe | NotFound

  /**
   * handleRequest: OPTIONS is answered before any route is considered; otherwise
   * the first test of the chain that holds picks the handler, and none gives 404.
   */
  function Dispatch(verb: string, path: string): (r: Route)
    ensures r == Preflight <==> verb == "OPTIONS"
    ensures r == Download ==> verb == "GET" && StartsWith(path, "/download/")
    ensures r == SharedAccess ==> verb == "GET" && StartsWith(path, "/shared/")
  {
    if verb == "OPTIONS" then Preflight
    else if path == "/register" && verb == "POST" then Register
    else if path == "/login" && verb == "POST" then Login
    else if path == "/upload" && verb == "POST" then Upload
    else if StartsWith(path, "/download/") && verb == "GET" then Download
    else if path == "/share" && verb == "POST" then Share
    else if path == "/files" && verb == "GET" then List
    else if StartsWith(path, "/shared/") && verb == "GET" then SharedAccess
    else if path == "/shared-with-me" && verb == "GET" then SharedWithMe
    else NotFound
  }

  /** One entry of the route table: an exact path or a path prefix, with its HTTP method. */
  datatype Rule = Exact(path: string, verb: string, route: Route) | Prefix(prefix: string, verb: string, route: Route)

  predicate Matches(rule: Rule, verb: string, path: string) {
    rule.verb == verb &&
    match rule
    case Exact(p, _, _) => path == p
    case Prefix(p, _, _) => StartsWith(path, p)
  }

  /** The server's routes as a table, in the order the chain tests them. */
  const RouteTable: seq<Rule> := [
    Exact("/register", "POST", Register),
    Exact("/login", "POST", Login),
    Exact("/upload", "POST", Upload),
    Prefix("/download/", "GET", Download),
    Exact("/share", "POST", Share),
    Exact("/files", "GET", List),
    Prefix("/shared/", "GET", SharedAccess),
    Exact("/shared-with-me", "GET", SharedWithMe)
  ]

  /** The route of the first rule that matches, or NotFound. */
  function FirstRoute(rules: seq<Rule>, verb: string, path: string): (r: Route)
    ensures r == NotFound <==> forall i :: 0 <= i < |rules| ==> !Matches(rules[i], verb, path) || rules[i].route == NotFound
    ensures r != NotFound ==> exists i :: 0 <= i < |rules| && Matches(rules[i], verb, path) && rules[i].route == r
  {
    if rules == [] then NotFound
    else if Matches(rules[0], verb, path) && rules[0].route != NotFound then rules[0].route
    else
      var r := FirstRoute(rules[1..], verb, path);
      assert forall i :: 1 <= i < |rules| ==> rules[i] == rules[1..][i - 1];
      r
  }

  /** One step of FirstRoute on a suffix of the table. */
  lemma FirstRouteStep(rules: seq<Rule>, k: int, verb: string, path: string)
    requires 0 <= k < |rules|
    ensures FirstRoute(rules[k..], verb, path) ==
      if Matches(rules[k], verb, path) && rules[k].route != NotFound then rules[k].route
      else FirstRoute(rules[k + 1..], verb, path)
  {
    assert rules[k..][0] == rules[k];
    assert rules[k..][1..] == rules[k + 1..];
  }

  /** FirstRoute on a table of eight routes, written out rule by rule. */
  lemma FirstRouteOfEight(rules: seq<Rule>, verb: string, path: string)
    requires |rules| == 8 && forall i :: 0 <= i < 8 ==> rules[i].route != NotFound
    ensures FirstRoute(rules, verb, path) ==
      if Matches(rules[0], verb, path) then rules[0].route
      else if Matches(rules[1], verb, path) then rules[1].route
      else if Matches(rules[2], verb, path) then rules[2].route
      else if Matches(rules[3], verb, path) then rules[3].route
      else if Matches(rules[4], verb, path) then rules[4].route
      else if Matches(rules[5], verb, path) then rules[5].route
      else if Matches(rules[6], verb, path) then rules[6].route
      else if Matches(rules[7], verb, path) then rules[7].route
      else NotFound
  {
    assert rules[8..] == [];
    FirstRouteStep(rules, 7, verb, path);
    FirstRouteStep(rules, 6, verb, path);
    FirstRouteStep(rules, 5, verb, path);
    FirstRouteStep(rules, 4, verb, path);
    FirstRouteStep(rules, 3, verb, path);
    FirstRouteStep(rules, 2, verb, path);
    FirstRouteStep(rules, 1, verb, path);
    FirstRouteStep(rules, 0, verb, path);
    assert rules[0..] == rules;
  }

  /** What each rule of the table tests, spelled out. */
  lemma RouteRulesMatch(verb: string, path: string)
    ensures Matches(RouteTable[0], verb, path) <==> path == "/register" && verb == "POST"
    ensures Matches(RouteTable[1], verb, path) <==> path == "/login" && verb == "POST"
    ensures Matches(RouteTable[2], verb, path) <==> path == "/upload" && verb == "POST"
    ensures Matches(RouteTable[3], verb, path) <==> StartsWith(path, "/download/") && verb == "GET"
    ensures Matches(RouteTable[4], verb, path) <==> path == "/share" && verb == "POST"
    ensures Matches(RouteTable[5], verb, path) <==> path == "/files" && verb == "GET"
    ensures Matches(RouteTable[6], verb, path) <==> StartsWith(path, "/shared/") && verb == "GET"
    ensures Matches(RouteTable[7], verb, path) <==> path == "/shared-with-me" && verb == "GET"
  {
  }

  /** The if/else chain is the route table read top to bottom. */
  lemma DispatchFollowsTable(verb: string, path: string)
    ensures Dispatch(verb, path) == if verb == "OPTIONS" then Preflight else FirstRoute(RouteTable, verb, path)
  {
    FirstRouteOfEight(RouteTable, verb, path);
    RouteRulesMatch(verb, path);
  }

  /** No request matches two rules of the table, so the order of the chain decides nothing. */
  lemma RulesDisjoint(verb: string, path: string, i: int, j: int)
    requires 0 <= i < j < |RouteTable|
    ensures !(Matches(RouteTable[i], verb, path) && Matches(RouteTable[j], verb, path))
  {
    assert StartsWith(path, "/download/") ==> path[..10] == "/download/" && path[1] == 'd';
    assert StartsWith(path, "/shared/") ==> path[..8] == "/shared/" && path[1] == 's' && path[7] == '/';
  }

  /** "/shared-with-me" is not a token path: it reaches the shared-with-me handler. */
  lemma SharedWithMeIsNotTokenAccess()
    ensures Dispatch("GET", "/shared-with-me") == SharedWithMe
  {
    assert "/shared-with-me"[..8] != "/shared/" by {
      assert "/shared-with-me"[..8][7] == '-';
    }
  }

  // ---------------------------------------------------------------------------
  // Authentication of a request

  /**
   * authenticateRequest: only a header beginning with exactly "Bearer " is looked
   * at, and its remainder after 7 characters is the session token handed to
   * validateSession together with the caller's `userId` variable.
   */
  function AuthenticateRequest(header: string, userId: int, sessions: seq<Users.SessionRow>, now: int): (v: Users.Validation)
    ensures !StartsWith(header, "Bearer ") ==> v == Users.Validation(false, userId)
    ensures v.ok ==> StartsWith(header, "Bearer ") && v.userId > 0
    ensures StartsWith(header, "Bearer ") && Users.FindSession(sessions, header[7..], now).Some? ==>
      v.userId == Users.FindSession(sessions, header[7..], now).value.userId
    ensures StartsWith(header, "Bearer ") && Users.FindSession(sessions, header[7..], now).None? ==>
      v.userId == userId
  {
    if StartsWith(header, "Bearer ") then Users.Validate(sessions, header[7..], userId, now)
    else Users.Validation(false, userId)
  }

  /** The header a client builds from a session token is parsed back to that token. */
  lemma BearerRoundTrip(token: string, userId: int, sessions: seq<Users.SessionRow>, now: int)
    ensures AuthenticateRequest("Bearer " + token, userId, sessions, now) == Users.Validate(sessions, token, userId, now)
  {
    var h := "Bearer " + token;
    assert h[..7] == "Bearer ";
    assert h[7..] == token;
  }

  /** Without the "Bearer " prefix the session table is never consulted. */
  lemma NoBearerIgnoresSessions(header: string, userId: int, s1: seq<Users.SessionRow>, s2: seq<Users.SessionRow>, now: int)
    requires !StartsWith(header, "Bearer ")
    ensures AuthenticateRequest(header, userId, s1, now) == AuthenticateRequest(header, userId, s2, now)
    ensures !AuthenticateRequest(header, userId, s1, now).ok
  {
  }

  /**
   * The guard of handleUpload, handleShare, handleList and handleSharedWithMe as
   * written: their `int userId;` is never initialised, so validateSession starts from
   * whatever value the variable holds, modelled as the parameter `indeterminate`.
   */
  function RequireAuth(header: string, indeterminate: int, sessions: seq<Users.SessionRow>, now: int): (v: Users.Validation)
    ensures !v.ok ==> !StartsWith(header, "Bearer ") || v.userId <= 0
    ensures v.ok <==> StartsWith(header, "Bearer ") && v.userId > 0
    ensures StartsWith(header, "Bearer ") && Users.FindSession(sessions, header[7..], now).Some? ==>
      v.userId == Users.FindSession(sessions, header[7..], now).value.userId
    ensures StartsWith(header, "Bearer ") && Users.FindSession(sessions, header[7..], now).None? ==>
      v.userId == indeterminate
  {
    AuthenticateRequest(header, indeterminate, sessions, now)
  }

  /**
   * With a positive leftover value in `userId`, any "Bearer " header whose token no
   * session row matches passes the guard, as that leftover user.
   */
  lemma GarbageUserIdPassesGuard(token: string, indeterminate: int, sessions: seq<Users.SessionRow>, now: int)
    requires indeterminate > 0
    requires forall i :: 0 <= i < |sessions| ==> sessions[i].token != token
    ensures RequireAuth("Bearer " + token, indeterminate, sessions, now) == Users.Validation(true, indeterminate)
  {
    BearerRoundTrip(token, indeterminate, sessions, now);
  }

  /** The guard with `userId` initialised to 0, as handleDownload and handleSharedFileAccess do. */
  function RequireAuthFixed(header: string, sessions: seq<Users.SessionRow>, now: int): (v: Users.Validation)
    ensures v.ok ==>
      StartsWith(header, "Bearer ") &&
      exists i :: 0 <= i < |sessions| &&
        sessions[i].token == header[7..] && sessions[i].expiresAt > now && sessions[i].userId == v.userId
  {
    AuthenticateRequest(header, 0, sessions, now)
  }

  /** The initialised guard admits only the holder of a live session token. */
  lemma FixedGuardNeedsLiveSession(token: string, sessions: seq<Users.SessionRow>, now: int)
    requires forall i :: 0 <= i < |sessions| ==> !(sessions[i].token == token && sessions[i].expiresAt > now)
    ensures !RequireAuthFixed("Bearer " + token, sessions, now).ok
  {
    BearerRoundTrip(token, 0, sessions, now);
  }

  // ---------------------------------------------------------------------------
  // Handlers

  /** A reply: its status and its payload (file content, share token, or empty). */
  datatype Reply = Reply(status: int, body: string)

  /**
   * handleDownload: the id is the path after "/download/" read by std::stoi, whose
   * exceptions reach handleRequest's catch (500); the requester is 0 unless the
   * header validates; downloadFile's refusal is 404.
   */
  function HandleDownload(path: string, header: string, sessions: seq<Users.SessionRow>,
                          files: seq<FileManager.FileRow>, shares: seq<FileManager.ShareRow>,
                          disk: map<string, string>, now: int): (r: Reply)
    requires StartsWith(path, "/download/")
    ensures r.status == 500 <==> Stoi(path[10..]).None?
    ensures r.status in {200, 404, 500}
    ensures Stoi(path[10..]).Some? ==>
      var d := FileManager.Download(files, shares, disk, Stoi(path[10..]).value,
                                    AuthenticateRequest(header, 0, sessions, now).userId, now);
      (d.Some? ==> r == Reply(200, d.value.content)) && (d.None? ==> r == Reply(404, ""))
  {
    match Stoi(path[10..])
    case None => Reply(500, "")
    case Some(fileId) =>
      var requester := AuthenticateRequest(header, 0, sessions, now).userId;
      match FileManager.Download(files, shares, disk, fileId, requester, now)
      case Some(fetched) => Reply(200, fetched.content)
      case None => Reply(404, "")
  }

  /**
   * Any file that exists and whose blob is on disk is served, with its content, to a
   * request to "/download/<id>" that carries no credentials at all.
   */
  lemma AnonymousDownloadOfAnyFile(id: nat, sessions: seq<Users.SessionRow>, files: seq<FileManager.FileRow>,
                                   shares: seq<FileManager.ShareRow>, disk: map<string, string>, now: int, f: FileManager.FileRow)
    requires id <= IntMax
    requires FileManager.FindFile(files, id) == Some(f) && f.storedName != "" && f.storedName in disk
    ensures Dispatch("GET", "/download/" + DecimalString(id)) == Download
    ensures HandleDownload("/download/" + DecimalString(id), "", sessions, files, shares, disk, now) ==
      Reply(200, disk[f.storedName])
  {
    var path := "/download/" + DecimalString(id);
    assert path[..10] == "/download/";
    assert path[10..] == DecimalString(id);
    StoiOfDecimal(id);
    assert !StartsWith("", "Bearer ");
    DownloadPathDispatches(path);
    assert AuthenticateRequest("", 0, sessions, now).userId == 0;
    FileManager.ZeroRequesterReadsEveryFile(files, shares, disk, id, now, f);
  }

  /** Every GET whose path starts with "/download/" is routed to handleDownload. */
  lemma DownloadPathDispatches(path: string)
    requires StartsWith(path, "/download/")
    ensures Dispatch("GET", path) == Download
  {
  }

  /** handleDownload over the corrected decision: no credentials means no requester. */
  function HandleDownloadFixed(path: string, header: string, sessions: seq<Users.SessionRow>,
                               files: seq<FileManager.FileRow>, shares: seq<FileManager.ShareRow>,
                               disk: map<string, string>, now: int): (r: Reply)
    requires StartsWith(path, "/download/")
    ensures r.status == 500 <==> Stoi(path[10..]).None?
    ensures Stoi(path[10..]).Some? ==>
      var v := RequireAuthFixed(header, sessions, now);
      var d := FileManager.DownloadFixed(files, shares, disk, Stoi(path[10..]).value,
                                         if v.ok then Some(v.userId) else None, false, now);
      (d.Some? ==> r == Reply(200, d.value.content)) && (d.None? ==> r == Reply(404, ""))
  {
    match Stoi(path[10..])
    case None => Reply(500, "")
    case Some(fileId) =>
      var v := RequireAuthFixed(header, sessions, now);
      var requester := if v.ok then Some(v.userId) else None;
      match FileManager.DownloadFixed(files, shares, disk, fileId, requester, false, now)
      case Some(fetched) => Reply(200, fetched.content)
      case None => Reply(404, "")
  }

  /** Under the corrected decision a request without credentials gets only public files. */
  lemma AnonymousFixedDownloadIsPublicOnly(id: nat, sessions: seq<Users.SessionRow>, files: seq<FileManager.FileRow>,
                                           shares: seq<FileManager.ShareRow>, disk: map<string, string>, now: int, f: FileManager.FileRow)
    requires id <= IntMax
    requires FileManager.FindFile(files, id) == Some(f) && !f.isPublic
    ensures HandleDownloadFixed("/download/" + DecimalString(id), "", sessions, files, shares, disk, now).status == 404
  {
    var path := "/download/" + DecimalString(id);
    assert path[..10] == "/download/";
    assert path[10..] == DecimalString(id);
    StoiOfDecimal(id);
    assert !StartsWith("", "Bearer ");
    assert !RequireAuthFixed("", sessions, now).ok;
    assert FileManager.DownloadFixed(files, shares, disk, id, None, false, now) == None;
  }

  /**
   * handleSharedFileAccess: the token is the path after "/shared/", an empty one is
   * 400; the requester is 0 unless the header validates; a refusal is 401 while the
   * requester is still 0 and 404 otherwise.
   */
  function HandleSharedAccess(path: string, header: string, sessions: seq<Users.SessionRow>,
                              files: seq<FileManager.FileRow>, shares: seq<FileManager.ShareRow>,
                              disk: map<string, string>, now: int): (r: Reply)
    requires StartsWith(path, "/shared/")
    ensures r.status == 400 <==> |path| == 8
    ensures |path| > 8 ==>
      var requester := AuthenticateRequest(header, 0, sessions, now).userId;
      var fetched := FileManager.AccessShared(files, shares, disk, path[8..], requester, now);
      (r.status == 200 <==> fetched.Some?) &&
      (fetched.Some? ==> r.body == fetched.value.content) &&
      (r.status == 401 <==> fetched.None? && requester == 0) &&
      (r.status == 404 <==> fetched.None? && requester != 0)
  {
    var token := path[8..];
    if token == "" then Reply(400, "")
    else
      var requester := AuthenticateRequest(header, 0, sessions, now).userId;
      match FileManager.AccessShared(files, shares, disk, token, requester, now)
      case Some(fetched) => Reply(200, fetched.content)
      case None => if requester == 0 then Reply(401, "") else Reply(404, "")
  }

  /** The share URL's path "/shared/<token>" reaches the token-access handler with that token. */
  lemma SharedPathRoundTrip(token: string, header: string, sessions: seq<Users.SessionRow>,
                            files: seq<FileManager.FileRow>, shares: seq<FileManager.ShareRow>,
                            disk: map<string, string>, now: int)
    requires token != ""
    ensures Dispatch("GET", "/shared/" + token) == SharedAccess
    ensures HandleSharedAccess("/shared/" + token, header, sessions, files, shares, disk, now).status == 200 <==>
      FileManager.AccessShared(files, shares, disk, token, AuthenticateRequest(header, 0, sessions, now).userId, now).Some?
  {
    var path := "/shared/" + token;
    assert path[..8] == "/shared/";
    assert path[8..] == token;
    assert path != "/register" && path != "/login" && path != "/upload" && path != "/share" && path != "/files" by {
      assert path[7] == '/';
    }
    assert !StartsWith(path, "/download/") by {
      assert path[1] == 's';
    }
  }

  /** The fields handleShare reads from the parsed JSON body; `None` means absent. */
  datatype ShareBody = ShareBody(fileId: Option<int>, expiryHours: Option<string>, sharedWithUserId: Option<int>)

  /** The reply of handleShare and the `file_shares` table afterwards. */
  datatype ShareOutcome = ShareOutcome(reply: Reply, shares: seq<FileManager.ShareRow>)

  /**
   * handleShare: the guard (with its uninitialised `userId`), then `file_id` (whose
   * absence throws), expiry "24" and recipient 0 by default, then shareFile. An
   * exception escaping it is 500, an empty token the default error status 400, and
   * a token is 200.
   */
  function HandleShare(header: string, indeterminate: int, body: ShareBody, sessions: seq<Users.SessionRow>,
                       files: seq<FileManager.FileRow>, shares: seq<FileManager.ShareRow>,
                       now: int, newToken: string, storeOk: bool): (r: ShareOutcome)
    ensures r.reply.status == 401 <==> !RequireAuth(header, indeterminate, sessions, now).ok
    ensures r.reply.status == 200 ==> r.reply.body != ""
    ensures r.reply.status != 200 ==> r.reply.body == ""
    ensures r.reply.status in {200, 400, 401, 500}
    ensures !RequireAuth(header, indeterminate, sessions, now).ok || body.fileId.None? ==> r.shares == shares
    ensures RequireAuth(header, indeterminate, sessions, now).ok && body.fileId.None? ==> r.reply == Reply(500, "")
    ensures RequireAuth(header, indeterminate, sessions, now).ok && body.fileId.Some? ==>
      var e := FileManager.Share(files, shares, body.fileId.value, RequireAuth(header, indeterminate, sessions, now).userId,
                                 body.sharedWithUserId.GetOr(0), body.expiryHours.GetOr("24"), now, newToken, storeOk);
      r.shares == e.shares &&
      (e.result.Threw? ==> r.reply == Reply(500, "")) &&
      (e.result == Returned("") ==> r.reply == Reply(400, "")) &&
      (e.result.Returned? && e.result.value != "" ==> r.reply == Reply(200, e.result.value))
  {
    var v := RequireAuth(header, indeterminate, sessions, now);
    if !v.ok then ShareOutcome(Reply(401, ""), shares)
    else
      match body.fileId
      case None => ShareOutcome(Reply(500, ""), shares)
      case Some(fileId) =>
        var e := FileManager.Share(files, shares, fileId, v.userId, body.sharedWithUserId.GetOr(0),
                                   body.expiryHours.GetOr("24"), now, newToken, storeOk);
        match e.result
        case Threw => ShareOutcome(Reply(500, ""), e.shares)
        case Returned(token) => ShareOutcome(if token == "" then Reply(400, "") else Reply(200, token), e.shares)
  }

  lemma StoiTwentyFour()
    ensures Stoi("24") == Some(24)
  {
    assert DecimalString(24) == "24";
    StoiOfDecimal(24);
  }

  /**
   * A request naming only the file, from its owner's live session, adds a share that
   * anyone holding the link may use and that expires 24 hours later, and returns
   * its token.
   */
  lemma DefaultShareIsUnscopedForADay(token: string, owner: int, fileId: int, sessions: seq<Users.SessionRow>,
                                      files: seq<FileManager.FileRow>, shares: seq<FileManager.ShareRow>,
                                      now: int, newToken: string, k: int)
    requires Users.SessionTokensDistinct(sessions)
    requires 0 <= k < |sessions| && sessions[k] == Users.SessionRow(token, owner, sessions[k].expiresAt)
    requires sessions[k].expiresAt > now && owner > 0
    requires FileManager.OwnerOf(files, fileId) == owner && newToken != ""
    ensures HandleShare("Bearer " + token, 0, ShareBody(Some(fileId), None, None), sessions, files, shares, now, newToken, true) ==
      ShareOutcome(Reply(200, newToken),
                   shares + [FileManager.ShareRow(fileId, owner, None, newToken, Some(now + 24 * FileManager.MicrosPerHour))])
  {
    BearerRoundTrip(token, 0, sessions, now);
    Users.ValidateFromUnset(sessions, token, 0, now, k);
    StoiTwentyFour();
  }
}
