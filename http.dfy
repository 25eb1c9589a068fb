/** `CgiHttpSession` and `CgiHttpResponse`. They share one module because
    each holds the other: `init` stores the session in the response, and
    `sendHeaders` reads and updates the session's cookies. */
module CgiHttp {
  import opened Wrappers
  import opened Text
  import opened Ordered
  import opened Library
  import opened Config
  import opened CgiParser
  import CgiNodeRequest

  // ---------------------------------------------------------------------
  // The session directory

  /** The five fields of a session, which are also the JSON object of its
      file. An `undefined` ip address is None: `JSON.stringify` drops it
      and it reads back as `undefined`. */
  datatype SessionRecord = SessionRecord(
    id: string, path: string, ipAddress: Option<string>, cookies: Dict<Cookie>, data: map<string, string>)

  /** A file of the session directory and its modification time. */
  datatype StoredFile = StoredFile(record: SessionRecord, mtime: nat)

  /** The file system, from full path to file. */
  type Files = map<string, StoredFile>

  /** One attempt: a free candidate ends the search, a taken one moves on. */
  lemma FreeAttemptStep(files: Files, host: Host, server: map<string, string>, i: nat)
    requires 1 <= i <= 10
    ensures FreeAttempt(files, host, server, i) ==
            if SessionFile(Candidate(host, server, i)) in files then FreeAttempt(files, host, server, i + 1) else Some(i)
  {
  }

  /** The retry loop of `create`: try the candidates of attempts 1 to 10
      until one has no file; throw after the tenth. */
  method FreeId(files: Files, host: Host, server: map<string, string>) returns (r: Result<string, SessionError>)
    ensures r == CreateResult(files, host, server)
  {
    var i: nat := 0;
    var id := "";
    var taken := true;
    while taken
      invariant i <= 10
      invariant taken ==> FreeAttempt(files, host, server, 1) == FreeAttempt(files, host, server, i + 1)
      invariant !taken ==> 1 <= i && id == Candidate(host, server, i) && FreeAttempt(files, host, server, 1) == Some(i)
      decreases 10 - i
    {
      if i >= 10 {
        return Err(UnableToGenerate);
      }
      i := i + 1;
      id := Candidate(host, server, i);
      FreeAttemptStep(files, host, server, i);
      taken := SessionFile(id) in files;
    }
    return Ok(id);
  }

  /** The file system the session files live in. */
  class SessionDirectory {
    var files: Files

    constructor(files0: Files)
      ensures files == files0
    {
      files := files0;
    }
  }

  /** `Path.join(CgiNodeConfig.SessionPath, id)`. */
  function SessionFile(id: string): string {
    SessionPath + id
  }

  lemma SessionFileInjective(a: string, b: string)
    requires SessionFile(a) == SessionFile(b)
    ensures a == b
  {
    assert a == SessionFile(a)[|SessionPath|..];
    assert b == SessionFile(b)[|SessionPath|..];
  }

  datatype SessionError =
    | UnableToGenerate   // 'Unable to generate a new session ID'
    | InvalidSessionId   // 'Invalid session ID!'

  /** The id tried on attempt `i`: the MD5 digest of the client address
      and port, the server's unique id, the clock, a random number and
      `i`, joined (an `undefined` part joins as nothing). */
  function Candidate(host: Host, server: map<string, string>, i: nat): string {
    host.md5(CgiNodeRequest.Default(server, "remote_addr", "") + CgiNodeRequest.Default(server, "remote_port", "")
             + CgiNodeRequest.Default(server, "unique_id", "") + host.entropy(i) + NatToString(i))
  }

  /** The first attempt, from `i` up to the tenth, whose candidate has no
      file. */
  function FreeAttempt(files: Files, host: Host, server: map<string, string>, i: nat): (r: Option<nat>)
    requires 1 <= i
    ensures r.Some? ==> i <= r.value <= 10
    decreases 11 - i
  {
    if i > 10 then None
    else if SessionFile(Candidate(host, server, i)) !in files then Some(i)
    else FreeAttempt(files, host, server, i + 1)
  }

  /** The id `create` returns, or its error. */
  function CreateResult(files: Files, host: Host, server: map<string, string>): Result<string, SessionError> {
    match FreeAttempt(files, host, server, 1)
    case None => Err(UnableToGenerate)
    case Some(i) => Ok(Candidate(host, server, i))
  }

  /** The session cookie a new session carries. */
  function SessionIdCookie(id: string): Cookie {
    Cookie(SessionCookie, id, true, true, true, "", "", None, false)
  }

  /** The record `create` writes for a new id. */
  function NewRecord(id: string, ipAddress: Option<string>): SessionRecord {
    SessionRecord(id, SessionFile(id), ipAddress, [(SessionCookie, SessionIdCookie(id))], map[])
  }

  /** The file system after `create`. */
  function AfterCreate(files: Files, host: Host, server: map<string, string>, now: nat): Files {
    match CreateResult(files, host, server)
    case Err(_) => files
    case Ok(id) => files[SessionFile(id) := StoredFile(NewRecord(id, CgiNodeRequest.Lookup(server, "remote_addr")), now)]
  }

  lemma {:induction false} FreeAttemptFirst(files: Files, host: Host, server: map<string, string>, i: nat)
    requires 1 <= i
    ensures var r := FreeAttempt(files, host, server, i);
            && (r.Some? ==> SessionFile(Candidate(host, server, r.value)) !in files)
            && (forall j :: i <= j <= 10 && (r.None? || j < r.value) ==> SessionFile(Candidate(host, server, j)) in files)
    decreases 11 - i
  {
    if i <= 10 && SessionFile(Candidate(host, server, i)) in files {
      var r := FreeAttempt(files, host, server, i + 1);
      assert FreeAttempt(files, host, server, i) == r;
      FreeAttemptFirst(files, host, server, i + 1);
      forall j | i <= j <= 10 && (r.None? || j < r.value)
        ensures SessionFile(Candidate(host, server, j)) in files
      {
        if j > i {
          assert i + 1 <= j;
        }
      }
    }
  }

  /** `create` fails exactly when all ten candidates already have files;
      otherwise it returns the first candidate without one. */
  lemma CreateAttempts(files: Files, host: Host, server: map<string, string>)
    ensures CreateResult(files, host, server).Err? <==>
              forall j :: 1 <= j <= 10 ==> SessionFile(Candidate(host, server, j)) in files
    ensures CreateResult(files, host, server).Ok? ==>
              exists i :: 1 <= i <= 10 && CreateResult(files, host, server).value == Candidate(host, server, i)
                && SessionFile(Candidate(host, server, i)) !in files
                && forall j :: 1 <= j < i ==> SessionFile(Candidate(host, server, j)) in files
  {
    FreeAttemptFirst(files, host, server, 1);
  }

  /** A successful `create` adds one file, at the new id's path, which had
      none before: a record with that id and path, the client's address,
      no data and exactly one cookie, the session-id cookie, marked
      http-only, server-side and not yet sent. No other file changes. */
  lemma CreateWrites(files: Files, host: Host, server: map<string, string>, now: nat, p: string)
    requires CreateResult(files, host, server).Ok?
    ensures var id := CreateResult(files, host, server).value;
            var after := AfterCreate(files, host, server, now);
            var rec := after[SessionFile(id)].record;
            && SessionFile(id) !in files && SessionFile(id) in after
            && rec.id == id && rec.path == SessionFile(id)
            && rec.ipAddress == CgiNodeRequest.Lookup(server, "remote_addr") && rec.data == map[]
            && |rec.cookies| == 1 && Get(rec.cookies, SessionCookie) == Some(SessionIdCookie(id))
            && rec.cookies[0].1.value == id && rec.cookies[0].1.httpOnly && rec.cookies[0].1.notSent && rec.cookies[0].1.server
            && (p != SessionFile(id) ==> (p in after <==> p in files) && (p in files ==> after[p] == files[p]))
  {
    FreeAttemptFirst(files, host, server, 1);
  }

  /** A session file has expired when its modification time plus the
      time-out lies strictly before now. */
  predicate Expired(f: StoredFile, now: nat) {
    f.mtime + SessionTimeOut < now
  }

  /** The file system after the `cleanUp` loop over the listed names. */
  function Swept(files: Files, names: seq<string>, now: nat): Files {
    if names == [] then files
    else
      var before := Swept(files, names[..|names| - 1], now);
      var path := SessionFile(names[|names| - 1]);
      if path in before && Expired(before[path], now) then before - {path} else before
  }

  /** The paths of the listed names. */
  ghost predicate Listed(names: seq<string>, p: string) {
    exists k :: 0 <= k < |names| && SessionFile(names[k]) == p
  }

  /** The sweep deletes exactly the listed files that have expired, and
      keeps every other file as it was. */
  lemma {:induction false} SweptFiles(files: Files, names: seq<string>, now: nat, p: string)
    ensures p in Swept(files, names, now) <==> p in files && !(Listed(names, p) && Expired(files[p], now))
    ensures p in Swept(files, names, now) ==> Swept(files, names, now)[p] == files[p]
    decreases |names|
  {
    if names != [] {
      var init := names[..|names| - 1];
      SweptFiles(files, init, now, p);
      if Listed(names, p) && !Listed(init, p) {
        assert SessionFile(names[|names| - 1]) == p;
      }
      if Listed(init, p) {
        var k :| 0 <= k < |init| && SessionFile(init[k]) == p;
        assert names[k] == init[k];
      }
    }
  }

  /** Over a listing of the whole directory, the sweep deletes exactly the
      expired files and keeps every other file as it was. */
  lemma SweptAll(files: Files, names: seq<string>, now: nat)
    requires forall p :: p in files ==> Listed(names, p)
    ensures forall p :: p in Swept(files, names, now) <==> p in files && !Expired(files[p], now)
    ensures forall p :: p in Swept(files, names, now) ==> Swept(files, names, now)[p] == files[p]
  {
    forall p
      ensures p in Swept(files, names, now) <==> p in files && !Expired(files[p], now)
      ensures p in Swept(files, names, now) ==> Swept(files, names, now)[p] == files[p]
    {
      SweptFiles(files, names, now, p);
    }
  }

  /** A file exactly at the time-out boundary survives; one a millisecond
      older goes. */
  lemma ExpiryBoundary(f: StoredFile)
    ensures !Expired(f, f.mtime + 15 * 60 * 1000)
    ensures Expired(f, f.mtime + 15 * 60 * 1000 + 1)
  {
  }

  // ---------------------------------------------------------------------
  // init

  /** What `init` leaves: the session fields, the file system, success or
      the error it throws. */
  datatype InitResult = InitResult(state: SessionRecord, files: Files, outcome: Outcome<SessionError>)

  lemma CreatedPresent(files: Files, host: Host, server: map<string, string>, now: nat)
    requires CreateResult(files, host, server).Ok?
    ensures SessionFile(CreateResult(files, host, server).value) in AfterCreate(files, host, server, now)
    ensures AfterCreate(files, host, server, now)[SessionFile(CreateResult(files, host, server).value)].record
            == NewRecord(CreateResult(files, host, server).value, CgiNodeRequest.Lookup(server, "remote_addr"))
  {
  }

  /** The last step of `init`: load the file of `id` and check the
      client's address. */
  function LoadChecked(s: SessionRecord, id: string, files: Files, server: map<string, string>): InitResult
    requires SessionFile(id) in files
  {
    var rec := files[SessionFile(id)].record;
    if rec.ipAddress != CgiNodeRequest.Lookup(server, "remote_addr") then InitResult(s.(id := id), files, Fail(InvalidSessionId))
    else InitResult(rec, files, Pass)
  }

  /** The steps of `init` after the id `id` has been chosen: make another
      one when its file is missing, then load. */
  function LoadOrCreate(s: SessionRecord, id: string, files: Files, host: Host, server: map<string, string>, now: nat): InitResult {
    if SessionFile(id) in files then LoadChecked(s, id, files, server)
    else match CreateResult(files, host, server)
      case Err(e) => InitResult(s.(id := id), files, Fail(e))
      case Ok(newId) =>
        CreatedPresent(files, host, server, now);
        LoadChecked(s, newId, AfterCreate(files, host, server, now), server)
  }

  /** `init`, from the fields `s` before it, the request's cookies and
      server variables and the file system. */
  function InitOutcome(s: SessionRecord, cookies: map<string, string>, server: map<string, string>,
                       files: Files, host: Host, now: nat): InitResult {
    if CgiNodeRequest.Truthy(cookies, SessionCookie) then
      LoadOrCreate(s, cookies[SessionCookie], files, host, server, now)
    else match CreateResult(files, host, server)
      case Err(e) => InitResult(s, files, Fail(e))
      case Ok(id) => LoadOrCreate(s, id, AfterCreate(files, host, server, now), host, server, now)
  }

  /** Without a session cookie, `init` creates one session, and only one:
      the session is the new record when creation succeeds, and nothing
      changes when it fails. */
  lemma InitWithoutCookie(s: SessionRecord, cookies: map<string, string>, server: map<string, string>,
                          files: Files, host: Host, now: nat)
    requires !CgiNodeRequest.Truthy(cookies, SessionCookie)
    ensures var r := InitOutcome(s, cookies, server, files, host, now);
            && r.files == AfterCreate(files, host, server, now)
            && (CreateResult(files, host, server).Err? ==> r == InitResult(s, files, Fail(UnableToGenerate)))
            && (CreateResult(files, host, server).Ok? ==>
                  && r.outcome == Pass
                  && r.state == NewRecord(CreateResult(files, host, server).value, CgiNodeRequest.Lookup(server, "remote_addr")))
  {
    if CreateResult(files, host, server).Ok? {
      CreatedPresent(files, host, server, now);
    }
  }

  /** With a session cookie whose file is missing, `init` creates exactly
      one new session, as without a cookie. */
  lemma InitMissingFile(s: SessionRecord, cookies: map<string, string>, server: map<string, string>,
                        files: Files, host: Host, now: nat)
    requires CgiNodeRequest.Truthy(cookies, SessionCookie) && SessionFile(cookies[SessionCookie]) !in files
    ensures var r := InitOutcome(s, cookies, server, files, host, now);
            && r.files == AfterCreate(files, host, server, now)
            && (CreateResult(files, host, server).Err? ==>
                  r == InitResult(s.(id := cookies[SessionCookie]), files, Fail(UnableToGenerate)))
            && (CreateResult(files, host, server).Ok? ==>
                  && r.outcome == Pass
                  && r.state == NewRecord(CreateResult(files, host, server).value, CgiNodeRequest.Lookup(server, "remote_addr")))
  {
    if CreateResult(files, host, server).Ok? {
      CreatedPresent(files, host, server, now);
    }
  }

  /** With a session cookie whose file exists, `init` changes no file and
      throws exactly when the stored address differs from the client's;
      otherwise every field is the stored one. */
  lemma InitExistingFile(s: SessionRecord, cookies: map<string, string>, server: map<string, string>,
                         files: Files, host: Host, now: nat)
    requires CgiNodeRequest.Truthy(cookies, SessionCookie) && SessionFile(cookies[SessionCookie]) in files
    ensures var r := InitOutcome(s, cookies, server, files, host, now);
            var rec := files[SessionFile(cookies[SessionCookie])].record;
            && r.files == files
            && (r.outcome == Fail(InvalidSessionId) <==> rec.ipAddress != CgiNodeRequest.Lookup(server, "remote_addr"))
            && (r.outcome.Pass? ==> r.state == rec)
  {
  }

  /** A saved session reads back: a later `init` whose request carries the
      session's id, from the address the session holds, restores exactly
      the saved fields and changes no file. */
  lemma SaveThenInit(s: SessionRecord, before: SessionRecord, cookies: map<string, string>, server: map<string, string>,
                     files: Files, host: Host, now: nat, later: nat)
    requires s.id != "" && s.path == SessionFile(s.id)
    requires SessionCookie in cookies && cookies[SessionCookie] == s.id
    requires CgiNodeRequest.Lookup(server, "remote_addr") == s.ipAddress
    ensures var saved := files[s.path := StoredFile(s, now)];
            InitOutcome(before, cookies, server, saved, host, later) == InitResult(s, saved, Pass)
  {
  }

  // ---------------------------------------------------------------------
  // The session object

  class Session {
    var id: string
    var path: string
    var ipAddress: Option<string>
    var cookies: Dict<Cookie>
    var data: map<string, string>

    function State(): SessionRecord
      reads this
    {
      SessionRecord(id, path, ipAddress, cookies, data)
    }

    /** Every field but the cookies. */
    function Identity(): (string, string, Option<string>, map<string, string>)
      reads this
    {
      (id, path, ipAddress, data)
    }

    /** The fields before `init`: no id or path yet, no cookies, no data.
        The constructor's call to `init` is the separate `Init`. */
    constructor()
      ensures State() == SessionRecord("", "", None, [], map[])
    {
      id, path, ipAddress, cookies, data := "", "", None, [], map[];
    }

    /** `create`: the bounded retry loop over candidate ids, then the new
        session file. */
    method Create(request: CgiNodeRequest.Request, dir: SessionDirectory, host: Host, now: nat)
      returns (r: Result<string, SessionError>)
      modifies dir
      ensures r == CreateResult(old(dir.files), host, request.server)
      ensures dir.files == AfterCreate(old(dir.files), host, request.server, now)
    {
      var server := request.server;
      r := FreeId(dir.files, host, server);
      if r.Ok? {
        var session := NewRecord(r.value, CgiNodeRequest.Lookup(server, "remote_addr"));
        dir.files := dir.files[session.path := StoredFile(session, now)];
      }
    }

    /** `init`: attach the session to the response, choose the id (the
        request's session cookie, or a new one), make a new one when its
        file is missing, load the file and check the client's address. */
    method Init(request: CgiNodeRequest.Request, response: Response, dir: SessionDirectory, host: Host, now: nat)
      returns (r: Outcome<SessionError>)
      modifies this, response, dir
      ensures response.session == this
      ensures InitResult(State(), dir.files, r)
              == InitOutcome(old(State()), request.cookies, request.server, old(dir.files), host, now)
      ensures response.isHeaderSent == old(response.isHeaderSent) && response.headers == old(response.headers)
      ensures response.out == old(response.out) && response.exited == old(response.exited)
      ensures response.block == old(response.block) && response.body == old(response.body)
    {
      response.session := this;
      ghost var files0 := dir.files;
      if CgiNodeRequest.Truthy(request.cookies, SessionCookie) {
        id := request.cookies[SessionCookie];
      } else {
        var created := Create(request, dir, host, now);
        if created.Err? {
          return Fail(created.error);
        }
        id := created.value;
      }
      ghost var id1 := id;
      ghost var files1 := dir.files;
      var path := SessionFile(id);
      if path !in dir.files {
        var created := Create(request, dir, host, now);
        if created.Err? {
          return Fail(created.error);
        }
        CreatedPresent(files1, host, request.server, now);
        id := created.value;
      }
      path := SessionFile(id);
      var session := dir.files[path].record;
      if session.ipAddress != CgiNodeRequest.Lookup(request.server, "remote_addr") {
        return Fail(InvalidSessionId);
      }
      id := session.id;
      this.path := session.path;
      ipAddress := session.ipAddress;
      cookies := session.cookies;
      data := session.data;
      r := Pass;
    }

    /** `save`: overwrite the session's file with its five fields. */
    method Save(dir: SessionDirectory, now: nat)
      modifies dir
      ensures dir.files == old(dir.files)[path := StoredFile(State(), now)]
    {
      var session := SessionRecord(id, path, ipAddress, cookies, data);
      dir.files := dir.files[path := StoredFile(session, now)];
    }

    /** `cleanUp`: delete every session file that has expired. `names` is
        the directory listing: the names of all the files, each once. */
    method CleanUp(dir: SessionDirectory, names: seq<string>, now: nat)
      requires forall k :: 0 <= k < |names| ==> SessionFile(names[k]) in dir.files
      requires forall k, l :: 0 <= k < l < |names| ==> names[k] != names[l]
      requires forall p :: p in dir.files ==> Listed(names, p)
      modifies dir
      ensures dir.files == Swept(old(dir.files), names, now)
      ensures forall p :: p in dir.files <==> p in old(dir.files) && !Expired(old(dir.files)[p], now)
      ensures forall p :: p in dir.files ==> dir.files[p] == old(dir.files)[p]
    {
      var timeOut := SessionTimeOut;
      var index := 0;
      while index < |names|
        invariant index <= |names|
        invariant dir.files == Swept(old(dir.files), names[..index], now)
        invariant forall k :: index <= k < |names| ==> SessionFile(names[k]) in dir.files
      {
        assert names[..index + 1][..index] == names[..index];
        var path := SessionFile(names[index]);
        var stats := dir.files[path];
        if stats.mtime + timeOut < now {
          forall k | index < k < |names|
            ensures SessionFile(names[k]) != path
          {
            if SessionFile(names[k]) == path {
              SessionFileInjective(names[k], names[index]);
            }
          }
          dir.files := dir.files - {path};
        }
        index := index + 1;
      }
      assert names[..|names|] == names;
      SweptAll(old(dir.files), names, now);
    }
  }

  // ---------------------------------------------------------------------
  // The response writer

  /** One `name:value` line per header, in enumeration order. */
  function HeaderLines(headers: Dict<string>): string {
    if headers == [] then ""
    else HeaderLines(headers[..|headers| - 1]) + headers[|headers| - 1].0 + ":" + headers[|headers| - 1].1 + "\r\n"
  }

  /** One `Set-Cookie:` line per cookie still marked not sent, in
      enumeration order. */
  function CookieLines(cookies: Dict<Cookie>, host: Host): string {
    if cookies == [] then ""
    else
      var c := cookies[|cookies| - 1].1;
      CookieLines(cookies[..|cookies| - 1], host)
      + (if c.notSent then "Set-Cookie:" + SerializeCookie(c, host.encode, host.utc) + "\r\n" else "")
  }

  /** The cookies with their `notSent` markers deleted. */
  function Cleared(cookies: Dict<Cookie>): (r: Dict<Cookie>)
    ensures |r| == |cookies|
    ensures forall i :: 0 <= i < |r| ==> r[i] == (cookies[i].0, cookies[i].1.(notSent := false))
  {
    seq(|cookies|, i requires 0 <= i < |cookies| => (cookies[i].0, cookies[i].1.(notSent := false)))
  }

  /** The header block: the header lines, the Set-Cookie lines, then an
      empty line. */
  function HeaderBlock(headers: Dict<string>, cookies: Dict<Cookie>, host: Host): string {
    HeaderLines(headers) + CookieLines(cookies, host) + "\r\n"
  }

  /** Once the markers are deleted no cookie is emitted again, and
      deleting them changes nothing else about any cookie, not even its
      serialisation. */
  lemma ClearedCookies(cookies: Dict<Cookie>, host: Host)
    ensures CookieLines(Cleared(cookies), host) == ""
    ensures Cleared(Cleared(cookies)) == Cleared(cookies)
    ensures forall i :: 0 <= i < |cookies| ==>
              SerializeCookie(Cleared(cookies)[i].1, host.encode, host.utc) == SerializeCookie(cookies[i].1, host.encode, host.utc)
  {
    UnmarkedSilent(Cleared(cookies), host);
    forall i | 0 <= i < |cookies|
      ensures SerializeCookie(Cleared(cookies)[i].1, host.encode, host.utc) == SerializeCookie(cookies[i].1, host.encode, host.utc)
    {
      UnmarkSerialises(cookies[i].1, host);
    }
  }

  /** The `notSent` marker does not show in a cookie's serialisation. */
  lemma UnmarkSerialises(c: Cookie, host: Host)
    ensures SerializeCookie(c.(notSent := false), host.encode, host.utc) == SerializeCookie(c, host.encode, host.utc)
  {
    SerializeShape(c, host.encode, host.utc, c.secure, c.server, false);
  }

  /** Only the cookies marked not sent get a line: without any marked
      cookie there is none. */
  lemma {:induction false} UnmarkedSilent(cookies: Dict<Cookie>, host: Host)
    requires forall i :: 0 <= i < |cookies| ==> !cookies[i].1.notSent
    ensures CookieLines(cookies, host) == ""
    decreases |cookies|
  {
    if cookies != [] {
      UnmarkedSilent(cookies[..|cookies| - 1], host);
    }
  }

  /** The `for…in` loop of `sendHeaders` over the session's cookies:
      the Set-Cookie lines of the cookies marked not sent, and the cookies
      with those markers deleted. */
  method EmitCookies(cookies0: Dict<Cookie>, host: Host) returns (cookies: Dict<Cookie>, lines: string)
    ensures cookies == Cleared(cookies0)
    ensures lines == CookieLines(cookies0, host)
  {
    cookies := cookies0;
    lines := "";
    var index := 0;
    while index < |cookies|
      invariant |cookies| == |cookies0|
      invariant index <= |cookies0|
      invariant lines == CookieLines(cookies0[..index], host)
      invariant forall k :: 0 <= k < index ==> cookies[k] == (cookies0[k].0, cookies0[k].1.(notSent := false))
      invariant forall k :: index <= k < |cookies0| ==> cookies[k] == cookies0[k]
    {
      CookieLinesSnoc(cookies0, index, host);
      var name := cookies[index].0;
      var cookie := cookies[index].1;
      if cookie.notSent {
        cookies := cookies[index := (name, cookie.(notSent := false))];
        lines := lines + "Set-Cookie:" + SerializeCookie(cookie, host.encode, host.utc) + "\r\n";
      } else {
        assert cookie.(notSent := false) == cookie;
        assert lines + "" == lines;
      }
      index := index + 1;
    }
    assert cookies0[..|cookies0|] == cookies0;
  }

  /** The Set-Cookie lines of one more cookie. */
  lemma CookieLinesSnoc(cookies: Dict<Cookie>, i: nat, host: Host)
    requires i < |cookies|
    ensures var c := cookies[i].1;
            CookieLines(cookies[..i + 1], host) ==
            CookieLines(cookies[..i], host)
            + (if c.notSent then "Set-Cookie:" + SerializeCookie(c, host.encode, host.utc) + "\r\n" else "")
  {
    assert cookies[..i + 1][..i] == cookies[..i];
  }

  class Response {
    /** Set by `CgiHttpSession.init`. */
    var session: Session?
    var isHeaderSent: bool
    var headers: Dict<string>
    /** Everything written to the standard output so far. */
    var out: string
    /** `process.exit()` has been called. */
    var exited: bool
    /** The header block, once it has been sent. */
    ghost var block: string
    /** What has been written after the header block. */
    ghost var body: string

    /** The output is the header block followed by the body, and nothing
        at all before the block is sent; no header name occurs twice. */
    ghost predicate Valid()
      reads this
    {
      && out == (if isHeaderSent then block else "") + body
      && (!isHeaderSent ==> body == "")
      && Distinct(headers)
    }

    /** `new CgiHttpResponse()`. */
    constructor()
      ensures Valid()
      ensures session == null && !isHeaderSent && !exited && out == ""
      ensures headers == [("content-type", "text/html; charset=utf-8")]
    {
      session := null;
      isHeaderSent := false;
      headers := [("content-type", "text/html; charset=utf-8")];
      out := "";
      exited := false;
      block := "";
      body := "";
    }

    /** `response.headers[name] = value` from a script. */
    method SetHeader(name: string, value: string)
      requires Valid()
      modifies this
      ensures Valid()
      ensures headers == Put(old(headers), name, value)
      ensures session == old(session) && isHeaderSent == old(isHeaderSent) && out == old(out) && exited == old(exited)
      ensures block == old(block) && body == old(body)
    {
      PutGet(headers, name, value, name);
      headers := Put(headers, name, value);
    }

    /** `delete response.headers[name]` from a script. */
    method RemoveHeader(name: string)
      requires Valid()
      modifies this
      ensures Valid()
      ensures headers == Remove(old(headers), name)
      ensures session == old(session) && isHeaderSent == old(isHeaderSent) && out == old(out) && exited == old(exited)
      ensures block == old(block) && body == old(body)
    {
      RemoveGet(headers, name, name);
      headers := Remove(headers, name);
    }

    /** The loop over the headers. */
    method WriteHeaderLines()
      modifies this
      ensures out == old(out) + HeaderLines(headers)
      ensures session == old(session) && isHeaderSent == old(isHeaderSent) && headers == old(headers) && exited == old(exited)
      ensures block == old(block) && body == old(body)
    {
      var lines := "";
      var index := 0;
      while index < |headers|
        modifies {}
        invariant index <= |headers|
        invariant lines == HeaderLines(headers[..index])
      {
        assert headers[..index + 1][..index] == headers[..index];
        lines := lines + headers[index].0 + ":" + headers[index].1 + "\r\n";
        index := index + 1;
      }
      assert headers[..|headers|] == headers;
      out := out + lines;
    }

    /** The loop over the session's cookies: emit each one marked not sent
        and delete its marker. */
    method WriteCookieLines(host: Host)
      requires session != null
      modifies this, session
      ensures session == old(session)
      ensures out == old(out) + CookieLines(old(session.cookies), host)
      ensures session.cookies == Cleared(old(session.cookies))
      ensures isHeaderSent == old(isHeaderSent) && headers == old(headers) && exited == old(exited)
      ensures block == old(block) && body == old(body)
      ensures session.Identity() == old(session.Identity())
    {
      var cleared, lines := EmitCookies(session.cookies, host);
      session.cookies := cleared;
      out := out + lines;
    }

    /** `sendHeaders`: nothing once the headers are sent; otherwise mark
        them sent and emit the header block, deleting the markers of the
        cookies it emits. */
    method SendHeaders(host: Host)
      requires session != null && Valid()
      modifies this, session
      ensures session == old(session)
      ensures Valid() && isHeaderSent
      ensures old(isHeaderSent) ==> out == old(out) && session.cookies == old(session.cookies) && block == old(block)
      ensures !old(isHeaderSent) ==>
                && out == old(out) + HeaderBlock(old(headers), old(session.cookies), host)
                && block == HeaderBlock(old(headers), old(session.cookies), host)
                && session.cookies == Cleared(old(session.cookies))
      ensures body == old(body)
      ensures headers == old(headers) && exited == old(exited)
      ensures session.Identity() == old(session.Identity())
    {
      if isHeaderSent {
        return;
      }
      isHeaderSent := true;
      WriteHeaderLines();
      WriteCookieLines(host);
      out := out + "\r\n";
      block := out;
    }

    /** `write`: send the headers if they are not sent yet, then the
        content. */
    method Write(content: string, host: Host)
      requires session != null && Valid()
      modifies this, session
      ensures session == old(session)
      ensures Valid() && isHeaderSent
      ensures body == old(body) + content
      ensures out == old(out) + (if old(isHeaderSent) then "" else HeaderBlock(old(headers), old(session.cookies), host)) + content
      ensures session.cookies == if old(isHeaderSent) then old(session.cookies) else Cleared(old(session.cookies))
      ensures headers == old(headers) && exited == old(exited)
      ensures session.Identity() == old(session.Identity())
    {
      SendHeaders(host);
      AppendAssoc(block, body, content);
      out := out + content;
      body := body + content;
    }

    /** `end`: send the headers if they are not sent yet, then exit. */
    method End(host: Host)
      requires session != null && Valid()
      modifies this, session
      ensures session == old(session)
      ensures Valid() && isHeaderSent && exited
      ensures body == old(body)
      ensures old(isHeaderSent) ==> out == old(out) && session.cookies == old(session.cookies)
      ensures !old(isHeaderSent) ==>
                && out == HeaderBlock(old(headers), old(session.cookies), host)
                && session.cookies == Cleared(old(session.cookies))
      ensures headers == old(headers)
      ensures session.Identity() == old(session.Identity())
    {
      SendHeaders(host);
      exited := true;
    }
  }
}
