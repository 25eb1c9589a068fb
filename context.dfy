/** `CgiHttpContext`: the global object the scripts run in, with its
    registry of included scripts, the lazily created VM context and the
    `include`, `mapPath` and `write` functions. */
module CgiNodeContext {
  import opened Wrappers
  import opened Library
  import Text
  import Config
  import Template
  import TemplateCompiler
  import CgiNodeRequest
  import CgiHttp

  datatype IncludeError =
    | NoScriptPath                        // `Path.dirname` of an undefined `path_translated`
    | FileNotFound(path: string)          // `FS.readFileSync` of a missing file
    | ParseFailed(error: Template.CompileError)
    | DepthExceeded                       // the call stack is exhausted
    | ScriptThrew(message: string)        // the script's code throws

  /** What running a script's code does to the context, one step at a
      time: the code itself is not modelled, only its calls back into the
      context and whether it throws. */
  datatype Action =
    | Write(text: string)
    | Include(file: string)
    | SetHeader(name: string, value: string)
    | RemoveHeader(name: string)
    | SendHeaders
    | End
    | Throw(message: string)

  /** The script ids are the positions in the registry. */
  ghost predicate Numbered(scripts: seq<Template.Script>) {
    forall i :: 0 <= i < |scripts| ==> scripts[i].id == i
  }

  /** `later` extends `earlier`: the registry is only appended to. */
  ghost predicate Extends(earlier: seq<Template.Script>, later: seq<Template.Script>) {
    |earlier| <= |later| && later[..|earlier|] == earlier
  }

  lemma ExtendsTrans(a: seq<Template.Script>, b: seq<Template.Script>, c: seq<Template.Script>)
    requires Extends(a, b) && Extends(b, c)
    ensures Extends(a, c)
  {
    assert c[..|a|] == c[..|b|][..|a|];
  }

  lemma ExtendsAt(a: seq<Template.Script>, b: seq<Template.Script>, i: nat)
    requires Extends(a, b) && i < |a|
    ensures b[i] == a[i]
  {
    assert b[..|a|][i] == b[i];
  }

  /** `mapPath(path)`: `path` resolved against the directory of
      `server.path_translated`. */
  function ResolvePath(server: map<string, string>, path: string, host: Host): Result<string, IncludeError> {
    match CgiNodeRequest.Lookup(server, "path_translated")
    case None => Err(NoScriptPath)
    case Some(translated) => Ok(host.resolve(host.dirname(translated), path))
  }

  /** The script object `include(filePath)` builds as entry `id` of the
      registry: a `.js` file as it is, anything else compiled from its
      `<? … ?>` template. */
  function Prepared(server: map<string, string>, id: nat, filePath: string, sources: map<string, string>, host: Host)
    : Result<Template.Script, IncludeError>
  {
    match ResolvePath(server, filePath, host)
    case Err(e) => Err(e)
    case Ok(path) =>
      if path !in sources then Err(FileNotFound(path))
      else if host.extname(filePath) != ".js" then
        match Template.Compile(id, path, sources[path])
        case Err(e) => Err(ParseFailed(e))
        case Ok(script) => Ok(script)
      else Ok(Template.Script(id, path, sources[path], []))
  }

  /** The script an include registers carries the next id and the mapped
      path. A `.js` file's raw content is its code, with no literal
      blocks; any other file is parsed with that id, and fails to include
      only where it has a start tag with no end tag after it, and always
      does where there is one. */
  lemma PreparedScript(server: map<string, string>, id: nat, filePath: string, sources: map<string, string>, host: Host)
    ensures var r := Prepared(server, id, filePath, sources, host);
            && (r.Ok? ==> r.value.id == id && Ok(r.value.path) == ResolvePath(server, filePath, host)
                          && r.value.path in sources)
            && (r.Ok? && host.extname(filePath) == ".js" ==>
                  r.value.code == sources[r.value.path] && r.value.content == [])
            && (r.Ok? && host.extname(filePath) != ".js" ==>
                  Template.Compile(id, r.value.path, sources[r.value.path]) == Ok(r.value))
            && (ResolvePath(server, filePath, host).Ok? && ResolvePath(server, filePath, host).value in sources
                && host.extname(filePath) != ".js" ==>
                  var content := sources[ResolvePath(server, filePath, host).value];
                  && (r.Err? ==> exists o: nat :: Text.OccursAt(content, Config.StartTag, o)
                                                  && Template.NoEndTagFrom(content, o + |Config.StartTag|))
                  && (forall o: nat :: Text.OccursAt(content, Config.StartTag, o) && Template.NoEndTagFrom(content, o)
                                       ==> r == Err(ParseFailed(Template.MissingCloseTag))))
  {
    match ResolvePath(server, filePath, host)
    case Err(_) =>
    case Ok(path) =>
      if path in sources && host.extname(filePath) != ".js" {
        Template.CompileFails(id, path, sources[path]);
      }
  }

  /** A registry stays numbered when the next script carries the next
      id, and only then. */
  lemma NumberedPush(scripts: seq<Template.Script>, s: Template.Script)
    requires Numbered(scripts)
    ensures Numbered(scripts + [s]) <==> s.id == |scripts|
  {
    if Numbered(scripts + [s]) {
      assert (scripts + [s])[|scripts|] == s;
    }
  }

  class Context {
    /** `__scripts`. */
    var scripts: seq<Template.Script>
    /** `__vmContext !== null`. */
    var vmContext: bool
    /** How many times a VM context has been created. */
    ghost var vmCreations: nat
    const request: CgiNodeRequest.Request
    const response: CgiHttp.Response
    const session: CgiHttp.Session
    /** Whether the session's `init` succeeded; the source's constructor
        throws where it failed. */
    var started: Outcome<CgiHttp.SessionError>

    ghost predicate Valid()
      reads this, response
    {
      && response.session == session
      && response.Valid()
      && Numbered(scripts)
      && vmCreations == (if vmContext then 1 else 0)
    }

    /** `new CgiHttpContext()`: the request, the response and the session,
        and an empty registry. */
    constructor(env: seq<(string, string)>, host: Host, dir: CgiHttp.SessionDirectory, now: nat)
      modifies dir
      ensures Valid()
      ensures scripts == [] && !vmContext
      ensures request.State() == CgiNodeRequest.Initialised(
                CgiNodeRequest.RequestState(map[], map[], map[], None, None, CgiNodeRequest.EmptyPost), env, host.decode)
      ensures CgiHttp.InitResult(session.State(), dir.files, started)
              == CgiHttp.InitOutcome(CgiHttp.SessionRecord("", "", None, [], map[]), request.cookies, request.server,
                                     old(dir.files), host, now)
      ensures !response.isHeaderSent && response.out == ""
    {
      scripts := [];
      vmContext := false;
      vmCreations := 0;
      var req := new CgiNodeRequest.Request(env, host.decode);
      var res := new CgiHttp.Response();
      var ses := new CgiHttp.Session();
      request := req;
      response := res;
      session := ses;
      started := Pass;
      new;
      started := ses.Init(req, res, dir, host, now);
    }

    /** `mapPath`: it reads only the request, so it resolves the same way
        whichever script is including. */
    function MapPath(path: string, host: Host): Result<string, IncludeError>
      reads request
    {
      ResolvePath(request.server, path, host)
    }

    /** The `write` alias of `response.write`. */
    method Write(content: string, host: Host)
      requires Valid()
      modifies response, session
      ensures Valid()
      ensures response.out == old(response.out)
              + (if old(response.isHeaderSent) then "" else CgiHttp.HeaderBlock(old(response.headers), old(session.cookies), host))
              + content
      ensures response.isHeaderSent && response.body == old(response.body) + content
      ensures session.cookies == if old(response.isHeaderSent) then old(session.cookies) else CgiHttp.Cleared(old(session.cookies))
      ensures response.headers == old(response.headers) && response.exited == old(response.exited)
    {
      response.Write(content, host);
    }

    /** `include(filePath)`: read the mapped file, build its script with
        the next id, push it, create the VM context if there is none yet,
        then run the script's code. */
    method Include(filePath: string, sources: map<string, string>, host: Host,
                   behaviour: Template.Script -> seq<Action>, depth: nat) returns (r: Outcome<IncludeError>)
      requires Valid()
      modifies this, response, session
      ensures Valid()
      ensures Extends(old(scripts), scripts)
      ensures old(vmContext) ==> vmContext
      ensures var p := Prepared(request.server, |old(scripts)|, filePath, sources, host);
              && (p.Err? ==> r == Fail(p.error) && scripts == old(scripts) && vmContext == old(vmContext)
                             && response.out == old(response.out) && response.body == old(response.body)
                             && response.headers == old(response.headers)
                             && response.isHeaderSent == old(response.isHeaderSent)
                             && response.exited == old(response.exited)
                             && session.cookies == old(session.cookies))
              && (p.Ok? ==> |old(scripts)| < |scripts| && scripts[|old(scripts)|] == p.value && vmContext)
      ensures forall i :: |old(scripts)| < i < |scripts| ==> scripts[i].id > |old(scripts)|
      decreases depth, 1
    {
      var prepared := Prepare(filePath, sources, host);
      if prepared.Err? {
        return Fail(prepared.error);
      }
      var script := prepared.value;
      NumberedPush(scripts, script);
      scripts := scripts + [script];
      if !vmContext {
        vmContext := true;
        vmCreations := vmCreations + 1;
      }
      ghost var pushed := scripts;
      assert Extends(old(scripts), pushed);
      r := Run(script, sources, host, behaviour, depth);
      ExtendsTrans(old(scripts), pushed, scripts);
      ExtendsAt(pushed, scripts, |old(scripts)|);
    }

    /** The first half of `include`, up to the script object: map the path,
        read the file, and keep a `.js` file as it is or parse anything
        else with the next id. */
    method Prepare(filePath: string, sources: map<string, string>, host: Host) returns (r: Result<Template.Script, IncludeError>)
      ensures r == Prepared(request.server, |scripts|, filePath, sources, host)
    {
      var path := MapPath(filePath, host);
      if path.Err? {
        return Err(path.error);
      }
      if path.value !in sources {
        return Err(FileNotFound(path.value));
      }
      var content := sources[path.value];
      if host.extname(filePath) != ".js" {
        var compiled := TemplateCompiler.CompileScript(|scripts|, path.value, content);
        if compiled.Err? {
          return Err(ParseFailed(compiled.error));
        }
        r := Ok(compiled.value);
      } else {
        r := Ok(Template.Script(|scripts|, path.value, content, []));
      }
    }

    /** `VM.runInContext(script.code, …)`: the script's actions in order
        until the process exits; a throw, or an include that fails,
        propagates its error. */
    method Run(script: Template.Script, sources: map<string, string>, host: Host,
               behaviour: Template.Script -> seq<Action>, depth: nat) returns (r: Outcome<IncludeError>)
      requires Valid()
      modifies this, response, session
      ensures Valid()
      ensures Extends(old(scripts), scripts)
      ensures old(vmContext) ==> vmContext
      ensures old(response.exited) ==> r == Pass && scripts == old(scripts) && response.out == old(response.out)
      decreases depth, 0
    {
      var actions := behaviour(script);
      var index := 0;
      while index < |actions| && !response.exited
        invariant Valid()
        invariant Extends(old(scripts), scripts)
        invariant old(vmContext) ==> vmContext
        invariant old(response.exited) ==> response.exited && index == 0 && scripts == old(scripts) && response.out == old(response.out)
      {
        match actions[index] {
          case Write(text) =>
            response.Write(text, host);
          case Include(file) =>
            if depth == 0 {
              return Fail(DepthExceeded);
            }
            ghost var before := scripts;
            var nested := Include(file, sources, host, behaviour, depth - 1);
            ExtendsTrans(old(scripts), before, scripts);
            if nested.Fail? {
              return nested;
            }
          case SetHeader(name, value) =>
            response.SetHeader(name, value);
          case RemoveHeader(name) =>
            response.RemoveHeader(name);
          case SendHeaders =>
            response.SendHeaders(host);
          case End =>
            response.End(host);
          case Throw(message) =>
            return Fail(ScriptThrew(message));
        }
        index := index + 1;
      }
      r := Pass;
    }
  }
}
