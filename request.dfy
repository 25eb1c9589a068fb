/** `CgiHttpRequest`: the request as the script sees it, derived from the
    CGI environment and the standard input. */
module CgiNodeRequest {
  import opened Wrappers
  import opened Text
  import opened Library
  import CgiParser

  /** The `post` object. Its `files` list is never filled in and is not
      kept. */
  datatype Post = Post(form: map<string, string>, parts: seq<string>, data: string, isMultiPart: bool)

  /** `{form: {}, files: [], parts: [], data: '', isMultiPart: false}`. */
  const EmptyPost: Post := Post(map[], [], "", false)

  /** The request's fields at one moment. */
  datatype RequestState = RequestState(
    server: map<string, string>, headers: map<string, string>, cookies: map<string, string>,
    requestMethod: Option<string>, httpVersion: Option<string>, post: Post)

  /** `obj[k]`, None for `undefined`. */
  function Lookup(m: map<string, string>, k: string): Option<string> {
    if k in m then Some(m[k]) else None
  }

  /** `obj[k] ?? fallback`. */
  function Default(m: map<string, string>, k: string, fallback: string): string {
    if k in m then m[k] else fallback
  }

  /** `if (obj[k])`: present and not the empty string. */
  predicate Truthy(m: map<string, string>, k: string) {
    k in m && m[k] != ""
  }

  /** What `init` makes of the fields `s` for the environment `env`. */
  function Initialised(s: RequestState, env: seq<(string, string)>, decode: string -> Option<string>): RequestState {
    var split := CgiParser.SplitVariables(env, CgiParser.Vars(s.server, s.headers));
    var server := split.server;
    var headers := split.headers["content_type" := Default(server, "content_type", "")]
                                ["content_length" := Default(server, "content_length", "0")];
    var cookies := if Truthy(headers, "cookie") then CgiParser.ParseCookies(headers["cookie"], decode) else s.cookies;
    var multipart := Contains(ToLower(headers["content_type"]), "multipart/form-data");
    RequestState(server, headers, cookies, Lookup(server, "request_method"), Lookup(server, "server_protocol"),
                 s.post.(isMultiPart := multipart))
  }

  /** The header copies `init` makes: `content_type` is the server's or
      `''`, `content_length` the server's or `0`, and `method` and
      `httpVersion` are the `request_method` and `server_protocol`
      variables. */
  lemma InitialisedHeaders(s: RequestState, env: seq<(string, string)>, decode: string -> Option<string>)
    ensures var r := Initialised(s, env, decode);
            && "content_type" in r.headers && "content_length" in r.headers
            && r.headers["content_type"] == (if "content_type" in r.server then r.server["content_type"] else "")
            && r.headers["content_length"] == (if "content_length" in r.server then r.server["content_length"] else "0")
            && (r.requestMethod.Some? <==> "request_method" in r.server)
            && (r.requestMethod.Some? ==> r.requestMethod.value == r.server["request_method"])
            && (r.httpVersion.Some? <==> "server_protocol" in r.server)
            && (r.httpVersion.Some? ==> r.httpVersion.value == r.server["server_protocol"])
  {
  }

  /** Cookies are parsed from the `cookie` header only when it is set and
      not empty; the post is multipart exactly when the lower-cased
      content type contains `multipart/form-data`; the other post fields
      are untouched. */
  lemma InitialisedCookiesAndPost(s: RequestState, env: seq<(string, string)>, decode: string -> Option<string>)
    ensures var r := Initialised(s, env, decode);
            && (Truthy(r.headers, "cookie") ==> r.cookies == CgiParser.ParseCookies(r.headers["cookie"], decode))
            && (!Truthy(r.headers, "cookie") ==> r.cookies == s.cookies)
            && (r.post.isMultiPart <==> exists j :: OccursAt(ToLower(r.headers["content_type"]), "multipart/form-data", j))
            && r.post.form == s.post.form && r.post.parts == s.post.parts && r.post.data == s.post.data
  {
    var r := Initialised(s, env, decode);
    var t := ToLower(r.headers["content_type"]);
    IndexOfFirst(t, "multipart/form-data", 0);
  }

  /** A `cookie` header from the environment is the one parsed: the
      header map `init` works on is the environment split, except for the
      two content keys it overwrites. */
  lemma InitialisedFromEnvironment(s: RequestState, env: seq<(string, string)>, decode: string -> Option<string>, k: string)
    requires k != "content_type" && k != "content_length"
    ensures var split := CgiParser.SplitVariables(env, CgiParser.Vars(s.server, s.headers));
            var r := Initialised(s, env, decode);
            && r.server == split.server
            && (k in r.headers <==> k in split.headers)
            && (k in r.headers ==> r.headers[k] == split.headers[k])
  {
  }

  /** What `parsePost` makes of the post: a multipart body is handed to
      the multipart splitter, anything else to the query-string parser. */
  function ParsedPost(p: Post, host: Host): Post {
    if p.isMultiPart then p.(parts := host.multiPart(p.data)) else p.(form := host.formParse(p.data))
  }

  class Request {
    var server: map<string, string>
    var headers: map<string, string>
    var cookies: map<string, string>
    var requestMethod: Option<string>
    var httpVersion: Option<string>
    var post: Post

    function State(): RequestState
      reads this
    {
      RequestState(server, headers, cookies, requestMethod, httpVersion, post)
    }

    /** `new CgiHttpRequest()`: empty fields, then `init`. */
    constructor(env: seq<(string, string)>, decode: string -> Option<string>)
      ensures State() == Initialised(RequestState(map[], map[], map[], None, None, EmptyPost), env, decode)
    {
      server := map[];
      headers := map[];
      cookies := map[];
      requestMethod := None;
      httpVersion := None;
      post := EmptyPost;
      new;
      Init(env, decode);
    }

    /** `init`: split the environment, copy the request line and content
        headers, parse the cookies and classify the post. */
    method Init(env: seq<(string, string)>, decode: string -> Option<string>)
      modifies this
      ensures State() == Initialised(old(State()), env, decode)
    {
      server, headers := CgiParser.EnvironmentVariablesAndHeaders(env, server, headers);
      requestMethod := Lookup(server, "request_method");
      httpVersion := Lookup(server, "server_protocol");
      headers := headers["content_type" := Default(server, "content_type", "")];
      headers := headers["content_length" := Default(server, "content_length", "0")];
      if Truthy(headers, "cookie") {
        cookies := CgiParser.Cookies(headers["cookie"], decode);
      }
      post := post.(isMultiPart := Contains(ToLower(headers["content_type"]), "multipart/form-data"));
    }

    /** `readPost`: append every chunk of the standard input to
        `post.data`, in order, then parse the post when asked to. */
    method ReadPost(chunks: seq<string>, parseData: bool, host: Host)
      modifies this
      ensures post.data == old(post.data) + Concat(chunks)
      ensures var read := old(post).(data := old(post.data) + Concat(chunks));
              post == if parseData then ParsedPost(read, host) else read
      ensures server == old(server) && headers == old(headers) && cookies == old(cookies)
      ensures requestMethod == old(requestMethod) && httpVersion == old(httpVersion)
    {
      var index := 0;
      while index < |chunks|
        invariant index <= |chunks|
        invariant post == old(post).(data := old(post.data) + Concat(chunks[..index]))
        invariant server == old(server) && headers == old(headers) && cookies == old(cookies)
        invariant requestMethod == old(requestMethod) && httpVersion == old(httpVersion)
      {
        assert chunks[..index + 1][..index] == chunks[..index];
        post := post.(data := post.data + chunks[index]);
        index := index + 1;
      }
      assert chunks[..|chunks|] == chunks;
      if parseData {
        ParsePost(host);
      }
    }

    /** `parsePost`. */
    method ParsePost(host: Host)
      modifies this
      ensures post == ParsedPost(old(post), host)
      ensures server == old(server) && headers == old(headers) && cookies == old(cookies)
      ensures requestMethod == old(requestMethod) && httpVersion == old(httpVersion)
    {
      if post.isMultiPart {
        post := post.(parts := host.multiPart(post.data));
      } else {
        post := post.(form := host.formParse(post.data));
      }
    }
  }

  /** Parsing the post never changes its data or its classification, and
      fills in exactly one of `parts` and `form`. */
  lemma ParsedPostFields(p: Post, host: Host)
    ensures ParsedPost(p, host).data == p.data && ParsedPost(p, host).isMultiPart == p.isMultiPart
    ensures p.isMultiPart ==> ParsedPost(p, host).form == p.form && ParsedPost(p, host).parts == host.multiPart(p.data)
    ensures !p.isMultiPart ==> ParsedPost(p, host).parts == p.parts && ParsedPost(p, host).form == host.formParse(p.data)
  {
  }
}
