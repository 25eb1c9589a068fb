/** The request-side helpers of `CgiParser`: splitting the CGI
    environment into server variables and HTTP headers, parsing a Cookie
    header and serialising a session cookie for Set-Cookie. */
module CgiParser {
  import opened Wrappers
  import opened Text

  // ---------------------------------------------------------------------
  // environmentVariablesAndHeaders

  /** `name.indexOf('http_') === 0`. */
  predicate IsHeaderName(name: string) {
    IndexOf(name, "http_", 0) == Some(0)
  }

  /** The test finds exactly the names that start with `http_`. */
  lemma HeaderNameStart(name: string)
    ensures IsHeaderName(name) <==> 5 <= |name| && name[..5] == "http_"
  {
    IndexOfFirst(name, "http_", 0);
  }

  /** Where one environment variable goes, under which key. */
  datatype Route = Header(key: string) | Server(key: string)

  function RouteOf(name: string): Route {
    var lower := ToLower(name);
    if IsHeaderName(lower) then Header(lower[5..]) else Server(lower)
  }

  /** A variable goes to the headers exactly when its lower-cased name
      starts with `http_`, under that name without the prefix, and to the
      server variables otherwise, under its lower-cased name; either key is
      in lower case. */
  lemma RouteLower(name: string)
    ensures RouteOf(name).Header? <==> 5 <= |name| && ToLower(name)[..5] == "http_"
    ensures RouteOf(name).Header? ==> ToLower(name) == "http_" + RouteOf(name).key
    ensures RouteOf(name).Server? ==> RouteOf(name).key == ToLower(name)
    ensures ToLower(RouteOf(name).key) == RouteOf(name).key
  {
    var lower := ToLower(name);
    HeaderNameStart(lower);
    ToLowerIdempotent(name);
    if IsHeaderName(lower) {
      assert lower == lower[..5] + lower[5..];
      assert ToLower(lower[5..]) == ToLower(lower)[5..];
    }
  }

  /** The `server` and `headers` objects being filled in. */
  datatype Vars = Vars(server: map<string, string>, headers: map<string, string>)

  /** One turn of the loop: store `value` where `name` is routed. */
  function Store(v: Vars, name: string, value: string): Vars {
    match RouteOf(name)
    case Header(k) => v.(headers := v.headers[k := value])
    case Server(k) => v.(server := v.server[k := value])
  }

  /** The loop over the environment, in enumeration order. */
  function SplitVariables(env: seq<(string, string)>, v: Vars): Vars {
    if env == [] then v
    else Store(SplitVariables(env[..|env| - 1], v), env[|env| - 1].0, env[|env| - 1].1)
  }

  /** The value of the last variable routed to `r`, if any. */
  function LastRouted(env: seq<(string, string)>, r: Route): Option<string> {
    if env == [] then None
    else if RouteOf(env[|env| - 1].0) == r then Some(env[|env| - 1].1)
    else LastRouted(env[..|env| - 1], r)
  }

  /** What the split leaves under key `k` of either map: the last value
      routed there, or else the entry the map had before, or nothing. */
  lemma {:induction false} SplitVariablesValue(env: seq<(string, string)>, v: Vars, k: string)
    ensures var out := SplitVariables(env, v);
            && (LastRouted(env, Header(k)).Some? ==>
                  k in out.headers && out.headers[k] == LastRouted(env, Header(k)).value)
            && (LastRouted(env, Header(k)).None? ==>
                  (k in out.headers <==> k in v.headers) && (k in v.headers ==> out.headers[k] == v.headers[k]))
            && (LastRouted(env, Server(k)).Some? ==>
                  k in out.server && out.server[k] == LastRouted(env, Server(k)).value)
            && (LastRouted(env, Server(k)).None? ==>
                  (k in out.server <==> k in v.server) && (k in v.server ==> out.server[k] == v.server[k]))
    decreases |env|
  {
    if env != [] {
      SplitVariablesValue(env[..|env| - 1], v, k);
    }
  }

  /** A variable routed to `r` makes the last value routed there defined. */
  lemma {:induction false} RoutedSomewhere(env: seq<(string, string)>, i: nat)
    requires i < |env|
    ensures LastRouted(env, RouteOf(env[i].0)).Some?
    decreases |env|
  {
    if i < |env| - 1 && RouteOf(env[|env| - 1].0) != RouteOf(env[i].0) {
      RoutedSomewhere(env[..|env| - 1], i);
    }
  }

  /** A last routed value comes from some variable of the environment. */
  lemma {:induction false} RoutedFrom(env: seq<(string, string)>, r: Route)
    requires LastRouted(env, r).Some?
    ensures exists i :: 0 <= i < |env| && RouteOf(env[i].0) == r
    decreases |env|
  {
    if RouteOf(env[|env| - 1].0) != r {
      RoutedFrom(env[..|env| - 1], r);
      var i :| 0 <= i < |env| - 1 && RouteOf(env[..|env| - 1][i].0) == r;
      assert env[i] == env[..|env| - 1][i];
    }
  }

  /** Every environment variable lands in the map its name routes it to,
      and every key the split adds to either map is in lower case. */
  lemma SplitVariablesRouting(env: seq<(string, string)>, v: Vars, i: nat, k: string)
    requires i < |env|
    ensures var out := SplitVariables(env, v);
            && (RouteOf(env[i].0).Header? ==> RouteOf(env[i].0).key in out.headers)
            && (RouteOf(env[i].0).Server? ==> RouteOf(env[i].0).key in out.server)
            && (k in out.headers && k !in v.headers ==> ToLower(k) == k)
            && (k in out.server && k !in v.server ==> ToLower(k) == k)
  {
    var out := SplitVariables(env, v);
    RoutedSomewhere(env, i);
    SplitVariablesValue(env, v, RouteOf(env[i].0).key);
    SplitVariablesValue(env, v, k);
    if k in out.headers && k !in v.headers {
      RoutedFrom(env, Header(k));
      var j :| 0 <= j < |env| && RouteOf(env[j].0) == Header(k);
      RouteLower(env[j].0);
    }
    if k in out.server && k !in v.server {
      RoutedFrom(env, Server(k));
      var j :| 0 <= j < |env| && RouteOf(env[j].0) == Server(k);
      RouteLower(env[j].0);
    }
  }

  /** `environmentVariablesAndHeaders`: the `for…in` loop over the
      environment, storing each variable into `server` or `headers`. */
  method EnvironmentVariablesAndHeaders(env: seq<(string, string)>, server0: map<string, string>, headers0: map<string, string>)
    returns (server: map<string, string>, headers: map<string, string>)
    ensures Vars(server, headers) == SplitVariables(env, Vars(server0, headers0))
  {
    server, headers := server0, headers0;
    var index := 0;
    while index < |env|
      invariant index <= |env|
      invariant Vars(server, headers) == SplitVariables(env[..index], Vars(server0, headers0))
    {
      var value := env[index].1;
      var name := ToLower(env[index].0);
      if IndexOf(name, "http_", 0) == Some(0) {
        headers := headers[name[5..] := value];
      } else {
        server := server[name := value];
      }
      assert env[..index + 1][..index] == env[..index];
      index := index + 1;
    }
    assert env[..|env|] == env;
  }

  // ---------------------------------------------------------------------
  // cookies

  /** `value.slice(1, -1)`: the value without its first and last
      character, empty when it is shorter than two. */
  function Unquote(v: string): string {
    if |v| >= 2 then v[1..|v| - 1] else ""
  }

  /** The stored value of a trimmed raw value: surrounding quotes dropped,
      then decoded, or kept as it is when decoding fails. */
  function CookieValue(raw: string, decode: string -> Option<string>): string {
    var value := if |raw| > 0 && raw[0] == '"' then Unquote(raw) else raw;
    match decode(value)
    case Some(d) => d
    case None => value
  }

  /** The key and value of one `;`-separated segment, None when it holds
      no `=`. */
  function CookiePair(pair: string, decode: string -> Option<string>): Option<(string, string)> {
    match IndexOf(pair, "=", 0)
    case None => None
    case Some(i) => Some((Trim(pair[..i]), CookieValue(Trim(pair[i + 1..]), decode)))
  }

  /** A character of a trimmed string is a character of the string. */
  lemma TrimIn(s: string, c: char)
    requires c in Trim(s)
    ensures c in s
  {
    var a := LeadingSpace(s);
    var b := TrailingSpace(s[a..]);
    var t := Trim(s);
    assert t == s[a..|s| - b];
    var k :| 0 <= k < |t| && t[k] == c;
    assert s[a + k] == c;
  }

  /** A segment is skipped exactly when it has no `=`; otherwise its key is
      the trimmed text before the first `=`, which holds no `=`, and its
      value comes from the trimmed text after it. */
  lemma CookiePairSplit(pair: string, decode: string -> Option<string>)
    ensures CookiePair(pair, decode).None? <==> '=' !in pair
    ensures CookiePair(pair, decode).Some? ==>
              exists i :: 0 <= i < |pair| && pair[i] == '=' && '=' !in pair[..i]
                && CookiePair(pair, decode).value == (Trim(pair[..i]), CookieValue(Trim(pair[i + 1..]), decode))
    ensures CookiePair(pair, decode).Some? ==> '=' !in CookiePair(pair, decode).value.0
  {
    IndexOfChar(pair, '=');
    if IndexOf(pair, "=", 0).Some? {
      var i := IndexOf(pair, "=", 0).value;
      if '=' in Trim(pair[..i]) {
        TrimIn(pair[..i], '=');
      }
    }
  }

  /** One turn of the loop: store the segment's pair, later keys
      overwriting earlier ones. */
  function AddCookie(cookies: map<string, string>, pair: string, decode: string -> Option<string>): map<string, string> {
    match CookiePair(pair, decode)
    case None => cookies
    case Some(kv) => cookies[kv.0 := kv.1]
  }

  /** The loop over the segments, in order. */
  function CookieFold(pairs: seq<string>, decode: string -> Option<string>): map<string, string> {
    if pairs == [] then map[]
    else AddCookie(CookieFold(pairs[..|pairs| - 1], decode), pairs[|pairs| - 1], decode)
  }

  /** `CgiParser.cookies(rawCookie)`. */
  function ParseCookies(raw: string, decode: string -> Option<string>): map<string, string> {
    CookieFold(Split(raw, ';'), decode)
  }

  /** The value of the last segment whose key is `k`, if any. */
  function LastCookie(pairs: seq<string>, decode: string -> Option<string>, k: string): Option<string> {
    if pairs == [] then None
    else match CookiePair(pairs[|pairs| - 1], decode)
      case Some(kv) =>
        if kv.0 == k then Some(kv.1) else LastCookie(pairs[..|pairs| - 1], decode, k)
      case None => LastCookie(pairs[..|pairs| - 1], decode, k)
  }

  /** A cookie is present exactly when some segment has its key, and then
      it holds the value of the last such segment. */
  lemma {:induction false} CookieFoldLast(pairs: seq<string>, decode: string -> Option<string>, k: string)
    ensures k in CookieFold(pairs, decode) <==> LastCookie(pairs, decode, k).Some?
    ensures k in CookieFold(pairs, decode) ==> CookieFold(pairs, decode)[k] == LastCookie(pairs, decode, k).value
    decreases |pairs|
  {
    if pairs != [] {
      CookieFoldLast(pairs[..|pairs| - 1], decode, k);
    }
  }

  /** A string without the separator splits into itself alone. */
  lemma SplitNone(s: string, sep: char)
    requires sep !in s
    ensures Split(s, sep) == [s]
  {
    IndexOfChar(s, sep);
  }

  /** The first `=` after a name without one is the one that ends it. */
  lemma FirstEquals(name: string, rest: string)
    requires '=' !in name
    ensures IndexOf(name + "=" + rest, "=", 0) == Some(|name|)
  {
    var s := name + "=" + rest;
    assert s[|name|] == '=';
    IndexOfChar(s, '=');
  }

  /** `cookies` reads back the pair a client returns for a cookie set as
      `name=encode(value)`: a name without `=`, `;` or surrounding white
      space, and an encoding without `;`, surrounding white space or a
      leading quote that decodes to the value. */
  lemma CookieRoundTrip(name: string, encoded: string, value: string, decode: string -> Option<string>)
    requires '=' !in name && ';' !in name && ';' !in encoded
    requires name != [] ==> !IsWhiteSpace(name[0]) && !IsWhiteSpace(name[|name| - 1])
    requires encoded != [] ==> !IsWhiteSpace(encoded[0]) && !IsWhiteSpace(encoded[|encoded| - 1]) && encoded[0] != '"'
    requires decode(encoded) == Some(value)
    ensures ParseCookies(name + "=" + encoded, decode) == map[name := value]
  {
    var s := name + "=" + encoded;
    assert ';' !in s;
    SplitNone(s, ';');
    var none: seq<string> := [];
    assert [s][..0] == none;
    FirstEquals(name, encoded);
    var i := |name|;
    assert s[..i] == name && s[i + 1..] == encoded;
    TrimIdentity(name);
    TrimIdentity(encoded);
    assert CookieValue(encoded, decode) == value;
    assert CookiePair(s, decode) == Some((name, value));
    assert CookieFold([s], decode) == AddCookie(map[], s, decode);
  }

  /** The body of the loop for one segment: the key and value it stores,
      None when it is skipped. */
  method ParsePair(pair: string, decode: string -> Option<string>) returns (r: Option<(string, string)>)
    ensures r == CookiePair(pair, decode)
  {
    var indexOfEqual := IndexOf(pair, "=", 0);
    if indexOfEqual.None? {
      return None;
    }
    var key := Trim(pair[..indexOfEqual.value]);
    var value := Trim(pair[indexOfEqual.value + 1..]);
    if |value| > 0 && value[0] == '"' {
      value := Unquote(value);
    }
    match decode(value)
    case Some(d) =>
      r := Some((key, d));
    case None =>
      r := Some((key, value));
  }

  /** `CgiParser.cookies`: the loop over the `;`-separated segments of a
      Cookie header; a value that does not decode is kept as it is, so the
      parse never fails. */
  method Cookies(rawCookie: string, decode: string -> Option<string>) returns (cookies: map<string, string>)
    ensures cookies == ParseCookies(rawCookie, decode)
  {
    var pairs := Split(rawCookie, ';');
    cookies := map[];
    var index := 0;
    while index < |pairs|
      invariant index <= |pairs|
      invariant cookies == CookieFold(pairs[..index], decode)
    {
      assert pairs[..index + 1][..index] == pairs[..index];
      var pair := ParsePair(pairs[index], decode);
      if pair.Some? {
        cookies := cookies[pair.value.0 := pair.value.1];
      }
      index := index + 1;
    }
    assert pairs[..|pairs|] == pairs;
  }

  // ---------------------------------------------------------------------
  // serializeCookie

  /** A session cookie (`NodeCgiSessionCookie`). An empty `domain` or
      `path` stands for an absent one; `notSent` false stands for the
      missing marker. */
  datatype Cookie = Cookie(
    name: string, value: string, httpOnly: bool, server: bool, notSent: bool,
    domain: string, path: string, expires: Option<nat>, secure: bool)

  /** The one-element list `[text]` when the field is set, else empty. */
  function Optional(present: bool, text: string): seq<string> {
    if present then [text] else []
  }

  /** The `pairs` array: `name=value`, then each attribute whose field is
      set. */
  function CookieAttributes(c: Cookie, encode: string -> string, utc: nat -> string): seq<string> {
    [c.name + "=" + encode(c.value)]
    + Optional(c.domain != "", "Domain=" + c.domain)
    + Optional(c.path != "", "Path=" + c.path)
    + Optional(c.expires.Some?, "Expires=" + if c.expires.Some? then utc(c.expires.value) else "")
    + Optional(c.httpOnly, "HttpOnly")
  }

  /** `CgiParser.serializeCookie`: the attributes joined by `; `. */
  function SerializeCookie(c: Cookie, encode: string -> string, utc: nat -> string): string {
    Join(CookieAttributes(c, encode, utc), "; ")
  }

  /** `; text` when the attribute is present, nothing otherwise. */
  function Attribute(present: bool, text: string): string {
    if present then "; " + text else ""
  }

  lemma JoinOptional(xs: seq<string>, present: bool, text: string)
    requires xs != []
    ensures Join(xs + Optional(present, text), "; ") == Join(xs, "; ") + Attribute(present, text)
  {
    if present {
      JoinSnoc(xs, text, "; ");
    } else {
      assert xs + Optional(present, text) == xs;
    }
  }

  /** The serialised cookie is `name=encode(value)` followed by
      `; Domain=…`, `; Path=…`, `; Expires=…` and `; HttpOnly`, in that
      order, each only when its field is set; `secure`, `server` and
      `notSent` never show. */
  lemma SerializeShape(c: Cookie, encode: string -> string, utc: nat -> string, secure: bool, server: bool, notSent: bool)
    ensures SerializeCookie(c, encode, utc)
            == c.name + "=" + encode(c.value)
               + Attribute(c.domain != "", "Domain=" + c.domain)
               + Attribute(c.path != "", "Path=" + c.path)
               + Attribute(c.expires.Some?, "Expires=" + if c.expires.Some? then utc(c.expires.value) else "")
               + Attribute(c.httpOnly, "HttpOnly")
    ensures SerializeCookie(c.(secure := secure, server := server, notSent := notSent), encode, utc)
            == SerializeCookie(c, encode, utc)
  {
    var a0 := [c.name + "=" + encode(c.value)];
    var a1 := a0 + Optional(c.domain != "", "Domain=" + c.domain);
    var a2 := a1 + Optional(c.path != "", "Path=" + c.path);
    var a3 := a2 + Optional(c.expires.Some?, "Expires=" + if c.expires.Some? then utc(c.expires.value) else "");
    JoinOptional(a0, c.domain != "", "Domain=" + c.domain);
    JoinOptional(a1, c.path != "", "Path=" + c.path);
    JoinOptional(a2, c.expires.Some?, "Expires=" + if c.expires.Some? then utc(c.expires.value) else "");
    JoinOptional(a3, c.httpOnly, "HttpOnly");
  }
}
