# cgi-node in Dafny

This project models the core of cgi-node, a CGI bridge that runs
server-side JavaScript pages. On each request it does five things:

- It splits the CGI environment into server variables and HTTP headers, and parses the Cookie header (`CgiParser`, `CgiHttpRequest`).
- It compiles `<? … ?>` / `<?= … ?>` templates into a script. The script's `code` writes the literal blocks, which are kept in its `content` list, by index (`CgiParser.script`).
- It keeps the included scripts in a registry whose ids are their positions, and creates the VM context once (`CgiHttpContext.include`).
- It loads or creates a file-backed session and sweeps out expired session files (`CgiHttpSession`).
- It writes a CGI response: the header lines, one `Set-Cookie` line per session cookie not yet sent, an empty line, then the body (`CgiHttpResponse`).

Modules:

- `Text`: the JavaScript string operations the core relies on (`indexOf`, `trim`, `split`, `join`, `toLowerCase`, decimal rendering).
- `Config`: the `CgiNodeConfig` constants.
- `Ordered`: a JavaScript object used as a dictionary, enumerated in insertion order.
- `Library`: the Node.js functions the core calls, given as arbitrary functions.
- `Template`: the block model of a compiled document, and what is proved about it.
- `TemplateCompiler`: the compiler's `while` loop over that model.
- `CgiParser`: the environment split, cookie parsing and cookie serialisation.
- `CgiNodeRequest`: the request object.
- `CgiHttp`: the session store, the session directory and the response writer. They share one module because the session and the response refer to each other.
- `CgiNodeContext`: the execution context.

Each stateful object is a Dafny class: `Request`, `Session`, `SessionDirectory`, `Response` and `Context`. Their methods are proved against specification functions: `Initialised`, `CreateResult`/`AfterCreate`, `InitOutcome`, `Swept`, `HeaderBlock`/`Cleared` and `Prepared`. The lemmas state what the source promises about those functions.

A cookie value that starts with `"` loses its first and its last character, whatever the last character is (src/CgiNodeParser.js:240-243).

## Model

| member | source | states |
|---|---|---|
| Text.IndexOf | src/CgiNodeParser.js:75 | `indexOf` finds a position at or after the start from which the pattern fits in the string |
| Text.IndexOfFirst | src/CgiNodeParser.js:75-95 | what `indexOf` finds is an occurrence and no occurrence lies before it; -1 (None) means there is none at all |
| Text.IndexOfChar | src/CgiNodeParser.js:229 | for one character, -1 exactly when the character is absent, otherwise its first position |
| Text.ToLower | src/CgiNodeParser.js:147 | `toLowerCase` keeps the length and lower-cases each character |
| Text.Trim | src/CgiNodeParser.js:237-238 | `trim` gives a slice of the input that neither starts nor ends with white space, with only white space cut on either side |
| Text.Split | src/CgiNodeParser.js:217 | `split` on one character gives at least one piece, no piece holds the separator, and joining the pieces with it gives the input back |
| Text.NatToString | src/CgiNodeParser.js:58 | the rendering of an id in string concatenation is a non-empty run of decimal digits |
| Text.NatToStringValue | src/CgiNodeParser.js:58 | the digits of the rendering denote the id, read as a decimal number, and have no leading zero |
| Text.NatToStringInjective | src/CgiNodeParser.js:58 | different ids render as different strings |
| Ordered.Find | cgi-bin/cgi-node.js:535-537 | a key lookup on an object finds the position of that key, or reports that no entry has it |
| Ordered.Put | cgi-bin/cgi-node.js:535 | assigning a key keeps every existing key in its place and adds at most one entry, at the end |
| Ordered.PutGet | cgi-bin/cgi-node.js:535 | after `obj[k] = v`, `k` reads `v`, every other key reads as before, and keys stay distinct |
| Ordered.RemoveGet | cgi-bin/cgi-node.js:537 | after `delete obj[k]`, `k` reads `undefined`, every other key reads as before, keys stay distinct, and one entry goes exactly when `k` was present |
| Template.BodyStart | src/CgiNodeParser.js:89-92 | the code body starts right after the start tag, or one character later after a `=` |
| Template.Compile | src/CgiNodeParser.js:53-130 | the script carries the given id and path; the empty document gives empty `code` and no `content`; it throws exactly when the block parse fails |
| Template.ScanRender | src/CgiNodeParser.js:73-126 | the blocks of a successful scan from a position, code blocks written between their tags, reproduce the text from there |
| Template.ParseRender | src/CgiNodeParser.js:73-126 | the literal blocks and the code blocks with their tags (and `=`), in order, reproduce the document exactly |
| Template.UnclosedFails | src/CgiNodeParser.js:95-115 | a start tag at or after the scan position with no end tag anywhere from it on makes the scan throw `Missing close tag` |
| Template.FailureUnclosed | src/CgiNodeParser.js:95-115 | when the scan throws, some start tag at or after its position has no end tag after it |
| Template.NoEndTagIndexOf | src/CgiNodeParser.js:95 | `indexOf` finds no end tag from a position exactly when none occurs there |
| Template.CompileFails | src/CgiNodeParser.js:95-115 | a document with a start tag followed by no end tag throws `Missing close tag` and yields no script; every throw comes from such a start tag (both directions) |
| Template.ScanWellFormed | src/CgiNodeParser.js:73-125 | a successful scan yields well-formed blocks: ends with a literal; every other literal is non-empty and followed by a code block; literals hold no start tag; bodies hold no end tag (no nesting); a statement body does not start with `=` |
| Template.WellFormedEnd | src/CgiNodeParser.js:73-125 | well-formed blocks end with a literal block, preceded by a code block when there is more than one block |
| Template.ParseWellFormed | src/CgiNodeParser.js:73-125 | a compiled non-empty document has well-formed blocks ending in a literal block that holds exactly the text after the last code block, so it is empty when that code block closes at the end of the document; the empty document has no blocks |
| Template.PrefixOutput | src/CgiNodeParser.js:82-124 | the instructions and stored literals of a prefix of the blocks are a prefix of those of all the blocks |
| Template.InstructionAt | src/CgiNodeParser.js:82-123 | the k-th instruction is the one for the k-th block, numbered by the literal blocks stored before it |
| Template.LiteralStoredAt | src/CgiNodeParser.js:82-124 | a literal block's text is stored in `content` at the index its instruction names |
| Template.CompiledInstruction | src/CgiNodeParser.js:58-124 | the n-th literal writes `__scripts[id].content[n]`, with n the `content` length just before the push and `content[n]` its text; a `<?=` block becomes `response.write( body ); `; any other block becomes `body;` |
| TemplateCompiler.Section | src/CgiNodeParser.js:75-125 | a pass that ends after a code block moves `startIndex` strictly forward and leaves `endIndex` inside the document, so the loop terminates |
| TemplateCompiler.EmitAllOutput | src/CgiNodeParser.js:82-124 | appending the blocks one pass after another gives the `code` and `content` of all of them |
| TemplateCompiler.ResumeScan | src/CgiNodeParser.js:73-126 | the loop resumed at any position with any output so far yields that output followed by the blocks of the rest of the scan, or the scan's error |
| TemplateCompiler.CompileResume | src/CgiNodeParser.js:62-129 | the loop started on a non-empty document computes `Compile` |
| TemplateCompiler.CompileSection | src/CgiNodeParser.js:75-125 | one pass of the loop body computes `Section`: the literal before the tag when non-empty, then the code block, or the final literal, or the error |
| TemplateCompiler.CompileScript | src/CgiNodeParser.js:53-130 | the `while` loop, with its `startIndex`/`endIndex` bookkeeping, returns exactly `Compile(id, path, content)` |
| CgiParser.HeaderNameStart | src/CgiNodeParser.js:150 | `name.indexOf('http_') === 0` holds exactly for names starting with `http_` |
| CgiParser.RouteLower | src/CgiNodeParser.js:147-155 | a variable goes to the headers exactly when its lower-cased name starts with `http_`, keyed without the prefix, and to the server variables otherwise; every key is lower case |
| CgiParser.SplitVariablesValue | src/CgiNodeParser.js:144-156 | under each key of either map lies the last value routed there, or else the entry it already had; entries are only added or overwritten |
| CgiParser.SplitVariablesRouting | src/CgiNodeParser.js:144-156 | every variable lands in exactly the map its name routes it to, and every key added is lower case |
| CgiParser.EnvironmentVariablesAndHeaders | src/CgiNodeParser.js:142-157 | the `for…in` loop leaves both maps as the split of the environment over their old contents |
| CgiParser.CookiePairSplit | src/CgiNodeParser.js:228-243 | a segment is skipped exactly when it has no `=`; otherwise the key is the trimmed text before the first `=` (holding no `=`), and the value comes from the trimmed text after it |
| CgiParser.CookieFoldLast | src/CgiNodeParser.js:224-251 | a cookie is present exactly when some segment has its key, and it holds the value of the last such segment |
| CgiParser.CookieRoundTrip | src/CgiNodeParser.js:216-255 | a Cookie header `name=encode(value)`, with name and encoding in the usual form, parses back to exactly `{name: value}` |
| CgiParser.ParsePair | src/CgiNodeParser.js:226-250 | one pass of the loop body yields the segment's key and unquoted value, decoded or kept raw when decoding fails, or nothing without `=` |
| CgiParser.Cookies | src/CgiNodeParser.js:216-255 | the loop over the `;` segments computes `ParseCookies` and never fails |
| CgiParser.SerializeShape | src/CgiNodeParser.js:190-210 | the serialisation is `name=encode(value)` then `; Domain=`, `; Path=`, `; Expires=`, `; HttpOnly`, in that order, each only when set; `secure`, `server` and `notSent` never show |
| CgiHttp.FreeAttempt | src/CgiNodeSession.js:149-167 | the attempt found lies between the start and the tenth |
| CgiHttp.FreeAttemptStep | src/CgiNodeSession.js:149-167 | a taken candidate moves on to the next attempt, a free one ends the search |
| CgiHttp.FreeAttemptFirst | src/CgiNodeSession.js:149-167 | the attempt found has no file and every earlier attempt had one; with none found, all attempts had one |
| CgiHttp.FreeId | src/CgiNodeSession.js:146-167 | the `do…while` retry loop returns `CreateResult`: the first free candidate, or `Unable to generate a new session ID` |
| CgiHttp.CreateAttempts | src/CgiNodeSession.js:147-167 | `create` fails exactly when all 10 candidates have files; otherwise it returns the first candidate without one |
| CgiHttp.CreateWrites | src/CgiNodeSession.js:167-193 | the new id had no file; afterwards its file holds a record with that id and path, the client address, no data and one cookie (the session id, http-only, server-side, not sent); no other file changes |
| CgiHttp.SessionFileInjective | src/CgiNodeSession.js:167 | different ids have different session files |
| CgiHttp.CreatedPresent | src/CgiNodeSession.js:190-193 | after a successful `create` the new id's file holds the new record |
| CgiHttp.SweptFiles | src/CgiNodeSession.js:202-221 | the sweep deletes exactly the listed files that have expired and keeps every other file unchanged |
| CgiHttp.SweptAll | src/CgiNodeSession.js:202-221 | over a listing of the whole directory, the sweep deletes exactly the expired files and keeps every other file unchanged |
| CgiHttp.ExpiryBoundary | src/CgiNodeSession.js:218 | the comparison is strict: a file exactly 15 minutes old survives, one a millisecond older goes |
| CgiHttp.InitWithoutCookie | src/CgiNodeSession.js:87-115 | without a session cookie `init` creates exactly one session and loads it, or throws and changes no file |
| CgiHttp.InitMissingFile | src/CgiNodeSession.js:87-115 | with a session cookie whose file is missing, `init` creates exactly one new session and loads it |
| CgiHttp.InitExistingFile | src/CgiNodeSession.js:87-115 | with an existing file `init` changes no file, throws `Invalid session ID!` exactly when the stored address differs from the client's, and otherwise takes every field from the file |
| CgiHttp.SaveThenInit | src/CgiNodeSession.js:102-137 | after `save`, a later `init` carrying the id, from the stored address, restores exactly the saved fields |
| CgiHttp.Session.constructor | src/CgiNodeSession.js:42-77 | a new session has no id or path, no cookies and no data |
| CgiHttp.Session.Create | src/CgiNodeSession.js:144-194 | `create` returns `CreateResult` and leaves the directory as `AfterCreate` |
| CgiHttp.Session.Init | src/CgiNodeSession.js:82-118 | `init` sets `response.session` first, then leaves the fields, the files and the outcome as `InitOutcome` says; the response is otherwise untouched |
| CgiHttp.Session.Save | src/CgiNodeSession.js:123-137 | `save` overwrites the file at the session's path with exactly its five fields |
| CgiHttp.Session.CleanUp | src/CgiNodeSession.js:202-222 | the loop over the listing of the whole directory leaves it as `Swept`: exactly the files whose modification time plus the time-out lies before now are gone, and every other file is unchanged |
| CgiHttp.Cleared | cgi-bin/cgi-node.js:560-566 | deleting the markers keeps every cookie's name and other fields |
| CgiHttp.ClearedCookies | cgi-bin/cgi-node.js:560-566 | once the markers are deleted no cookie is emitted again; deleting them twice changes nothing further, and each cookie serialises as before |
| CgiHttp.UnmarkedSilent | cgi-bin/cgi-node.js:563 | cookies without the `notSent` marker get no line |
| CgiHttp.EmitCookies | cgi-bin/cgi-node.js:560-567 | the cookie loop emits the `Set-Cookie` lines of the marked cookies, in order, and deletes exactly their markers |
| CgiHttp.Response.constructor | cgi-bin/cgi-node.js:511-540 | a fresh response has no session, has not sent its headers, and has the single header `content-type: text/html; charset=utf-8` |
| CgiHttp.Response.SetHeader | cgi-bin/cgi-node.js:535 | a script's header assignment updates the header object and nothing else, and no header name occurs twice |
| CgiHttp.Response.RemoveHeader | cgi-bin/cgi-node.js:537 | a script's header deletion removes that header from the header object and changes nothing else |
| CgiHttp.Response.WriteHeaderLines | cgi-bin/cgi-node.js:555-557 | one `name:value\r\n` line per header, in order |
| CgiHttp.Response.WriteCookieLines | cgi-bin/cgi-node.js:560-567 | the marked cookies' lines are written and their markers deleted; the session's other fields are untouched |
| CgiHttp.Response.SendHeaders | cgi-bin/cgi-node.js:547-571 | idempotent: once sent it emits nothing and the flag stays set; otherwise it emits header lines, cookie lines and one empty line, and headers changed later are never emitted |
| CgiHttp.Response.Write | cgi-bin/cgi-node.js:578-584 | the output is the header block, sent exactly once, followed by everything written |
| CgiHttp.Response.End | cgi-bin/cgi-node.js:589-595 | `end` sends the headers when unsent and then exits |
| CgiNodeRequest.InitialisedHeaders | src/CgiNodeRequest.js:112-118 | `content_type` is the server's or `''`, `content_length` the server's or `0`; `method` and `httpVersion` are `request_method` and `server_protocol` |
| CgiNodeRequest.InitialisedCookiesAndPost | src/CgiNodeRequest.js:121-130 | cookies are parsed from the `cookie` header only when it is truthy, otherwise they stay as they were; the post is multipart exactly when the lower-cased content type contains `multipart/form-data` |
| CgiNodeRequest.InitialisedFromEnvironment | src/CgiNodeRequest.js:109-118 | the server variables are the environment split and the headers are too, except the two content keys |
| CgiNodeRequest.ParsedPostFields | src/CgiNodeRequest.js:160-168 | parsing routes a multipart body to the multipart splitter and any other to the query-string parser, changing nothing else |
| CgiNodeRequest.Request.constructor | src/CgiNodeRequest.js:71-107 | `new CgiHttpRequest()` starts from empty maps and the empty post, then runs `init` |
| CgiNodeRequest.Request.Init | src/CgiNodeRequest.js:107-134 | `init` leaves the fields as `Initialised` of the old ones |
| CgiNodeRequest.Request.ReadPost | src/CgiNodeRequest.js:140-155 | `post.data` gets the chunks appended in order and then is parsed when asked; nothing else changes |
| CgiNodeRequest.Request.ParsePost | src/CgiNodeRequest.js:160-168 | `parsePost` computes `ParsedPost` and changes nothing else |
| CgiNodeContext.PreparedScript | src/CgiNodeContext.js:100-126 | the script has the next id and the mapped path; a `.js` file's raw content is its code with no literals; any other file is compiled with that id, and fails exactly as `CompileFails` says |
| CgiNodeContext.NumberedPush | src/CgiNodeContext.js:114-129 | the registry keeps ids equal to positions exactly when the pushed script carries the registry's length |
| CgiNodeContext.Context.constructor | src/CgiNodeContext.js:40-68 | an empty registry, no VM context, the initialised request, the session as `init` leaves it, and a response with nothing sent |
| CgiNodeContext.Context.Write | src/CgiNodeContext.js:74 | the `write` alias behaves as `response.write`: the header block goes out first when unsent, the content is appended to the body, the session cookies' `notSent` markers are deleted on that first send, and the headers and exit flag are unchanged |
| CgiNodeContext.Context.Prepare | src/CgiNodeContext.js:100-126 | the first half of `include` computes `Prepared` with the registry's length as the id |
| CgiNodeContext.Context.Include | src/CgiNodeContext.js:100-138 | appends the prepared script at the old length and keeps earlier entries; when the file cannot be mapped, read or compiled, the registry, the VM context, the output, the response's headers and flags and the session cookies are unchanged; the VM context is set afterwards and is never created twice; nested includes get larger ids |
| CgiNodeContext.Context.Run | src/CgiNodeContext.js:137 | running a script only appends to the registry and never unsets the VM context; once the process has exited nothing more runs or is written |

## Left out

- Running the embedded code (`VM.runInContext`): it is an arbitrary `behaviour` giving each script a list of calls back into the context (`write`, `include`, setting and deleting headers, `sendHeaders`, `end`) and, possibly, a throw, which ends the script and propagates out of its include. Everything else the code computes is not modelled. A depth budget stands for the JavaScript call-stack limit: at depth 0 a nested include fails with `DepthExceeded`.
- `URL.parse` and the `url`/`query` fields of the request are not modelled, nor the `form` field. The error `URL.parse` raises for a missing `request_uri` is not modelled either.
- `CgiParser.multiPart` is given as a function (`Library.Host.multiPart`), because its loop body is empty in the source. The `files` list of the post is never filled in, so it is not kept.
- `encodeURIComponent`, `decodeURIComponent`, `toUTCString`, `QueryString.parse`, MD5, `Date.now`, `Math.random`, `Path.dirname`, `Path.resolve` and `Path.extname` come from the environment as arbitrary functions (`Library.Host`). The current time is a parameter.
- CgiHttp.SessionFile: `Path.join` is string concatenation. The configured session path already ends in `/`, and path normalisation is not modelled.
- JSON serialisation of session files: records are stored in the file map directly, and an `undefined` address is `None`.
- File-system errors, races between processes on the session directory, and the standard-input event wiring are not modelled. `ReadPost` takes the chunks as a list.
- CgiHttp.Session.CleanUp: the listing `readdirSync` returns is a parameter. It is required to name every file of the directory, and only those, each once.
- CgiNodeRequest.Initialised: the `content_length` default is the string `"0"`, where the source stores the number 0.
- Text.ToLower: lower-cases only the ASCII letters.
- CgiParser.Unquote: strings are sequences of Unicode characters, where JavaScript strings are UTF-16 code units. Removing the last character of a quoted cookie value therefore drops a whole astral character, where `slice(1, -1)` would leave its lone high surrogate.
- Ordered.Put: `for…in` order is insertion order. JavaScript enumerates integer-like keys first, and that is not modelled.
- CgiNodeContext.Context.constructor: where the source's constructor throws because the session's `init` failed, the model records the outcome in `started`.
- CgiHttp.Response.SendHeaders: requires the session to be attached. The source throws a `TypeError` reading the cookies of a `null` session.
- `process.exit` is the `exited` flag. `content.toString()` in `write` is the identity, because content is a string.
- `cgiNodeInfo`, the `process` and `require` fields of the context, the entry-point and process-lifecycle code, and the duplicated copies of the src files in cgi-bin/cgi-node.js are not part of this model.
