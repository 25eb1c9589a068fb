/** `CgiParser.script`: compiles a template document, literal text with
    `<? ... ?>` statement blocks and `<?= ... ?>` expression blocks, into a
    script whose `code` writes the literal blocks, stored in `content`, by
    index. */
module Template {
  import opened Wrappers
  import opened Text
  import Config

  /** A compiled script, as the execution context registers it. */
  datatype Script = Script(id: nat, path: string, code: string, content: seq<string>)

  datatype CompileError = MissingCloseTag

  /** One section of a template document, in document order. */
  datatype Block =
    | Literal(text: string)        // text outside the markers
    | Statement(body: string)      // `<? body ?>`
    | Expression(body: string)     // `<?= body ?>`

  /** `'response.write( __scripts[' + id + '].content['`. */
  function WritePrefix(id: nat): string {
    "response.write( __scripts[" + NatToString(id) + "].content["
  }

  /** The code appended for one block, `prefix` being `WritePrefix(id)`;
      `n` is the number of literal blocks stored before it. */
  function Instruction(prefix: string, b: Block, n: nat): string {
    match b
    case Literal(_) => prefix + NatToString(n) + "]);"
    case Statement(body) => body + ";"
    case Expression(body) => "response.write( " + body + " ); "
  }

  /** The literal texts of `bs`, in order: the script's `content`. */
  function Blocks(bs: seq<Block>): seq<string> {
    if bs == [] then []
    else
      var last := bs[|bs| - 1];
      Blocks(bs[..|bs| - 1]) + if last.Literal? then [last.text] else []
  }

  /** The instructions appended to `code`, one per block. */
  function Instructions(prefix: string, bs: seq<Block>): seq<string> {
    if bs == [] then []
    else
      var init := bs[..|bs| - 1];
      Instructions(prefix, init) + [Instruction(prefix, bs[|bs| - 1], |Blocks(init)|)]
  }

  /** The script's `code`. */
  function Code(prefix: string, bs: seq<Block>): string {
    Concat(Instructions(prefix, bs))
  }

  /** The document text a block stands for. */
  function Source(b: Block): string {
    match b
    case Literal(t) => t
    case Statement(body) => Config.StartTag + body + Config.EndTag
    case Expression(body) => Config.StartTag + "=" + body + Config.EndTag
  }

  /** The document text of a sequence of blocks. */
  function Render(bs: seq<Block>): string {
    if bs == [] then "" else Source(bs[0]) + Render(bs[1..])
  }

  /** Prepends the blocks already produced to the outcome of the rest of the scan. */
  function Then(done: seq<Block>, r: Result<seq<Block>, CompileError>): Result<seq<Block>, CompileError> {
    match r
    case Ok(rest) => Ok(done + rest)
    case Err(e) => Err(e)
  }

  /** The blocks of `s[start..]`, as one pass of the compiler's loop after
      another produces them: the literal text before the next start tag
      (only when non-empty), then the code block up to the first end tag
      after it; with no start tag left, the rest of the text as a final
      literal block, even when that rest is empty. */
  function Scan(s: string, start: nat): Result<seq<Block>, CompileError>
    requires start <= |s|
    decreases |s| - start
  {
    match IndexOf(s, Config.StartTag, start)
    case None => Ok([Literal(s[start..])])
    case Some(open) =>
      var bodyStart := BodyStart(s, open);
      match IndexOf(s, Config.EndTag, bodyStart)
      case None => Err(MissingCloseTag)
      case Some(close) =>
        Then(Lead(s, start, open) + [CodeBlock(s, open, close)], Scan(s, close + |Config.EndTag|))
  }

  /** The position just after the start tag at `open` and its optional `=`. */
  function BodyStart(s: string, open: nat): (b: nat)
    ensures open + |Config.StartTag| <= b <= open + |Config.StartTag| + 1
  {
    var afterTag := open + |Config.StartTag|;
    if afterTag < |s| && s[afterTag] == '=' then afterTag + 1 else afterTag
  }

  /** The literal block before the start tag at `open`, when there is text there. */
  function Lead(s: string, start: nat, open: nat): seq<Block>
    requires start <= open <= |s|
  {
    if open > start then [Literal(s[start..open])] else []
  }

  /** The code block opened at `open` and closed at `close`. */
  function CodeBlock(s: string, open: nat, close: nat): Block
    requires BodyStart(s, open) <= close <= |s|
  {
    var body := s[BodyStart(s, open)..close];
    if BodyStart(s, open) > open + |Config.StartTag| then Expression(body) else Statement(body)
  }

  /** The blocks of a whole document; the empty document has none. */
  function Parse(s: string): Result<seq<Block>, CompileError> {
    if |s| == 0 then Ok([]) else Scan(s, 0)
  }

  /** The script `CgiParser.script(id, path, s)` returns, or the error it throws. */
  function Compile(id: nat, path: string, s: string): (r: Result<Script, CompileError>)
    ensures r.Ok? ==> r.value.id == id && r.value.path == path
    ensures |s| == 0 ==> r == Ok(Script(id, path, "", []))
    ensures r.Err? <==> Parse(s).Err?
  {
    match Parse(s)
    case Err(e) => Err(e)
    case Ok(bs) => Ok(Script(id, path, Code(WritePrefix(id), bs), Blocks(bs)))
  }

  lemma {:induction false} ScanFinalLiteral(s: string, start: nat)
    requires start <= |s| && IndexOf(s, Config.StartTag, start).None?
    ensures Scan(s, start) == Ok([Literal(s[start..])])
  {
  }

  lemma {:induction false} ScanUnclosed(s: string, start: nat, bodyStart: nat)
    requires start <= |s|
    requires IndexOf(s, Config.StartTag, start).Some?
    requires bodyStart == BodyStart(s, IndexOf(s, Config.StartTag, start).value)
    requires IndexOf(s, Config.EndTag, bodyStart).None?
    ensures Scan(s, start) == Err(MissingCloseTag)
  {
  }

  lemma {:induction false} ScanCodeBlock(s: string, start: nat, open: nat, close: nat)
    requires start <= |s|
    requires IndexOf(s, Config.StartTag, start) == Some(open)
    requires IndexOf(s, Config.EndTag, BodyStart(s, open)) == Some(close)
    ensures Scan(s, start) == Then(Lead(s, start, open) + [CodeBlock(s, open, close)], Scan(s, close + |Config.EndTag|))
  {
    var r := Scan(s, close + |Config.EndTag|);
    var bs := BodyStart(s, open);
    assert IndexOf(s, Config.EndTag, bs) == Some(close);
  }

  /** Past a closed code block the scan fails exactly when the rest of it
      fails, and with the same error. */
  lemma ScanCodeErr(s: string, start: nat, open: nat, close: nat)
    requires start <= |s|
    requires IndexOf(s, Config.StartTag, start) == Some(open)
    requires IndexOf(s, Config.EndTag, BodyStart(s, open)) == Some(close)
    ensures close + |Config.EndTag| <= |s|
    ensures Scan(s, start).Err? <==> Scan(s, close + |Config.EndTag|).Err?
    ensures Scan(s, start).Err? ==> Scan(s, start) == Scan(s, close + |Config.EndTag|)
  {
    CodeBlockBounds(s, start, open, close);
    ScanCodeBlock(s, start, open, close);
  }

  lemma ThenThen(done: seq<Block>, more: seq<Block>, r: Result<seq<Block>, CompileError>)
    ensures Then(done, Then(more, r)) == Then(done + more, r)
  {
    match r
    case Ok(rest) => assert done + (more + rest) == (done + more) + rest;
    case Err(_) =>
  }

  lemma AppendBlock(prefix: string, bs: seq<Block>, b: Block)
    ensures Blocks(bs + [b]) == Blocks(bs) + if b.Literal? then [b.text] else []
    ensures Code(prefix, bs + [b]) == Code(prefix, bs) + Instruction(prefix, b, |Blocks(bs)|)
  {
    assert (bs + [b])[..|bs|] == bs;
    var xs := Instructions(prefix, bs);
    var x := Instruction(prefix, b, |Blocks(bs)|);
    assert Instructions(prefix, bs + [b]) == xs + [x];
    assert (xs + [x])[..|xs|] == xs;
  }

  lemma {:induction false} RenderAppend(a: seq<Block>, b: seq<Block>)
    ensures Render(a + b) == Render(a) + Render(b)
    decreases |a|
  {
    if a == [] {
      assert a + b == b;
    } else {
      assert (a + b)[1..] == a[1..] + b;
      RenderAppend(a[1..], b);
    }
  }

  /** A code block's text is the document text from its start tag to the
      end of its end tag. */
  lemma CodeBlockSource(s: string, open: nat, close: nat)
    requires OccursAt(s, Config.StartTag, open)
    requires BodyStart(s, open) <= close && OccursAt(s, Config.EndTag, close)
    ensures Source(CodeBlock(s, open, close)) == s[open..close + |Config.EndTag|]
  {
    var b := BodyStart(s, open);
    var t := open + |Config.StartTag|;
    var e := close + |Config.EndTag|;
    SliceSplit(s, open, t, e);
    SliceSplit(s, t, b, e);
    SliceSplit(s, b, close, e);
    TagsAround(s[open..t], s[t..b], s[b..close], s[close..e], s[open..e], if b > t then "=" else "");
    if b > t {
      assert s[t..b] == [s[t]];
    } else {
      assert s[t..b] == [];
    }
  }

  /** A code block written between its tags. */
  lemma TagsAround(tag: string, mark: string, body: string, endTag: string, whole: string, m: string)
    requires whole == tag + (mark + (body + endTag))
    requires tag == Config.StartTag && endTag == Config.EndTag && mark == m
    ensures whole == Config.StartTag + m + body + Config.EndTag
  {
  }

  /** The literal block before a start tag is the text before it. */
  lemma LeadRender(s: string, start: nat, open: nat)
    requires start <= open <= |s|
    ensures Render(Lead(s, start, open)) == s[start..open]
  {
    if open > start {
      assert Render(Lead(s, start, open)) == s[start..open] + Render([]);
    }
  }

  lemma RenderThree(lead: seq<Block>, block: Block, rest: seq<Block>)
    ensures Render(lead + [block] + rest) == Render(lead) + Source(block) + Render(rest)
  {
    RenderAppend(lead + [block], rest);
    RenderAppend(lead, [block]);
    assert [block][1..] == [];
    assert Render([block]) == Source(block);
  }

  lemma SuffixThree(s: string, i: nat, j: nat, k: nat)
    requires i <= j <= k <= |s|
    ensures s[i..] == s[i..j] + s[j..k] + s[k..]
  {
    SuffixSplit(s, i, k);
    SliceSplit(s, i, j, k);
  }

  /** The blocks of one code-block pass, followed by blocks that reproduce
      the text after the end tag, reproduce the text from `start`. */
  lemma RenderCodeStep(s: string, start: nat, open: nat, close: nat, rest: seq<Block>)
    requires start <= open && OccursAt(s, Config.StartTag, open)
    requires BodyStart(s, open) <= close && OccursAt(s, Config.EndTag, close)
    requires Render(rest) == s[close + |Config.EndTag|..]
    ensures Render(Lead(s, start, open) + [CodeBlock(s, open, close)] + rest) == s[start..]
  {
    var lead := Lead(s, start, open);
    var block := CodeBlock(s, open, close);
    var e := close + |Config.EndTag|;
    CodeBlockSource(s, open, close);
    LeadRender(s, start, open);
    RenderThree(lead, block, rest);
    SuffixThree(s, start, open, e);
    Glue(Render(lead + [block] + rest), Render(lead), Source(block), Render(rest), s[start..], s[start..open], s[open..e], s[e..]);
  }

  lemma Glue(r: string, a: string, b: string, c: string, t: string, x: string, y: string, z: string)
    requires r == a + b + c && t == x + y + z
    requires a == x && b == y && c == z
    ensures r == t
  {
  }

  /** The blocks of a successful scan reproduce the scanned text. */
  lemma {:induction false} ScanRender(s: string, start: nat)
    requires start <= |s|
    ensures Scan(s, start).Ok? ==> Render(Scan(s, start).value) == s[start..]
    decreases |s| - start
  {
    match IndexOf(s, Config.StartTag, start)
    case None =>
      ScanFinalLiteral(s, start);
      assert Render([Literal(s[start..])]) == s[start..] + Render([]);
    case Some(open) =>
      var bodyStart := BodyStart(s, open);
      match IndexOf(s, Config.EndTag, bodyStart)
      case None =>
        ScanUnclosed(s, start, bodyStart);
      case Some(close) =>
        var next := close + |Config.EndTag|;
        ScanCodeBlock(s, start, open, close);
        ScanRender(s, next);
        if Scan(s, next).Ok? {
          IndexOfFound(s, Config.StartTag, start);
          IndexOfFound(s, Config.EndTag, bodyStart);
          RenderCodeStep(s, start, open, close, Scan(s, next).value);
        }
  }

  /** Concatenating the blocks of a compiled document, each code block
      between its markers, gives the document back. */
  lemma ParseRender(s: string)
    ensures Parse(s).Ok? ==> Render(Parse(s).value) == s
  {
    if |s| > 0 {
      ScanRender(s, 0);
    }
  }

  /** No end tag starts at or after position `from`. */
  ghost predicate NoEndTagFrom(s: string, from: nat) {
    forall j :: from <= j ==> !OccursAt(s, Config.EndTag, j)
  }

  /** Some start tag at or after `start` has no end tag after it. */
  ghost predicate UnclosedAfter(s: string, start: nat) {
    exists o: nat :: start <= o && OccursAt(s, Config.StartTag, o) && IndexOf(s, Config.EndTag, o + |Config.StartTag|).None?
  }

  /** `indexOf` finds no end tag from `from` on exactly when there is none. */
  lemma NoEndTagIndexOf(s: string, from: nat)
    ensures NoEndTagFrom(s, from) <==> IndexOf(s, Config.EndTag, from).None?
  {
    IndexOfFirst(s, Config.EndTag, from);
  }

  /** An end tag cannot start one position before a start tag. */
  lemma TagsDisjoint(s: string, o: nat)
    requires o > 0 && OccursAt(s, Config.StartTag, o)
    ensures !OccursAt(s, Config.EndTag, o - 1)
  {
    assert s[o..o + |Config.StartTag|][0] == s[o];
  }

  /** Where a code block found from `start` lies. */
  lemma CodeBlockBounds(s: string, start: nat, open: nat, close: nat)
    requires IndexOf(s, Config.StartTag, start) == Some(open)
    requires IndexOf(s, Config.EndTag, BodyStart(s, open)) == Some(close)
    ensures start <= open && open + |Config.StartTag| <= close && close + |Config.EndTag| <= |s|
  {
  }

  /** A start tag at or after `start` with no end tag anywhere from it on
      makes the scan fail. */
  lemma {:induction false} UnclosedFails(s: string, start: nat, o: nat)
    requires start <= o && OccursAt(s, Config.StartTag, o) && IndexOf(s, Config.EndTag, o).None?
    ensures start <= |s| && Scan(s, start) == Err(MissingCloseTag)
    decreases |s| - start, 1
  {
    FirstStartTag(s, start, o);
    var open := IndexOf(s, Config.StartTag, start).value;
    var found := IndexOf(s, Config.EndTag, BodyStart(s, open));
    if found.None? {
      ScanUnclosed(s, start, BodyStart(s, open));
    } else {
      UnclosedFailsCode(s, start, o, open, found.value);
    }
  }

  /** A start tag at or after `start` is found, at or before it. */
  lemma FirstStartTag(s: string, start: nat, o: nat)
    requires start <= o && OccursAt(s, Config.StartTag, o)
    ensures IndexOf(s, Config.StartTag, start).Some? && IndexOf(s, Config.StartTag, start).value <= o
  {
    IndexOfFirst(s, Config.StartTag, start);
  }

  /** The step of `UnclosedFails` past a code block closed before the
      unclosed start tag. */
  lemma {:induction false} UnclosedFailsCode(s: string, start: nat, o: nat, open: nat, close: nat)
    requires start <= o && OccursAt(s, Config.StartTag, o) && IndexOf(s, Config.EndTag, o).None?
    requires IndexOf(s, Config.StartTag, start) == Some(open)
    requires IndexOf(s, Config.EndTag, BodyStart(s, open)) == Some(close)
    ensures start <= |s| && Scan(s, start) == Err(MissingCloseTag)
    decreases |s| - start, 0
  {
    var next := ClosedBetween(s, start, o, open, close);
    UnclosedFails(s, next, o);
  }

  /** The code block closes past `start` and before the unclosed start tag,
      and an error from there on is the error of the scan from `start`. */
  lemma ClosedBetween(s: string, start: nat, o: nat, open: nat, close: nat) returns (next: nat)
    requires OccursAt(s, Config.StartTag, o) && IndexOf(s, Config.EndTag, o).None?
    requires IndexOf(s, Config.StartTag, start) == Some(open)
    requires IndexOf(s, Config.EndTag, BodyStart(s, open)) == Some(close)
    ensures start < next <= o && next <= |s|
    ensures Scan(s, next) == Err(MissingCloseTag) ==> Scan(s, start) == Err(MissingCloseTag)
  {
    ClosedBefore(s, open, close, o);
    CodeBlockBounds(s, start, open, close);
    next := close + |Config.EndTag|;
    if Scan(s, next) == Err(MissingCloseTag) {
      ScanErrStep(s, start, open, close, MissingCloseTag);
    }
  }

  /** An error past a closed code block is the error of the whole scan. */
  lemma ScanErrStep(s: string, start: nat, open: nat, close: nat, e: CompileError)
    requires start <= |s|
    requires IndexOf(s, Config.StartTag, start) == Some(open)
    requires IndexOf(s, Config.EndTag, BodyStart(s, open)) == Some(close)
    requires close + |Config.EndTag| <= |s| && Scan(s, close + |Config.EndTag|) == Err(e)
    ensures Scan(s, start) == Err(e)
  {
    ScanCodeBlock(s, start, open, close);
  }

  /** A code block found before a start tag with no end tag from it on
      closes before that start tag. */
  lemma ClosedBefore(s: string, open: nat, close: nat, o: nat)
    requires OccursAt(s, Config.StartTag, o) && IndexOf(s, Config.EndTag, o).None?
    requires IndexOf(s, Config.EndTag, BodyStart(s, open)) == Some(close)
    ensures close + |Config.EndTag| <= o
  {
    IndexOfFirst(s, Config.EndTag, o);
    IndexOfFound(s, Config.EndTag, BodyStart(s, open));
    assert close < o;
    if close + 1 == o {
      TagsDisjoint(s, o);
    }
  }

  /** When the scan fails, some start tag at or after `start` has no end
      tag after it. */
  lemma {:induction false} FailureUnclosed(s: string, start: nat)
    requires start <= |s| && Scan(s, start).Err?
    ensures UnclosedAfter(s, start)
    decreases |s| - start, 1
  {
    var first := IndexOf(s, Config.StartTag, start);
    if first.None? {
      ScanFinalLiteral(s, start);
    } else {
      var found := IndexOf(s, Config.EndTag, BodyStart(s, first.value));
      if found.None? {
        FailureUnclosedHere(s, start, first.value);
      } else {
        CodeBlockBounds(s, start, first.value, found.value);
        ScanCodeErr(s, start, first.value, found.value);
        FailureUnclosedCode(s, start, found.value + |Config.EndTag|);
      }
    }
  }

  /** The start tag the scan stops at has no end tag after it. */
  lemma FailureUnclosedHere(s: string, start: nat, open: nat)
    requires IndexOf(s, Config.StartTag, start) == Some(open)
    requires IndexOf(s, Config.EndTag, BodyStart(s, open)).None?
    ensures UnclosedAfter(s, start)
  {
    IndexOfFound(s, Config.StartTag, start);
    var t := open + |Config.StartTag|;
    if BodyStart(s, open) > t {
      assert s[t] == '=';
      assert !OccursAt(s, Config.EndTag, t);
      assert IndexOf(s, Config.EndTag, t) == IndexOf(s, Config.EndTag, t + 1);
    }
    assert IndexOf(s, Config.EndTag, t).None?;
  }

  /** The step of `FailureUnclosed` past a code block that ends at `next`. */
  lemma {:induction false} FailureUnclosedCode(s: string, start: nat, next: nat)
    requires start < next <= |s| && Scan(s, next).Err?
    ensures UnclosedAfter(s, start)
    decreases |s| - start, 0
  {
    FailureUnclosed(s, next);
    var o: nat :| next <= o && OccursAt(s, Config.StartTag, o) && IndexOf(s, Config.EndTag, o + |Config.StartTag|).None?;
    assert start <= o;
  }

  /** `CgiParser.script` throws exactly for documents with an unterminated
      block: a start tag with no end tag from it on always throws, and a
      throw always comes from a start tag with no end tag after it. */
  lemma CompileFails(id: nat, path: string, s: string)
    ensures forall o: nat :: OccursAt(s, Config.StartTag, o) && NoEndTagFrom(s, o) ==> Compile(id, path, s) == Err(MissingCloseTag)
    ensures Compile(id, path, s).Err? ==> exists o: nat :: OccursAt(s, Config.StartTag, o) && NoEndTagFrom(s, o + |Config.StartTag|)
  {
    forall o | OccursAt(s, Config.StartTag, o) && NoEndTagFrom(s, o)
      ensures Compile(id, path, s) == Err(MissingCloseTag)
    {
      NoEndTagIndexOf(s, o);
      UnclosedFails(s, 0, o);
    }
    if Compile(id, path, s).Err? {
      FailureUnclosed(s, 0);
      var o: nat :| OccursAt(s, Config.StartTag, o) && IndexOf(s, Config.EndTag, o + |Config.StartTag|).None?;
      NoEndTagIndexOf(s, o + |Config.StartTag|);
    }
  }

  /** `pat` occurs nowhere in `t`. */
  ghost predicate Free(t: string, pat: string) {
    forall j :: !OccursAt(t, pat, j)
  }

  /** The shape of every block sequence the compiler produces for a
      non-empty document: it ends with a literal block (possibly empty);
      every other literal block is non-empty and is followed by a code
      block; no literal holds a start tag and no code body holds an end tag;
      a statement body does not start with `=`. */
  ghost predicate WellFormed(bs: seq<Block>)
    decreases |bs|
  {
    && |bs| > 0
    && match bs[0]
       case Literal(t) =>
         && Free(t, Config.StartTag)
         && (|bs| == 1 || (t != [] && !bs[1].Literal? && WellFormed(bs[1..])))
       case Statement(body) =>
         && Free(body, Config.EndTag) && (body == [] || body[0] != '=')
         && |bs| > 1 && WellFormed(bs[1..])
       case Expression(body) =>
         && Free(body, Config.EndTag)
         && |bs| > 1 && WellFormed(bs[1..])
  }

  /** An occurrence inside a slice is an occurrence in the whole text. */
  lemma OccursInSlice(s: string, a: nat, b: nat, pat: string, j: nat)
    requires a <= b <= |s| && OccursAt(s[a..b], pat, j)
    ensures a + j + |pat| <= b && OccursAt(s, pat, a + j)
  {
    var t := s[a..b];
    forall k | 0 <= k < |pat| ensures s[a + j..a + j + |pat|][k] == pat[k] {
      assert t[j..j + |pat|][k] == pat[k];
    }
  }

  /** The text between `a` and `b` holds no occurrence of `pat` when no
      occurrence starts in `[a, b)`. */
  lemma SliceFree(s: string, a: nat, b: nat, pat: string)
    requires a <= b <= |s| && |pat| > 0
    requires forall j :: a <= j < b ==> !OccursAt(s, pat, j)
    ensures Free(s[a..b], pat)
  {
    forall j | OccursAt(s[a..b], pat, j) ensures false {
      OccursInSlice(s, a, b, pat, j);
    }
  }

  lemma {:induction false} ScanWellFormed(s: string, start: nat)
    requires start <= |s|
    ensures Scan(s, start).Ok? ==> WellFormed(Scan(s, start).value)
    decreases |s| - start
  {
    match IndexOf(s, Config.StartTag, start)
    case None =>
      FinalWellFormed(s, start);
    case Some(open) =>
      var bodyStart := BodyStart(s, open);
      match IndexOf(s, Config.EndTag, bodyStart)
      case None =>
        ScanUnclosed(s, start, bodyStart);
      case Some(close) =>
        var next := close + |Config.EndTag|;
        ScanCodeBlock(s, start, open, close);
        ScanWellFormed(s, next);
        if Scan(s, next).Ok? {
          CodeStepWellFormed(s, start, open, close, Scan(s, next).value);
        }
  }

  /** The final literal of a scan that finds no start tag is well formed. */
  lemma FinalWellFormed(s: string, start: nat)
    requires start <= |s| && IndexOf(s, Config.StartTag, start).None?
    ensures Scan(s, start).Ok? && WellFormed(Scan(s, start).value)
  {
    IndexOfFirst(s, Config.StartTag, start);
    ScanFinalLiteral(s, start);
    SliceFree(s, start, |s|, Config.StartTag);
    assert s[start..|s|] == s[start..];
  }

  /** The blocks one pass adds in front of well-formed blocks keep them well formed. */
  lemma CodeStepWellFormed(s: string, start: nat, open: nat, close: nat, rest: seq<Block>)
    requires start <= |s|
    requires IndexOf(s, Config.StartTag, start) == Some(open)
    requires IndexOf(s, Config.EndTag, BodyStart(s, open)) == Some(close)
    requires WellFormed(rest)
    ensures WellFormed(Lead(s, start, open) + [CodeBlock(s, open, close)] + rest)
  {
    var bodyStart := BodyStart(s, open);
    IndexOfFirst(s, Config.StartTag, start);
    IndexOfFirst(s, Config.EndTag, bodyStart);
    var block := CodeBlock(s, open, close);
    SliceFree(s, bodyStart, close, Config.EndTag);
    assert WellFormed([block] + rest) by {
      assert ([block] + rest)[1..] == rest;
      if block.Statement? && block.body != [] {
        assert block.body[0] == s[bodyStart];
      }
    }
    if open > start {
      SliceFree(s, start, open, Config.StartTag);
      assert ([Literal(s[start..open])] + ([block] + rest))[1..] == [block] + rest;
    }
    assert Lead(s, start, open) + [block] + rest == Lead(s, start, open) + ([block] + rest);
  }

  /** A well-formed sequence ends with a literal block, and the block
      before it, if any, is a code block. */
  lemma {:induction false} WellFormedEnd(bs: seq<Block>)
    requires WellFormed(bs)
    ensures bs[|bs| - 1].Literal?
    ensures |bs| > 1 ==> !bs[|bs| - 2].Literal?
    decreases |bs|
  {
    if |bs| > 1 {
      WellFormedEnd(bs[1..]);
      assert bs[1..][|bs| - 2] == bs[|bs| - 1];
      if |bs| > 2 {
        assert bs[1..][|bs| - 3] == bs[|bs| - 2];
      }
    }
  }

  /** The blocks of a compiled non-empty document have the shape
      `WellFormed` describes and end in a literal block holding exactly
      the text after the last code block (empty when that code block
      closes at the end of the document); the empty document has no
      blocks. */
  lemma ParseWellFormed(s: string)
    ensures Parse(s).Ok? && Parse(s).value != [] ==> WellFormed(Parse(s).value)
    ensures |s| == 0 ==> Parse(s) == Ok([])
    ensures |s| > 0 && Parse(s).Ok? ==> Parse(s).value != []
    ensures |s| > 0 && Parse(s).Ok? ==>
              var bs := Parse(s).value;
              var init := bs[..|bs| - 1];
              && (|bs| > 1 ==> !bs[|bs| - 2].Literal?)
              && |Render(init)| <= |s|
              && bs[|bs| - 1] == Literal(s[|Render(init)|..])
  {
    if |s| > 0 {
      ScanWellFormed(s, 0);
      if Parse(s).Ok? {
        ParseRender(s);
        FinalLiteral(Parse(s).value);
      }
    }
  }

  /** The last block of a well-formed sequence is a literal holding the
      text it renders to after the blocks before it. */
  lemma FinalLiteral(bs: seq<Block>)
    requires WellFormed(bs)
    ensures var init := bs[..|bs| - 1];
            && (|bs| > 1 ==> !bs[|bs| - 2].Literal?)
            && |Render(init)| <= |Render(bs)|
            && bs[|bs| - 1] == Literal(Render(bs)[|Render(init)|..])
  {
    var init := bs[..|bs| - 1];
    var last := bs[|bs| - 1];
    WellFormedEnd(bs);
    assert bs == init + [last];
    RenderAppend(init, [last]);
    assert Render([last]) == last.text;
  }

  /** The instructions and literal texts of a prefix of the blocks are a
      prefix of those of all the blocks. */
  lemma {:induction false} PrefixOutput(prefix: string, bs: seq<Block>, m: nat)
    requires m <= |bs|
    ensures |Instructions(prefix, bs)| == |bs|
    ensures Instructions(prefix, bs)[..m] == Instructions(prefix, bs[..m])
    ensures Blocks(bs[..m]) <= Blocks(bs)
    decreases |bs|
  {
    if m == |bs| {
      assert bs[..m] == bs;
      if bs != [] {
        PrefixOutput(prefix, bs[..|bs| - 1], |bs| - 1);
      }
    } else {
      var init := bs[..|bs| - 1];
      PrefixOutput(prefix, init, m);
      assert init[..m] == bs[..m];
    }
  }

  /** The `k`-th instruction is the one for the `k`-th block, numbered by
      the literal blocks stored before it. */
  lemma InstructionAt(prefix: string, bs: seq<Block>, k: nat)
    requires k < |bs|
    ensures |Instructions(prefix, bs)| == |bs|
    ensures Instructions(prefix, bs)[k] == Instruction(prefix, bs[k], |Blocks(bs[..k])|)
  {
    PrefixOutput(prefix, bs, k + 1);
    assert bs[..k + 1][..k] == bs[..k];
  }

  /** A literal block's text is stored in `content` at the index its
      instruction names. */
  lemma LiteralStoredAt(bs: seq<Block>, k: nat)
    requires k < |bs| && bs[k].Literal?
    ensures |Blocks(bs[..k])| < |Blocks(bs)|
    ensures Blocks(bs)[|Blocks(bs[..k])|] == bs[k].text
  {
    PrefixOutput("", bs, k + 1);
    assert bs[..k + 1][..k] == bs[..k];
    assert Blocks(bs[..k + 1]) == Blocks(bs[..k]) + [bs[k].text];
  }

  /** What the compiled `code` does for the `k`-th block of the document:
      a literal block writes `__scripts[id].content[n]`, where `n` counts
      the literal blocks before it and `content[n]` is its text; a `<?=`
      block writes its body; a `<?` block runs its body as a statement. */
  lemma CompiledInstruction(id: nat, path: string, s: string, bs: seq<Block>, k: nat)
    requires Parse(s) == Ok(bs) && k < |bs|
    ensures Compile(id, path, s).Ok?
    ensures var script := Compile(id, path, s).value;
            var instrs := Instructions(WritePrefix(id), bs);
            var n := |Blocks(bs[..k])|;
            && script.code == Concat(instrs) && |instrs| == |bs|
            && (bs[k].Literal? ==>
                  && instrs[k] == "response.write( __scripts[" + NatToString(id) + "].content[" + NatToString(n) + "]);"
                  && n < |script.content| && script.content[n] == bs[k].text)
            && (bs[k].Expression? ==> instrs[k] == "response.write( " + bs[k].body + " ); ")
            && (bs[k].Statement? ==> instrs[k] == bs[k].body + ";")
  {
    InstructionAt(WritePrefix(id), bs, k);
    if bs[k].Literal? {
      LiteralStoredAt(bs, k);
    }
  }
}
