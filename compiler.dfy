/** The compiler's loop in `CgiParser.script`, pass by pass, and its
    agreement with the block model of `Template`. */
module TemplateCompiler {
  import opened Wrappers
  import opened Text
  import Config
  import opened Template

  /** What `code` and `content` hold while the compiler's loop runs. */
  datatype Output = Output(code: string, content: seq<string>)

  /** The output of the blocks `bs`. */
  function OutputOf(prefix: string, bs: seq<Block>): Output {
    Output(Code(prefix, bs), Blocks(bs))
  }

  /** `out` after one more block: its instruction, and its text when it is a literal. */
  function Emit(prefix: string, out: Output, b: Block): Output {
    Output(out.code + Instruction(prefix, b, |out.content|),
           out.content + if b.Literal? then [b.text] else [])
  }

  /** `out` after the literal block before the start tag at `open`, when
      there is text there. */
  function EmitLead(prefix: string, s: string, start: nat, open: nat, out: Output): Output
    requires start <= open <= |s|
  {
    if open > start then Emit(prefix, out, Literal(s[start..open])) else out
  }

  /** Where the compiler's loop stands after one pass: at the next
      `startIndex` and `endIndex` after a code block, or finished after the
      final literal block. */
  datatype Pass = Next(startIndex: nat, endIndex: nat, out: Output) | Done(out: Output)

  /** One pass of the compiler's loop from `start` with `out` produced so
      far: the literal text up to the next start tag (when there is any) and
      the code block after it, or the final literal block when no start tag
      is left; an error for a start tag with no end tag after it. */
  function Section(prefix: string, s: string, start: nat, out: Output): (r: Result<Pass, CompileError>)
    requires start <= |s|
    ensures r.Ok? && r.value.Next? ==> start < r.value.startIndex <= |s| && r.value.endIndex < |s|
  {
    match IndexOf(s, Config.StartTag, start)
    case None => Ok(Done(Emit(prefix, out, Literal(s[start..]))))
    case Some(open) =>
      var out1 := EmitLead(prefix, s, start, open, out);
      match IndexOf(s, Config.EndTag, BodyStart(s, open))
      case None => Err(MissingCloseTag)
      case Some(close) => Ok(Next(close + |Config.EndTag|, close, Emit(prefix, out1, CodeBlock(s, open, close))))
  }

  /** The outcome of the compiler's loop resumed at `start` with `out`
      produced so far. */
  function Resume(prefix: string, s: string, start: nat, out: Output): Result<Output, CompileError>
    requires start <= |s|
    decreases |s| - start
  {
    match Section(prefix, s, start, out)
    case Err(e) => Err(e)
    case Ok(Done(out')) => Ok(out')
    case Ok(Next(next, _, out')) => Resume(prefix, s, next, out')
  }

  /** `out` after each of the blocks `bs` in turn. */
  function EmitAll(prefix: string, out: Output, bs: seq<Block>): Output
    decreases |bs|
  {
    if bs == [] then out else EmitAll(prefix, Emit(prefix, out, bs[0]), bs[1..])
  }

  /** `out` followed by the blocks of `r`, or its error. */
  function Lift(prefix: string, out: Output, r: Result<seq<Block>, CompileError>): Result<Output, CompileError> {
    match r
    case Ok(rest) => Ok(EmitAll(prefix, out, rest))
    case Err(e) => Err(e)
  }

  lemma EmitAllOne(prefix: string, out: Output, b: Block)
    ensures EmitAll(prefix, out, [b]) == Emit(prefix, out, b)
  {
    assert [b][1..] == [];
  }

  lemma {:induction false} EmitAllAppend(prefix: string, out: Output, a: seq<Block>, b: seq<Block>)
    ensures EmitAll(prefix, out, a + b) == EmitAll(prefix, EmitAll(prefix, out, a), b)
    decreases |a|
  {
    if a == [] {
      assert a + b == b;
    } else {
      assert (a + b)[0] == a[0];
      assert (a + b)[1..] == a[1..] + b;
      EmitAllAppend(prefix, Emit(prefix, out, a[0]), a[1..], b);
    }
  }

  lemma LiftThen(prefix: string, out: Output, more: seq<Block>, r: Result<seq<Block>, CompileError>)
    ensures Lift(prefix, out, Then(more, r)) == Lift(prefix, EmitAll(prefix, out, more), r)
  {
    match r
    case Ok(rest) => EmitAllAppend(prefix, out, more, rest);
    case Err(_) =>
  }

  lemma EmitBlock(prefix: string, bs: seq<Block>, b: Block)
    ensures Emit(prefix, OutputOf(prefix, bs), b) == OutputOf(prefix, bs + [b])
  {
    AppendBlock(prefix, bs, b);
  }

  /** Emitting blocks one by one onto the output of `done` gives the output
      of `done` followed by them. */
  lemma {:induction false} EmitAllOutput(prefix: string, done: seq<Block>, bs: seq<Block>)
    ensures EmitAll(prefix, OutputOf(prefix, done), bs) == OutputOf(prefix, done + bs)
    decreases |bs|
  {
    if bs == [] {
      assert done + bs == done;
    } else {
      var grown := done + [bs[0]];
      assert grown + bs[1..] == done + bs;
      EmitBlock(prefix, done, bs[0]);
      EmitAllOutput(prefix, grown, bs[1..]);
    }
  }

  /** The blocks of a code-block pass, emitted one by one, are what the
      pass appends. */
  lemma EmitAllPass(prefix: string, s: string, start: nat, open: nat, close: nat, out: Output)
    requires start <= open && BodyStart(s, open) <= close <= |s|
    ensures EmitAll(prefix, out, Lead(s, start, open) + [CodeBlock(s, open, close)]) ==
            Emit(prefix, EmitLead(prefix, s, start, open, out), CodeBlock(s, open, close))
  {
    var b := CodeBlock(s, open, close);
    if open > start {
      var l := Literal(s[start..open]);
      EmitAllAppend(prefix, out, [l], [b]);
      EmitAllOne(prefix, out, l);
      EmitAllOne(prefix, Emit(prefix, out, l), b);
    } else {
      assert Lead(s, start, open) + [b] == [b];
      EmitAllOne(prefix, out, b);
    }
  }

  lemma {:induction false} ResumeFinalLiteral(prefix: string, s: string, start: nat, out: Output)
    requires start <= |s| && IndexOf(s, Config.StartTag, start).None?
    ensures Resume(prefix, s, start, out) == Ok(Emit(prefix, out, Literal(s[start..])))
  {
    assert Section(prefix, s, start, out) == Ok(Done(Emit(prefix, out, Literal(s[start..]))));
  }

  lemma {:induction false} ResumeUnclosed(prefix: string, s: string, start: nat, out: Output, bodyStart: nat)
    requires start <= |s|
    requires IndexOf(s, Config.StartTag, start).Some?
    requires bodyStart == BodyStart(s, IndexOf(s, Config.StartTag, start).value)
    requires IndexOf(s, Config.EndTag, bodyStart).None?
    ensures Resume(prefix, s, start, out) == Err(MissingCloseTag)
  {
    assert Section(prefix, s, start, out) == Err(MissingCloseTag);
  }

  /** A pass that ends after a code block leaves the loop to resume after it. */
  lemma ResumeNext(prefix: string, s: string, start: nat, out: Output, next: nat, end: nat, out': Output)
    requires start <= |s|
    requires Section(prefix, s, start, out) == Ok(Next(next, end, out'))
    ensures next <= |s|
    ensures Resume(prefix, s, start, out) == Resume(prefix, s, next, out')
  {
  }

  lemma SectionCodeBlock(prefix: string, s: string, start: nat, out: Output, open: nat, close: nat)
    requires start <= |s|
    requires IndexOf(s, Config.StartTag, start) == Some(open)
    requires IndexOf(s, Config.EndTag, BodyStart(s, open)) == Some(close)
    ensures Section(prefix, s, start, out) ==
            Ok(Next(close + |Config.EndTag|, close, Emit(prefix, EmitLead(prefix, s, start, open, out), CodeBlock(s, open, close))))
  {
    var bs := BodyStart(s, open);
    assert IndexOf(s, Config.EndTag, bs) == Some(close);
  }

  lemma ResumeCodeBlock(prefix: string, s: string, start: nat, out: Output, open: nat, close: nat)
    requires start <= |s|
    requires IndexOf(s, Config.StartTag, start) == Some(open)
    requires IndexOf(s, Config.EndTag, BodyStart(s, open)) == Some(close)
    ensures close + |Config.EndTag| <= |s|
    ensures Resume(prefix, s, start, out) ==
            Resume(prefix, s, close + |Config.EndTag|, Emit(prefix, EmitLead(prefix, s, start, open, out), CodeBlock(s, open, close)))
  {
    SectionCodeBlock(prefix, s, start, out, open, close);
    ResumeNext(prefix, s, start, out, close + |Config.EndTag|, close,
               Emit(prefix, EmitLead(prefix, s, start, open, out), CodeBlock(s, open, close)));
  }

  /** The scan after a code-block pass, lifted onto what the pass appends. */
  lemma LiftCodeBlock(prefix: string, s: string, start: nat, out: Output, open: nat, close: nat)
    requires start <= |s|
    requires IndexOf(s, Config.StartTag, start) == Some(open)
    requires IndexOf(s, Config.EndTag, BodyStart(s, open)) == Some(close)
    ensures Lift(prefix, out, Scan(s, start)) ==
            Lift(prefix, Emit(prefix, EmitLead(prefix, s, start, open, out), CodeBlock(s, open, close)), Scan(s, close + |Config.EndTag|))
  {
    CodeBlockBounds(s, start, open, close);
    ScanCodeBlock(s, start, open, close);
    LiftThen(prefix, out, Lead(s, start, open) + [CodeBlock(s, open, close)], Scan(s, close + |Config.EndTag|));
    EmitAllPass(prefix, s, start, open, close, out);
  }

  /** Resuming the loop with `out` produced so far gives `out` followed by
      the blocks of the rest of the scan. */
  lemma {:induction false} ResumeScan(prefix: string, s: string, start: nat, out: Output)
    requires start <= |s|
    ensures Resume(prefix, s, start, out) == Lift(prefix, out, Scan(s, start))
    decreases |s| - start, 1
  {
    var first := IndexOf(s, Config.StartTag, start);
    if first.None? {
      ResumeScanFinal(prefix, s, start, out);
    } else {
      var open := first.value;
      var found := IndexOf(s, Config.EndTag, BodyStart(s, open));
      if found.None? {
        ResumeScanUnclosed(prefix, s, start, out);
      } else {
        ResumeScanCode(prefix, s, start, out, open, found.value);
      }
    }
  }

  /** The step of `ResumeScan` for the final literal block. */
  lemma ResumeScanFinal(prefix: string, s: string, start: nat, out: Output)
    requires start <= |s| && IndexOf(s, Config.StartTag, start).None?
    ensures Resume(prefix, s, start, out) == Lift(prefix, out, Scan(s, start))
  {
    ResumeFinalLiteral(prefix, s, start, out);
    ScanFinalLiteral(s, start);
    EmitAllOne(prefix, out, Literal(s[start..]));
  }

  /** The step of `ResumeScan` for a start tag with no end tag after it. */
  lemma ResumeScanUnclosed(prefix: string, s: string, start: nat, out: Output)
    requires start <= |s| && IndexOf(s, Config.StartTag, start).Some?
    requires IndexOf(s, Config.EndTag, BodyStart(s, IndexOf(s, Config.StartTag, start).value)).None?
    ensures Resume(prefix, s, start, out) == Lift(prefix, out, Scan(s, start))
  {
    var bodyStart := BodyStart(s, IndexOf(s, Config.StartTag, start).value);
    ResumeUnclosed(prefix, s, start, out, bodyStart);
    ScanUnclosed(s, start, bodyStart);
  }

  /** The step of `ResumeScan` for a pass that ends after a code block. */
  lemma {:induction false} ResumeScanCode(prefix: string, s: string, start: nat, out: Output, open: nat, close: nat)
    requires start <= |s|
    requires IndexOf(s, Config.StartTag, start) == Some(open)
    requires IndexOf(s, Config.EndTag, BodyStart(s, open)) == Some(close)
    ensures Resume(prefix, s, start, out) == Lift(prefix, out, Scan(s, start))
    decreases |s| - start, 0
  {
    var out' := Emit(prefix, EmitLead(prefix, s, start, open, out), CodeBlock(s, open, close));
    CodeBlockBounds(s, start, open, close);
    ResumeScan(prefix, s, close + |Config.EndTag|, out');
    ResumeScanStep(prefix, s, start, out, open, close, out');
  }

  /** The loop resumed after a code-block pass agrees with the rest of the
      scan, so it agrees before the pass. */
  lemma ResumeScanStep(prefix: string, s: string, start: nat, out: Output, open: nat, close: nat, out': Output)
    requires start <= |s|
    requires IndexOf(s, Config.StartTag, start) == Some(open)
    requires IndexOf(s, Config.EndTag, BodyStart(s, open)) == Some(close)
    requires out' == Emit(prefix, EmitLead(prefix, s, start, open, out), CodeBlock(s, open, close))
    requires Resume(prefix, s, close + |Config.EndTag|, out') == Lift(prefix, out', Scan(s, close + |Config.EndTag|))
    ensures Resume(prefix, s, start, out) == Lift(prefix, out, Scan(s, start))
  {
    ResumeCodeBlock(prefix, s, start, out, open, close);
    LiftCodeBlock(prefix, s, start, out, open, close);
  }

  /** The script made of what the compiler's loop produced. */
  function Finish(id: nat, path: string, r: Result<Output, CompileError>): Result<Script, CompileError> {
    match r
    case Ok(out) => Ok(Script(id, path, out.code, out.content))
    case Err(e) => Err(e)
  }

  /** The compiler's loop started on a non-empty document computes `Compile`. */
  lemma CompileResume(id: nat, path: string, s: string)
    ensures 0 < |s| ==> Compile(id, path, s) == Finish(id, path, Resume(WritePrefix(id), s, 0, Output("", [])))
  {
    if 0 < |s| {
      ResumeScan(WritePrefix(id), s, 0, Output("", []));
      FinishLift(id, path, Scan(s, 0));
    }
  }

  lemma FinishLift(id: nat, path: string, r: Result<seq<Block>, CompileError>)
    ensures Finish(id, path, Lift(WritePrefix(id), Output("", []), r)) ==
            match r
            case Ok(bs) => Ok(Script(id, path, Code(WritePrefix(id), bs), Blocks(bs)))
            case Err(e) => Err(e)
  {
    match r
    case Ok(bs) =>
      assert OutputOf(WritePrefix(id), []) == Output("", []);
      EmitAllOutput(WritePrefix(id), [], bs);
      assert [] + bs == bs;
    case Err(_) =>
  }

  /** The body of the compiler's loop, one pass from `startIndex0`. */
  method CompileSection(prefix: string, content: string, startIndex0: nat, out: Output) returns (r: Result<Pass, CompileError>)
    requires startIndex0 <= |content|
    ensures r == Section(prefix, content, startIndex0, out)
  {
    var startIndex := startIndex0;
    var code := out.code;
    var blocks := out.content;
    var endIndex: nat;
    var open := IndexOf(content, Config.StartTag, startIndex);
    if open.Some? {
      endIndex := open.value;
      if endIndex > startIndex {
        var text := content[startIndex..endIndex];
        code := code + Instruction(prefix, Literal(text), |blocks|);
        blocks := blocks + [text];
      }
      ghost var out1 := Output(code, blocks);
      assert out1 == EmitLead(prefix, content, startIndex0, open.value, out);
      startIndex := endIndex + |Config.StartTag|;
      var writeSection := startIndex < |content| && content[startIndex] == '=';
      if writeSection {
        startIndex := startIndex + 1;
      }
      assert startIndex == BodyStart(content, open.value);
      var close := IndexOf(content, Config.EndTag, startIndex);
      if close.Some? {
        endIndex := close.value;
        var body := content[startIndex..endIndex];
        var block := if writeSection then Expression(body) else Statement(body);
        assert block == CodeBlock(content, open.value, close.value);
        code := code + Instruction(prefix, block, |blocks|);
        assert Output(code, blocks) == Emit(prefix, out1, block);
        startIndex := endIndex + |Config.EndTag|;
        return Ok(Next(startIndex, endIndex, Output(code, blocks)));
      } else {
        return Err(MissingCloseTag);
      }
    } else {
      var text := content[startIndex..];
      code := code + Instruction(prefix, Literal(text), |blocks|);
      blocks := blocks + [text];
      return Ok(Done(Output(code, blocks)));
    }
  }

  /** `CgiParser.script`: the loop that scans with `indexOf` from
      `startIndex`, appending to `code` and `content` as it goes, and throws
      on a block with no end tag. It computes exactly `Compile`. */
  method CompileScript(id: nat, path: string, content: string) returns (r: Result<Script, CompileError>)
    ensures r == Compile(id, path, content)
  {
    var writePrefix := WritePrefix(id);
    var out := Output("", []);
    var endIndex: nat := 0;
    var startIndex: nat := 0;
    ghost var whole := Resume(writePrefix, content, 0, out);
    CompileResume(id, path, content);
    while endIndex < |content|
      invariant startIndex <= |content| && endIndex <= |content|
      invariant endIndex < |content| ==> Resume(writePrefix, content, startIndex, out) == whole
      invariant endIndex == |content| && 0 < |content| ==> whole == Ok(out)
      invariant |content| == 0 ==> out == Output("", [])
      decreases |content| - startIndex, |content| - endIndex
    {
      var pass := CompileSection(writePrefix, content, startIndex, out);
      match pass
      case Err(e) =>
        return Err(e);
      case Ok(Next(s, e, o)) =>
        startIndex, endIndex, out := s, e, o;
      case Ok(Done(o)) =>
        endIndex, out := |content|, o;
    }
    return Ok(Script(id, path, out.code, out.content));
  }
}
