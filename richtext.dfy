/**
 * The block level of the Markdown-to-post converter: the text is split on
 * newlines and walked line by line. Fenced code blocks collapse into one
 * `code_block` run, headings become one bold run, blank lines one empty run,
 * and every other line goes through the inline tokenizer. The content lines
 * are wrapped in a post; when encoding the post fails, the caller falls back
 * to a plain-text payload.
 */
module RichText {
  import opened Wrappers
  import opened Strings
  import opened Patterns
  import opened Inline

  /** The post body `{"zh_cn": {"content": lines}}`; no "title" key is written. */
  datatype Post = Post(content: seq<seq<Run>>)

  /** `json.Marshal` failing; its message is not modelled. */
  datatype MarshalError = MarshalError

  /** The Lark message types the converter chooses between ("post" and "text"). */
  datatype MsgType = PostMsg | TextMsg

  /** The payload of a message: a post, or `{"text": content}`. */
  datatype Payload = PostPayload(post: Post) | TextPayload(text: string)

  datatype Content = Content(msgType: MsgType, payload: Payload)

  /** A line whose trimmed form starts with three backticks opens or closes a fence. */
  predicate IsFence(line: string) {
    HasPrefix(TrimSpace(line), "```")
  }

  /** The run a fenced code block becomes. */
  function CodeRun(code: string): Run {
    Text(code, [CodeBlock])
  }

  /**
   * The runs of one line outside a fence, tested in the source's order:
   * heading, then blank, then inline tokenization.
   */
  function LineRuns(line: string): seq<Run> {
    match HeadingText(line)
    case Some(h) => [Text(h, [Bold])]
    case None =>
      if TrimSpace(line) == "" then [Text("", [])]
      else Tokenize(Normalize(line))
  }

  /** The number of lines before the first fence line, or all of them. */
  function FenceLen(ls: seq<string>): (n: nat)
    ensures n <= |ls|
    ensures forall j :: 0 <= j < n ==> !IsFence(ls[j])
    ensures n < |ls| ==> IsFence(ls[n])
    decreases |ls|
  {
    if ls == [] then 0
    else if IsFence(ls[0]) then 0
    else 1 + FenceLen(ls[1..])
  }

  /** How the walk groups the lines: a fenced block with its inner lines, or a single line. */
  datatype Block = Fenced(code: seq<string>) | Single(line: string)

  /**
   * The grouping of the lines `ls`. A fence line opens a block that runs up
   * to the next fence line, or to the end when there is none; both fence
   * lines are consumed and only the lines strictly between are kept. Every
   * other line stands alone.
   */
  function Blocks(ls: seq<string>): seq<Block>
    decreases |ls|
  {
    if ls == [] then []
    else if IsFence(ls[0]) then
      var n := FenceLen(ls[1..]);
      var next := if 1 + n < |ls| then 2 + n else 1 + n;
      [Fenced(ls[1..1 + n])] + Blocks(ls[next..])
    else [Single(ls[0])] + Blocks(ls[1..])
  }

  /** The runs of one block: a code block becomes one run of its lines joined by newlines. */
  function Render(b: Block): seq<Run> {
    match b
    case Fenced(code) => [CodeRun(Join(code))]
    case Single(line) => LineRuns(line)
  }

  /** The content lines of a sequence of blocks; a block without runs adds no line. */
  function Assemble(bs: seq<Block>): seq<seq<Run>>
    decreases |bs|
  {
    if bs == [] then []
    else
      var runs := Render(bs[0]);
      (if |runs| > 0 then [runs] else []) + Assemble(bs[1..])
  }

  /** The content lines produced for the lines `ls`. */
  function Convert(ls: seq<string>): seq<seq<Run>> {
    Assemble(Blocks(ls))
  }

  /** The content lines of a whole text. */
  function Document(text: string): seq<seq<Run>> {
    Convert(Split(text))
  }

  /** Every line outside a fence yields at least one run. */
  lemma LineRunsNonEmpty(line: string)
    ensures |LineRuns(line)| > 0
  {
    if HeadingText(line).None? && TrimSpace(line) != "" {
      NormalizeEmpty(line);
      TokenizeEmpty(Normalize(line));
    }
  }

  /** A heading line becomes a single bold run holding the capture. */
  lemma HeadingLine(line: string)
    requires HeadingText(line).Some?
    ensures LineRuns(line) == [Text(HeadingText(line).value, [Bold])]
  {
  }

  /** A whitespace-only line becomes a single empty, unstyled run. */
  lemma BlankLine(line: string)
    requires AllSpace(line)
    ensures LineRuns(line) == [Text("", [])]
  {
    HeadingNeedsLeadingHash(line);
  }

  /** A non-blank line that is no heading is tokenized after trimming and bullet rewriting. */
  lemma NormalLine(line: string)
    requires HeadingText(line).None? && !AllSpace(line)
    ensures LineRuns(line) == Tokenize(Normalize(line))
    ensures |LineRuns(line)| > 0
  {
    LineRunsNonEmpty(line);
  }

  lemma {:induction false} FenceLenIs(ls: seq<string>, n: nat)
    requires n <= |ls|
    requires forall j :: 0 <= j < n ==> !IsFence(ls[j])
    requires n == |ls| || IsFence(ls[n])
    ensures FenceLen(ls) == n
    decreases n
  {
    if n > 0 {
      FenceLenIs(ls[1..], n - 1);
    }
  }

  /**
   * A fence at `a` closed at `b` (or left open when `b` is the end) groups
   * exactly the lines strictly between, and grouping resumes after the
   * closing fence. Text after the backticks of either fence line is dropped.
   */
  lemma FenceBlock(ls: seq<string>, a: nat, b: nat, code: seq<string>)
    requires a < b <= |ls| && IsFence(ls[a])
    requires code == ls[a + 1..b] && forall j :: 0 <= j < |code| ==> !IsFence(code[j])
    requires b == |ls| || IsFence(ls[b])
    ensures b < |ls| ==> Blocks(ls[a..]) == [Fenced(code)] + Blocks(ls[b + 1..])
    ensures b == |ls| ==> Blocks(ls[a..]) == [Fenced(code)] + Blocks(ls[b..])
  {
    var t := ls[a..];
    var inner := ls[a + 1..];
    assert t[1..] == inner;
    var n := b - a - 1;
    forall j | 0 <= j < n ensures !IsFence(inner[j]) {
      assert inner[j] == code[j];
    }
    if b < |ls| {
      assert inner[n] == ls[b];
    }
    FenceLenIs(inner, n);
    assert t[1..1 + n] == code;
    if b < |ls| {
      assert t[2 + n..] == ls[b + 1..];
    } else {
      assert t[1 + n..] == ls[b..];
    }
  }

  /** The walk past a fence opened at `a` and closed at `b`, or left open when `b` is the end. */
  lemma FenceWalk(ls: seq<string>, a: nat, b: nat, next: nat, code: seq<string>)
    requires a < b <= |ls| && IsFence(ls[a])
    requires code == ls[a + 1..b] && forall j :: 0 <= j < |code| ==> !IsFence(code[j])
    requires b == |ls| || IsFence(ls[b])
    requires next == if b < |ls| then b + 1 else b
    ensures next <= |ls|
    ensures Blocks(ls[a..]) == [Fenced(code)] + Blocks(ls[next..])
  {
    FenceBlock(ls, a, b, code);
  }

  lemma SliceExtend<T>(s: seq<T>, a: nat, b: nat)
    requires a <= b < |s|
    ensures s[a..b + 1] == s[a..b] + [s[b]]
  {
  }

  /** A line outside a fence is a block of its own. */
  lemma LineBlock(ls: seq<string>, a: nat)
    requires a < |ls| && !IsFence(ls[a])
    ensures Blocks(ls[a..]) == [Single(ls[a])] + Blocks(ls[a + 1..])
  {
    SliceOfSlice(ls, a, |ls|, 1, |ls| - a);
    assert ls[a..] == ls[a..|ls|];
  }

  /** Every block renders to at least one run, so every block yields exactly one content line. */
  lemma RenderNonEmpty(b: Block)
    ensures |Render(b)| > 0
  {
    if b.Single? {
      LineRunsNonEmpty(b.line);
    }
  }

  lemma AssembleCons(b: Block, bs: seq<Block>)
    ensures Assemble([b] + bs) == [Render(b)] + Assemble(bs)
  {
    RenderNonEmpty(b);
    assert ([b] + bs)[1..] == bs;
  }

  /** Blocks and content lines correspond one to one, and no content line is empty. */
  lemma {:induction false} AssembleShape(bs: seq<Block>)
    ensures |Assemble(bs)| == |bs|
    ensures forall j :: 0 <= j < |bs| ==> Assemble(bs)[j] == Render(bs[j]) && |Assemble(bs)[j]| > 0
    decreases |bs|
  {
    if bs != [] {
      AssembleCons(bs[0], bs[1..]);
      assert [bs[0]] + bs[1..] == bs;
      AssembleShape(bs[1..]);
      RenderNonEmpty(bs[0]);
      forall j | 0 <= j < |bs| ensures Assemble(bs)[j] == Render(bs[j]) && |Assemble(bs)[j]| > 0 {
        if j > 0 {
          assert Assemble(bs)[j] == Assemble(bs[1..])[j - 1];
          RenderNonEmpty(bs[j]);
        }
      }
    }
  }

  /** There are never more blocks than lines, and at least one for a non-empty input. */
  lemma {:induction false} BlocksCount(ls: seq<string>)
    ensures |Blocks(ls)| <= |ls|
    ensures |ls| > 0 ==> |Blocks(ls)| >= 1
    decreases |ls|
  {
    if ls != [] {
      if IsFence(ls[0]) {
        var n := FenceLen(ls[1..]);
        var next := if 1 + n < |ls| then 2 + n else 1 + n;
        BlocksCount(ls[next..]);
      } else {
        BlocksCount(ls[1..]);
      }
    }
  }

  /** Without fence lines, every line is a block of its own, in order. */
  lemma {:induction false} BlocksNoFence(ls: seq<string>)
    requires forall j :: 0 <= j < |ls| ==> !IsFence(ls[j])
    ensures |Blocks(ls)| == |ls|
    ensures forall j :: 0 <= j < |ls| ==> Blocks(ls)[j] == Single(ls[j])
    decreases |ls|
  {
    if ls != [] {
      BlocksNoFence(ls[1..]);
      forall j | 0 <= j < |ls| ensures Blocks(ls)[j] == Single(ls[j]) {
        if j > 0 {
          assert Blocks(ls)[j] == Blocks(ls[1..])[j - 1];
        }
      }
    }
  }

  /** An unterminated fence swallows every remaining line into one code run, without error. */
  lemma FenceUnterminated(ls: seq<string>)
    requires |ls| > 0 && IsFence(ls[0])
    requires forall j :: 0 < j < |ls| ==> !IsFence(ls[j])
    ensures Convert(ls) == [[CodeRun(Join(ls[1..]))]]
  {
    assert ls[1..|ls|] == ls[1..];
    var code := ls[1..];
    forall j | 0 <= j < |code| ensures !IsFence(code[j]) {
      assert code[j] == ls[j + 1];
    }
    FenceBlock(ls, 0, |ls|, code);
    assert ls[0..] == ls && ls[|ls|..] == [];
    AssembleCons(Fenced(ls[1..]), []);
    assert [Fenced(ls[1..])] + [] == [Fenced(ls[1..])];
  }

  /**
   * A fence closed at `b`: the lines strictly between become one content line
   * with one `code_block` run, followed by the conversion of what comes after
   * the closing fence.
   */
  lemma FenceClosed(ls: seq<string>, b: nat)
    requires 0 < b < |ls| && IsFence(ls[0]) && IsFence(ls[b])
    requires forall j :: 0 < j < b ==> !IsFence(ls[j])
    ensures Convert(ls) == [[CodeRun(Join(ls[1..b]))]] + Convert(ls[b + 1..])
  {
    var code := ls[1..b];
    forall j | 0 <= j < |code| ensures !IsFence(code[j]) {
      assert code[j] == ls[j + 1];
    }
    FenceBlock(ls, 0, b, code);
    assert ls[0..] == ls;
    AssembleCons(Fenced(ls[1..b]), Blocks(ls[b + 1..]));
  }

  /**
   * Shape of the output: every content line holds at least one run, there
   * are never more content lines than source lines, and a non-empty input
   * yields at least one content line.
   */
  lemma ConvertShape(ls: seq<string>)
    ensures forall j :: 0 <= j < |Convert(ls)| ==> |Convert(ls)[j]| > 0
    ensures |Convert(ls)| <= |ls|
    ensures |ls| > 0 ==> |Convert(ls)| >= 1
  {
    AssembleShape(Blocks(ls));
    BlocksCount(ls);
  }

  /** Without fence lines, content lines and source lines correspond one to one. */
  lemma ConvertNoFence(ls: seq<string>)
    requires forall j :: 0 <= j < |ls| ==> !IsFence(ls[j])
    ensures |Convert(ls)| == |ls|
    ensures forall j :: 0 <= j < |ls| ==> Convert(ls)[j] == LineRuns(ls[j])
  {
    BlocksNoFence(ls);
    AssembleShape(Blocks(ls));
  }

  /** Every document has at least one content line, since splitting yields at least one line. */
  lemma DocumentNonEmpty(text: string)
    ensures |Document(text)| >= 1
  {
    ConvertShape(Split(text));
  }

  /*
   * The walk keeps two facts: the blocks visited so far followed by those of
   * the unvisited lines are the blocks of the whole text, and the content
   * lines emitted so far are the renderings of the visited blocks, one each.
   * The lemmas below carry them over one step and conclude at the end.
   */

  /** `c` holds exactly the renderings of the blocks `e`, in order. */
  ghost predicate RenderedAs(c: seq<seq<Run>>, e: seq<Block>) {
    |c| == |e| && forall j :: 0 <= j < |c| ==> c[j] == Render(e[j])
  }

  /** Moving one block from the unvisited lines to the visited ones. */
  lemma Advance<T>(done: seq<T>, b: T, rest: seq<T>, next: seq<T>, whole: seq<T>)
    requires done + rest == whole && rest == [b] + next
    ensures (done + [b]) + next == whole
  {
    assert (done + [b]) + next == done + ([b] + next);
  }

  lemma RenderedStep(c: seq<seq<Run>>, e: seq<Block>, runs: seq<Run>, b: Block)
    requires RenderedAs(c, e) && runs == Render(b)
    ensures RenderedAs(c + [runs], e + [b])
  {
    assert forall j :: 0 <= j < |c| ==> (c + [runs])[j] == c[j] && (e + [b])[j] == e[j];
  }

  /** A fenced block renders to one code run of its lines joined by newlines. */
  lemma CodeRendered(c: seq<seq<Run>>, e: seq<Block>, code: seq<string>)
    requires RenderedAs(c, e)
    ensures RenderedAs(c + [[Text(Join(code), [CodeBlock])]], e + [Fenced(code)])
  {
    RenderedStep(c, e, [Text(Join(code), [CodeBlock])], Fenced(code));
  }

  lemma HeadingRendered(c: seq<seq<Run>>, e: seq<Block>, line: string)
    requires RenderedAs(c, e) && HeadingText(line).Some?
    ensures RenderedAs(c + [[Text(HeadingText(line).value, [Bold])]], e + [Single(line)])
  {
    HeadingLine(line);
    RenderedStep(c, e, [Text(HeadingText(line).value, [Bold])], Single(line));
  }

  lemma BlankRendered(c: seq<seq<Run>>, e: seq<Block>, line: string)
    requires RenderedAs(c, e) && HeadingText(line).None? && TrimSpace(line) == ""
    ensures RenderedAs(c + [[Text("", [])]], e + [Single(line)])
  {
    RenderedStep(c, e, [Text("", [])], Single(line));
  }

  lemma InlineRendered(c: seq<seq<Run>>, e: seq<Block>, line: string, elements: seq<Run>)
    requires RenderedAs(c, e) && HeadingText(line).None? && TrimSpace(line) != ""
    requires elements == Tokenize(Normalize(line))
    ensures |elements| > 0
    ensures RenderedAs(c + [elements], e + [Single(line)])
  {
    NormalLine(line);
    RenderedStep(c, e, elements, Single(line));
  }

  /** Renderings of all the blocks are their assembly, since no rendering is empty. */
  lemma RenderedAssembled(c: seq<seq<Run>>, bs: seq<Block>)
    requires RenderedAs(c, bs)
    ensures c == Assemble(bs)
  {
    AssembleShape(bs);
  }

  /** Once every line is visited, the visited blocks are all of them. */
  lemma WalkDone(lines: seq<string>, e: seq<Block>)
    requires e + Blocks(lines[|lines|..]) == Blocks(lines)
    ensures e == Blocks(lines)
  {
    assert lines[|lines|..] == [];
    assert e + [] == e;
  }

  /**
   * The fence branch of `markdownToFeishuPost`: from the opening fence at
   * `open`, collects the lines up to the next fence line (or the end) and
   * steps past the closing fence when there is one. The collected lines and
   * the resume index are exactly the block the layout assigns to this fence.
   */
  method CollectFence(lines: seq<string>, open: nat) returns (codeLines: seq<string>, next: nat)
    requires open < |lines| && IsFence(lines[open])
    ensures open < next <= |lines|
    ensures Blocks(lines[open..]) == [Fenced(codeLines)] + Blocks(lines[next..])
  {
    codeLines := [];
    var i := open + 1;
    while i < |lines| && !HasPrefix(TrimSpace(lines[i]), "```")
      invariant open < i <= |lines|
      invariant codeLines == lines[open + 1..i]
      invariant forall j :: 0 <= j < |codeLines| ==> !IsFence(codeLines[j])
    {
      SliceExtend(lines, open + 1, i);
      codeLines := codeLines + [lines[i]];
      i := i + 1;
    }
    ghost var close := i;
    if i < |lines| {
      i := i + 1;
    }
    FenceWalk(lines, open, close, i, codeLines);
    next := i;
  }

  /**
   * `markdownToFeishuPost`: walks the lines with an index, collapsing fenced
   * blocks and converting every other line; `marshalFails` stands for the
   * outcome of `json.Marshal`. The post holds exactly the document's content
   * lines.
   */
  method MarkdownToFeishuPost(text: string, marshalFails: bool) returns (r: Result<Post, MarshalError>)
    ensures r.Err? <==> marshalFails
    ensures r.Ok? ==> r.value == Post(Document(text))
  {
    var lines := Split(text);
    var contentLines: seq<seq<Run>> := [];
    ghost var visited: seq<Block> := [];
    assert lines[0..] == lines;

    var i := 0;
    while i < |lines|
      invariant i <= |lines|
      invariant visited + Blocks(lines[i..]) == Blocks(lines)
      invariant RenderedAs(contentLines, visited)
    {
      var line := lines[i];

      if HasPrefix(TrimSpace(line), "```") {
        var open := i;
        var codeLines;
        codeLines, i := CollectFence(lines, open);
        Advance(visited, Fenced(codeLines), Blocks(lines[open..]), Blocks(lines[i..]), Blocks(lines));
        CodeRendered(contentLines, visited, codeLines);
        var codeText := Join(codeLines);
        contentLines := contentLines + [[Text(codeText, [CodeBlock])]];
        visited := visited + [Fenced(codeLines)];
        continue;
      }

      LineBlock(lines, i);
      Advance(visited, Single(line), Blocks(lines[i..]), Blocks(lines[i + 1..]), Blocks(lines));
      var heading := HeadingText(line);
      if heading.Some? {
        HeadingRendered(contentLines, visited, line);
        contentLines := contentLines + [[Text(heading.value, [Bold])]];
        visited := visited + [Single(line)];
        i := i + 1;
        continue;
      }

      if TrimSpace(line) == "" {
        BlankRendered(contentLines, visited, line);
        contentLines := contentLines + [[Text("", [])]];
        visited := visited + [Single(line)];
        i := i + 1;
        continue;
      }

      var elements := ParseInlineElements(line);
      InlineRendered(contentLines, visited, line, elements);
      if |elements| > 0 {
        contentLines := contentLines + [elements];
      }
      visited := visited + [Single(line)];
      i := i + 1;
    }
    WalkDone(lines, visited);
    RenderedAssembled(contentLines, visited);

    if marshalFails {
      return Err(MarshalError);
    }
    return Ok(Post(contentLines));
  }

  /**
   * `buildFeishuContent`: the post when it encodes, otherwise a text message
   * carrying the original content unchanged, and an error only when that
   * encoding fails too.
   */
  method BuildFeishuContent(content: string, postFails: bool, textFails: bool) returns (r: Result<Content, MarshalError>)
    ensures !postFails ==> r == Ok(Content(PostMsg, PostPayload(Post(Document(content)))))
    ensures postFails && !textFails ==> r == Ok(Content(TextMsg, TextPayload(content)))
    ensures postFails && textFails ==> r.Err?
  {
    var post := MarkdownToFeishuPost(content, postFails);
    if post.Ok? {
      return Ok(Content(PostMsg, PostPayload(post.value)));
    }
    if textFails {
      return Err(MarshalError);
    }
    return Ok(Content(TextMsg, TextPayload(content)));
  }
}
