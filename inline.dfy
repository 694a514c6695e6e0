/**
 * The inline tokenizer of the rich-text converter: one normal Markdown line
 * becomes the ordered runs of one post line. After trimming and bullet
 * normalisation, the tokenizer repeatedly picks the leftmost match among the
 * five inline patterns, emits the plain text before it and the styled element
 * or link it denotes, and continues after the match.
 */
module Inline {
  import opened Wrappers
  import opened Strings
  import opened Patterns

  /** The post `style` values, on the wire "bold", "italic", "lineThrough" and "code_block". */
  datatype Style = Bold | Italic | LineThrough | CodeBlock

  /**
   * One element of a post line: `{"tag": "text", "text": ..., "style": [...]}`,
   * where an empty `style` means the key is absent, or
   * `{"tag": "a", "text": ..., "href": ...}`.
   */
  datatype Run = Text(text: string, style: seq<Style>) | Anchor(text: string, href: string)

  /**
   * A stretch of a tokenized line: plain text, or one match of pattern `kind`
   * together with the source text `src` it spans and its capture groups.
   */
  datatype Piece = Plain(text: string) | Marked(kind: Kind, src: string, g1: string, g2: string)

  /** The element a match becomes; its captures are not parsed again. */
  function ElementOf(k: Kind, g1: string, g2: string): Run {
    match k
    case Link => Anchor(g1, g2)
    case Code => Text(g1, [CodeBlock])
    case BoldStar => Text(g1, [Bold])
    case BoldUnder => Text(g1, [Bold])
    case Strike => Text(g1, [LineThrough])
  }

  function RunOf(p: Piece): Run {
    match p
    case Plain(t) => Text(t, [])
    case Marked(k, _, a, b) => ElementOf(k, a, b)
  }

  function Runs(ps: seq<Piece>): seq<Run> {
    seq(|ps|, i requires 0 <= i < |ps| => RunOf(ps[i]))
  }

  /** The source text a piece stands for. */
  function Source(p: Piece): string {
    match p
    case Plain(t) => t
    case Marked(_, src, _, _) => src
  }

  function Sources(ps: seq<Piece>): string
    decreases |ps|
  {
    if ps == [] then [] else Source(ps[0]) + Sources(ps[1..])
  }

  /** No part of `t` is a match of any of the five inline patterns. */
  ghost predicate NoMarkup(t: string) {
    forall k, i, j, a, b :: 0 <= i <= j <= |t| ==> !IsMatchText(k, t[i..j], a, b)
  }

  /** A plain piece is non-empty text free of markup; a marked piece is exactly one match. */
  ghost predicate WellFormed(p: Piece) {
    match p
    case Plain(t) => t != [] && NoMarkup(t)
    case Marked(k, src, a, b) => IsMatchText(k, src, a, b)
  }

  /** The plain text before a match (when non-empty) and the match itself. */
  function Head(s: string, m: Match): seq<Piece>
    requires m.start <= m.end <= |s|
  {
    (if m.start > 0 then [Plain(s[..m.start])] else []) + [Marked(m.kind, s[m.start..m.end], m.g1, m.g2)]
  }

  /** The earliest match lies inside the text and spans one match of its pattern. */
  lemma EarliestSound(s: string)
    ensures Earliest(s).Some? ==>
      var m := Earliest(s).value;
      m.start < m.end <= |s| && IsMatchText(m.kind, s[m.start..m.end], m.g1, m.g2)
  {
    if Earliest(s).Some? {
      var m := Earliest(s).value;
      MatchAtSound(m.kind, s, m.start);
    }
  }

  /**
   * The pieces the tokenizer loop produces for the remaining text `s`: the
   * plain prefix before the earliest match (when non-empty), the match, and
   * the pieces of what follows; with no match left, `s` itself.
   */
  function Scan(s: string): seq<Piece>
    decreases |s|
  {
    if s == [] then []
    else
      match Earliest(s)
      case None => [Plain(s)]
      case Some(m) =>
        EarliestSound(s);
        Head(s, m) + Scan(s[m.end..])
  }

  /** One step of the scan, for a text with a match. */
  lemma ScanStep(s: string, m: Match)
    requires Earliest(s) == Some(m)
    ensures m.start < m.end <= |s| && IsMatchText(m.kind, s[m.start..m.end], m.g1, m.g2)
    ensures Scan(s) == Head(s, m) + Scan(s[m.end..])
  {
    EarliestSound(s);
  }

  /** The runs the tokenizer emits for the text `s`. */
  function Tokenize(s: string): seq<Run> {
    Runs(Scan(s))
  }

  /** Trimming and list-marker normalisation: a leading "- " or "* " becomes "• ". */
  function Normalize(line: string): string {
    var t := TrimSpace(line);
    if HasPrefix(t, "- ") || HasPrefix(t, "* ") then "\U{2022} " + t[2..] else t
  }

  /** Normalisation keeps exactly the lines that are not blank non-empty. */
  lemma NormalizeEmpty(line: string)
    ensures Normalize(line) == [] <==> AllSpace(line)
  {
  }

  lemma RunsAppend(a: seq<Piece>, b: seq<Piece>)
    ensures Runs(a + b) == Runs(a) + Runs(b)
  {
  }

  lemma HeadRuns(s: string, m: Match)
    requires m.start <= m.end <= |s|
    ensures Runs(Head(s, m)) ==
      (if m.start > 0 then [Text(s[..m.start], [])] else []) + [ElementOf(m.kind, m.g1, m.g2)]
  {
  }

  lemma {:induction false} SourcesAppend(a: seq<Piece>, b: seq<Piece>)
    ensures Sources(a + b) == Sources(a) + Sources(b)
    decreases |a|
  {
    if a != [] {
      assert (a + b)[0] == a[0];
      assert (a + b)[1..] == a[1..] + b;
      SourcesAppend(a[1..], b);
    } else {
      assert a + b == b;
    }
  }

  /**
   * Reconstruction: the plain texts and the matched source spans, in emission
   * order, spell out the tokenized text exactly; nothing is dropped,
   * duplicated or reordered.
   */
  lemma {:induction false} ScanRebuilds(s: string)
    ensures Sources(Scan(s)) == s
    decreases |s|
  {
    var e := Earliest(s);
    if s != [] && e.Some? {
      ScanStep(s, e.value);
      ScanRebuilds(s[e.value.end..]);
      RebuildStep(s, e.value, Scan(s[e.value.end..]));
    }
  }

  lemma RebuildStep(s: string, m: Match, rest: seq<Piece>)
    requires m.start <= m.end <= |s|
    requires Sources(rest) == s[m.end..]
    ensures Sources(Head(s, m) + rest) == s
  {
    HeadSource(s, m);
    SourcesAppend(Head(s, m), rest);
    assert s == s[..m.end] + s[m.end..];
  }

  lemma HeadSource(s: string, m: Match)
    requires m.start <= m.end <= |s|
    ensures Sources(Head(s, m)) == s[..m.end]
  {
    var pre := if m.start > 0 then [Plain(s[..m.start])] else [];
    var mid := [Marked(m.kind, s[m.start..m.end], m.g1, m.g2)];
    SourcesAppend(pre, mid);
    assert Sources(pre) == s[..m.start];
    assert s[..m.end] == s[..m.start] + s[m.start..m.end];
  }

  /** No match of kind `k` starts before `start` when its leftmost match does not. */
  lemma BeforeLeftmost(k: Kind, s: string, start: nat)
    requires Find(k, s).Some? ==> start <= Find(k, s).value.start
    ensures forall p, e, a, b :: 0 <= p <= e <= |s| && p < start ==> !IsMatchText(k, s[p..e], a, b)
  {
    FindIsLeftmost(k, s);
  }

  /** Text before every pattern's leftmost match is free of markup. */
  lemma PrefixNoMarkup(s: string, start: nat)
    requires start <= |s|
    requires forall k :: Find(k, s).Some? ==> start <= Find(k, s).value.start
    ensures NoMarkup(s[..start])
  {
    var t := s[..start];
    forall k, i, j, a, b | 0 <= i <= j <= |t| ensures !IsMatchText(k, t[i..j], a, b) {
      SliceOfSlice(s, 0, start, i, j);
      if i < start {
        BeforeLeftmost(k, s, start);
      } else if IsMatchText(k, t[i..j], a, b) {
        MatchStartsWithOpener(k, t[i..j], a, b);
      }
    }
  }

  /** Text before the earliest match holds no match of any pattern. */
  lemma NoMarkupBefore(s: string, m: Match)
    requires Earliest(s) == Some(m)
    ensures m.start <= |s| && NoMarkup(s[..m.start])
  {
    EarliestSound(s);
    PrefixNoMarkup(s, m.start);
  }

  /** With no match anywhere, the whole text is free of markup. */
  lemma NoMarkupAnywhere(s: string)
    requires Earliest(s).None?
    ensures NoMarkup(s)
  {
    forall k, i, j, a, b | 0 <= i <= j <= |s| ensures !IsMatchText(k, s[i..j], a, b) {
      FindIsLeftmost(k, s);
    }
  }

  /**
   * Every piece is well formed: plain runs are non-empty and contain no match
   * of any pattern, and every marked piece is exactly one match.
   */
  lemma {:induction false} ScanWellFormed(s: string)
    ensures forall i :: 0 <= i < |Scan(s)| ==> WellFormed(Scan(s)[i])
    decreases |s|
  {
    if s != [] {
      match Earliest(s)
      case None =>
        NoMarkupAnywhere(s);
      case Some(m) =>
        ScanStep(s, m);
        NoMarkupBefore(s, m);
        ScanWellFormed(s[m.end..]);
        var h := Head(s, m);
        var t := Scan(s[m.end..]);
        assert forall i :: 0 <= i < |h| ==> WellFormed(h[i]);
        forall i | 0 <= i < |h + t| ensures WellFormed((h + t)[i]) {
          if i >= |h| {
            assert (h + t)[i] == t[i - |h|];
          }
        }
    }
  }

  /** A non-empty text always yields at least one run, an empty one none. */
  lemma TokenizeEmpty(s: string)
    ensures |Tokenize(s)| == 0 <==> s == []
  {
  }

  /**
   * The plain runs of a tokenized line (text runs without style) are exactly
   * the plain pieces: non-empty, and containing no match of any pattern.
   */
  lemma PlainRunsHaveNoMarkup(s: string)
    ensures forall i :: 0 <= i < |Tokenize(s)| && Tokenize(s)[i] == Text(Tokenize(s)[i].text, []) ==>
      Tokenize(s)[i].text != [] && NoMarkup(Tokenize(s)[i].text)
  {
    ScanWellFormed(s);
    forall i | 0 <= i < |Tokenize(s)| && Tokenize(s)[i] == Text(Tokenize(s)[i].text, [])
      ensures Tokenize(s)[i].text != [] && NoMarkup(Tokenize(s)[i].text)
    {
      assert Tokenize(s)[i] == RunOf(Scan(s)[i]);
    }
  }

  /** One iteration of the tokenizer loop, for a text with a match. */
  lemma TokenizeStep(s: string, m: Match)
    requires Earliest(s) == Some(m)
    ensures m.start < m.end <= |s|
    ensures Tokenize(s) ==
      (if m.start > 0 then [Text(s[..m.start], [])] else []) + [ElementOf(m.kind, m.g1, m.g2)] + Tokenize(s[m.end..])
  {
    ScanStep(s, m);
    HeadRuns(s, m);
    RunsAppend(Head(s, m), Scan(s[m.end..]));
  }

  /** The tokenizer loop's invariant survives an iteration that finds a match. */
  lemma LoopStep(s: string, done: seq<Run>, rest: string, m: Match)
    requires Earliest(rest) == Some(m)
    requires done + Tokenize(rest) == Tokenize(s)
    ensures m.start < m.end <= |rest|
    ensures (if m.start > 0 then done + [Text(rest[..m.start], [])] else done) + [ElementOf(m.kind, m.g1, m.g2)]
      + Tokenize(rest[m.end..]) == Tokenize(s)
  {
    TokenizeStep(rest, m);
    var pre := if m.start > 0 then [Text(rest[..m.start], [])] else [];
    Regroup(done, pre, ElementOf(m.kind, m.g1, m.g2), Tokenize(rest[m.end..]));
    assert done + pre == if m.start > 0 then done + [Text(rest[..m.start], [])] else done;
  }

  lemma Regroup<T>(done: seq<T>, pre: seq<T>, e: T, rest: seq<T>)
    ensures (done + pre) + [e] + rest == done + (pre + [e] + rest)
  {
  }

  /** The tokenizer loop's last iteration completes the tokenization. */
  lemma LoopLast(s: string, done: seq<Run>, rest: string)
    requires rest != [] && Earliest(rest).None?
    requires done + Tokenize(rest) == Tokenize(s)
    ensures done + [Text(rest, [])] == Tokenize(s)
  {
    TokenizeNoMatch(rest);
  }

  /** The last iteration of the tokenizer loop: no match is left. */
  lemma TokenizeNoMatch(s: string)
    requires s != [] && Earliest(s).None?
    ensures Tokenize(s) == [Text(s, [])]
  {
  }

  /** Earliest, unfolded into the five updates of the Go code. */
  lemma EarliestUnfolded(s: string)
    ensures Earliest(s) ==
      Pick(Pick(Pick(Pick(Pick(None, Find(Link, s)), Find(Code, s)), Find(BoldStar, s)), Find(BoldUnder, s)), Find(Strike, s))
  {
    var p0 := Pick(None, Find(Link, s));
    var p1 := Pick(p0, Find(Code, s));
    var p2 := Pick(p1, Find(BoldStar, s));
    var p3 := Pick(p2, Find(BoldUnder, s));
    var p4 := Pick(p3, Find(Strike, s));
    assert Priority[1..] == [Code, BoldStar, BoldUnder, Strike];
    assert Priority[1..][1..] == [BoldStar, BoldUnder, Strike];
    assert Priority[1..][1..][1..] == [BoldUnder, Strike];
    assert Priority[1..][1..][1..][1..] == [Strike];
    assert PickAll(s, p3, [Strike]) == p4;
  }

  /**
   * The five pattern searches of one tokenizer iteration: each pattern's
   * leftmost match replaces the current winner only when it starts strictly
   * earlier, so the first pattern in source order wins a tie.
   */
  method EarliestMatch(s: string) returns (earliest: Option<Match>)
    ensures earliest == Earliest(s)
  {
    EarliestUnfolded(s);
    earliest := None;
    var loc := Find(Link, s);
    if loc.Some? {
      earliest := loc;
    }
    ghost var e0 := earliest;
    assert e0 == Pick(None, Find(Link, s));
    loc := Find(Code, s);
    if loc.Some? && (earliest.None? || loc.value.start < earliest.value.start) {
      earliest := loc;
    }
    ghost var e1 := earliest;
    assert e1 == Pick(e0, Find(Code, s));
    loc := Find(BoldStar, s);
    if loc.Some? && (earliest.None? || loc.value.start < earliest.value.start) {
      earliest := loc;
    }
    ghost var e2 := earliest;
    assert e2 == Pick(e1, Find(BoldStar, s));
    loc := Find(BoldUnder, s);
    if loc.Some? && (earliest.None? || loc.value.start < earliest.value.start) {
      earliest := loc;
    }
    ghost var e3 := earliest;
    assert e3 == Pick(e2, Find(BoldUnder, s));
    loc := Find(Strike, s);
    if loc.Some? && (earliest.None? || loc.value.start < earliest.value.start) {
      earliest := loc;
    }
    ghost var e4 := earliest;
    assert e4 == Pick(e3, Find(Strike, s));
  }

  /**
   * `parseInlineElements`: trims the line, rewrites a "- " or "* " bullet,
   * then emits plain text and styled elements left to right. The result is
   * the tokenization of the normalised line, empty exactly for a blank line.
   */
  method ParseInlineElements(line: string) returns (elements: seq<Run>)
    ensures elements == Tokenize(Normalize(line))
    ensures |elements| > 0 <==> !AllSpace(line)
  {
    var s := TrimSpace(line);
    if HasPrefix(s, "- ") || HasPrefix(s, "* ") {
      s := "\U{2022} " + s[2..];
    }
    // A numbered-list prefix ("1.") is recognised by the source but left as is.

    elements := [];
    var remaining := s;
    while remaining != ""
      invariant elements + Tokenize(remaining) == Tokenize(s)
      decreases |remaining|
    {
      var earliest := EarliestMatch(remaining);

      if earliest.None? {
        LoopLast(s, elements, remaining);
        if remaining != "" {
          elements := elements + [Text(remaining, [])];
        }
        break;
      }

      var m := earliest.value;
      LoopStep(s, elements, remaining, m);
      if m.start > 0 {
        elements := elements + [Text(remaining[..m.start], [])];
      }
      elements := elements + [ElementOf(m.kind, m.g1, m.g2)];
      remaining := remaining[m.end..];
    }
    TokenizeEmpty(s);
    NormalizeEmpty(line);
  }
}
