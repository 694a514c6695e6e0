/**
 * The regular expressions of the rich-text converter, each re-expressed as a
 * hand-written matcher with Go's leftmost-first semantics:
 *
 *   link           \[([^\]]+)\]\(([^)]+)\)
 *   inline code    `([^`]+)`
 *   bold (star)    \*\*(.+?)\*\*
 *   bold (under)   __(.+?)__
 *   strikethrough  ~~(.+?)~~
 *   heading        ^#{1,6}\s+(.+)$
 *
 * `IsMatchText` states declaratively when a whole text is one match of an
 * inline pattern with the given capture groups; `MatchAt` computes the match
 * anchored at a position and is proved sound and complete for it.
 */
module Patterns {
  import opened Wrappers
  import opened Strings

  /** The five inline patterns, in the order the tokenizer evaluates them. */
  datatype Kind = Link | Code | BoldStar | BoldUnder | Strike

  /** A match found in a text: its span `[start, end)` and its capture groups. */
  datatype Match = Match(kind: Kind, start: nat, end: nat, g1: string, g2: string)

  /** The character every match of a pattern begins with. */
  function Opener(k: Kind): char {
    match k
    case Link => '['
    case Code => '`'
    case BoldStar => '*'
    case BoldUnder => '_'
    case Strike => '~'
  }

  /** The doubled delimiter `d d` starts at position `i` of `s`. */
  predicate DoubleAt(s: string, d: char, i: int)
    requires 0 <= i && i + 1 < |s|
  {
    s[i] == d && s[i + 1] == d
  }

  /**
   * The lazy group of `DD(.+?)DD` stops at the first closing `DD`: no shorter
   * non-empty content is followed by the doubled delimiter `d d`.
   */
  predicate Shortest(d: char, a: string) {
    && (forall j :: 1 <= j < |a| - 1 ==> !DoubleAt(a, d, j))
    && (|a| >= 2 ==> a[|a| - 1] != d)
  }

  /** `u` is exactly one match of `DD(.+?)DD` capturing `a` (`.` excludes newline). */
  predicate LazyText(d: char, u: string, a: string) {
    u == [d, d] + a + [d, d] && a != [] && '\n' !in a && Shortest(d, a)
  }

  /** `u` is exactly one match of pattern `k` with capture groups `a` and `b`. */
  predicate IsMatchText(k: Kind, u: string, a: string, b: string) {
    match k
    case Link => u == "[" + a + "](" + b + ")" && a != [] && b != [] && ']' !in a && ')' !in b
    case Code => u == "`" + a + "`" && a != [] && '`' !in a && b == []
    case BoldStar => LazyText('*', u, a) && b == []
    case BoldUnder => LazyText('_', u, a) && b == []
    case Strike => LazyText('~', u, a) && b == []
  }

  /** The doubled delimiter of a lazy pattern. */
  function Delimiter(k: Kind): char
    requires k !in {Link, Code}
  {
    Opener(k)
  }

  /** No newline in `s[lo..hi]`. */
  predicate NoNewline(s: string, lo: int, hi: int)
    requires 0 <= lo && hi <= |s|
  {
    forall l :: lo <= l < hi ==> s[l] != '\n'
  }

  /**
   * Scanning for the closing `d d` of a lazy group whose content so far is
   * `s[..j]`-bounded and newline-free: the first close at or after `j`, unless
   * a newline comes first.
   */
  function LazyClose(s: string, d: char, j: nat): (r: Option<nat>)
    requires j <= |s|
    ensures r.Some? ==> j <= r.value && r.value + 2 <= |s| && s[r.value] == d && s[r.value + 1] == d
    ensures r.Some? ==> NoNewline(s, j, r.value)
    ensures r.Some? ==> forall i :: j <= i < r.value ==> !DoubleAt(s, d, i)
    ensures r.None? ==> forall i :: j <= i && i + 2 <= |s| && NoNewline(s, j, i) ==> !DoubleAt(s, d, i)
    decreases |s| - j
  {
    if j + 2 > |s| then None
    else if s[j] == d && s[j + 1] == d then Some(j)
    else if s[j] == '\n' then None
    else LazyClose(s, d, j + 1)
  }

  /** The link pattern anchored at `p`: `[` up to the first `]`, then `(` up to the first `)`. */
  function MatchLink(s: string, p: nat): (r: Option<Match>)
    requires p <= |s|
    ensures r.Some? ==> r.value.kind == Link && r.value.start == p && p < r.value.end <= |s|
  {
    if p < |s| && s[p] == '[' then
      var q := IndexOf(s, ']', p + 1);
      if p + 1 < q && q + 1 < |s| && s[q + 1] == '(' then
        var r := IndexOf(s, ')', q + 2);
        if q + 2 < r < |s| then
          Some(Match(Link, p, r + 1, s[p + 1..q], s[q + 2..r]))
        else None
      else None
    else None
  }

  lemma LinkSound(s: string, p: nat, q: nat, r: nat)
    requires p + 1 < q && q + 2 < r < |s|
    requires s[p] == '[' && s[q] == ']' && s[q + 1] == '(' && s[r] == ')'
    requires forall i :: p + 1 <= i < q ==> s[i] != ']'
    requires forall i :: q + 2 <= i < r ==> s[i] != ')'
    ensures IsMatchText(Link, s[p..r + 1], s[p + 1..q], s[q + 2..r])
  {
    assert s[p..r + 1] == "[" + s[p + 1..q] + "](" + s[q + 2..r] + ")";
    NotIn(s, p + 1, q, ']');
    NotIn(s, q + 2, r, ')');
  }

  /** A slice free of `c` position by position does not contain `c`. */
  lemma NotIn(s: string, lo: nat, hi: nat, c: char)
    requires lo <= hi <= |s|
    requires forall i :: lo <= i < hi ==> s[i] != c
    ensures c !in s[lo..hi]
  {
  }

  /** The inline-code pattern anchored at `p`: a backtick up to the next backtick. */
  function MatchCode(s: string, p: nat): (r: Option<Match>)
    requires p <= |s|
    ensures r.Some? ==> r.value.kind == Code && r.value.start == p && p < r.value.end <= |s|
  {
    if p < |s| && s[p] == '`' then
      var q := IndexOf(s, '`', p + 1);
      if p + 1 < q < |s| then
        Some(Match(Code, p, q + 1, s[p + 1..q], ""))
      else None
    else None
  }

  /** A lazy pattern `DD(.+?)DD` anchored at `p`. */
  function MatchLazy(k: Kind, s: string, p: nat): (r: Option<Match>)
    requires k !in {Link, Code}
    requires p <= |s|
    ensures r.Some? ==> r.value.kind == k && r.value.start == p && p < r.value.end <= |s|
  {
    var d := Delimiter(k);
    if p + 2 < |s| && s[p] == d && s[p + 1] == d && s[p + 2] != '\n' then
      match LazyClose(s, d, p + 3)
      case Some(j) =>
        Some(Match(k, p, j + 2, s[p + 2..j], ""))
      case None => None
    else None
  }

  lemma LazySound(d: char, s: string, p: nat, j: nat)
    requires p + 3 <= j && j + 2 <= |s|
    requires s[p] == d && s[p + 1] == d && s[p + 2] != '\n' && s[j] == d && s[j + 1] == d
    requires NoNewline(s, p + 3, j)
    requires forall i :: p + 3 <= i < j ==> !DoubleAt(s, d, i)
    ensures LazyText(d, s[p..j + 2], s[p + 2..j])
  {
    var a := s[p + 2..j];
    assert s[p..j + 2] == [d, d] + a + [d, d];
    NotIn(s, p + 2, j, '\n');
    assert forall x :: 0 <= x < |a| ==> a[x] == s[p + 2 + x];
    forall x | 1 <= x < |a| - 1 ensures !DoubleAt(a, d, x) {
      assert !DoubleAt(s, d, p + 2 + x);
    }
    if |a| >= 2 {
      assert !DoubleAt(s, d, j - 1);
    }
  }

  /** The match of pattern `k` anchored at position `p` of `s`, if any. */
  function MatchAt(k: Kind, s: string, p: nat): (r: Option<Match>)
    requires p <= |s|
    ensures r.Some? ==> r.value.kind == k && r.value.start == p && p < r.value.end <= |s|
  {
    match k
    case Link => MatchLink(s, p)
    case Code => MatchCode(s, p)
    case _ => MatchLazy(k, s, p)
  }

  /** Soundness: what `MatchAt` reports is one match of `k` with the reported groups. */
  lemma MatchAtSound(k: Kind, s: string, p: nat)
    requires p <= |s|
    ensures MatchAt(k, s, p).Some? ==>
      var m := MatchAt(k, s, p).value;
      IsMatchText(k, s[p..m.end], m.g1, m.g2)
  {
    match k
    case Link => LinkMatchSound(s, p);
    case Code => CodeMatchSound(s, p);
    case _ => LazyMatchSound(k, s, p);
  }

  lemma LinkMatchSound(s: string, p: nat)
    requires p <= |s|
    ensures MatchLink(s, p).Some? ==>
      var m := MatchLink(s, p).value;
      IsMatchText(Link, s[p..m.end], m.g1, m.g2)
  {
    if MatchLink(s, p).Some? {
      var q := IndexOf(s, ']', p + 1);
      var r := IndexOf(s, ')', q + 2);
      assert MatchLink(s, p).value == Match(Link, p, r + 1, s[p + 1..q], s[q + 2..r]);
      LinkSound(s, p, q, r);
    }
  }

  lemma CodeMatchSound(s: string, p: nat)
    requires p <= |s|
    ensures MatchCode(s, p).Some? ==>
      var m := MatchCode(s, p).value;
      IsMatchText(Code, s[p..m.end], m.g1, m.g2)
  {
    if p < |s| && s[p] == '`' {
      var q := IndexOf(s, '`', p + 1);
      if p + 1 < q < |s| {
        assert s[p..q + 1] == "`" + s[p + 1..q] + "`";
        NotIn(s, p + 1, q, '`');
      }
    }
  }

  lemma LazyMatchSound(k: Kind, s: string, p: nat)
    requires k !in {Link, Code}
    requires p <= |s|
    ensures MatchLazy(k, s, p).Some? ==>
      var m := MatchLazy(k, s, p).value;
      IsMatchText(k, s[p..m.end], m.g1, m.g2)
  {
    var d := Delimiter(k);
    if p + 2 < |s| && s[p] == d && s[p + 1] == d && s[p + 2] != '\n' {
      match LazyClose(s, d, p + 3)
      case Some(j) => LazySound(d, s, p, j);
      case None =>
    }
  }

  /** Every match begins with its pattern's opening character. */
  lemma MatchStartsWithOpener(k: Kind, u: string, a: string, b: string)
    requires IsMatchText(k, u, a, b)
    ensures |u| >= 3 && u[0] == Opener(k)
  {
  }

  /** The first position at or after `from` holding `c` is `q`, when `q` is the first such. */
  lemma IndexOfIs(s: string, c: char, from: nat, q: nat)
    requires from <= q < |s| && s[q] == c
    requires forall i :: from <= i < q ==> s[i] != c
    ensures IndexOf(s, c, from) == q
  {
  }

  lemma CharNotIn(a: string, x: nat, c: char)
    requires x < |a| && c !in a
    ensures a[x] != c
  {
  }

  /** `s[lo..lo + |a|]` is `a`, so no position there holds a character `a` lacks. */
  lemma SliceFacts(s: string, lo: nat, a: string, c: char)
    requires lo + |a| <= |s| && s[lo..lo + |a|] == a && c !in a
    ensures forall i :: lo <= i < lo + |a| ==> s[i] != c
  {
    forall i | lo <= i < lo + |a| ensures s[i] != c {
      assert s[i] == s[lo..lo + |a|][i - lo];
      CharNotIn(a, i - lo, c);
    }
  }

  /** What a link match at `p` says about the characters of `s`. */
  lemma LinkFacts(s: string, p: nat, e: nat, a: string, b: string)
    requires p <= e <= |s|
    requires IsMatchText(Link, s[p..e], a, b)
    ensures e == p + |a| + |b| + 4
    ensures s[p] == '[' && s[p + 1 + |a|] == ']' && s[p + 2 + |a|] == '(' && s[e - 1] == ')'
    ensures forall i :: p + 1 <= i < p + 1 + |a| ==> s[i] != ']'
    ensures forall i :: p + 3 + |a| <= i < e - 1 ==> s[i] != ')'
    ensures s[p + 1..p + 1 + |a|] == a && s[p + 3 + |a|..e - 1] == b
  {
    var u := s[p..e];
    var q := 1 + |a|;
    assert u == "[" + a + "](" + b + ")";
    assert |u| == |a| + |b| + 4;
    assert u[1..q] == a;
    assert u[q + 2..|u| - 1] == b;
    SliceOfSlice(s, p, e, 1, q);
    SliceOfSlice(s, p, e, q + 2, |u| - 1);
    assert s[p] == u[0] && s[p + q] == u[q] && s[p + q + 1] == u[q + 1] && s[e - 1] == u[|u| - 1];
    SliceFacts(s, p + 1, a, ']');
    SliceFacts(s, p + q + 2, b, ')');
  }

  lemma LinkComplete(s: string, p: nat, e: nat, a: string, b: string)
    requires p <= e <= |s|
    requires IsMatchText(Link, s[p..e], a, b)
    ensures MatchLink(s, p) == Some(Match(Link, p, e, a, b))
  {
    LinkFacts(s, p, e, a, b);
    IndexOfIs(s, ']', p + 1, p + 1 + |a|);
    IndexOfIs(s, ')', p + 3 + |a|, e - 1);
  }

  lemma CodeComplete(s: string, p: nat, e: nat, a: string, b: string)
    requires p <= e <= |s|
    requires IsMatchText(Code, s[p..e], a, b)
    ensures MatchCode(s, p) == Some(Match(Code, p, e, a, b))
  {
    var u := s[p..e];
    var q := p + 1 + |a|;
    assert u == "`" + a + "`";
    assert |u| == |a| + 2 && u[1..|u| - 1] == a;
    SliceOfSlice(s, p, e, 1, e - p - 1);
    assert s[p] == u[0] && s[q] == u[|u| - 1];
    SliceFacts(s, p + 1, a, '`');
    IndexOfIs(s, '`', p + 1, q);
  }

  /** What a lazy match at `p` says about the characters of `s`. */
  lemma LazyFacts(d: char, s: string, p: nat, e: nat, a: string)
    requires p <= e <= |s|
    requires LazyText(d, s[p..e], a)
    ensures e == p + |a| + 4
    ensures s[p] == d && s[p + 1] == d && s[e - 2] == d && s[e - 1] == d
    ensures s[p + 2] != '\n' && NoNewline(s, p + 3, e - 2)
    ensures forall x :: 0 <= x < |a| ==> s[p + 2 + x] == a[x]
    ensures s[p + 2..e - 2] == a
  {
    var u := s[p..e];
    assert |u| == |a| + 4;
    assert u[2..|u| - 2] == a;
    SliceOfSlice(s, p, e, 2, e - p - 2);
    assert s[p] == u[0] && s[p + 1] == u[1] && s[e - 2] == u[|u| - 2] && s[e - 1] == u[|u| - 1];
    forall x | 0 <= x < |a| ensures s[p + 2 + x] == a[x] {
      assert s[p + 2 + x] == s[p + 2..e - 2][x];
    }
    SliceFacts(s, p + 2, a, '\n');
  }

  lemma LazyComplete(k: Kind, s: string, p: nat, e: nat, a: string)
    requires k !in {Link, Code}
    requires p <= e <= |s|
    requires LazyText(Delimiter(k), s[p..e], a)
    ensures MatchLazy(k, s, p) == Some(Match(k, p, e, a, ""))
  {
    var d := Delimiter(k);
    LazyFacts(d, s, p, e, a);
    LazyCloseIs(d, s, p, e - 2, a);
  }

  /** The scan for a lazy close stops at the first close when no newline precedes it. */
  lemma {:induction false} LazyCloseFirst(s: string, d: char, lo: nat, j: nat)
    requires lo <= j && j + 2 <= |s|
    requires s[j] == d && s[j + 1] == d
    requires NoNewline(s, lo, j)
    requires forall i :: lo <= i < j ==> !DoubleAt(s, d, i)
    ensures LazyClose(s, d, lo) == Some(j)
    decreases j - lo
  {
    if lo < j {
      assert !DoubleAt(s, d, lo);
      LazyCloseFirst(s, d, lo + 1, j);
    }
  }

  lemma LazyCloseIs(d: char, s: string, p: nat, j: nat, a: string)
    requires j == p + 2 + |a| && j + 2 <= |s| && a != []
    requires forall x :: 0 <= x < |a| ==> s[p + 2 + x] == a[x]
    requires s[j] == d && s[j + 1] == d
    requires NoNewline(s, p + 3, j)
    requires Shortest(d, a)
    ensures LazyClose(s, d, p + 3) == Some(j)
  {
    forall i | p + 3 <= i < j ensures !DoubleAt(s, d, i) {
      var x := i - p - 2;
      assert s[i] == a[x];
      if x < |a| - 1 {
        assert s[i + 1] == a[x + 1];
        assert !DoubleAt(a, d, x);
      }
    }
    LazyCloseFirst(s, d, p + 3, j);
  }

  /**
   * Completeness and uniqueness: whenever `s[p..e]` is one match of `k` with
   * groups `a`, `b`, that is exactly the match `MatchAt` reports at `p`.
   */
  lemma MatchAtComplete(k: Kind, s: string, p: nat, e: nat, a: string, b: string)
    requires p <= e <= |s|
    requires IsMatchText(k, s[p..e], a, b)
    ensures MatchAt(k, s, p) == Some(Match(k, p, e, a, b))
  {
    match k
    case Link => LinkComplete(s, p, e, a, b);
    case Code => CodeComplete(s, p, e, a, b);
    case _ => LazyComplete(k, s, p, e, a);
  }

  /**
   * Go's `FindStringSubmatchIndex` restricted to positions from `p` on: the
   * match of `k` with the smallest start at or after `p`.
   */
  function FindFrom(k: Kind, s: string, p: nat): (r: Option<Match>)
    requires p <= |s|
    ensures r.Some? ==> p <= r.value.start < |s| && MatchAt(k, s, r.value.start) == r
    decreases |s| - p
  {
    if p == |s| then None
    else if MatchAt(k, s, p).Some? then MatchAt(k, s, p)
    else FindFrom(k, s, p + 1)
  }

  /** `FindFrom` reports the first position from `p` on where `k` matches. */
  lemma {:induction false} FindFromFirst(k: Kind, s: string, p: nat)
    requires p <= |s|
    ensures forall q :: p <= q < |s| && (FindFrom(k, s, p).Some? ==> q < FindFrom(k, s, p).value.start) ==>
      MatchAt(k, s, q).None?
    decreases |s| - p
  {
    if p < |s| && MatchAt(k, s, p).None? {
      FindFromFirst(k, s, p + 1);
    }
  }

  /** The leftmost match of pattern `k` in `s`. */
  function Find(k: Kind, s: string): Option<Match> {
    FindFrom(k, s, 0)
  }

  /**
   * `Find` is the leftmost match in the declarative sense: what it reports is a
   * match of `k`, and no match of `k` starts earlier; when it reports nothing,
   * no part of `s` is a match of `k`.
   */
  lemma FindIsLeftmost(k: Kind, s: string)
    ensures Find(k, s).Some? ==>
      && Find(k, s).value.kind == k
      && Find(k, s).value.start < Find(k, s).value.end <= |s|
      && IsMatchText(k, s[Find(k, s).value.start..Find(k, s).value.end], Find(k, s).value.g1, Find(k, s).value.g2)
    ensures forall p, e, a, b ::
      && 0 <= p <= e <= |s|
      && (Find(k, s).Some? ==> p < Find(k, s).value.start)
      ==> !IsMatchText(k, s[p..e], a, b)
  {
    FindFromFirst(k, s, 0);
    if Find(k, s).Some? {
      MatchAtSound(k, s, Find(k, s).value.start);
    }
    forall p, e, a, b | 0 <= p <= e <= |s| && (Find(k, s).Some? ==> p < Find(k, s).value.start)
      ensures !IsMatchText(k, s[p..e], a, b)
    {
      if IsMatchText(k, s[p..e], a, b) {
        MatchAtComplete(k, s, p, e, a, b);
      }
    }
  }

  /** The order in which the tokenizer evaluates the patterns. */
  const Priority: seq<Kind> := [Link, Code, BoldStar, BoldUnder, Strike]

  /** Go's `earliest == nil || loc[0] < earliest.start` update of the current winner. */
  function Pick(best: Option<Match>, candidate: Option<Match>): Option<Match> {
    if candidate.Some? && (best.None? || candidate.value.start < best.value.start) then candidate else best
  }

  /** The winner after evaluating the patterns `ks` in order, starting from `best`. */
  function PickAll(s: string, best: Option<Match>, ks: seq<Kind>): (r: Option<Match>)
    requires best.Some? ==> Find(best.value.kind, s) == best
    ensures r.None? <==> best.None? && forall i :: 0 <= i < |ks| ==> Find(ks[i], s).None?
    ensures r.Some? ==> Find(r.value.kind, s) == r
    ensures r.Some? && best.Some? ==> r.value.start <= best.value.start
    ensures r.Some? ==> forall i :: 0 <= i < |ks| && Find(ks[i], s).Some? ==> r.value.start <= Find(ks[i], s).value.start
    decreases |ks|
  {
    if ks == [] then best else PickAll(s, Pick(best, Find(ks[0], s)), ks[1..])
  }

  /** Every pattern is evaluated, and each leftmost match begins with its opener. */
  lemma PriorityFacts(s: string)
    ensures forall k :: k in Priority
    ensures forall k :: Find(k, s).Some? ==> s[Find(k, s).value.start] == Opener(k)
  {
    forall k ensures k in Priority {
      match k
      case Link => assert Priority[0] == k;
      case Code => assert Priority[1] == k;
      case BoldStar => assert Priority[2] == k;
      case BoldUnder => assert Priority[3] == k;
      case Strike => assert Priority[4] == k;
    }
    forall k | Find(k, s).Some? ensures s[Find(k, s).value.start] == Opener(k) {
      var m := Find(k, s).value;
      MatchAtSound(k, s, m.start);
      MatchStartsWithOpener(k, s[m.start..m.end], m.g1, m.g2);
    }
  }

  /**
   * The winner of the competition is the candidate with the smallest start,
   * and, since the patterns begin with distinct characters, it starts strictly
   * before every other pattern's leftmost match: the priority order never
   * breaks a tie.
   */
  lemma EarliestIsStrictMinimum(s: string)
    ensures var r := PickAll(s, None, Priority);
      && (r.None? <==> forall k :: Find(k, s).None?)
      && (r.Some? ==> Find(r.value.kind, s) == r)
      && (r.Some? ==> forall k :: k != r.value.kind && Find(k, s).Some? ==> r.value.start < Find(k, s).value.start)
  {
    var r := PickAll(s, None, Priority);
    PriorityFacts(s);
    if r.Some? {
      forall k | k != r.value.kind && Find(k, s).Some?
        ensures r.value.start < Find(k, s).value.start
      {
        var i :| 0 <= i < |Priority| && Priority[i] == k;
        assert r.value.start <= Find(k, s).value.start;
        OpenersDistinct(k, r.value.kind);
      }
    } else {
      forall k ensures Find(k, s).None? {
        var i :| 0 <= i < |Priority| && Priority[i] == k;
      }
    }
  }

  /** The five patterns begin with five different characters. */
  lemma OpenersDistinct(k1: Kind, k2: Kind)
    requires k1 != k2
    ensures Opener(k1) != Opener(k2)
  {
  }

  /** The winner among the five patterns (see `EarliestIsStrictMinimum`). */
  function Earliest(s: string): (r: Option<Match>)
    ensures r.None? <==> forall k :: Find(k, s).None?
    ensures r.Some? ==> Find(r.value.kind, s) == r
    ensures r.Some? ==> forall k :: k != r.value.kind && Find(k, s).Some? ==> r.value.start < Find(k, s).value.start
  {
    EarliestIsStrictMinimum(s);
    PickAll(s, None, Priority)
  }

  /** The characters Go's `\s` matches. */
  const RegexSpace: set<char> := {'\t', '\n', '\U{000C}', '\r', ' '}

  /** The length of the longest prefix of `s` drawn from `cs`. */
  function LeadingIn(s: string, cs: set<char>): (n: nat)
    ensures n <= |s|
    ensures forall i :: 0 <= i < n ==> s[i] in cs
    ensures n < |s| ==> s[n] !in cs
    decreases |s|
  {
    if s != [] && s[0] in cs then 1 + LeadingIn(s[1..], cs) else 0
  }

  /**
   * The capture of `^#{1,6}\s+(.+)$` on a whole line, if it matches: the
   * hashes must start the line, there may be at most six of them, at least one
   * white-space character follows, and the capture runs to the end of the line
   * without a newline. Both quantifiers are greedy; when nothing but white
   * space follows the hashes, `\s+` gives its last character back to `(.+)`.
   */
  function HeadingText(u: string): Option<string> {
    var h := LeadingIn(u, {'#'});
    if h < 1 || h > 6 then None
    else
      var n := LeadingIn(u[h..], RegexSpace);
      if n == 0 then None
      else
        var rest := u[h + n..];
        if rest != [] then (if '\n' in rest then None else Some(rest))
        else if n >= 2 && u[|u| - 1] != '\n' then Some([u[|u| - 1]])
        else None
  }

  /** `pre` is one to six hashes followed by at least one `\s` character. */
  predicate HeadingMarker(pre: string) {
    var h := LeadingIn(pre, {'#'});
    1 <= h <= 6 && h < |pre| && forall i :: h <= i < |pre| ==> pre[i] in RegexSpace
  }

  /**
   * Soundness of the heading matcher: a captured heading is a non-empty,
   * newline-free suffix of the line, and what precedes it is a heading marker.
   */
  lemma HeadingSound(u: string)
    ensures HeadingText(u).Some? ==>
      var t := HeadingText(u).value;
      t != [] && '\n' !in t && |t| < |u| && u[|u| - |t|..] == t && HeadingMarker(u[..|u| - |t|])
  {
    if HeadingText(u).Some? {
      var t := HeadingText(u).value;
      var h := LeadingIn(u, {'#'});
      var n := LeadingIn(u[h..], RegexSpace);
      var pre := u[..|u| - |t|];
      assert forall i :: 0 <= i < h ==> pre[i] == u[i];
      assert LeadingIn(pre, {'#'}) == h by {
        assert u[h] == u[h..][0];
        assert u[h] !in {'#'};
        assert h < |pre|;
      }
      forall i | h <= i < |pre| ensures pre[i] in RegexSpace {
        assert pre[i] == u[h..][i - h];
      }
    }
  }

  /**
   * Completeness of the heading matcher: one to six hashes, white space and a
   * non-empty newline-free remainder always make a heading, and when the
   * remainder does not itself start with white space it is the capture.
   */
  lemma HeadingComplete(h: nat, w: string, t: string)
    requires 1 <= h <= 6
    requires w != [] && forall i :: 0 <= i < |w| ==> w[i] in RegexSpace
    requires t != [] && '\n' !in t
    ensures HeadingText(seq(h, _ => '#') + w + t).Some?
    ensures t[0] !in RegexSpace ==> HeadingText(seq(h, _ => '#') + w + t) == Some(t)
  {
    var hashes := seq(h, _ => '#');
    var u := hashes + w + t;
    assert u[h] == w[0];
    assert LeadingIn(u, {'#'}) == h;
    var v := u[h..];
    assert v == w + t;
    var n := LeadingIn(v, RegexSpace);
    assert forall i :: 0 <= i < |w| ==> v[i] in RegexSpace;
    assert n >= |w|;
    assert u[h + n..] == v[n..];
    if n < |v| {
      assert '\n' !in v[n..] by {
        forall i | 0 <= i < |v[n..]| ensures v[n..][i] != '\n' {
          assert v[n..][i] == t[n - |w| + i];
          assert t[n - |w| + i] in t;
        }
      }
    } else {
      assert t[|t| - 1] in t;
    }
    if t[0] !in RegexSpace {
      assert v[|w|] == t[0];
      assert n == |w|;
      assert v[n..] == t;
    }
  }

  /**
   * When nothing but `\s` characters follows the hashes, `\s+` gives its
   * last character back to `(.+)`: the capture is that one character, which
   * needs at least two of them and a last one other than a newline.
   */
  lemma HeadingAllSpace(h: nat, w: string)
    requires 1 <= h <= 6
    requires w != [] && forall i :: 0 <= i < |w| ==> w[i] in RegexSpace
    ensures HeadingText(seq(h, _ => '#') + w) ==
      if |w| >= 2 && w[|w| - 1] != '\n' then Some([w[|w| - 1]]) else None
  {
    var u := seq(h, _ => '#') + w;
    assert u[h] == w[0];
    assert LeadingIn(u, {'#'}) == h;
    assert u[h..] == w;
    assert LeadingIn(w, RegexSpace) == |w|;
    assert u[h + |w|..] == [];
    assert u[|u| - 1] == w[|w| - 1];
  }

  /** Seven or more hashes never make a heading. */
  lemma SevenHashesNoHeading(rest: string)
    ensures HeadingText(seq(7, _ => '#') + rest) == None
  {
    var u := seq(7, _ => '#') + rest;
    assert forall i :: 0 <= i < 7 ==> u[i] in {'#'};
    assert LeadingIn(u, {'#'}) >= 7;
  }

  /** A line that does not begin with a hash, such as an indented one, is no heading. */
  lemma HeadingNeedsLeadingHash(u: string)
    requires u == [] || u[0] != '#'
    ensures HeadingText(u) == None
  {
  }
}
