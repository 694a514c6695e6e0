/**
 * The parts of Go's `strings` and `path/filepath` packages that the Feishu
 * converter and helpers rely on, over strings modelled as sequences of
 * characters (every delimiter the core looks at is ASCII, so byte and rune
 * indexing agree on the decisions made).
 */
module Strings {

  /** Go's `unicode.IsSpace`, the set `strings.TrimSpace` removes. */
  predicate IsSpace(c: char) {
    || c == '\t' || c == '\n' || c == '\U{000B}' || c == '\U{000C}' || c == '\r' || c == ' '
    || c == '\U{0085}' || c == '\U{00A0}' || c == '\U{1680}'
    || ('\U{2000}' <= c <= '\U{200A}')
    || c == '\U{2028}' || c == '\U{2029}' || c == '\U{202F}' || c == '\U{205F}' || c == '\U{3000}'
  }

  predicate AllSpace(s: string) {
    forall i :: 0 <= i < |s| ==> IsSpace(s[i])
  }

  /** `s` with its leading white space removed. */
  function TrimLeft(s: string): (r: string)
    ensures |r| <= |s| && r == s[|s| - |r|..]
    ensures AllSpace(s[..|s| - |r|])
    ensures r != [] ==> !IsSpace(r[0])
  {
    if s != [] && IsSpace(s[0]) then TrimLeft(s[1..]) else s
  }

  /** `s` with its trailing white space removed. */
  function TrimRight(s: string): (r: string)
    ensures |r| <= |s| && r == s[..|r|]
    ensures AllSpace(s[|r|..])
    ensures r != [] ==> !IsSpace(r[|r| - 1])
  {
    if s != [] && IsSpace(s[|s| - 1]) then TrimRight(s[..|s| - 1]) else s
  }

  /** Go's `strings.TrimSpace`: leading white space is dropped, then trailing white space. */
  function TrimSpace(s: string): (r: string)
    ensures r == [] <==> AllSpace(s)
    decreases |s|
  {
    if s != [] && IsSpace(s[0]) then TrimSpace(s[1..]) else TrimRight(s)
  }

  lemma {:induction false} TrimSpaceSplit(s: string)
    ensures TrimSpace(s) == TrimRight(TrimLeft(s))
    decreases |s|
  {
    if s != [] && IsSpace(s[0]) {
      TrimSpaceSplit(s[1..]);
    }
  }

  /** `r`, the front of the suffix `l` of `s`, sits between two all-white-space parts of `s`. */
  lemma MiddleOf(s: string, l: string, r: string, i: nat, j: nat)
    requires i <= |s| && l == s[i..] && |r| <= |l| && r == l[..|r|] && j == i + |r|
    requires AllSpace(l[|r|..])
    ensures r == s[i..j] && AllSpace(s[j..])
  {
    assert l[|r|..] == s[j..];
  }

  /**
   * The trimmed string is the middle of `s` between two all-white-space
   * borders, and neither of its ends is white space.
   */
  lemma TrimSpaceMiddle(s: string)
    ensures exists i, j :: 0 <= i <= j <= |s| && TrimSpace(s) == s[i..j] && AllSpace(s[..i]) && AllSpace(s[j..])
    ensures TrimSpace(s) != [] ==> !IsSpace(TrimSpace(s)[0]) && !IsSpace(TrimSpace(s)[|TrimSpace(s)| - 1])
  {
    TrimSpaceSplit(s);
    var l := TrimLeft(s);
    var r := TrimRight(l);
    var i := |s| - |l|;
    var j := i + |r|;
    MiddleOf(s, l, r, i, j);
    assert TrimSpace(s) == s[i..j] && AllSpace(s[..i]) && AllSpace(s[j..]);
    if r != [] {
      assert r[0] == l[0];
    }
  }

  /** Go's `strings.HasPrefix`. */
  predicate HasPrefix(s: string, prefix: string) {
    |prefix| <= |s| && s[..|prefix|] == prefix
  }

  /** The first index at or after `from` holding `c`, or `|s|` if there is none. */
  function IndexOf(s: string, c: char, from: nat): (r: nat)
    requires from <= |s|
    ensures from <= r <= |s|
    ensures forall i :: from <= i < r ==> s[i] != c
    ensures r < |s| ==> s[r] == c
    decreases |s| - from
  {
    if from == |s| || s[from] == c then from else IndexOf(s, c, from + 1)
  }

  /** Go's `strings.Join(parts, "\n")`. */
  function Join(parts: seq<string>): string {
    if |parts| == 0 then ""
    else if |parts| == 1 then parts[0]
    else parts[0] + "\n" + Join(parts[1..])
  }

  /** Go's `strings.Split(s, "\n")`: the pieces between newlines, at least one. */
  function Split(s: string): (parts: seq<string>)
    ensures |parts| >= 1
    ensures forall i :: 0 <= i < |parts| ==> '\n' !in parts[i]
    ensures Join(parts) == s
    decreases |s|
  {
    var i := IndexOf(s, '\n', 0);
    if i == |s| then
      [s]
    else
      var rest := Split(s[i + 1..]);
      assert s == s[..i] + "\n" + s[i + 1..];
      [s[..i]] + rest
  }

  /** The first newline of `p + t` ends the newline-free piece `p`. */
  lemma NewlineAfterPiece(p: string, t: string)
    requires '\n' !in p && (t == [] || t[0] == '\n')
    ensures IndexOf(p + t, '\n', 0) == |p|
  {
    var s := p + t;
    forall k | 0 <= k < |p| ensures s[k] != '\n' {
      assert s[k] == p[k] && p[k] in p;
    }
    if t != [] {
      assert s[|p|] == '\n';
    }
  }

  /** Splitting a join of newline-free pieces gives the pieces back. */
  lemma {:induction false} SplitJoin(parts: seq<string>)
    requires |parts| >= 1
    requires forall i :: 0 <= i < |parts| ==> '\n' !in parts[i]
    ensures Split(Join(parts)) == parts
    decreases |parts|
  {
    var p := parts[0];
    if |parts| == 1 {
      NewlineAfterPiece(p, []);
      assert p + [] == p;
    } else {
      var rest := Join(parts[1..]);
      var s := p + ("\n" + rest);
      assert Join(parts) == s;
      NewlineAfterPiece(p, "\n" + rest);
      assert s[|p| + 1..] == rest && s[..|p|] == p;
      SplitJoin(parts[1..]);
    }
  }

  /** Go's `strings.ToLower`, restricted to ASCII letters (see README). */
  function LowerChar(c: char): char {
    if 'A' <= c <= 'Z' then (c as int + 32) as char else c
  }

  function Lower(s: string): (r: string)
    ensures |r| == |s|
  {
    seq(|s|, i requires 0 <= i < |s| => LowerChar(s[i]))
  }

  /**
   * Go's `filepath.Ext` with `/` as the path separator: the suffix starting at
   * the final dot of the final path element, or "" when that element has no dot.
   */
  function Ext(path: string): string
    decreases |path|
  {
    if path == [] then []
    else
      var last := path[|path| - 1];
      var init := path[..|path| - 1];
      if last == '/' then
        []
      else if last == '.' then "."
      else
        var e := Ext(init);
        if e == [] then
          []
        else
          e + [last]
  }

  /** The extension is a suffix of the path. */
  lemma {:induction false} ExtIsSuffix(path: string)
    ensures |Ext(path)| <= |path| && Ext(path) == path[|path| - |Ext(path)|..]
    decreases |path|
  {
    if path != [] && path[|path| - 1] != '/' && path[|path| - 1] != '.' {
      var n := |path| - 1;
      ExtIsSuffix(path[..n]);
      var e := Ext(path[..n]);
      if e != [] {
        assert path[..n][n - |e|..] + [path[n]] == path[n - |e|..];
      }
    }
  }

  /**
   * The extension is either empty, when every dot of the path is followed by
   * a later separator, or a dot followed by neither dots nor separators.
   */
  lemma {:induction false} ExtSound(path: string)
    ensures var r := Ext(path);
      r != [] ==> r[0] == '.' && forall i :: 1 <= i < |r| ==> r[i] != '.' && r[i] != '/'
    ensures Ext(path) == [] ==> forall i :: 0 <= i < |path| && path[i] == '.' ==> '/' in path[i + 1..]
    decreases |path|
  {
    if path != [] {
      var n := |path| - 1;
      var init := path[..n];
      ExtSound(init);
      if path[n] == '/' {
        forall i | 0 <= i < |path| && path[i] == '.' ensures '/' in path[i + 1..] {
          assert path[i + 1..][n - i - 1] == '/';
        }
      } else if path[n] != '.' && Ext(init) == [] {
        forall i | 0 <= i < |path| && path[i] == '.' ensures '/' in path[i + 1..] {
          assert init[i] == '.';
          var k :| 0 <= k < |init[i + 1..]| && init[i + 1..][k] == '/';
          assert path[i + 1..][k] == '/';
        }
      }
    }
  }

  /** Two paths that end in the same non-separator and agree on the extension before it agree on it. */
  lemma ExtSameLast(x: string, y: string)
    requires x != [] && y != [] && x[|x| - 1] == y[|y| - 1] != '/'
    requires Ext(x[..|x| - 1]) == Ext(y[..|y| - 1])
    ensures Ext(x) == Ext(y)
  {
  }

  /** A path ending in a dot and a dot-free, separator-free suffix has that dot and suffix as its extension. */
  lemma {:induction false} ExtOfDotted(stem: string, suffix: string)
    requires '.' !in suffix && '/' !in suffix
    ensures Ext(stem + "." + suffix) == "." + suffix
    decreases |suffix|
  {
    var p := stem + "." + suffix;
    if suffix == [] {
      assert p[|p| - 1] == '.';
    } else {
      var n := |suffix| - 1;
      assert suffix[n] in suffix;
      assert '.' !in suffix[..n] && '/' !in suffix[..n] by {
        forall k | 0 <= k < n ensures suffix[..n][k] != '.' && suffix[..n][k] != '/' {
          assert suffix[..n][k] in suffix;
        }
      }
      ExtOfDotted(stem, suffix[..n]);
      assert p[..|p| - 1] == stem + "." + suffix[..n];
      assert ("." + suffix[..n]) + [suffix[n]] == "." + suffix;
    }
  }

  /** Lower-casing commutes with taking the extension (`.` and `/` are not letters). */
  lemma {:induction false} ExtLower(path: string)
    ensures Ext(Lower(path)) == Lower(Ext(path))
    decreases |path|
  {
    if path != [] {
      var n := |path| - 1;
      var lp := Lower(path);
      var c := path[n];
      assert lp[n] == LowerChar(c);
      assert lp[..n] == Lower(path[..n]);
      if c != '/' && c != '.' {
        ExtLower(path[..n]);
        var e := Ext(path[..n]);
        if e != [] {
          assert Lower(e + [c]) == Lower(e) + [LowerChar(c)];
        }
      }
    }
  }

  /** Lower-casing twice is lower-casing once. */
  lemma LowerIdempotent(s: string)
    ensures Lower(Lower(s)) == Lower(s)
  {
  }

  /**
   * Go's `strings.ReplaceAll(s, key, "")`: every non-overlapping occurrence of
   * `key`, found from left to right, is removed; an empty key changes nothing.
   */
  function RemoveAll(s: string, key: string): (r: string)
    ensures |r| <= |s|
    decreases |s|
  {
    if key == [] || |s| < |key| then s
    else if s[..|key|] == key then RemoveAll(s[|key|..], key)
    else [s[0]] + RemoveAll(s[1..], key)
  }

  /** `key` occurs in `s` at position `i`. */
  predicate OccursAt(s: string, key: string, i: int) {
    0 <= i && i + |key| <= |s| && s[i..i + |key|] == key
  }

  /** Removing a key that does not occur leaves the text unchanged. */
  lemma {:induction false} RemoveAllAbsent(s: string, key: string)
    requires forall i :: !OccursAt(s, key, i)
    ensures RemoveAll(s, key) == s
    decreases |s|
  {
    if key != [] && |s| >= |key| {
      assert !OccursAt(s, key, 0);
      assert forall i :: OccursAt(s[1..], key, i) ==> OccursAt(s, key, i + 1) by {
        forall i | OccursAt(s[1..], key, i) ensures OccursAt(s, key, i + 1) {
          assert s[i + 1..i + 1 + |key|] == s[1..][i..i + |key|];
        }
      }
      RemoveAllAbsent(s[1..], key);
    }
  }

  /** An occurrence in the tail of a text is an occurrence in the text, one position on. */
  lemma OccursInTail(s: string, key: string, i: int)
    requires s != []
    ensures OccursAt(s[1..], key, i) ==> OccursAt(s, key, i + 1)
  {
    if OccursAt(s[1..], key, i) {
      assert s[1..][i..i + |key|] == s[i + 1..i + 1 + |key|];
    }
  }

  /**
   * The leftmost occurrence of a key goes, the text before it stays, and
   * removal carries on after it: with `RemoveAllAbsent`, every
   * non-overlapping occurrence, found left to right, is removed.
   */
  lemma {:induction false} RemoveAllAt(x: string, key: string, y: string)
    requires key != []
    requires forall i :: 0 <= i < |x| ==> !OccursAt(x + key + y, key, i)
    ensures RemoveAll(x + key + y, key) == x + RemoveAll(y, key)
    decreases |x|
  {
    var s := x + key + y;
    if x == [] {
      assert s[..|key|] == key && s[|key|..] == y;
    } else {
      assert !OccursAt(s, key, 0);
      assert s[..|key|] != key by {
        assert s[..|key|] == s[0..|key|];
      }
      assert x[1..] + key + y == s[1..];
      forall i | 0 <= i < |x| - 1 ensures !OccursAt(x[1..] + key + y, key, i) {
        OccursInTail(s, key, i);
      }
      RemoveAllAt(x[1..], key, y);
      assert [x[0]] + (x[1..] + RemoveAll(y, key)) == x + RemoveAll(y, key);
    }
  }

  /** Every occurrence of a non-empty key is paid for: the result is shorter by at least one key. */
  lemma {:induction false} RemoveAllShrinks(s: string, key: string, i: int)
    requires key != [] && OccursAt(s, key, i)
    ensures |RemoveAll(s, key)| <= |s| - |key|
    decreases |s|
  {
    if s[..|key|] != key {
      assert i != 0;
      assert s[1..][i - 1..i - 1 + |key|] == s[i..i + |key|];
      RemoveAllShrinks(s[1..], key, i - 1);
    }
  }

  /** A non-empty key leaves the text unchanged exactly when it does not occur in it. */
  lemma RemoveAllUnchanged(s: string, key: string)
    requires key != []
    ensures RemoveAll(s, key) == s <==> forall i :: !OccursAt(s, key, i)
  {
    if forall i :: !OccursAt(s, key, i) {
      RemoveAllAbsent(s, key);
    } else {
      var i :| OccursAt(s, key, i);
      RemoveAllShrinks(s, key, i);
    }
  }

  /** Removal that keeps the length changes nothing. */
  lemma RemoveAllSameLength(s: string, key: string)
    requires |RemoveAll(s, key)| == |s|
    ensures RemoveAll(s, key) == s
  {
    if key != [] {
      RemoveAllUnchanged(s, key);
      if RemoveAll(s, key) != s {
        var i :| OccursAt(s, key, i);
        RemoveAllShrinks(s, key, i);
      }
    }
  }

  /**
   * A slice of a slice is a slice, and an element of a slice is an element
   * of the whole; stated as implications so that a caller needs no range
   * check.
   */
  lemma SliceOfSlice<T>(s: seq<T>, p: int, e: int, i: int, j: int)
    ensures 0 <= p <= e <= |s| && 0 <= i <= j <= e - p ==> s[p..e][i..j] == s[p + i..p + j]
    ensures 0 <= p <= e <= |s| && 0 <= i < e - p ==> s[p..e][i] == s[p + i]
  {
    if 0 <= p <= e <= |s| && 0 <= i <= j <= e - p {
      assert forall x :: 0 <= x < j - i ==> s[p..e][i..j][x] == s[p + i + x];
    }
  }
}
