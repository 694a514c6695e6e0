/**
 * Removing the bot's mention placeholders from a message as whole tokens.
 *
 * Feishu writes each mention into the text as a placeholder `@_user_<n>`.
 * `stripBotMention` removes the bot's placeholder with a plain substring
 * replacement, so removing `@_user_1` also cuts the first eight characters
 * out of another user's `@_user_10`, leaving a stray "0"
 * (`StripCutsLongerPlaceholder`). The corrected removal below only removes
 * a placeholder that is not followed by a further digit, and keeps every
 * other user's placeholder whole (`OtherPlaceholderKept`).
 */
module MentionTokens {
  import opened Wrappers
  import opened Strings
  import opened FeishuHelpers

  predicate IsDigit(c: char) {
    '0' <= c <= '9'
  }

  /** A mention placeholder as Feishu writes it: `@_user_` and at least one digit. */
  predicate Placeholder(k: string) {
    |k| > 7 && k[..7] == "@_user_" && forall j :: 7 <= j < |k| ==> IsDigit(k[j])
  }

  /** `k` occurs at `i` as a whole placeholder: no digit continues it. */
  predicate TokenAt(s: string, k: string, i: int) {
    OccursAt(s, k, i) && (i + |k| == |s| || !IsDigit(s[i + |k|]))
  }

  /** Removes, left to right, every whole-token occurrence of `k`. */
  function RemoveToken(s: string, k: string): (r: string)
    ensures |r| <= |s|
    decreases |s|
  {
    if k == [] || |s| < |k| then s
    else if TokenAt(s, k, 0) then RemoveToken(s[|k|..], k)
    else [s[0]] + RemoveToken(s[1..], k)
  }

  /** Removing each key of `keys` in turn as a whole token. */
  function RemoveTokens(s: string, keys: seq<string>): (r: string)
    ensures |r| <= |s|
    decreases |keys|
  {
    if keys == [] then s else RemoveToken(RemoveTokens(s, keys[..|keys| - 1]), keys[|keys| - 1])
  }

  /**
   * `stripBotMention` with the bot's placeholder removed only as a whole
   * token; everything else is as in `FeishuHelpers.StripBotMention`.
   */
  method StripBotMentionExact(botOpenID: string, content: string, message: Option<EventMessage>) returns (r: string)
    ensures message.None? || |message.value.mentions| == 0 ==> r == content
    ensures message.Some? && |message.value.mentions| > 0 ==>
      r == TrimSpace(RemoveTokens(content, BotKeys(botOpenID, message.value.mentions)))
  {
    if message.None? || |message.value.mentions| == 0 {
      return content;
    }
    var mentions := message.value.mentions;
    r := content;
    var i := 0;
    while i < |mentions|
      invariant i <= |mentions|
      invariant r == RemoveTokens(content, BotKeys(botOpenID, mentions[..i]))
    {
      BotKeysStep(botOpenID, mentions, i);
      var mention := mentions[i];
      var keys := BotKeys(botOpenID, mentions[..i]);
      if StripsKey(botOpenID, mention) {
        assert (keys + [mention.value.key.value])[..|keys|] == keys;
        r := RemoveToken(r, mention.value.key.value);
      } else {
        assert keys + [] == keys;
      }
      i := i + 1;
    }
    assert mentions[..i] == mentions;
    r := TrimSpace(r);
  }

  lemma PlaceholderChars(k: string)
    requires Placeholder(k)
    ensures k[0] == '@' && IsDigit(k[|k| - 1])
    ensures forall j :: 1 <= j < |k| ==> k[j] != '@'
  {
    assert k[0] == k[..7][0];
    forall j | 1 <= j < |k| ensures k[j] != '@' {
      if j < 7 {
        assert k[j] == k[..7][j];
      }
    }
  }

  /** A placeholder found at `0` ends before any other placeholder found after `0` starts. */
  lemma NoOverlap(s: string, k: string, k2: string, i: int)
    requires Placeholder(k) && Placeholder(k2) && OccursAt(s, k, 0) && OccursAt(s, k2, i) && i > 0
    ensures i >= |k|
  {
    PlaceholderChars(k);
    PlaceholderChars(k2);
    SliceOfSlice(s, 0, |k|, i, i);
    SliceOfSlice(s, i, i + |k2|, 0, 0);
  }

  /** Two different placeholders never both stand as whole tokens at one position. */
  lemma TokensDiffer(s: string, k: string, k2: string, a: int)
    requires Placeholder(k) && Placeholder(k2) && k != k2 && TokenAt(s, k2, a)
    ensures !TokenAt(s, k, a)
  {
    SliceOfSlice(s, a, a + |k2|, |k|, |k|);
    SliceOfSlice(s, a, a + |k|, |k2|, |k2|);
  }

  /** A whole token stays one when a prefix of the text is dropped before it. */
  lemma TokenShift(s: string, k: string, i: int, d: int)
    requires TokenAt(s, k, i) && 0 <= d <= i
    ensures TokenAt(s[d..], k, i - d)
  {
    assert s[d..][i - d..i - d + |k|] == s[i..i + |k|];
    if i + |k| < |s| {
      assert s[d..][i - d + |k|] == s[i + |k|];
    }
  }

  /** A whole token stays one when a character is put before the text. */
  lemma TokenPrepend(c: char, r: string, k: string, p: int)
    requires TokenAt(r, k, p)
    ensures TokenAt([c] + r, k, p + 1)
  {
    assert ([c] + r)[p + 1..p + 1 + |k|] == r[p..p + |k|];
    if p + |k| < |r| {
      assert ([c] + r)[p + 1 + |k|] == r[p + |k|];
    }
  }

  /** A whole token after the first character is one in the whole text. */
  lemma TokenTail(s: string, k: string, a: int)
    requires s != []
    ensures TokenAt(s[1..], k, a) ==> TokenAt(s, k, a + 1)
  {
    if TokenAt(s[1..], k, a) {
      TokenPrepend(s[0], s[1..], k, a);
      assert [s[0]] + s[1..] == s;
    }
  }

  /** Removal never brings a digit to the front of a text that does not start with one. */
  lemma {:induction false} RemoveTokenNonDigitStart(t: string, k: string)
    requires Placeholder(k) && (t == [] || !IsDigit(t[0]))
    ensures RemoveToken(t, k) == [] || !IsDigit(RemoveToken(t, k)[0])
    decreases |t|
  {
    if |t| >= |k| && TokenAt(t, k, 0) {
      RemoveTokenNonDigitStart(t[|k|..], k);
    }
  }

  /** Text before the first whole token of `k` is kept as it is. */
  lemma {:induction false} PrefixKept(s: string, k: string, m: int)
    requires Placeholder(k) && 0 <= m <= |s|
    requires forall a :: 0 <= a < m ==> !TokenAt(s, k, a)
    ensures RemoveToken(s, k) == s[..m] + RemoveToken(s[m..], k)
    decreases m
  {
    if m == 0 {
      assert s[m..] == s;
    } else if |s| < |k| {
      assert s[..m] + s[m..] == s;
    } else {
      assert !TokenAt(s, k, 0);
      forall a | 0 <= a < m - 1 ensures !TokenAt(s[1..], k, a) {
        TokenTail(s, k, a);
      }
      PrefixKept(s[1..], k, m - 1);
      assert s[1..][m - 1..] == s[m..];
      assert [s[0]] + s[1..][..m - 1] == s[..m];
    }
  }

  /** A whole token of a different placeholder at the start of the text stays at the start. */
  lemma LeadingTokenSurvives(s: string, k: string, k2: string)
    requires Placeholder(k) && Placeholder(k2) && k != k2 && TokenAt(s, k2, 0)
    ensures TokenAt(RemoveToken(s, k), k2, 0)
  {
    PlaceholderChars(k);
    PlaceholderChars(k2);
    forall a | 0 <= a < |k2| ensures !TokenAt(s, k, a) {
      if a == 0 {
        TokensDiffer(s, k, k2, 0);
      } else {
        SliceOfSlice(s, 0, |k2|, a, a);
        SliceOfSlice(s, a, a + |k|, 0, 0);
      }
    }
    PrefixKept(s, k, |k2|);
    RemoveTokenNonDigitStart(s[|k2|..], k);
    assert RemoveToken(s, k)[..|k2|] == s[..|k2|];
  }

  /** Removing one placeholder keeps every whole token of a different placeholder. */
  lemma {:induction false} TokenSurvives(s: string, k: string, k2: string, i: int)
    requires Placeholder(k) && Placeholder(k2) && k != k2 && TokenAt(s, k2, i)
    ensures exists p :: TokenAt(RemoveToken(s, k), k2, p)
    decreases |s|
  {
    PlaceholderChars(k);
    PlaceholderChars(k2);
    if |s| < |k| {
      assert TokenAt(RemoveToken(s, k), k2, i);
    } else if i == 0 {
      LeadingTokenSurvives(s, k, k2);
    } else if TokenAt(s, k, 0) {
      NoOverlap(s, k, k2, i);
      TokenShift(s, k2, i, |k|);
      TokenSurvives(s[|k|..], k, k2, i - |k|);
      var p :| TokenAt(RemoveToken(s[|k|..], k), k2, p);
      assert TokenAt(RemoveToken(s, k), k2, p);
    } else {
      TokenShift(s, k2, i, 1);
      TokenSurvives(s[1..], k, k2, i - 1);
      var p :| TokenAt(RemoveToken(s[1..], k), k2, p);
      TokenPrepend(s[0], RemoveToken(s[1..], k), k2, p);
      assert TokenAt(RemoveToken(s, k), k2, p + 1);
    }
  }

  /** Removing a list of placeholders keeps every whole token of a placeholder not in the list. */
  lemma {:induction false} TokenSurvivesAll(s: string, keys: seq<string>, k2: string, i: int)
    requires Placeholder(k2) && TokenAt(s, k2, i)
    requires forall j :: 0 <= j < |keys| ==> Placeholder(keys[j]) && keys[j] != k2
    ensures exists p :: TokenAt(RemoveTokens(s, keys), k2, p)
    decreases |keys|
  {
    if keys == [] {
      assert TokenAt(RemoveTokens(s, keys), k2, i);
    } else {
      var n := |keys| - 1;
      assert forall j :: 0 <= j < n ==> keys[..n][j] == keys[j];
      TokenSurvivesAll(s, keys[..n], k2, i);
      var p :| TokenAt(RemoveTokens(s, keys[..n]), k2, p);
      TokenSurvives(RemoveTokens(s, keys[..n]), keys[n], k2, p);
      var q :| TokenAt(RemoveToken(RemoveTokens(s, keys[..n]), keys[n]), k2, q);
      assert TokenAt(RemoveTokens(s, keys), k2, q);
    }
  }

  /** A whole token inside a slice that contains it is a whole token of the slice. */
  lemma TokenInSlice(r: string, k: string, p: int, a: int, b: int)
    requires TokenAt(r, k, p) && 0 <= a <= p && p + |k| <= b <= |r|
    ensures TokenAt(r[a..b], k, p - a)
  {
    SliceOfSlice(r, a, b, p - a, p - a + |k|);
    if p + |k| < b {
      assert r[a..b][p - a + |k|] == r[p + |k|];
    }
  }

  /** A whole placeholder token between white-space margins is one of the text between them. */
  lemma TokenBetweenSpaces(r: string, k2: string, p: int, a: int, b: int)
    requires Placeholder(k2) && TokenAt(r, k2, p)
    requires 0 <= a <= b <= |r| && AllSpace(r[..a]) && AllSpace(r[b..])
    ensures TokenAt(r[a..b], k2, p - a)
  {
    PlaceholderChars(k2);
    var e := p + |k2|;
    SliceOfSlice(r, p, e, 0, 0);
    SliceOfSlice(r, p, e, e - 1 - p, e - 1 - p);
    SliceOfSlice(r, 0, a, p, p);
    SliceOfSlice(r, b, |r|, e - 1 - b, e - 1 - b);
    TokenInSlice(r, k2, p, a, b);
  }

  /** Trimming white space keeps a whole placeholder token. */
  lemma TrimKeepsToken(r: string, k2: string, p: int)
    requires Placeholder(k2) && TokenAt(r, k2, p)
    ensures exists q :: TokenAt(TrimSpace(r), k2, q)
  {
    TrimSpaceMiddle(r);
    var a, b :| 0 <= a <= b <= |r| && TrimSpace(r) == r[a..b] && AllSpace(r[..a]) && AllSpace(r[b..]);
    TokenBetweenSpaces(r, k2, p, a, b);
  }

  /**
   * With the corrected removal, the whole placeholder of anyone who is not
   * stripped as the bot stays in the text: the only hypothesis is that
   * every stripped key is a placeholder different from it.
   */
  lemma OtherPlaceholderKept(botOpenID: string, ms: seq<Option<MentionEvent>>, content: string, k2: string, i: int)
    requires Placeholder(k2) && TokenAt(content, k2, i)
    requires forall j :: 0 <= j < |ms| && StripsKey(botOpenID, ms[j]) ==>
      Placeholder(ms[j].value.key.value) && ms[j].value.key.value != k2
    ensures exists q :: TokenAt(TrimSpace(RemoveTokens(content, BotKeys(botOpenID, ms))), k2, q)
  {
    var keys := BotKeys(botOpenID, ms);
    BotKeysFromBot(botOpenID, ms);
    forall j | 0 <= j < |keys| ensures Placeholder(keys[j]) && keys[j] != k2 {
      assert keys[j] in keys;
    }
    TokenSurvivesAll(content, keys, k2, i);
    var p :| TokenAt(RemoveTokens(content, keys), k2, p);
    TrimKeepsToken(RemoveTokens(content, keys), k2, p);
  }

  /**
   * With a known bot open ID and distinct placeholder keys, the placeholder
   * of a mention that is not the bot survives the corrected stripping.
   */
  lemma NonBotMentionKept(botOpenID: string, ms: seq<Option<MentionEvent>>, content: string, j: int, i: int)
    requires botOpenID != ""
    requires forall x :: 0 <= x < |ms| && ms[x].Some? && ms[x].value.key.Some? ==> Placeholder(ms[x].value.key.value)
    requires forall x, y ::
      0 <= x < |ms| && 0 <= y < |ms| && x != y && ms[x].Some? && ms[y].Some? && ms[x].value.key.Some? ==>
        ms[x].value.key != ms[y].value.key
    requires 0 <= j < |ms| && ms[j].Some? && ms[j].value.key.Some?
    requires !HasOpenId(ms[j].value) || ms[j].value.id.value.openId.value != botOpenID
    requires TokenAt(content, ms[j].value.key.value, i)
    ensures exists q :: TokenAt(TrimSpace(RemoveTokens(content, BotKeys(botOpenID, ms))), ms[j].value.key.value, q)
  {
    OtherPlaceholderKept(botOpenID, ms, content, ms[j].value.key.value, i);
  }

  /**
   * As written, stripping the bot's `@_user_1` leaves only the last digit of
   * another user's `@_user_10`.
   */
  lemma StripCutsLongerPlaceholder()
    ensures var ms := [Some(MentionEvent(Some("@_user_1"), Some(UserId(None, Some("ou_bot"), None)), None)),
                       Some(MentionEvent(Some("@_user_10"), Some(UserId(None, Some("ou_other"), None)), None))];
      TrimSpace(RemoveKeys("@_user_1 @_user_10", BotKeys("ou_bot", ms))) == "0"
  {
    var ms := [Some(MentionEvent(Some("@_user_1"), Some(UserId(None, Some("ou_bot"), None)), None)),
               Some(MentionEvent(Some("@_user_10"), Some(UserId(None, Some("ou_other"), None)), None))];
    assert ms[..1] == ms[..|ms| - 1];
    assert BotKeys("ou_bot", ms[..1]) == ["@_user_1"];
    assert BotKeys("ou_bot", ms) == ["@_user_1"];
    var s := "@_user_1 @_user_10";
    assert s[..8] == "@_user_1";
    assert s[8..] == " @_user_10";
    assert s[8..][1..] == "@_user_10";
    assert s[8..][1..][..8] == "@_user_1";
    assert s[8..][1..][8..] == "0";
    assert RemoveAll(s, "@_user_1") == " 0";
    assert " 0"[1..] == "0";
  }

  /** On the same message, the corrected removal keeps the other user's placeholder. */
  lemma ExactKeepsLongerPlaceholder()
    ensures var ms := [Some(MentionEvent(Some("@_user_1"), Some(UserId(None, Some("ou_bot"), None)), None)),
                       Some(MentionEvent(Some("@_user_10"), Some(UserId(None, Some("ou_other"), None)), None))];
      exists q :: TokenAt(TrimSpace(RemoveTokens("@_user_1 @_user_10", BotKeys("ou_bot", ms))), "@_user_10", q)
  {
    var ms := [Some(MentionEvent(Some("@_user_1"), Some(UserId(None, Some("ou_bot"), None)), None)),
               Some(MentionEvent(Some("@_user_10"), Some(UserId(None, Some("ou_other"), None)), None))];
    var s := "@_user_1 @_user_10";
    assert "@_user_1"[..7] == "@_user_" && "@_user_10"[..7] == "@_user_";
    assert s[9..18] == "@_user_10";
    NonBotMentionKept("ou_bot", ms, s, 1, 9);
  }
}
