/**
 * The pure decision helpers of the Feishu channel: the upload file type of
 * a file name, the sender ID of an incoming event, and the two rules that
 * recognise and remove mentions of the bot in a group message. The event
 * records of the Lark SDK are modelled with `Option` for every pointer.
 */
module FeishuHelpers {
  import opened Wrappers
  import opened Strings

  /** The Lark upload file types, on the wire "opus", "mp4", "pdf", "doc", "xls", "ppt" and "stream". */
  datatype FileType = Opus | Mp4 | Pdf | Doc | Xls | Ppt | Stream

  /** The `switch` of `inferFeishuFileType` on a lower-case extension. */
  function FileTypeOf(ext: string): (t: FileType)
    ensures t != Stream ==> 4 <= |ext| <= 5 && ext[0] == '.'
  {
    if ext == ".opus" || ext == ".ogg" then Opus
    else if ext == ".mp4" then Mp4
    else if ext == ".pdf" then Pdf
    else if ext == ".doc" || ext == ".docx" then Doc
    else if ext == ".xls" || ext == ".xlsx" then Xls
    else if ext == ".ppt" || ext == ".pptx" then Ppt
    else Stream
  }

  /** `inferFeishuFileType`: the lower-cased extension picks the type; anything else is a stream. */
  function InferFeishuFileType(filename: string): FileType {
    FileTypeOf(Lower(Ext(filename)))
  }

  /**
   * The type of a name is decided by the text after its final dot alone,
   * lower-cased: "Report.PDF" and "x.tar.pdf" are both sent as PDF documents.
   */
  lemma InferFromSuffix(stem: string, suffix: string)
    requires '.' !in suffix && '/' !in suffix
    ensures InferFeishuFileType(stem + "." + suffix) == FileTypeOf("." + Lower(suffix))
  {
    ExtOfDotted(stem, suffix);
    assert Lower("." + suffix) == "." + Lower(suffix);
  }

  /** Names that agree up to ASCII case get the same type, so ".PDF" counts as ".pdf". */
  lemma InferCaseInsensitive(a: string, b: string)
    requires Lower(a) == Lower(b)
    ensures InferFeishuFileType(a) == InferFeishuFileType(b)
  {
    ExtLower(a);
    ExtLower(b);
    LowerIdempotent(Ext(a));
    LowerIdempotent(Ext(b));
    assert Lower(Ext(a)) == Lower(Ext(b));
  }

  /** A name without an extension, such as "Makefile" or "dir.d/file", is sent as a stream. */
  lemma InferNoExtension(filename: string)
    requires Ext(filename) == []
    ensures InferFeishuFileType(filename) == Stream
  {
    assert Lower(Ext(filename)) == [];
  }

  /** The extension of a path is that of its final element. */
  lemma {:induction false} ExtAfterSeparator(dir: string, name: string)
    requires '/' !in name
    ensures Ext(dir + "/" + name) == Ext(name)
    decreases |name|
  {
    var p := dir + "/" + name;
    if name == [] {
      assert p[|p| - 1] == '/';
    } else {
      var n := |name| - 1;
      assert p[|p| - 1] == name[n];
      assert p[..|p| - 1] == dir + "/" + name[..n];
      assert '/' !in name[..n] by {
        forall k | 0 <= k < n ensures name[..n][k] != '/' {
          assert name[..n][k] in name;
        }
      }
      ExtAfterSeparator(dir, name[..n]);
      assert name[n] in name;
      ExtSameLast(p, name);
    }
  }

  /** The directory part of a path never changes the type. */
  lemma InferIgnoresDirectory(dir: string, name: string)
    requires '/' !in name
    ensures InferFeishuFileType(dir + "/" + name) == InferFeishuFileType(name)
  {
    ExtAfterSeparator(dir, name);
  }

  /** The three IDs of a user; each may be absent. */
  datatype UserId = UserId(userId: Option<string>, openId: Option<string>, unionId: Option<string>)

  /** The sender of an event; its ID record may be absent. */
  datatype EventSender = EventSender(senderId: Option<UserId>)

  /** The value of an ID field, or "" when it is absent. */
  function Value(o: Option<string>): string {
    if o.Some? then o.value else ""
  }

  /** The first non-empty ID among `ids`, or "" if there is none. */
  function FirstNonEmpty(ids: seq<Option<string>>): string
    decreases |ids|
  {
    if ids == [] then ""
    else if Value(ids[0]) != "" then Value(ids[0])
    else FirstNonEmpty(ids[1..])
  }

  /** The sender's IDs in order of preference: user ID, then open ID, then union ID. */
  function Preference(u: UserId): seq<Option<string>> {
    [u.userId, u.openId, u.unionId]
  }

  /**
   * `extractFeishuSenderID`: the first non-empty of the user, open and union
   * IDs, and "" for a missing sender, a missing ID record, or no usable ID.
   */
  function ExtractFeishuSenderID(sender: Option<EventSender>): (id: string)
    ensures sender.None? || sender.value.senderId.None? ==> id == ""
    ensures id != "" ==>
      && sender.Some? && sender.value.senderId.Some?
      && (id == Value(sender.value.senderId.value.userId)
          || id == Value(sender.value.senderId.value.openId)
          || id == Value(sender.value.senderId.value.unionId))
  {
    if sender.None? || sender.value.senderId.None? then ""
    else
      var u := sender.value.senderId.value;
      if u.userId.Some? && u.userId.value != "" then u.userId.value
      else if u.openId.Some? && u.openId.value != "" then u.openId.value
      else if u.unionId.Some? && u.unionId.value != "" then u.unionId.value
      else ""
  }

  /** The if-chain picks the first non-empty ID in order of preference. */
  lemma SenderByPreference(u: UserId)
    ensures ExtractFeishuSenderID(Some(EventSender(Some(u)))) == FirstNonEmpty(Preference(u))
  {
    var ids := Preference(u);
    assert ids[1..] == [u.openId, u.unionId];
    assert ids[1..][1..] == [u.unionId];
    assert ids[1..][1..][1..] == [];
    assert FirstNonEmpty(ids[1..][1..]) == Value(u.unionId);
    assert FirstNonEmpty(ids[1..]) == if Value(u.openId) != "" then Value(u.openId) else Value(u.unionId);
  }

  /** The ID is empty exactly when no ID is usable. */
  lemma SenderEmpty(u: UserId)
    ensures ExtractFeishuSenderID(Some(EventSender(Some(u)))) == "" <==>
      Value(u.userId) == "" && Value(u.openId) == "" && Value(u.unionId) == ""
  {
  }

  /** One entry of a message's mention list: the placeholder key (such as "@_user_1"), the mentioned ID and name. */
  datatype MentionEvent = MentionEvent(key: Option<string>, id: Option<UserId>, name: Option<string>)

  /** The part of an incoming message the mention rules read; a nil list and an empty one are alike. */
  datatype EventMessage = EventMessage(mentions: seq<Option<MentionEvent>>)

  /** The mention names an open ID. */
  predicate HasOpenId(m: MentionEvent) {
    m.id.Some? && m.id.value.openId.Some?
  }

  /**
   * Whether one mention counts as the bot: with a known bot open ID, a
   * mention of exactly that open ID; without one, any mention with a key and
   * an open ID.
   */
  predicate MentionsBot(botOpenID: string, m: Option<MentionEvent>) {
    m.Some? && HasOpenId(m.value) &&
    if botOpenID != "" then m.value.id.value.openId.value == botOpenID else m.value.key.Some?
  }

  /** Some mention of the message counts as the bot. */
  predicate Mentioned(botOpenID: string, message: Option<EventMessage>) {
    message.Some? && exists i :: 0 <= i < |message.value.mentions| && MentionsBot(botOpenID, message.value.mentions[i])
  }

  /**
   * `isBotMentioned`: scans the mentions and answers true at the first one
   * that counts as the bot; false for a missing message or no mentions.
   */
  method IsBotMentioned(botOpenID: string, message: Option<EventMessage>) returns (b: bool)
    ensures b <==> Mentioned(botOpenID, message)
  {
    if message.None? || |message.value.mentions| == 0 {
      return false;
    }
    var mentions := message.value.mentions;
    var i := 0;
    while i < |mentions|
      invariant i <= |mentions|
      invariant forall j :: 0 <= j < i ==> !MentionsBot(botOpenID, mentions[j])
    {
      var mention := mentions[i];
      if mention.None? {
        i := i + 1;
        continue;
      }
      var m := mention.value;
      if botOpenID != "" && m.id.Some? {
        if m.id.value.openId.Some? && m.id.value.openId.value == botOpenID {
          return true;
        }
      }
      if botOpenID == "" && m.key.Some? && m.id.Some? && m.id.value.openId.Some? {
        return true;
      }
      i := i + 1;
    }
    return false;
  }

  /** With a known bot open ID, the bot is mentioned exactly when some mention carries that open ID. */
  lemma MentionedById(botOpenID: string, message: EventMessage)
    requires botOpenID != ""
    ensures Mentioned(botOpenID, Some(message)) <==>
      exists i :: 0 <= i < |message.mentions| && message.mentions[i].Some? &&
        message.mentions[i].value.id.Some? && message.mentions[i].value.id.value.openId == Some(botOpenID)
  {
    if Mentioned(botOpenID, Some(message)) {
      var i :| 0 <= i < |message.mentions| && MentionsBot(botOpenID, message.mentions[i]);
      assert message.mentions[i].value.id.value.openId == Some(botOpenID);
    }
  }

  /** Without a bot open ID, any mention with a key and an open ID counts. */
  lemma MentionedByAnyone(message: EventMessage)
    ensures Mentioned("", Some(message)) <==>
      exists i :: 0 <= i < |message.mentions| && message.mentions[i].Some? &&
        message.mentions[i].value.key.Some? && HasOpenId(message.mentions[i].value)
  {
  }

  /** The mention's key is removed from the text: it has a key, and it counts as the bot. */
  predicate StripsKey(botOpenID: string, m: Option<MentionEvent>) {
    m.Some? && m.value.key.Some? && HasOpenId(m.value) &&
    (botOpenID == "" || m.value.id.value.openId.value == botOpenID)
  }

  /** The keys removed for the mentions `ms`, in list order. */
  function BotKeys(botOpenID: string, ms: seq<Option<MentionEvent>>): (keys: seq<string>)
    ensures |keys| <= |ms|
    decreases |ms|
  {
    if ms == [] then []
    else
      var last := ms[|ms| - 1];
      BotKeys(botOpenID, ms[..|ms| - 1]) + if StripsKey(botOpenID, last) then [last.value.key.value] else []
  }

  /** Removing each key of `keys` in turn, every occurrence of it each time. */
  function RemoveKeys(s: string, keys: seq<string>): (r: string)
    ensures |r| <= |s|
    decreases |keys|
  {
    if keys == [] then s else RemoveAll(RemoveKeys(s, keys[..|keys| - 1]), keys[|keys| - 1])
  }

  /** One more mention adds its key exactly when it is stripped. */
  lemma BotKeysStep(botOpenID: string, ms: seq<Option<MentionEvent>>, i: nat)
    requires i < |ms|
    ensures BotKeys(botOpenID, ms[..i + 1]) ==
      BotKeys(botOpenID, ms[..i]) + if StripsKey(botOpenID, ms[i]) then [ms[i].value.key.value] else []
  {
    assert ms[..i + 1][..i] == ms[..i];
  }

  lemma RemoveKeysStep(s: string, keys: seq<string>, k: string)
    ensures RemoveKeys(s, keys + [k]) == RemoveAll(RemoveKeys(s, keys), k)
  {
    assert (keys + [k])[..|keys|] == keys;
  }

  /** No stripped mention, no key. */
  lemma {:induction false} BotKeysNone(botOpenID: string, ms: seq<Option<MentionEvent>>)
    requires forall i :: 0 <= i < |ms| ==> !StripsKey(botOpenID, ms[i])
    ensures BotKeys(botOpenID, ms) == []
    decreases |ms|
  {
    if ms != [] {
      BotKeysNone(botOpenID, ms[..|ms| - 1]);
    }
  }

  /**
   * `stripBotMention`: removes the key of every mention that counts as the
   * bot, in list order, and trims the result; a message without mentions
   * leaves the text as it is, untrimmed.
   */
  method StripBotMention(botOpenID: string, content: string, message: Option<EventMessage>) returns (r: string)
    ensures message.None? || |message.value.mentions| == 0 ==> r == content
    ensures message.Some? && |message.value.mentions| > 0 ==>
      r == TrimSpace(RemoveKeys(content, BotKeys(botOpenID, message.value.mentions)))
  {
    if message.None? || |message.value.mentions| == 0 {
      return content;
    }
    var mentions := message.value.mentions;
    r := content;
    var i := 0;
    while i < |mentions|
      invariant i <= |mentions|
      invariant r == RemoveKeys(content, BotKeys(botOpenID, mentions[..i]))
    {
      BotKeysStep(botOpenID, mentions, i);
      var mention := mentions[i];
      if mention.None? || mention.value.key.None? {
        assert BotKeys(botOpenID, mentions[..i]) + [] == BotKeys(botOpenID, mentions[..i]);
        i := i + 1;
        continue;
      }
      var m := mention.value;
      var isBotMention := false;
      if botOpenID != "" && m.id.Some? && m.id.value.openId.Some? {
        isBotMention := m.id.value.openId.value == botOpenID;
      } else if botOpenID == "" && m.id.Some? && m.id.value.openId.Some? {
        isBotMention := true;
      }
      if isBotMention {
        RemoveKeysStep(content, BotKeys(botOpenID, mentions[..i]), m.key.value);
        r := RemoveAll(r, m.key.value);
      } else {
        assert BotKeys(botOpenID, mentions[..i]) + [] == BotKeys(botOpenID, mentions[..i]);
      }
      i := i + 1;
    }
    assert mentions[..i] == mentions;
    r := TrimSpace(r);
  }

  /** Every removed key is the key of a mention that counts as the bot. */
  lemma {:induction false} BotKeysFromBot(botOpenID: string, ms: seq<Option<MentionEvent>>)
    ensures forall k :: k in BotKeys(botOpenID, ms) ==>
      exists i :: 0 <= i < |ms| && StripsKey(botOpenID, ms[i]) && ms[i].value.key == Some(k)
    decreases |ms|
  {
    if ms != [] {
      var n := |ms| - 1;
      BotKeysFromBot(botOpenID, ms[..n]);
      forall k | k in BotKeys(botOpenID, ms)
        ensures exists i :: 0 <= i < |ms| && StripsKey(botOpenID, ms[i]) && ms[i].value.key == Some(k)
      {
        if k in BotKeys(botOpenID, ms[..n]) {
          var i :| 0 <= i < n && StripsKey(botOpenID, ms[..n][i]) && ms[..n][i].value.key == Some(k);
          assert ms[i] == ms[..n][i];
        } else {
          assert StripsKey(botOpenID, ms[n]) && ms[n].value.key == Some(k);
        }
      }
    }
  }

  /** A key is removed only when the bot counts as mentioned. */
  lemma StripImpliesMentioned(botOpenID: string, message: EventMessage)
    requires BotKeys(botOpenID, message.mentions) != []
    ensures Mentioned(botOpenID, Some(message))
  {
    var ms := message.mentions;
    var k := BotKeys(botOpenID, ms)[0];
    BotKeysFromBot(botOpenID, ms);
    assert k in BotKeys(botOpenID, ms);
    var i :| 0 <= i < |ms| && StripsKey(botOpenID, ms[i]) && ms[i].value.key == Some(k);
    assert MentionsBot(botOpenID, ms[i]);
  }

  /** Removing keys none of which occurs in the text changes nothing. */
  lemma {:induction false} RemoveKeysAbsent(s: string, keys: seq<string>)
    requires forall j, i :: 0 <= j < |keys| && keys[j] != [] ==> !OccursAt(s, keys[j], i)
    ensures RemoveKeys(s, keys) == s
    decreases |keys|
  {
    if keys != [] {
      var n := |keys| - 1;
      RemoveKeysAbsent(s, keys[..n]);
      if keys[n] != [] {
        RemoveAllAbsent(s, keys[n]);
      }
    }
  }

  /** Removal that keeps the length changes nothing. */
  lemma {:induction false} RemoveKeysSameLength(s: string, keys: seq<string>)
    requires |RemoveKeys(s, keys)| == |s|
    ensures RemoveKeys(s, keys) == s
    decreases |keys|
  {
    if keys != [] {
      var n := |keys| - 1;
      RemoveKeysSameLength(s, keys[..n]);
      RemoveAllSameLength(s, keys[n]);
    }
  }

  /** A non-empty key of the list that occurs in the text makes the text shorter. */
  lemma {:induction false} RemoveKeysShrinks(s: string, keys: seq<string>, j: int, i: int)
    requires 0 <= j < |keys| && keys[j] != [] && OccursAt(s, keys[j], i)
    ensures |RemoveKeys(s, keys)| < |s|
    decreases |keys|
  {
    var n := |keys| - 1;
    if j < n {
      assert keys[..n][j] == keys[j];
      RemoveKeysShrinks(s, keys[..n], j, i);
    } else if |RemoveKeys(s, keys[..n])| == |s| {
      RemoveKeysSameLength(s, keys[..n]);
      RemoveAllShrinks(s, keys[n], i);
    }
  }

  /** The key of every mention that counts as the bot is among the removed keys. */
  lemma {:induction false} BotKeysComplete(botOpenID: string, ms: seq<Option<MentionEvent>>, j: int)
    requires 0 <= j < |ms| && StripsKey(botOpenID, ms[j])
    ensures ms[j].value.key.value in BotKeys(botOpenID, ms)
    decreases |ms|
  {
    var n := |ms| - 1;
    if j < n {
      assert ms[..n][j] == ms[j];
      BotKeysComplete(botOpenID, ms[..n], j);
    }
  }

  /**
   * Before trimming, stripping changes the text exactly when the non-empty
   * key of some mention that counts as the bot occurs in it, and then the
   * text gets shorter.
   */
  lemma StripChangesText(botOpenID: string, ms: seq<Option<MentionEvent>>, content: string)
    ensures RemoveKeys(content, BotKeys(botOpenID, ms)) != content <==>
      exists j, i :: 0 <= j < |ms| && StripsKey(botOpenID, ms[j]) && ms[j].value.key.value != [] &&
        OccursAt(content, ms[j].value.key.value, i)
    ensures RemoveKeys(content, BotKeys(botOpenID, ms)) != content ==>
      |RemoveKeys(content, BotKeys(botOpenID, ms))| < |content|
  {
    var keys := BotKeys(botOpenID, ms);
    if exists j, i :: 0 <= j < |ms| && StripsKey(botOpenID, ms[j]) && ms[j].value.key.value != [] &&
        OccursAt(content, ms[j].value.key.value, i) {
      var j, i :| 0 <= j < |ms| && StripsKey(botOpenID, ms[j]) && ms[j].value.key.value != [] &&
        OccursAt(content, ms[j].value.key.value, i);
      BotKeysComplete(botOpenID, ms, j);
      var jk :| 0 <= jk < |keys| && keys[jk] == ms[j].value.key.value;
      RemoveKeysShrinks(content, keys, jk, i);
    } else {
      BotKeysFromBot(botOpenID, ms);
      forall jk, i | 0 <= jk < |keys| && keys[jk] != [] ensures !OccursAt(content, keys[jk], i) {
        assert keys[jk] in keys;
      }
      RemoveKeysAbsent(content, keys);
    }
  }

  /** With a known bot open ID that no mention carries, stripping only trims the text. */
  lemma StripOthersOnly(botOpenID: string, ms: seq<Option<MentionEvent>>, content: string)
    requires botOpenID != ""
    requires forall i :: 0 <= i < |ms| && ms[i].Some? && HasOpenId(ms[i].value) ==> ms[i].value.id.value.openId.value != botOpenID
    ensures RemoveKeys(content, BotKeys(botOpenID, ms)) == content
  {
    BotKeysNone(botOpenID, ms);
  }
}
