# Feishu rich-text converter and channel helpers, in Dafny

This project models two parts of the Feishu (Lark) channel.

The first part is the Markdown-to-"post" converter in
`pkg/channels/feishu/richtext.go`:

- **`markdownToFeishuPost`** splits the text on newlines and walks the lines.
  - A fenced code block collapses into one `code_block` run.
  - A `#` heading becomes one bold run.
  - A blank line becomes one empty run.
  - Every other line goes through the inline tokenizer.
- **`parseInlineElements`** is the inline tokenizer. It trims the line and turns a `- ` or `* ` bullet into `• `. Then it repeats three steps:
  - take the leftmost match among five patterns (link, inline code, `**bold**`, `__bold__`, `~~strike~~`);
  - emit the plain text before that match, then the element the match denotes;
  - continue after the match.
- **`buildFeishuContent`** chooses between a post payload and a plain `{"text": …}` fallback.

Each regular expression is re-expressed as a matcher with Go's leftmost-first semantics:

- `[^x]+` scans up to the first closing character.
- `.+?` takes the shortest non-empty content that contains no newline and is followed by the closing delimiter.
- For the heading, Go's `\s` is the set `[\t\n\f\r ]`.

The second part is four decision helpers of the channel in
`pkg/channels/feishu/feishu_64.go`:

- `inferFeishuFileType`;
- `extractFeishuSenderID`;
- `isBotMentioned`;
- `stripBotMention`.

How the model is laid out:

- **`Strings`** holds the parts of Go's `strings` and `path/filepath` packages that the core relies on: `TrimSpace`, `Split`, `Join`, `HasPrefix`, `ToLower`, `Ext` and `ReplaceAll`.
- **`Patterns`** holds the matchers. `IsMatchText` states declaratively when a text is exactly one match of a pattern. Each matcher is proved sound and complete against it.
- **`Inline`** specifies the tokenizer with the functions `Scan` and `Tokenize`. The method `ParseInlineElements` is the source's loop, proved against them.
- **`RichText`** specifies the line walk with the functions `Blocks`, `Assemble` and `Document`.
  - `MarkdownToFeishuPost` is the source's outer loop.
  - Its nested fence loop is the helper method `CollectFence`.
  - `BuildFeishuContent` is the payload choice.
- **`FeishuHelpers`** holds the four channel helpers. The two mention rules are methods with the source's loops.
- **`MentionTokens`** holds a corrected removal of the bot's mention placeholders (see "## Findings").

Where the source calls `json.Marshal`, the model takes a boolean parameter that says whether encoding fails, so that the source's error branches stay in the model (see "## Left out").

## Model

| member | source | states |
|---|---|---|
| Strings.TrimSpace | pkg/channels/feishu/richtext.go:80 | trimming gives the empty string exactly when the line is all white space (Go's `unicode.IsSpace` set) |
| Strings.TrimSpaceMiddle | pkg/channels/feishu/richtext.go:109 | the trimmed text is the middle of the input between two all-white-space borders, and neither of its ends is white space |
| Strings.Split | pkg/channels/feishu/richtext.go:44 | splitting on newlines gives at least one piece, no piece contains a newline, and joining the pieces with newlines gives the text back |
| Strings.SplitJoin | pkg/channels/feishu/richtext.go:44 | splitting a newline-join of newline-free pieces gives exactly those pieces back |
| Strings.HasPrefix | pkg/channels/feishu/richtext.go:110 | `strings.HasPrefix`: the text is at least as long as the prefix and starts with it; used by the fence test and the bullet test |
| Strings.Join | pkg/channels/feishu/richtext.go:62 | `strings.Join` with a newline separator: no separator for zero or one piece, one newline between consecutive pieces; `Strings.Split` and `Strings.SplitJoin` prove it the inverse of splitting |
| Strings.Lower | pkg/channels/feishu/feishu_64.go:398 | `strings.ToLower` character by character, keeping the length; ASCII capitals become small letters and everything else is kept |
| Strings.Ext | pkg/channels/feishu/feishu_64.go:398 | `filepath.Ext`: the suffix from the final dot, or empty when a `/` or the start of the name comes first; its contract is stated by `Strings.ExtIsSuffix`, `Strings.ExtSound` and `Strings.ExtOfDotted` |
| Strings.ExtIsSuffix | pkg/channels/feishu/feishu_64.go:398 | the extension is a suffix of the file name |
| Strings.ExtSound | pkg/channels/feishu/feishu_64.go:398 | a non-empty extension starts with its only dot and contains no separator; an empty extension means every dot of the path is followed by a separator |
| Strings.ExtOfDotted | pkg/channels/feishu/feishu_64.go:398 | a name ending in a dot and a suffix without dots or separators has exactly that dot and suffix as its extension, whatever comes before |
| Strings.ExtLower | pkg/channels/feishu/feishu_64.go:398 | lower-casing the name and then taking the extension gives the lower-cased extension |
| Strings.LowerIdempotent | pkg/channels/feishu/feishu_64.go:398 | lower-casing twice is lower-casing once |
| Strings.RemoveAll | pkg/channels/feishu/feishu_64.go:561 | `strings.ReplaceAll` with an empty replacement: removing every occurrence of a key never lengthens the text; `Strings.RemoveAllAt` and `Strings.RemoveAllAbsent` together fix it as the left-to-right removal of every non-overlapping occurrence |
| Strings.RemoveAllAt | pkg/channels/feishu/feishu_64.go:561 | for a non-empty key, the text before its leftmost occurrence is kept, that occurrence is removed, and removal continues on the text after it |
| Strings.RemoveAllAbsent | pkg/channels/feishu/feishu_64.go:561 | removing a key that does not occur leaves the text unchanged |
| Strings.RemoveAllShrinks | pkg/channels/feishu/feishu_64.go:561 | when a non-empty key occurs in the text, the result is shorter by at least the key's length |
| Strings.RemoveAllUnchanged | pkg/channels/feishu/feishu_64.go:561 | a non-empty key leaves the text unchanged exactly when it occurs nowhere in it |
| Strings.RemoveAllSameLength | pkg/channels/feishu/feishu_64.go:561 | a removal that keeps the length of the text changes nothing |
| Patterns.MatchLink | pkg/channels/feishu/richtext.go:30 | the anchored matcher for `\[([^\]]+)\]\(([^)]+)\)`: a reported match is a link starting at `p` and ending inside the text; `Patterns.LinkMatchSound` and `Patterns.LinkComplete` prove it exact |
| Patterns.MatchCode | pkg/channels/feishu/richtext.go:29 | the anchored matcher for `` `([^`]+)` ``: a reported match is inline code starting at `p` and ending inside the text; `Patterns.CodeMatchSound` and `Patterns.CodeComplete` prove it exact |
| Patterns.MatchLazy | pkg/channels/feishu/richtext.go:31-34 | the anchored matcher for the lazy `**`, `__` and `~~` patterns: a reported match has the asked-for kind, starts at `p` and ends inside the text; `Patterns.LazyMatchSound` and `Patterns.LazyComplete` prove it exact |
| Patterns.MatchAt | pkg/channels/feishu/richtext.go:29-34 | the anchored matcher of each of the five patterns: a reported match has the pattern's kind, starts at `p` and ends inside the text; `Patterns.MatchAtComplete` proves it exact |
| Patterns.Find | pkg/channels/feishu/richtext.go:132-158 | `FindStringSubmatchIndex` of one pattern: the leftmost position where the anchored matcher succeeds; `Patterns.FindIsLeftmost` states its contract |
| Patterns.LinkMatchSound | pkg/channels/feishu/richtext.go:30 | a link the matcher reports at `p` is exactly `[text](href)`, where `text` has no `]`, `href` has no `)` and neither is empty |
| Patterns.LinkComplete | pkg/channels/feishu/richtext.go:30 | every link text starting at `p` is the one the matcher reports, with the same end and capture groups |
| Patterns.CodeMatchSound | pkg/channels/feishu/richtext.go:29 | an inline-code match is exactly a backtick, a non-empty backtick-free text, and a backtick |
| Patterns.CodeComplete | pkg/channels/feishu/richtext.go:29 | every inline-code text starting at `p` is the one the matcher reports |
| Patterns.LazyClose | pkg/channels/feishu/richtext.go:31-34 | the lazy `.+?` search for the closing doubled delimiter: a reported close is a doubled delimiter at or after `j` with no newline before it and no earlier doubled delimiter; none is reported only when no doubled delimiter is reachable without crossing a newline |
| Patterns.LazyMatchSound | pkg/channels/feishu/richtext.go:31-34 | a `**`, `__` or `~~` match is the doubled delimiter, the shortest non-empty newline-free content followed by the doubled delimiter, and the doubled delimiter |
| Patterns.LazyComplete | pkg/channels/feishu/richtext.go:31-34 | every such text starting at `p` is the one the lazy matcher reports, with the same end and capture |
| Patterns.MatchAtComplete | pkg/channels/feishu/richtext.go:29-34 | for every pattern, a match text starting at `p` is exactly what the anchored matcher returns |
| Patterns.MatchStartsWithOpener | pkg/channels/feishu/richtext.go:29-34 | every match is at least three characters long and starts with its pattern's own opening character |
| Patterns.OpenersDistinct | pkg/channels/feishu/richtext.go:29-34 | the five patterns start with five different characters |
| Patterns.FindIsLeftmost | pkg/channels/feishu/richtext.go:132 | the reported match of a pattern is a real match, and no match of that pattern starts earlier; when none is reported, the text holds no match of the pattern |
| Patterns.Pick | pkg/channels/feishu/richtext.go:138-162 | one update "no winner yet, or `loc[0] < earliest.start`": a candidate replaces the current winner only when there is none or the candidate starts strictly earlier; `Patterns.PickAll` states the contract of the chain of updates |
| Patterns.PickAll | pkg/channels/feishu/richtext.go:137-163 | the chain of "no winner yet, or a strictly earlier start" updates keeps a candidate whose start is no later than that of any evaluated pattern, and reports none only when no pattern matched |
| Patterns.EarliestIsStrictMinimum | pkg/channels/feishu/richtext.go:130-163 | the winner starts strictly before every other pattern's leftmost match, so the priority order never breaks a tie |
| Patterns.Earliest | pkg/channels/feishu/richtext.go:130-163 | the winner is absent exactly when no pattern matches, and otherwise it is its own pattern's leftmost match and strictly earliest |
| Patterns.HeadingText | pkg/channels/feishu/richtext.go:35 | `reMdHeading.FindStringSubmatch` on a line: one to six leading hashes, at least one `\s` character, and the rest of a newline-free line as the capture; `Patterns.HeadingSound` and `Patterns.HeadingComplete` state its contract |
| Patterns.HeadingSound | pkg/channels/feishu/richtext.go:35 | a captured heading is a non-empty, newline-free suffix of the line, preceded by one to six hashes and then only `\s` characters |
| Patterns.HeadingComplete | pkg/channels/feishu/richtext.go:35 | one to six hashes, white space and a non-empty newline-free text are always a heading; the capture is the text when it does not start with white space |
| Patterns.HeadingAllSpace | pkg/channels/feishu/richtext.go:35 | when only `\s` characters follow one to six hashes, `\s+` gives its last character back to `(.+)`: the capture is that character when there are at least two and the last is not a newline, and otherwise there is no heading |
| Patterns.SevenHashesNoHeading | pkg/channels/feishu/richtext.go:35 | a line that starts with seven hashes is never a heading |
| Patterns.HeadingNeedsLeadingHash | pkg/channels/feishu/richtext.go:35 | a line that does not start with `#` (for instance, one indented by white space) is never a heading |
| Inline.Normalize | pkg/channels/feishu/richtext.go:109-112 | the trimmed line, with a leading `- ` or `* ` replaced by a bullet and a space; `Inline.NormalizeEmpty` states when it is empty |
| Inline.Scan | pkg/channels/feishu/richtext.go:120-203 | the split of a text into plain and marked pieces by repeated earliest matches; `Inline.ScanStep`, `Inline.ScanRebuilds` and `Inline.ScanWellFormed` state its contract |
| Inline.Tokenize | pkg/channels/feishu/richtext.go:120-203 | the runs of the pieces of `Inline.Scan`; `Inline.TokenizeStep`, `Inline.TokenizeEmpty` and `Inline.PlainRunsHaveNoMarkup` state its contract |
| Inline.EarliestMatch | pkg/channels/feishu/richtext.go:130-163 | the five evaluations in source order compute the winner |
| Inline.EarliestUnfolded | pkg/channels/feishu/richtext.go:130-163 | the winner is the source's five-step chain of pick updates, in the order link, code, `**`, `__`, `~~` |
| Inline.EarliestSound | pkg/channels/feishu/richtext.go:130-175 | the winning match is a non-empty match lying inside the remaining text |
| Inline.NormalizeEmpty | pkg/channels/feishu/richtext.go:108-112 | trimming and bullet normalisation give the empty string exactly for an all-white-space line |
| Inline.ScanStep | pkg/channels/feishu/richtext.go:173-203 | with a winner, the pieces are the plain prefix (when non-empty), the match, and then the pieces of the text after the match |
| Inline.TokenizeStep | pkg/channels/feishu/richtext.go:165-203 | with a winner, the runs are the plain prefix run (when the match does not start the text), the match's element, and then the runs of the text after it |
| Inline.TokenizeNoMatch | pkg/channels/feishu/richtext.go:165-171 | a non-empty text with no match becomes exactly one plain run |
| Inline.TokenizeEmpty | pkg/channels/feishu/richtext.go:122-170 | the tokenizer emits no run exactly when the text is empty |
| Inline.ElementOf | pkg/channels/feishu/richtext.go:179-200 | the `switch` on the match type: a link is an anchor of its two groups, code a `code_block` text run, both bolds a bold text run and strike a `lineThrough` text run; `Inline.HeadRuns` states it for the emitted runs |
| Inline.HeadRuns | pkg/channels/feishu/richtext.go:173-200 | a match becomes its element: a link becomes an anchor with the text and href, code becomes a `code_block` run, either bold becomes a bold run and strike becomes a `lineThrough` run; the captured text is not tokenized again |
| Inline.ScanRebuilds | pkg/channels/feishu/richtext.go:120-203 | the plain texts and the matched source spans, in emission order, concatenate to the text: nothing is dropped, duplicated or reordered |
| Inline.NoMarkupBefore | pkg/channels/feishu/richtext.go:173-176 | the plain prefix before the winning match contains no match of any pattern |
| Inline.NoMarkupAnywhere | pkg/channels/feishu/richtext.go:165-169 | a text with no winner contains no match of any pattern anywhere |
| Inline.ScanWellFormed | pkg/channels/feishu/richtext.go:132-203 | every piece is well formed: a plain piece is non-empty and free of markup, and a marked piece is exactly one match |
| Inline.PlainRunsHaveNoMarkup | pkg/channels/feishu/richtext.go:165-176 | every unstyled text run the tokenizer emits is non-empty and contains no match of any pattern |
| Inline.LoopStep | pkg/channels/feishu/richtext.go:173-203 | one iteration of the tokenizer loop keeps "runs emitted plus runs of the remaining text equal the runs of the whole line" |
| Inline.LoopLast | pkg/channels/feishu/richtext.go:165-170 | the final plain run completes the runs of the whole line |
| Inline.ParseInlineElements | pkg/channels/feishu/richtext.go:107-207 | the loop emits exactly the tokenization of the trimmed, bullet-normalised line, and emits some run exactly when the line is not all white space |
| RichText.LineRuns | pkg/channels/feishu/richtext.go:70-93 | the runs of one line outside a fence: heading, then blank, then inline; `RichText.HeadingLine`, `RichText.BlankLine`, `RichText.NormalLine` and `RichText.LineRunsNonEmpty` state its contract |
| RichText.IsFence | pkg/channels/feishu/richtext.go:52 | a line opens or closes a fence when, trimmed, it starts with three backticks; the same test is the loop condition at line 55 |
| RichText.FenceLen | pkg/channels/feishu/richtext.go:55-58 | the number of lines before the next fence line, or all of them: none of the counted lines is a fence, and the line after them, if any, is one |
| RichText.Render | pkg/channels/feishu/richtext.go:62-93 | a fenced block becomes one `code_block` run of its lines joined with newlines; a single line becomes its `RichText.LineRuns`; `RichText.AssembleShape` and `RichText.FenceClosed` state its contract |
| RichText.Blocks | pkg/channels/feishu/richtext.go:48-94 | the grouping of the lines into fenced blocks and single lines; `RichText.FenceWalk`, `RichText.BlocksCount` and `RichText.BlocksNoFence` state its contract |
| RichText.Assemble | pkg/channels/feishu/richtext.go:62-93 | the content lines of the blocks, one per block; `RichText.AssembleShape` states its contract |
| RichText.Document | pkg/channels/feishu/richtext.go:44-94 | the content of the post for a text: the assembled blocks of its lines; `RichText.DocumentNonEmpty`, `RichText.ConvertShape` and `RichText.ConvertNoFence` state its contract |
| RichText.LineRunsNonEmpty | pkg/channels/feishu/richtext.go:70-93 | every line outside a fence yields at least one run, so the guard `len(elements) > 0` never drops a line |
| RichText.HeadingLine | pkg/channels/feishu/richtext.go:71-77 | a heading line becomes one bold run of the capture; the heading test comes before the blank test |
| RichText.BlankLine | pkg/channels/feishu/richtext.go:80-86 | an all-white-space line becomes one unstyled run with empty text |
| RichText.NormalLine | pkg/channels/feishu/richtext.go:89-93 | any other line becomes its inline tokenization, which is non-empty |
| RichText.FenceClosed | pkg/channels/feishu/richtext.go:52-67 | a fence closed at line `b` becomes one content line holding one `code_block` run of the lines strictly between the fences, joined with newlines; both fence lines, with any text after their backticks, are dropped and the walk resumes after the closing fence |
| RichText.FenceUnterminated | pkg/channels/feishu/richtext.go:55-66 | a fence that is never closed takes every remaining line into one code run, and the document is that single line |
| RichText.FenceWalk | pkg/channels/feishu/richtext.go:52-61 | the lines between an opening fence and the next fence, or the end of the text, form one block, and the walk resumes after the closing fence when there is one |
| RichText.AssembleShape | pkg/channels/feishu/richtext.go:88-93 | every block contributes exactly its own rendering, and that rendering is never empty |
| RichText.BlocksCount | pkg/channels/feishu/richtext.go:48-94 | there are never more blocks than lines, and a non-empty list of lines has at least one block |
| RichText.BlocksNoFence | pkg/channels/feishu/richtext.go:48-94 | without fence lines, every line is its own block, in order |
| RichText.ConvertShape | pkg/channels/feishu/richtext.go:44-94 | every content line has at least one run; there are never more content lines than source lines, and at least one when there is a source line |
| RichText.ConvertNoFence | pkg/channels/feishu/richtext.go:48-94 | without fences, each source line contributes exactly one content line: its own runs, in order |
| RichText.DocumentNonEmpty | pkg/channels/feishu/richtext.go:44-94 | every text, the empty one included, yields at least one content line |
| RichText.CollectFence | pkg/channels/feishu/richtext.go:52-61 | the nested fence loop collects exactly the lines of the fenced block and leaves the index after the closing fence, or at the end |
| RichText.MarkdownToFeishuPost | pkg/channels/feishu/richtext.go:43-104 | the walk fails exactly when encoding fails, and otherwise yields the post whose content is the document of the text |
| RichText.BuildFeishuContent | pkg/channels/feishu/richtext.go:213-224 | the result is the post type and payload when the post encodes; otherwise the text type with the original, untrimmed content; an error only when both encodings fail |
| FeishuHelpers.FileTypeOf | pkg/channels/feishu/feishu_64.go:399-413 | the `switch` on the lower-cased extension: `.opus`/`.ogg` give opus, `.mp4` mp4, `.pdf` pdf, `.doc`/`.docx` doc, `.xls`/`.xlsx` xls, `.ppt`/`.pptx` ppt, everything else stream; only a dot and three or four characters can name a type other than stream |
| FeishuHelpers.InferFeishuFileType | pkg/channels/feishu/feishu_64.go:397-414 | the type of the lower-cased extension of the name; its contract is stated by the four lemmas below |
| FeishuHelpers.InferFromSuffix | pkg/channels/feishu/feishu_64.go:397-414 | the type of a name is decided by the lower-cased text after its final dot alone, whatever comes before that dot |
| FeishuHelpers.InferCaseInsensitive | pkg/channels/feishu/feishu_64.go:398 | two names that agree up to letter case get the same type (`a.PDF` and `a.pdf`) |
| FeishuHelpers.InferNoExtension | pkg/channels/feishu/feishu_64.go:398-413 | a name without an extension is a stream |
| FeishuHelpers.ExtAfterSeparator | pkg/channels/feishu/feishu_64.go:398 | the extension of `dir/name` is the extension of `name` |
| FeishuHelpers.InferIgnoresDirectory | pkg/channels/feishu/feishu_64.go:398 | the directory part of a path never changes the type |
| FeishuHelpers.ExtractFeishuSenderID | pkg/channels/feishu/feishu_64.go:568-584 | a missing sender or a missing ID record gives ""; any other result is one of the user, open or union IDs |
| FeishuHelpers.SenderByPreference | pkg/channels/feishu/feishu_64.go:573-583 | the result is the first non-empty ID in the order user, open, union |
| FeishuHelpers.SenderEmpty | pkg/channels/feishu/feishu_64.go:568-584 | the result is "" exactly when all three IDs are absent or empty |
| FeishuHelpers.MentionsBot | pkg/channels/feishu/feishu_64.go:519-536 | the per-mention test of `isBotMentioned`: a non-nil mention with an ID and an open ID that equals the bot's when that is known, or that also has a key when it is not; `FeishuHelpers.MentionedById` and `FeishuHelpers.MentionedByAnyone` state its contract |
| FeishuHelpers.IsBotMentioned | pkg/channels/feishu/feishu_64.go:497-540 | the scan answers true exactly when some mention counts as the bot; a missing message or an empty list gives false |
| FeishuHelpers.MentionedById | pkg/channels/feishu/feishu_64.go:519-523 | with a known bot open ID, the bot is mentioned exactly when some non-nil mention carries that open ID |
| FeishuHelpers.MentionedByAnyone | pkg/channels/feishu/feishu_64.go:530-536 | without a bot open ID, the bot is mentioned exactly when some mention has a key, an ID and an open ID |
| FeishuHelpers.StripsKey | pkg/channels/feishu/feishu_64.go:549-559 | the per-mention test of `stripBotMention`: a non-nil mention with a key, an ID and an open ID that equals the bot's when that is known; `FeishuHelpers.BotKeysFromBot` and `FeishuHelpers.BotKeysComplete` state its contract |
| FeishuHelpers.BotKeys | pkg/channels/feishu/feishu_64.go:548-562 | the keys removed for a list of mentions, in list order: one for each mention that has a key and an open ID equal to the bot's, or any open ID when the bot's is unknown; never more keys than mentions |
| FeishuHelpers.RemoveKeys | pkg/channels/feishu/feishu_64.go:561 | the keys removed one after the other, each with `strings.ReplaceAll`; never lengthens the content |
| FeishuHelpers.StripBotMention | pkg/channels/feishu/feishu_64.go:543-566 | with no message or no mentions the content comes back untouched, not even trimmed; otherwise the keys of the bot's mentions are removed one after the other and the result is trimmed |
| FeishuHelpers.BotKeysFromBot | pkg/channels/feishu/feishu_64.go:548-562 | every removed key belongs to a mention that has a key and an open ID and, with a known bot open ID, carries that open ID |
| FeishuHelpers.StripImpliesMentioned | pkg/channels/feishu/feishu_64.go:543-562 | whenever some key is removed, the same message counts as mentioning the bot |
| FeishuHelpers.StripOthersOnly | pkg/channels/feishu/feishu_64.go:552-562 | with a known bot open ID and no mention of it, nothing is removed: other users' mention keys stay |
| FeishuHelpers.RemoveKeysAbsent | pkg/channels/feishu/feishu_64.go:561 | removing keys none of which (empty keys aside) occurs leaves the content unchanged |
| FeishuHelpers.RemoveKeysSameLength | pkg/channels/feishu/feishu_64.go:561 | a sequence of removals that keeps the length of the content changes nothing |
| FeishuHelpers.RemoveKeysShrinks | pkg/channels/feishu/feishu_64.go:561 | when some non-empty key of the list occurs in the content, the result is strictly shorter |
| FeishuHelpers.BotKeysComplete | pkg/channels/feishu/feishu_64.go:548-562 | the key of every mention that counts as the bot is among the removed keys |
| FeishuHelpers.StripChangesText | pkg/channels/feishu/feishu_64.go:548-562 | before trimming, stripping changes the content exactly when the non-empty key of some mention that counts as the bot occurs in it, and then the content gets strictly shorter |
| MentionTokens.StripBotMentionExact | pkg/channels/feishu/feishu_64.go:543-566 | the corrected strip: the same walk over the mentions, removing each of the bot's placeholders only where no further digit follows it, then trimming |
| MentionTokens.TokensDiffer | pkg/channels/feishu/feishu_64.go:561 | two different placeholders never both stand as whole tokens at one position |
| MentionTokens.PrefixKept | pkg/channels/feishu/feishu_64.go:561 | text before the first whole token of the removed placeholder is kept as it is |
| MentionTokens.RemoveTokenNonDigitStart | pkg/channels/feishu/feishu_64.go:561 | the corrected removal never brings a digit to the front of a text that does not start with one |
| MentionTokens.LeadingTokenSurvives | pkg/channels/feishu/feishu_64.go:561 | a whole token of a different placeholder at the start of the text stays at the start |
| MentionTokens.TokenSurvives | pkg/channels/feishu/feishu_64.go:561 | removing one placeholder keeps every whole token of a different placeholder |
| MentionTokens.TokenSurvivesAll | pkg/channels/feishu/feishu_64.go:548-562 | removing a list of placeholders keeps every whole token of a placeholder not in the list |
| MentionTokens.TrimKeepsToken | pkg/channels/feishu/feishu_64.go:565 | trimming white space keeps a whole placeholder token |
| MentionTokens.OtherPlaceholderKept | pkg/channels/feishu/feishu_64.go:543-566 | after the corrected strip, the whole placeholder of anyone not stripped as the bot is still in the text |
| MentionTokens.NonBotMentionKept | pkg/channels/feishu/feishu_64.go:543-566 | with a known bot open ID and distinct placeholder keys, the placeholder of a mention that is not the bot survives the corrected strip |
| MentionTokens.StripCutsLongerPlaceholder | pkg/channels/feishu/feishu_64.go:561 | as written, stripping the bot's `@_user_1` from `@_user_1 @_user_10` leaves `0` |
| MentionTokens.ExactKeepsLongerPlaceholder | pkg/channels/feishu/feishu_64.go:561 | on the same message, the corrected strip keeps `@_user_10` whole |

## Left out

- The network side of the channel is not modelled. That covers the Lark SDK calls (`Start`, `Stop`, `Send`, `EditMessage`, `SendPlaceholder`, `ReactToMessage`, `SendMedia`, `sendImage`, `sendFile`), websocket goroutines, locks, file opening and timestamp-based IDs. All of it is I/O or concurrency.
- `handleMessageReceive` is not modelled. It depends on `BaseChannel` methods (`ShouldRespondInGroup`, `IsAllowedSender`, `HandleMessage`) that are not part of this model, and on logging.
- `extractFeishuMessageContent` is not modelled. It is a thin wrapper over `json.Unmarshal`.
- `pkg/tools/send_file.go` is not part of this model. It is filesystem I/O, a media-store call, and a foreign MIME-table lookup.
- JSON encoding is not modelled.
  - The post and the text payload are datatypes, not bytes, so key order and escaping are not modelled.
  - Whether `json.Marshal` fails is a boolean parameter of `MarshalError`-returning operations. On the values encoded at `richtext.go` lines 101, 215 and 219 (maps with string keys whose values are strings, string slices, and maps and slices of these) `json.Marshal` cannot fail: invalid UTF-8 is replaced by U+FFFD rather than reported. The error branches at lines 102 and 217-223 are therefore unreachable in Go; the boolean keeps them in the model so that their handling is still stated.
  - The post carries no `"title"` key, as in the code, although the format comment at the top of `richtext.go` shows one.
- `reCodeBlock` and `reMdItalic` are compiled but never used, so they have no behaviour to model. The general Go regexp engine is replaced by the five inline matchers and the heading matcher.
- The numbered-list test in `parseInlineElements` has an empty body and changes nothing, so the model has no counterpart.
- `RichText.MarkdownToFeishuPost` returns the post value rather than its JSON string. `RichText.BuildFeishuContent` returns a message-type tag and that value rather than two strings.
- Strings.Lower: models `strings.ToLower` on ASCII letters only. Go also lowers two non-ASCII characters into ASCII letters: the Kelvin sign U+212A becomes `k` and the capital I with dot above U+0130 becomes `i`. No listed extension contains a `k` or an `i`, so an extension holding either gives stream in Go and in the model alike, and the file type never depends on the difference.
- Strings.Ext: models `filepath.Ext` with `/` as the only separator, its behaviour on Unix-like systems. The build constraint of `feishu_64.go` restricts the architecture, not the operating system, so the file is also built for windows/amd64 and windows/arm64; there `filepath.Ext` also stops at `\`, so a name such as `a.pdf\b` has no extension on Windows but the extension `.pdf\b` in the model. The Windows separator is not modelled.
- Strings.IsSpace: Go's `unicode.IsSpace` is written out as its fixed set of code points. Strings are sequences of characters, not bytes. Every delimiter the core looks at is ASCII, so byte and rune positions lead to the same decisions.
- FeishuHelpers.FileType: the SDK constants (`larkim.FileTypeOpus` and the others) are modelled as the constructors of a datatype rather than as their string values.
- The receiver field `c.botOpenID` of `isBotMentioned` and `stripBotMention` is a parameter, because both functions only read it.
- One inner loop and one straight-line block are extracted into helper methods proved against the same specification functions: the nested fence loop of `markdownToFeishuPost` (`RichText.CollectFence`, lines 55-61) and the five straight-line pattern evaluations of `parseInlineElements` (`Inline.EarliestMatch`, lines 132-163).

## Findings

| source | as written | input that shows it | evidently intended | confidence | as-written member | corrected member |
|---|---|---|---|---|---|---|
| pkg/channels/feishu/feishu_64.go:561 | the bot's mention placeholder is removed as a plain substring, wherever it occurs, including inside a longer placeholder of another user | bot open ID `ou_bot`, mentions `@_user_1` (open ID `ou_bot`) and `@_user_10` (open ID `ou_other`), content `@_user_1 @_user_10`: the result is `0` | remove the bot's placeholder only as a whole token, so that `@_user_10` stays | not executed | MentionTokens.StripCutsLongerPlaceholder | MentionTokens.OtherPlaceholderKept |
