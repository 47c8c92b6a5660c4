# Chord highlighting and tablature rendering, in Dafny

This project models the Markdown post-processor of an Obsidian plugin that
highlights chords and renders guitar tablature, and proves what it does. The
plugin has one source file, `main.ts`. Each time the host renders a section of a
note, the plugin does two things to that section, in this order (main.ts:25-28):

- **`highlightChords`**:
  - It builds a global regular expression: the configured chord marker, a
    captured chord body (a root letter `A`–`G`, an optional `#`/`b`, an optional
    quality `m|maj|min|dim|aug`, an optional digit), and the marker reversed
    character by character. For example, `[[` closes with `[[` and `<<` closes
    with `<<`.
  - It collects every text node of the section in document order.
  - In each non-empty text node that has a parent, it runs `exec` from left to
    right. For each match it inserts, before the node, the text since the
    previous match (when not empty) and a `span` holding only the body. The span
    gets the configured colour, weight and font size.
  - After the last match it inserts the remaining text (when not empty), then
    removes the original node.
- **`renderTabs` / `renderTab`**: every `pre code` block whose text is not empty,
  and whose class attribute contains `language-` followed by the tablature
  marker, has its parent replaced by `<pre class="tab-rendered">`. That element
  holds one `<div>…</div>` per `\n`-separated line, copied verbatim, and then
  `</pre>`.

The marker is put into the pattern unescaped (main.ts:44-52), and the model
covers literal markers only. The default marker `[[` makes the `RegExp`
constructor throw. The exception leaves the callback before `renderTabs` is
reached (main.ts:26-27), so under the defaults the section is neither
highlighted nor given rendered tablature. Other markers with metacharacters fall
into three groups, none of them modelled:
- some make the constructor throw as `[[` does (`(`, `)`, `?`, `*`, `+`, `[`, a
  trailing `\`);
- some give a valid pattern that matches differently (`.`, `^`, `$`, `|`, or
  `{n}` after a character, which is a quantifier);
- some, such as `]]` or `{{`, still match literally, because without the `u`
  flag those characters stand for themselves. The precondition excludes them
  all the same.

The modules follow the program's structure:

- `strings.dfy` (`Strings`): occurrence of one string inside another, and
  `String.prototype.includes`.
- `chords.dfy` (`Chords`): the parts of the chord regular expression and the
  search.
  - The closing marker is the reversed opening marker.
  - The body language.
  - A backtracking matcher, `Backtrack`/`TryQualities`, that tries the
    alternatives in the order the ECMAScript engine does: accidental before no
    accidental; quality `m`, `maj`, `min`, `dim`, `aug`, then none; digit before
    no digit. It returns the first path after which the closing marker follows.
  - `MatchAt`, the pattern at one position.
  - `Exec`, a global `exec` from `lastIndex`.
  - `Scan`, the sequence of plain and chord segments one text node is cut into.
  - `Tiles`, an independent description of a correct, leftmost, non-overlapping
    split.
- `dom.dfy` (`Dom`): the DOM the post-processor touches.
  - Text nodes are objects (`class TextNode`), so node identity (`insertBefore`,
    `removeChild`, the snapshot) is kept. Elements are values holding a child
    sequence.
  - The section root is `class HostElement`, whose `children` field its methods
    reassign.
  - `Substitute(children, m)` replaces text nodes, each in its own parent's child
    list. `InsertBefore` and `RemoveChild` are stated with it.
  - `GetTextNodes` is the tree walker's loop.
- `tabs.dfy` (`Tabs`): `split("\n")`, the rendered HTML, and the selection
  predicate.
- `plugin.dfy` (`Plugin`): the settings, the chord span's style, and `class
  ChordHighlightPlugin`, whose methods model `highlightChords` (the `exec` loop,
  the splice and the walk over the snapshot), `renderTab` and the block loop of
  `renderTabs`.

Three behaviours of the code worth knowing:

- A non-empty text node without any chord is not left in place. The code inserts
  a new text node with the same text and removes the original
  (`Plugin.HighlightWithoutChord`).
- The markers are interpolated into the pattern without escaping. The model
  therefore requires a marker without regular-expression metacharacters. For
  such a marker the pattern matches the marker literally.
- A block is selected when `language-<marker>` occurs anywhere in its class
  attribute, not only when its language tag equals the marker.

## Model

| member | source | states |
|---|---|---|
| Chords.Backtrack | main.ts:47 | definition: the regular-expression engine on the body, trying each optional part present before absent and the quality alternatives in pattern order, and returning the first end after which the closing marker follows |
| Chords.TryQualities | main.ts:47 | definition: the quality alternatives `m`, `maj`, `min`, `dim`, `aug` tried in that order, then no quality, each followed by the optional digit and the closing marker |
| Chords.MatchAt | main.ts:44-52 | definition: the pattern at one position, giving the captured body |
| Chords.Scan | main.ts:64-95 | definition: the loop over `exec` on one text node, as the list of plain-text and chord segments it inserts |
| Dom.Substitute | main.ts:70-97 | definition: a tree in which each replaced text node stands, in its own parent's child list, replaced by its new nodes |
| Dom.Leaves | main.ts:134-142 | definition: the text nodes of a tree in document order |
| Tabs.TabHtml | main.ts:123-131 | definition: the opening tag, one `div` per line, and the closing tag |
| Plugin.SpanStyle | main.ts:78-84 | definition: the chord span's colour, weight and font size taken from the settings |
| Plugin.DecimalString | main.ts:84 | definition: the decimal digits of a natural number, as template interpolation writes the font size |
| Chords.IsChordBody | main.ts:47 | definition: the language of the capture group, a root letter `A`–`G`, an optional `#`/`b`, an optional quality, an optional digit |
| Chords.IsLiteralMarker | main.ts:44-52 | definition: a marker without regular-expression metacharacters, for which the interpolated pattern matches the marker literally |
| Chords.MatchEnd | main.ts:67 | definition: `chordRegex.lastIndex` after a match, the position just past its closing marker, where `lastIndex = endIndex` (main.ts:87) resumes the search |
| Tabs.Div | main.ts:127 | definition: one line wrapped as `<div>line</div>`, unescaped |
| Plugin.GapBefore | main.ts:69-76 | definition: the text since the previous match as one plain segment when `startIndex > lastIndex`, and nothing otherwise |
| Chords.Reverse | main.ts:47-50 | the closing marker has the length of the opening marker |
| Chords.ReverseAt | main.ts:47-50 | character `k` of the closing marker is character `len-1-k` of the opening marker |
| Chords.ReverseInvolutive | main.ts:47-50 | reversing the closing marker gives the opening marker back |
| Chords.PalindromeClosesWithItself | main.ts:47-50 | a palindromic marker such as `[[` closes with itself |
| Chords.ReverseKeepsLiteral | main.ts:44-52 | when the opening marker has no metacharacter, neither has the closing one, so the whole pattern is literal except for the body |
| Chords.BacktrackCloses | main.ts:47 | wherever the matcher succeeds from a stage, it stops inside the text at a position where the closing marker follows |
| Chords.TryQualitiesCloses | main.ts:47 | the same for the quality alternatives from number `j` on |
| Chords.OpenStageCloses | main.ts:44-52 | a match from the opening stage starts with the marker, and its body is non-empty |
| Chords.RootStageCloses | main.ts:47 | after the root letter the closing marker starts past it |
| Chords.AccidentalStageCloses | main.ts:47 | the same from the optional accidental |
| Chords.DigitStageCloses | main.ts:47 | the same from the optional digit |
| Chords.BacktrackSound | main.ts:47 | what the matcher passes over from a stage is accepted by the rest of the body grammar |
| Chords.RootStageSound | main.ts:47 | from the root stage, what is passed over is a chord body |
| Chords.AccidentalStageSound | main.ts:47 | after the root, what is passed over is `[#b]?(quality)?[0-9]?` |
| Chords.TryQualitiesSound | main.ts:47 | what the quality alternatives pass over is `(m\|maj\|min\|dim\|aug)?[0-9]?` |
| Chords.QualityAlternativeSound | main.ts:47 | quality alternative `j`, when taken, accepts that quality and an optional digit |
| Chords.QualityThenDigit | main.ts:47 | quality `j` followed by an optional digit is a quality part |
| Chords.OpenStageSound | main.ts:44-52 | what a match from the opening stage passes over is the marker, then a chord body |
| Chords.BacktrackComplete | main.ts:47 | whenever the text from a stage on is accepted by the grammar and the closing marker follows, the matcher succeeds (backtracking misses no match) |
| Chords.RootStageComplete | main.ts:47 | the same from the root letter |
| Chords.AccidentalStageComplete | main.ts:47 | the same from the optional accidental, whether it is present or not |
| Chords.TryQualitiesComplete | main.ts:47 | the same for the quality alternatives from number `j` on, or no quality |
| Chords.QualityAlternativeComplete | main.ts:47 | when quality `j` is present and followed by a digit part and the closing marker, alternative `j` succeeds |
| Chords.OpenStageComplete | main.ts:44-52 | a marker, a chord body and the closing marker at a position make the matcher succeed there |
| Chords.MatchAtEncloses | main.ts:44-52 | a match at `p` is a non-empty body with the opening marker before it and the closing marker after it |
| Chords.MatchAtSound | main.ts:47 | the captured group of a match is a chord body |
| Chords.MatchAtComplete | main.ts:44-52 | where a chord body sits between the two markers, the pattern matches at that position |
| Chords.Precedes | main.ts:47 | definition: the engine's order on bodies with one root: an accidental before none, then the quality in pattern order with no quality last, then a digit before none |
| Chords.ShapeOf | main.ts:47 | definition: where a body stands in that order: whether it has an accidental, the number of its quality, whether it ends with a digit |
| Chords.MatchAtFirst | main.ts:44-52 | when the pattern matches at `p` with body `b`, no other chord body that also lies between the markers at `p` comes before `b` in the engine's order |
| Chords.AccidentalStageFirst | main.ts:47 | from just after the root, the part the engine takes comes no later in the order than any other part the grammar accepts there before the closing marker |
| Chords.TryQualitiesFirst | main.ts:47 | the quality alternatives from number `j` on succeed, and take a quality part no later in the order than any quality part before the closing marker whose quality is not before `j` |
| Chords.NoQualityFirst | main.ts:47 | without a quality in the other part, the digit stage succeeds and its part comes no later |
| Chords.QualityAlternativeFirst | main.ts:47 | when quality alternative `j` succeeds, its part comes no later than any part whose quality is not before `j` |
| Chords.AlternativeNoWorse | main.ts:47 | the part taken with quality `j` is a quality part, no later in the order than one whose quality is not before `j` |
| Chords.SameQualityFirst | main.ts:47 | with the same quality, the engine keeps the digit whenever the other part has one |
| Chords.DigitAfterQuality | main.ts:47 | after quality `j`, the part ends with a digit exactly when one character follows the quality |
| Chords.DigitStageFirst | main.ts:47 | the digit stage succeeds wherever a digit part is followed by the closing marker, and ends no earlier than it |
| Chords.QualityUnique | main.ts:47 | a quality part holds at most one of the qualities, though `m` is a prefix of `maj` and `min` |
| Chords.QualityIndexOf | main.ts:47 | the quality found in a part is the one it holds |
| Chords.QualityIndexFrom | main.ts:47 | the search for a quality from number `j` returns the first quality present, or one past the last when none is |
| Chords.NoQualityIsDigitPart | main.ts:47 | a quality part holds no quality exactly when it is a digit part |
| Chords.QualityPartNoAccidental | main.ts:47 | a quality part does not start with an accidental |
| Chords.BodyBetweenMarkers | main.ts:44-52 | a chord body between the markers at `p` is a root letter followed by a part the grammar accepts, and then the closing marker |
| Chords.CapturedAfterRoot | main.ts:44-52 | the captured body is the root letter followed by what the engine takes after the root |
| Chords.Exec | main.ts:64-67 | `exec` from `lastIndex` returns the leftmost position at or after it where the pattern matches, with its body and an end inside the text past the start; it returns nothing only when no position matches |
| Chords.ExecFinds | main.ts:64-67 | when nothing matches before `q` and the pattern matches at `q`, `exec` returns the match at `q` |
| Chords.TilesChord | main.ts:78-87 | a chord where the pattern matches, followed by a correct split, is a correct split |
| Chords.TilesGap | main.ts:69-76 | non-empty text without a match up to a chord, followed by a correct split, is a correct split |
| Chords.TilesTail | main.ts:90-95 | non-empty text without a match up to the end is a correct split |
| Chords.ScanTilesAtEnd | main.ts:90-95 | when `exec` finds nothing more, the emitted tail is a correct split |
| Chords.ScanTilesStep | main.ts:64-88 | one round of the loop (gap, chord) keeps the split correct |
| Chords.ScanTiles | main.ts:64-95 | the emitted segments are leftmost and non-overlapping: text segments are non-empty and hold no position where the pattern matches, and chords sit exactly where it matches, each search resuming at the previous match end |
| Chords.ScanFound | main.ts:64-88 | when `exec` finds a match, the node's segments are the gap (only when non-empty), the chord, and then the segments from the match end |
| Chords.ScanNotFound | main.ts:90-95 | when `exec` finds nothing, the only segment left is the rest of the text, when non-empty |
| Chords.ScanAtChord | main.ts:64-88 | a scan starting where the pattern matches emits that chord first |
| Chords.ScanAtGap | main.ts:69-76 | text without a match before the next match is emitted as one plain segment |
| Chords.ScanAtTail | main.ts:90-95 | with no match left, the rest is emitted as one plain segment, when non-empty |
| Chords.TilesUnique | main.ts:64-95 | there is only one correct split, the one the loop emits |
| Chords.TilesUniquePlain | main.ts:69-76 | the same, for a split that starts with a text segment |
| Chords.TilesLaid | main.ts:64-95 | the segments of a correct split, written back with their markers, lie end to end over the text |
| Chords.LaidRebuild | main.ts:64-95 | segments lying end to end give back the text they cover |
| Chords.TilesRebuild | main.ts:64-95 | writing a correct split back, markers restored, gives the text |
| Chords.ScanRoundTrip | main.ts:64-95 | round trip: the segments of a text node, each chord written back as marker + body + reversed marker, are its text |
| Chords.ScanSegmentsWellFormed | main.ts:69-95 | no emitted text segment is empty, and every chord segment is a chord body |
| Chords.ScanWithoutMatch | main.ts:64-97 | a non-empty text where the pattern matches nowhere becomes one text segment equal to it |
| Chords.NoChordWithoutRoot | main.ts:47 | where the marker is not followed by a letter `A`–`G`, the pattern does not match |
| Chords.ScanWithoutRoot | main.ts:44-52 | a text in which no marker is followed by a root letter is emitted unchanged |
| Chords.MarkedHIsNoChord | main.ts:44-52 | with the literal palindromic marker `<<`, the text `<<H<<` yields no chord, only itself as text |
| Strings.OccursAtConcat | main.ts:44-52 | a concatenation occurs at `p` exactly when its first part does and the second follows it |
| Strings.IncludesFrom | main.ts:107-109 | the search from `from` finds the needle exactly when it occurs at some position from `from` on |
| Strings.Includes | main.ts:107-109 | `includes` holds exactly when the needle occurs at some position |
| Dom.LeavesConcat | main.ts:134-142 | the text nodes of two child lists in a row are those of the first, then those of the second |
| Dom.LeavesAllocated | main.ts:134-142 | every text node in a tree already exists (nodes created later are distinct from them) |
| Dom.SubstituteSplice | main.ts:70-97 | replacing a text node in a child list puts the new nodes at its position, in order, and leaves the siblings before and after it unchanged |
| Dom.SubstituteUnused | main.ts:53-62 | replacing text nodes that are not in the tree changes nothing |
| Dom.SubstituteConcat | main.ts:70-97 | replacement works sibling by sibling |
| Dom.SubstituteTwice | main.ts:54-99 | two replacements in a row are one replacement, the second applied inside the first's new nodes |
| Dom.SubstituteExtend | main.ts:54-99 | replacing one more text node, absent from earlier replacements, extends the replacement map |
| Dom.SubstituteAround | main.ts:70-97 | inserting nodes before a text node, then replacing that node, puts the inserted nodes before its replacement |
| Dom.SubstituteSelf | main.ts:64-70 | replacing a text node by itself changes nothing |
| Dom.SubstituteKeeps | main.ts:60-62 | a text node that is not replaced stays in the tree, so it still has a parent when its turn comes |
| Dom.SubstituteDrops | main.ts:97 | a replaced text node that appears in no replacement is gone from the tree, so it has no parent any more |
| Dom.SubstituteAbsent | main.ts:97 | a text node outside the tree and outside every replacement stays outside it |
| Dom.HostElement.InsertBefore | main.ts:70-75 | `insertBefore(x, node)`: the tree with `node` preceded by `x` in its parent's list, everything else unchanged |
| Dom.HostElement.RemoveChild | main.ts:97 | `removeChild(node)`: the tree with `node` removed from its parent's list, everything else unchanged |
| Dom.GetTextNodes | main.ts:134-142 | the walker's loop returns exactly the text nodes of the section, in document order |
| Tabs.SplitLines | main.ts:124 | `split("\n")` gives one more piece than there are newlines; no piece has a newline; joining the pieces with newlines gives the text back |
| Tabs.SplitJoin | main.ts:124 | splitting is the inverse of joining lines that contain no newline |
| Tabs.TabHtmlNotEmpty | main.ts:113-114 | the rendered block is never empty, since it holds at least the wrapper and one `div`, so the `if (tabHtml)` test always passes and the parent is replaced |
| Tabs.DivsConcat | main.ts:125-128 | the `div`s of two runs of lines are those of the first, then those of the second |
| Tabs.LineRendered | main.ts:123-131 | line `i` is rendered as `<div>line</div>` right after the opening tag and the `div`s of the lines before it, so the output has one `div` per line, in order |
| Tabs.DivAt | main.ts:125-128 | the same for any list of lines |
| Tabs.EmptyLineAt | main.ts:124-127 | two newlines in a row give an empty line, which renders as `<div></div>` |
| Tabs.IsTabBlock | main.ts:105-111 | a block is tablature exactly when its text is non-empty and `language-` + marker occurs somewhere in its class attribute |
| Plugin.DecimalRoundTrip | main.ts:84 | the decimal form of the font size is digits only, with no leading zero, and reads back as the size |
| Plugin.SpanStyleFollowsSettings | main.ts:78-84 | the span's colour is the configured colour, its weight is `bold` exactly when bold is on and `normal` exactly when it is off, and its size is the configured number followed by `px` |
| Plugin.DefaultSettingsStyle | main.ts:11-17 | the default settings (`Plugin.DefaultSettings`): their colour, weight and size give the style red, bold, `16px`, and the default marker `[[` is not a literal marker |
| Plugin.RealizesRebuild | main.ts:64-95 | the nodes created for the segments, each span written back between the markers, show the text the segments rebuild |
| Plugin.HighlightRoundTrip | main.ts:64-95 | the nodes that replace a text node, each span written back between the markers, show its original text |
| Plugin.HighlightWellFormed | main.ts:69-95 | every created text node is non-empty, and every created element is a `span` with the chord style whose text is a chord body |
| Plugin.HighlightWithoutChord | main.ts:64-97 | a non-empty text node without a chord is replaced by a single new text node with the same text |
| Plugin.RealizesSnoc | main.ts:69-95 | appending the node created for a segment keeps nodes and segments in step |
| Plugin.InsertCreated | main.ts:70-85 | inserting a created node before the original puts it after the nodes created before it |
| Plugin.EmitSegment | main.ts:69-95 | creating and inserting the node for one segment keeps the nodes created before it, in order, and appends exactly one node for the segment, whose text nodes are all new; the original stays after it |
| Plugin.ScanStep | main.ts:64-88 | one round of the loop emits the gap and the chord, and the search resumes at the match end |
| Plugin.EmitMatch | main.ts:64-88 | one round of the `exec` loop keeps the nodes created before it as a prefix and inserts the gap (when non-empty) and the chord span, and `lastIndex` moves strictly forward to the match end |
| Plugin.EmitTail | main.ts:90-95 | after the loop, the nodes created so far are kept as a prefix and the rest of the text (when non-empty) is inserted, completing the node's segments |
| Plugin.RemoveLeaf | main.ts:97 | removing the original leaves the created nodes exactly in its place |
| Plugin.ReplaceLeaf | main.ts:64-97 | a non-empty text node in the tree is replaced, in its place, by new nodes that are one for one the segments of its text |
| Plugin.ChordHighlightPlugin.HighlightNode | main.ts:55-97 | the per-node callback: an empty text node or one without a parent is left alone; otherwise the node is replaced in place by fresh nodes for its segments, styled from the settings |
| Plugin.ChordHighlightPlugin.HighlightStep | main.ts:55-62 | one snapshot entry: a node replaced earlier no longer has a parent and is skipped; any other non-empty node is replaced |
| Plugin.ChordHighlightPlugin.HighlightChords | main.ts:43-100 | exactly the non-empty text nodes of the section before the pass are replaced, each by fresh nodes for its segments under the reversed marker and the span style; nodes created during the pass are never visited; the rest of the tree is unchanged |
| Plugin.ChordHighlightPlugin.RenderTab | main.ts:123-131 | the loop's accumulated string is the opening tag, one `div` per line in order, and the closing tag |
| Plugin.ChordHighlightPlugin.RenderTabs | main.ts:102-119 | a block's parent is replaced exactly when the block is tablature under the current marker and has a parent, and then by the block's rendered HTML |

## Left out

- Plugin lifecycle and host hooks (`onload`, `registerMarkdownPostProcessor`): they are calls into the Obsidian API. The model starts where the post-processor is called with a section.
- `loadSettings`/`saveSettings`: asynchronous persistence. Settings are a plain record field of the plugin.
- The settings tab (`ChordHighlightSettingTab`): user-interface widgets. The slider's 10–30 range (main.ts:181) is not imposed, and the font size is any natural number.
- Plugin.DecimalString: writes the exact decimal digits of any natural number. JavaScript's number formatting is not modelled: from 2^53 on it prints rounded digits, and from 10^21 on exponent form (`1e+21px`). The two agree on every size the slider can set.
- Plugin.DecimalRoundTrip: holds for the exact digits of `Plugin.DecimalString`, not for JavaScript's formatting of sizes from 2^53 on.
- Plugin.SpanStyleFollowsSettings: the size is stated as the exact digits followed by `px`, so it leaves out the same large sizes.
- Compiling the regular expression: a marker with a metacharacter (`\ ^ $ . | ? * + ( ) [ ] { }`) is excluded by a precondition of `HighlightChords`. The default marker `[[` is such a marker (`Plugin.DefaultSettingsStyle`). From it the source builds a pattern with an unterminated character class and an unmatched `)`, which the `RegExp` constructor rejects. Other such markers either throw as `[[` does (`(`, `)`, `?`, `*`, `+`, `[`, a trailing `\`), or give a valid pattern that matches differently (`.`, `^`, `$`, `|`, or `{n}` after a character), or, like `]]` and `{{`, still match literally although the precondition excludes them. With `.`, `^` or `$`, both steps run, but the highlighting differs from the literal one. With `|`, an alternative matches the empty string, `exec` keeps returning an empty match at 0, and the loop at main.ts:64 never ends. None of this is modelled.
- The regular expression's `lastIndex` carried from one text node to the next: it is back at 0 whenever `exec` returns `null`, which ends every node's loop. Each node is therefore scanned from 0.
- The tree walker's mechanics (`createTreeWalker`): the snapshot is the pre-order list of text nodes, computed with an explicit work list.
- `document.createElement`/`createTextNode` and style objects: a created text node is a new `TextNode` object, and a span is an element value with a style record.
- `querySelectorAll("pre code")` and reading `textContent`: `RenderTabs` takes the blocks as a list of text, class attribute and has-a-parent flag. It returns, per block, the HTML its parent is replaced with.
- The order of the two steps on one section: `renderTabs` runs after `highlightChords` (main.ts:26-27), so it reads the `textContent` of code blocks whose chord markers have already been stripped (main.ts:105). The model takes each block's text as given and does not connect the two steps.
- Assigning `outerHTML`, and how the browser parses the produced HTML (lines are not escaped): only the produced string is modelled.
- Strings are sequences of Dafny characters. UTF-16 code units, surrogate pairs and non-integer font sizes are not modelled.
- Two occurrences of one text node in a tree, which a DOM does not allow: `Substitute` replaces every occurrence, and the second visit of such a node is skipped.
