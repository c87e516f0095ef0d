# blackbox editor core in Dafny

This project models the core of blackbox, a terminal markdown note editor with
vim-like modes. It covers:

- a rope-backed text buffer with a byte-column cursor and a scrolling viewport;
- the application state machine that takes one message at a time (key presses,
  ticks, file-change events, plugin commands) and updates the editor session;
- the markdown line renderer: code-fence state, line styles and the inline
  token scanner;
- wikilink parsing and resolution, backlinks and the fuzzy/content finder;
- the vault file tree sidebar;
- the plugin registry and its small runtime status machine.

Rust code that changes state in place is modelled as Dafny classes with
`modifies` frames: `Buffer`, `FileTree`, `PluginRuntime`, `PluginManager` and
`App`. Pure helpers become functions, each with lemmas about it.

The outside world is passed in as parameters:

- `Disk` (module `Editor`) holds the vault directory tree, file contents, the
  set of existing paths, a canonicalisation map and plugin manifests.
- `now` is an integer clock in milliseconds.
- The fuzzy scorer is an uninterpreted function `Scorer`.

Observable effects are recorded in state:

- Saving a buffer clears its `dirty` flag and save deadline. It also records
  `(path, text)` in the ghost log `saved`.
- Note files created by the editor are recorded in the ghost log `created`.
- Messages the editor sends to itself (a command typed on the command line)
  are appended to `outbox`.

Modules, one per file:

| module | file | models |
|---|---|---|
| `Wrappers` | wrappers.dfy | `Option`, `Result`, `Unit` |
| `Text` | text.dfy | trimming, ASCII lower-casing, lexicographic order, UTF-8 lengths, split and join |
| `Sorting` | sorting.dfy | stable insertion sort by a total preorder, de-duplication |
| `Paths` | paths.dfy | paths as component sequences: parent, file name, stem, extension, ordering; path text and `join` |
| `TextLines` | lines.dfy | the rope as one string: line starts, line text, byte-to-char conversion |
| `Cursors` | cursor.dfy | `CursorState` and `Position` |
| `Modes` | mode.dfy | `Mode` and its status-bar label |
| `Events` | events.dfy | keys, modifiers and the `Msg` message type |
| `Buffers` | buffer.dfy | `Buffer`, `Viewport`, editing and scrolling |
| `Markdown` | markdown.dfy | the five inline regexes, the token scanner, spans, line styles, fences, rendering |
| `Links` | links.dfy | wikilink targets, the link under the cursor, resolution, backlinks |
| `Finder` | finder.dfy | file and content finder results, selection movement |
| `FileTrees` | filetree.dfy | the sidebar tree: flattening, selection, expand/collapse, note creation |
| `CommandLine` | commandline.dfy | the quoted plugin-command parser and routing of command-line input |
| `Plugins` | plugins.dfy | plugin runtimes, the registry, command dispatch, notifications |
| `Editor` | app.dfy | the `App` session state machine, tabs, saving, quitting, notifications |

## Model

| member | source | states |
|---|---|---|
| Cursors.CursorState.Pos | src/model/cursor.rs:24-29 | the position is exactly the cursor's (row, col) |
| Cursors.CursorState.MoveTo | src/model/cursor.rs:32-36 | the result sits at (r, c) with sticky column c; the selection is kept |
| Cursors.CursorState.ClearSelection | src/model/cursor.rs:39-41 | the selection becomes None and row, col and sticky column are unchanged |
| Modes.Label | src/model/mode.rs:23-33 | every mode has a non-empty, all upper-case label |
| Modes.LabelInjective | src/model/mode.rs:23-33 | distinct modes have distinct labels |
| Text.TrimStart | src/app.rs:1354 | the result is a suffix of the input with no leading whitespace, and only whitespace was removed |
| Text.TrimEnd | src/app.rs:1860 | the result is a prefix of the input with no trailing whitespace, and only whitespace was removed |
| Text.Trim | src/app.rs:230 | the result has whitespace at neither end and is no longer than the input |
| Text.TrimNoSpace | src/app.rs:1733 | trimming text without whitespace leaves it unchanged |
| Text.ToLower | src/app.rs:1138 | lower-casing maps each character in place and keeps the length |
| Text.LexLeTotal | src/model/file_tree.rs:209 | string order is total |
| Text.LexLeTrans | src/model/file_tree.rs:209 | string order is transitive |
| Text.LexLeAntisym | src/model/file_tree.rs:209 | string order is antisymmetric |
| Text.Utf8Len | src/model/buffer.rs:119-126 | a character takes 1 to 4 bytes, and 1 exactly when it is ASCII |
| Text.ByteLenBounds | src/model/buffer.rs:136-139 | a string's byte length lies between its character count and four times that |
| Text.ByteLenAppend | src/model/buffer.rs:136-139 | byte length is additive over concatenation |
| Text.Split | src/app.rs:1882-1888 | splitting gives at least one piece and no piece contains the separator |
| Text.JoinSplit | src/app.rs:1882-1888 | joining the pieces with the separator gives back the input |
| Text.CountAppend | src/model/buffer.rs:62-64 | character counts add over concatenation |
| Text.CountPositive | src/model/buffer.rs:62-64 | a character count is positive exactly when the character occurs |
| Sorting.Insert | src/model/file_tree.rs:206-210 | insertion adds exactly one element, as a multiset |
| Sorting.SortBy | src/model/file_tree.rs:206-210 | sorting keeps the length and the multiset of elements; stability is `Sorting.SortByStable` |
| Sorting.InsertSorted | src/model/file_tree.rs:206-210 | inserting into a sorted sequence under a total preorder keeps it sorted |
| Sorting.SortBySorted | src/model/file_tree.rs:206-210 | the sort yields a sorted permutation of its input |
| Sorting.SortByStable | src/model/file_tree.rs:206-210 | the sort is stable: the elements ranked equal to any given one come out in their input order, as `slice::sort_by` keeps them |
| Sorting.InsertStable | src/model/file_tree.rs:206-210 | insertion into a sorted sequence puts the new element after every element ranked equal to it |
| Sorting.Dedup | src/plugin/manager.rs:112-128 | de-duplication yields a duplicate-free sequence with the same members |
| Sorting.NoDupPermutation | src/plugin/manager.rs:112-128 | a permutation of a duplicate-free sequence is duplicate-free |
| Paths.Components | src/plugin/runtime.rs:89-90 | a path string splits into non-empty components, each either the root or free of '/'; it gives a path's identity for existence checks, never its display text |
| Paths.JoinText | src/plugin/runtime.rs:71 | joining an absolute name gives that name; otherwise the result starts with the base and ends with the name |
| Paths.JoinTextComponents | src/plugin/runtime.rs:89-90 | the joined text names the path the base's components extended by the name's components |
| Paths.Parent | src/model/file_tree.rs:118 | a parent exists exactly for a non-empty, non-root path, and the path is that parent plus its last component |
| Paths.FileName | src/app.rs:1068 | a file name exists exactly when the path is non-empty and its last component is neither the root nor "..", and it is that component |
| Paths.NameExtension | src/model/file_tree.rs:166 | an extension, when present, has no '.' and the name ends with '.' plus it; a name without '.' has none |
| Paths.NameStem | src/model/file_tree.rs:176 | the name is its stem, plus '.' and the extension when there is one |
| Paths.StemDotExt | src/model/file_tree.rs:166-168 | stem and extension of "stem.ext" give back stem and ext |
| Paths.WithExtension | src/model/file_tree.rs:167 | a path without a file name is unchanged; otherwise the parent is kept and, for a non-empty name, the stem is kept and the extension becomes the one given |
| Paths.PathLeTotal | src/app.rs:987-992 | path order is total |
| Paths.PathLeTrans | src/app.rs:987-992 | path order is transitive |
| Paths.PathLeAntisym | src/app.rs:987-992 | path order is antisymmetric |
| TextLines.LineCount | src/model/buffer.rs:62-64 | a text always has at least one line |
| TextLines.SingleLine | src/model/buffer.rs:62-64 | a text has one line exactly when it contains no '\n' |
| TextLines.LineStart | src/model/buffer.rs:136-139 | line r starts after exactly r newlines, right after a '\n' when r > 0 |
| TextLines.LineStartLess | src/model/buffer.rs:136-139 | later lines start strictly later |
| TextLines.RopeLine | src/model/buffer.rs:67-80 | a rope line lies inside the text |
| TextLines.RopeLineNewlines | src/model/buffer.rs:67-80 | a rope line has '\n' at most at its end, and has it exactly when it is not the last line |
| TextLines.StripLineEnding | src/model/buffer.rs:72-78 | stripping never lengthens a line |
| TextLines.StripLineEndingSpec | src/model/buffer.rs:72-78 | the result is a prefix of the line, the removed part is a line ending, and nothing is removed only when the line does not end in '\n' or '\r' |
| TextLines.LineText | src/model/buffer.rs:67-80 | a line's text lies inside the text from its start |
| TextLines.AllLines | src/model/buffer.rs:62-80 | there is one line text per line |
| TextLines.LineTextSpec | src/model/buffer.rs:67-80 | a line's text is its rope line without the line ending, contains no '\n', and is the slice of the text at the line start |
| TextLines.LineStartByte | src/model/buffer.rs:136-139 | a line's byte start lies within the text's byte length |
| TextLines.CharIndexAt | src/model/buffer.rs:136-139 | the result is the first character index whose byte prefix reaches the byte offset |
| TextLines.CharIndexAtBoundary | src/model/buffer.rs:136-139 | at a character boundary the conversion gives back that character index |
| Buffers.EffectiveScrollOff | src/model/buffer.rs:154-164 | the margin used is at most the configured one, is less than the height, and is the configured one when that fits |
| Buffers.ScrollTop | src/model/buffer.rs:154-164 | the new top is at most the cursor row, keeps the cursor inside the window with its margin, and is unchanged when the cursor is already within the margins |
| Buffers.Clamp | src/model/buffer.rs:142-151 | the clamped cursor lies inside the text, never grows, keeps the sticky column and selection, keeps a valid row, and leaves a valid cursor alone |
| Buffers.ClampIdempotent | src/model/buffer.rs:142-151 | clamping twice is clamping once |
| Buffers.MoveToClamped | src/model/buffer.rs:142-151 | a jump followed by clamping always leaves a cursor valid in the text with the jump's sticky column, and reaches a target that lies inside its line exactly |
| Buffers.Buffer.constructor | src/model/buffer.rs:37-46 | a new buffer is empty, clean, without path, at the default cursor and viewport |
| Buffers.Buffer.FromFile | src/model/buffer.rs:49-59 | a loaded buffer holds the file's text and path and is clean |
| Buffers.Buffer.FromState | src/app.rs:752-765 | a buffer rebuilt from a stored state has exactly that state |
| Buffers.Buffer.State | src/app.rs:175-188 | a stored state is valid exactly when the buffer is, and is pending exactly when the buffer is dirty or has a save deadline |
| Buffers.Buffer.LineCount | src/model/buffer.rs:62-64 | at least one line, and exactly one iff the text has no '\n' |
| Buffers.Buffer.LineText | src/model/buffer.rs:67-80 | None iff the index is past the last line; otherwise the rope line without its line ending, with no '\n' inside |
| Buffers.Buffer.CursorByteOffset | src/model/buffer.rs:136-139 | the cursor's byte offset lies within the text and is at least its column |
| Buffers.Buffer.InsertChar | src/model/buffer.rs:83-88 | the character is inserted at the cursor, the column advances by its UTF-8 length, the line count grows only for '\n', and the buffer becomes dirty |
| Buffers.Buffer.InsertNewline | src/model/buffer.rs:91-98 | a '\n' is inserted at the cursor, the line count grows by one, the cursor moves to column 0 of the next row, and the buffer becomes dirty |
| Buffers.Buffer.DeleteCharBefore | src/model/buffer.rs:101-133 | the new text and cursor are those of backspace, and the buffer becomes dirty unless the cursor was at (0, 0) |
| Buffers.Buffer.ClampCursor | src/model/buffer.rs:142-151 | the cursor becomes the clamped cursor and nothing else changes |
| Buffers.Buffer.ScrollToCursor | src/model/buffer.rs:154-164 | only the viewport top changes, to the scroll top for the cursor row |
| Buffers.BackspaceValid | src/model/buffer.rs:101-133 | backspace keeps the cursor inside the text |
| Buffers.BackspaceJoins | src/model/buffer.rs:106-116 | at column 0 of a later row, backspace removes the '\n' before the row, drops the line count by one, and moves to the end of the previous line |
| Buffers.BackspaceRemovesChar | src/model/buffer.rs:117-130 | at column > 0, backspace removes exactly the one character before the cursor and keeps the row |
| Buffers.BackspaceMovesCursor | src/model/buffer.rs:117-130 | after that removal the cursor sits where the removed character began, which is its UTF-8 length earlier on a character boundary |
| Buffers.BackspaceAtStart | src/model/buffer.rs:101-104 | at (0, 0) backspace changes nothing |
| Buffers.Backspace | src/model/buffer.rs:101-133 | away from (0, 0) exactly one character goes and the row does not grow; the sticky column and selection are kept |
| Buffers.JoinWithPrevious | src/model/buffer.rs:106-116 | the join removes one character and moves the cursor up one row |
| Buffers.RemoveCharBefore | src/model/buffer.rs:117-130 | the in-line removal takes one character, keeps the row and moves the column left |
| Buffers.InsertKeepsCursor | src/model/buffer.rs:83-98 | inserting at the cursor keeps the line start and the advanced cursor valid, and adds a line exactly for '\n' |
| Buffers.DeleteKeepsCursor | src/model/buffer.rs:117-130 | removing the character before the cursor keeps the line start and a valid cursor |
| Buffers.JoinLines | src/model/buffer.rs:106-116 | removing the '\n' before a row leaves one line fewer and a valid cursor at the end of the previous line |
| Buffers.ScrollTopAsWritten | src/model/buffer.rs:154-164 | the scroll computation as written fails only when the height is below the scroll margin |
| Buffers.ScrollAgreesWhenMarginFits | src/model/buffer.rs:154-164 | when the margin fits the window, the code as written and the corrected scroll agree |
| Buffers.ScrollAsWrittenLosesCursor | src/model/buffer.rs:154-164 | two concrete viewports where the code as written underflows or scrolls past the cursor |
| Buffers.InsertAtByteAsWritten | src/model/buffer.rs:83-98 | inserting at a byte offset used as a character index fails past the end and otherwise adds one character there |
| Buffers.InsertAgreesOnAscii | src/model/buffer.rs:83-88 | on ASCII text, byte and character offsets coincide and both insertions agree |
| Buffers.InsertAfterAccentAsWritten | src/model/buffer.rs:83-98 | after a two-byte character, inserting a character or a newline as written lands one character too far, or fails |
| Buffers.RemoveAsWritten | src/model/buffer.rs:114 | ropey's `remove` on a character range fails past the end and otherwise removes exactly that many characters, keeping the prefix |
| Buffers.BackspaceAsWritten | src/model/buffer.rs:101-133 | backspace as written: a no-op at (0, 0); otherwise, when it does not panic, the row joins up or stays with the column moved left |
| Buffers.JoinAsWritten | src/model/buffer.rs:106-116 | the join as written removes one character and moves up one row, when it does not panic |
| Buffers.RemoveBeforeAsWritten | src/model/buffer.rs:117-130 | the in-line removal as written panics off a character boundary and otherwise removes characters and moves the column left |
| Buffers.BackspaceAfterAccentAsWritten | src/model/buffer.rs:101-133 | on "é\nb" at (1, 0) the code as written removes the 'b' and keeps the '\n' where the model joins the lines; on "éa" at byte column 3 it removes past the end; on "é" at byte column 1 it slices inside a character |
| Buffers.BackspaceAgreesOnAscii | src/model/buffer.rs:101-133 | on ASCII text backspace as written equals the model's backspace |
| Buffers.JoinAgreesOnAscii | src/model/buffer.rs:106-116 | on ASCII text the join as written equals the model's join |
| Buffers.RemoveAgreesOnAscii | src/model/buffer.rs:117-130 | on ASCII text the in-line removal as written equals the model's removal |
| Markdown.Priority | src/app.rs:1813-1852 | token kinds have priorities 0 to 4 |
| Markdown.PriorityInjective | src/app.rs:1813-1852 | distinct kinds have distinct priorities, so ties are broken |
| Markdown.MatchUnique | src/app.rs:57-66 | each of the five patterns has at most one match per start position |
| Markdown.CodeEnd | src/app.rs:61-62 | the inline-code matcher's end lies at least three characters after the start |
| Markdown.CodeEndSpec | src/app.rs:61-62 | the inline-code matcher finds the match at a start iff the pattern matches there |
| Markdown.WikiEnd | src/app.rs:57-58 | the wikilink matcher's end lies at least three characters after the start |
| Markdown.WikiEndSpec | src/app.rs:57-58 | the wikilink matcher finds the match at a start iff the pattern matches there |
| Markdown.BoldEnd | src/app.rs:63-64 | the bold matcher's end lies at least three characters after the start |
| Markdown.BoldEndSpec | src/app.rs:63-64 | the bold matcher finds the match at a start iff the pattern matches there |
| Markdown.ItalicEnd | src/app.rs:65-66 | the italic matcher's end lies at least three characters after the start |
| Markdown.ItalicEndSpec | src/app.rs:65-66 | the italic matcher finds the match at a start iff the pattern matches there |
| Markdown.LinkEnd | src/app.rs:59-60 | the markdown-link matcher's end lies at least three characters after the start |
| Markdown.LinkEndSpec | src/app.rs:59-60 | the markdown-link matcher finds the match at a start iff the pattern matches there |
| Markdown.MatchEnd | src/app.rs:57-66 | any kind's match end lies inside the line |
| Markdown.MatchEndSpec | src/app.rs:57-66 | the matcher for each kind is sound and complete at a given start |
| Markdown.Find | src/app.rs:1813-1852 | a found token has the requested kind and starts at or after the search position |
| Markdown.FindSpec | src/app.rs:1813-1852 | a found token is a real match and no match of that kind starts earlier |
| Markdown.NextToken | src/app.rs:1813-1852 | the next token starts at or after the search position and lies inside the line |
| Markdown.NextTokenChoice | src/app.rs:1813-1852 | the next token is the leftmost match of its own kind |
| Markdown.NextTokenMatch | src/app.rs:1813-1852 | the next token is a real match of its kind |
| Markdown.NextTokenFirst | src/app.rs:1813-1852 | no kind's match starts earlier, and a higher-priority kind's match cannot start at the same place |
| Markdown.NextTokenNone | src/app.rs:1813-1852 | no next token means no kind matches anywhere further on |
| Markdown.NextTokenLeftmost | src/app.rs:1813-1852 | no match of any kind starts before the next token |
| Markdown.NextTokenTieBreak | src/app.rs:1813-1852 | at the token's start no higher-priority kind matches |
| Markdown.InlineSpans | src/app.rs:1383-1424 | a non-empty remainder gives at least one span |
| Markdown.InlineSpansText | src/app.rs:1383-1424 | the span texts concatenate to the remainder of the line |
| Markdown.RenderInlineText | src/app.rs:1383-1424 | the rendered spans concatenate to exactly the line |
| Markdown.RenderInlineMarkdown | src/app.rs:1383-1424 | the loop emits the specified spans, whose texts concatenate to the line |
| Markdown.BaseStyle | src/app.rs:1353-1381 | headings have level 1 to 3 |
| Markdown.StyleOf | src/app.rs:1353-1381 | a marked style needs a non-empty line |
| Markdown.StyleByMarker | src/app.rs:1353-1381 | a trimmed line gets a heading, quote or list style iff it starts with that style's marker |
| Markdown.BaseStyleByMarker | src/app.rs:1353-1381 | the base style is a marked style iff the left-trimmed line starts with its marker |
| Markdown.BaseStylePlain | src/app.rs:1353-1381 | the base style is plain iff no marker starts the left-trimmed line |
| Markdown.TrimFences | src/app.rs:1860 | stripping leading fences leaves a suffix that does not start with three backticks |
| Markdown.FenceLanguage | src/app.rs:1854-1866 | a fence language is never empty |
| Markdown.FenceLanguageSome | src/app.rs:1854-1866 | a line is a fence iff its left-trimmed text starts with three backticks |
| Markdown.FenceDefaultLanguage | src/app.rs:1861-1862 | a fence with only whitespace after the backticks has language "text" |
| Markdown.FenceNamedLanguage | src/app.rs:1863-1864 | a fence followed by a word has that word as language |
| Markdown.Fences | src/app.rs:1273-1290 | the fence table has one entry per line |
| Markdown.FencesAt | src/app.rs:1273-1290 | each entry is that line's fence language |
| Markdown.Toggle | src/app.rs:1281-1287 | a non-fence line keeps the state, and a fence line flips it between inside and outside a code block |
| Markdown.FenceStateStep | src/app.rs:1279-1288 | the state before line i+1 is the state before line i toggled by line i |
| Markdown.FenceCount | src/app.rs:1273-1290 | at most n of the first n lines are fences |
| Markdown.FenceParity | src/app.rs:1273-1290 | the state before line n is inside a code block iff an odd number of the first n lines are fences |
| Markdown.FenceStateLanguage | src/app.rs:1273-1290 | inside a code block, the language is that of some earlier fence |
| Markdown.LineFence | src/app.rs:1280-1281 | the line's fence language as the table gives it |
| Markdown.CodeBlockLangBeforeLine | src/app.rs:1273-1290 | the loop returns the fence state before the line |
| Markdown.RenderWith | src/app.rs:1292-1318 | the state after a line is the state before it, toggled by the line's fence |
| Markdown.RenderLine | src/app.rs:1292-1318 | a fence line opens a code block exactly when none is open and closes it otherwise; any other line keeps the block state |
| Markdown.RenderLineKind | src/app.rs:1292-1318 | fence lines render as themselves, lines inside a block as code in the block's language, and all others as inline spans covering the line |
| Markdown.RenderMarkdownLine | src/app.rs:1292-1318 | the rendered line and the next state are those of the line rendering function |
| Markdown.RenderLines | src/app.rs:1258-1263 | rendering a window gives one line per row in it |
| Markdown.RenderLinesAt | src/app.rs:1258-1263 | each rendered row is its line rendered with the fence state before it |
| Markdown.RenderDocLine | src/app.rs:1260-1261 | renders one document line with the given state |
| Markdown.RenderWindow | src/app.rs:1257-1263 | the loop renders the window from the fence state before its top |
| Markdown.FindAll | src/app.rs:972 | the listed matches of one kind start at or after the position, lie in the line, and are in order without overlap |
| Markdown.FindAllMatches | src/app.rs:972 | every listed token is a real match |
| Markdown.FindAllComplete | src/app.rs:972 | every match start lies inside some listed token |
| Links.CutAt | src/app.rs:1883 | the cut is at the first '\|' or '#', or at the end |
| Links.SanitizeLinkName | src/app.rs:1882-1888 | the result contains neither '\|' nor '#' |
| Links.SanitizePlain | src/app.rs:1882-1888 | without '\|' and '#', sanitising is trimming |
| Links.SanitizeDropsSuffix | src/app.rs:1882-1888 | everything from the first '\|' or '#' on is dropped and the rest trimmed |
| Links.SanitizeIdempotent | src/app.rs:1882-1888 | sanitising twice is sanitising once |
| Links.ParseWikilinkTarget | src/app.rs:1868-1880 | a target exists only for "[[...]]" input, and it is non-empty with no '\|' or '#' |
| Links.ParseBracketed | src/app.rs:1868-1880 | the target of "[[inner]]" is the sanitised inner text, or None when that is empty |
| Links.WikilinkRoundTrip | src/app.rs:1868-1880 | bracketing a clean name and parsing gives the name back |
| Links.WikilinkAliasTarget | src/app.rs:1868-1888 | an alias or heading suffix does not change the target |
| Links.ParseNeedsBrackets | src/app.rs:1869-1871 | input not starting with "[[" has no target |
| Links.CoveringTargetAt | src/app.rs:1039-1050 | when a token covers the column, the result is that token's target |
| Links.CoveringTargetNone | src/app.rs:1039-1050 | when no token covers the column, there is no link under the cursor |
| Links.WikiTokens | src/app.rs:1043-1049 | the wikilink tokens lie in the line, in order |
| Links.WikilinkUnderCursor | src/app.rs:1039-1050 | no link past the last line; otherwise the target of the wikilink covering the column |
| Links.UnderCursorIsCoveringLink | src/app.rs:1039-1050 | a covering token is a wikilink match and gives the link under the cursor |
| Links.FindNote | src/app.rs:1064-1070 | a listed file with the expected lower-cased name, and None iff no listed file has it |
| Links.FindNoteFirst | src/app.rs:1064-1070 | the earliest matching file wins |
| Links.ResolveWikilinkTarget | src/app.rs:1052-1071 | an empty link name resolves to nothing |
| Links.ResolveSpec | src/app.rs:1052-1071 | the exact vault path wins when it exists; otherwise a case-insensitive name match; None iff neither exists |
| Links.ResolveIgnoresAlias | src/app.rs:1052-1071 | resolving "name\|alias" is resolving the trimmed name |
| Links.StrLines | src/app.rs:971 | the lines of a text contain no '\n', and an empty text has no lines |
| Links.StrLinesJoin | src/app.rs:971 | joining the lines with '\n', plus a final '\n' when the text ended in one, gives back the text |
| Links.AnyNamesNoteSpec | src/app.rs:972-975 | a line links to the note iff one of its wikilinks targets it, ignoring ASCII case |
| Links.LineHitsSound | src/app.rs:971-984 | every hit is a linking line of that file, numbered from 1, with a trimmed preview |
| Links.LineHitsComplete | src/app.rs:971-984 | every linking line of the file is a hit |
| Links.FileBacklinksSpec | src/app.rs:971-984 | an entry is a backlink from a file iff it describes a line linking to the note |
| Links.CollectBacklinksSpec | src/app.rs:958-985 | an entry is collected iff it comes from a readable markdown file other than the active one and links to the note |
| Links.BacklinkLeTotalPreorder | src/app.rs:987-992 | the backlink order (path, then line, then preview) is a total preorder |
| Links.Backlinks | src/app.rs:944-956 | a buffer without a path has no backlinks |
| Links.BacklinksSpec | src/app.rs:943-993 | the backlinks are sorted, and an entry is listed iff it is a backlink to the active note |
| Links.ScanFile | src/app.rs:971-984 | the loop collects exactly the file's backlink entries |
| Links.ScanBacklinks | src/app.rs:958-985 | the loop collects exactly the backlink entries of all files |
| Finder.Take | src/app.rs:1092-1094 | taking n keeps a prefix of length min(n, len) |
| Finder.ListFiles | src/app.rs:1090-1103 | with an empty query the file list is shown in order, up to the cap, each file as its own result |
| Finder.Scored | src/app.rs:1105-1123 | the scored results are exactly the files the scorer accepts, each with its score |
| Finder.ScoreGeTotalPreorder | src/app.rs:1125 | descending score order is a total preorder |
| Finder.Results | src/app.rs:1127-1131 | dropping the scores keeps the results in order |
| Finder.FuzzyFilesRanked | src/app.rs:1105-1131 | at most the cap, only scored files, in descending score order |
| Finder.FuzzyFilesComplete | src/app.rs:1105-1131 | when all scored files fit under the cap, every scored file is listed |
| Finder.FuzzyFiles | src/app.rs:1105-1131 | the fuzzy results never exceed the cap or the number of files |
| Finder.FuzzyFilesBest | src/app.rs:1105-1131 | a matching file is left out only when the cap is full of files scoring at least as high: the results are the `limit` best |
| Finder.FuzzyTiesInWalkOrder | src/app.rs:1125 | files with equal scores are ranked in walk order, as the stable sort leaves them |
| Finder.ContentResultsLines | src/app.rs:1132-1170 | every content result carries its line number |
| Finder.Decimal | src/app.rs:1149-1154 | a line number prints as a non-empty run of digits |
| Finder.DecimalValue | src/app.rs:1149-1154 | the printed digits denote the number |
| Finder.FileHits | src/app.rs:1146-1162 | a file has at most one hit per line |
| Finder.FirstReadable | src/app.rs:1141-1144 | the first readable file, and None iff no file is readable |
| Finder.ContentResults | src/app.rs:1132-1170 | content search returns at most the cap, or one hit when the cap is 0 |
| Finder.FileHitsSound | src/app.rs:1146-1162 | every hit names a line, numbered from 1, whose lower-cased text contains the needle |
| Finder.AllHitsSound | src/app.rs:1141-1167 | every hit comes from a readable listed file and a matching line |
| Finder.ContentResultsSound | src/app.rs:1132-1170 | every content result is a matching line of a readable listed file |
| Finder.FirstFileSettles | src/app.rs:1158-1160 | with a cap of 0, the search stops after the first hit of the first readable file |
| Finder.ContentSearch | src/app.rs:1132-1170 | the nested loop with its two early exits returns exactly the specified results |
| Finder.ClampSelection | src/app.rs:1172-1176 | the selection is 0 on an empty list, otherwise below its length, and unchanged when already valid |
| Finder.SelectNext | src/app.rs:617-622 | moving down stays in the list and moves by at most one |
| Finder.SelectPrev | src/app.rs:623-627 | moving up moves by at most one and never below 0 |
| Finder.SelectionStaysValid | src/app.rs:617-627 | moving up or down keeps a valid selection valid |
| FileTrees.EntryLeTotalPreorder | src/model/file_tree.rs:206-210 | directories-first then case-insensitive name order is a total preorder |
| FileTrees.SortedEntries | src/model/file_tree.rs:206-210 | the sorted entries are a permutation with directories first and each group in lower-cased name order |
| FileTrees.ListingUnder | src/model/file_tree.rs:187-226 | every listed node lies at or below the listed directory, only through expanded directories |
| FileTrees.ListingParents | src/model/file_tree.rs:212-223 | every deeper node has its parent directory's row in the listing |
| FileTrees.ListingShowsEntry | src/model/file_tree.rs:212-223 | each entry's row and its expanded subtree appear as one contiguous block |
| FileTrees.ListingSiblings | src/model/file_tree.rs:206-223 | the top-level rows are one per entry, directories first, each group in lower-cased name order |
| FileTrees.AtDepth | src/model/file_tree.rs:212-223 | the rows at one depth are exactly the listed nodes with that depth |
| FileTrees.Rows | src/model/file_tree.rs:212-216 | one row per sorted entry, in order |
| FileTrees.AllFilePaths | src/model/file_tree.rs:68-82 | every walked file lies below the walked directory |
| FileTrees.ListedFilesWalked | src/model/file_tree.rs:68-82 | every file row shown in the tree is one of the walked file paths |
| FileTrees.NoteTarget | src/model/file_tree.rs:166-168 | a name with an extension is kept; a name without one gets ".md" with stem and parent kept |
| FileTrees.NewNoteText | src/model/file_tree.rs:174-180 | a new note's text is "# " + its stem (or "Untitled") + a blank line |
| FileTrees.FindPath | src/model/file_tree.rs:122-129 | the first row with the path, and None iff no row has it |
| FileTrees.FileTree.constructor | src/model/file_tree.rs:23-37 | a new tree expands only the root, lists the vault, and selects row 0 |
| FileTrees.FileTree.Refresh | src/model/file_tree.rs:39-51 | the rows are rebuilt from the listing and the selection is clamped into them |
| FileTrees.FileTree.PushChildren | src/model/file_tree.rs:187-226 | the recursion appends exactly the listing of the directory |
| FileTrees.FileTree.PushEntry | src/model/file_tree.rs:212-222 | one entry appends its own row, then the listing below it when it is an expanded directory |
| FileTrees.FileTree.MoveSelection | src/model/file_tree.rs:53-62 | the selection moves by delta, clamped to the rows, and is 0 on an empty tree |
| FileTrees.FileTree.SelectedNode | src/model/file_tree.rs:64-66 | the selected row, and None iff the selection is past the rows |
| FileTrees.FileTree.SelectedBelowRoot | src/model/file_tree.rs:64-66 | a selected row lies strictly below the root |
| FileTrees.FileTree.ToggleSelectedDir | src/model/file_tree.rs:88-106 | a selected directory flips in or out of the expanded set; otherwise nothing changes |
| FileTrees.FileTree.CollapseSelectedOrParent | src/model/file_tree.rs:108-132 | an expanded directory collapses; otherwise the selection moves to the parent's row when it is listed |
| FileTrees.FileTree.BeginCreate | src/model/file_tree.rs:134-136 | the create input is cleared and nothing else changes |
| FileTrees.FileTree.CreateTargetBaseDir | src/model/file_tree.rs:138-147 | the selected directory, the parent of a selected file, or the root |
| FileTrees.FileTree.CreateBaseIsDirectory | src/model/file_tree.rs:138-147 | the base directory is the root or a listed directory |
| FileTrees.CreatedListed | src/model/file_tree.rs:158-162 | once an entry is created with its missing parents, its row is listed when every directory on the way is expanded |
| FileTrees.CreatedShown | src/model/file_tree.rs:174-183 | a created path below the root, with every directory above it expanded and no file in its way, has a row in the relisted tree |
| FileTrees.FileTree.CommitCreate | src/model/file_tree.rs:149-185 | blank input does nothing; otherwise the input is cleared, the entry and its missing parents are created in the snapshot, the rows are relisted from it with the selection clamped, "dir/" expands the new directory, other input names a note (".md" added when there is no extension) whose text is written only when it does not exist, and the created entry has a row when every directory above it is expanded |
| CommandLine.Escape | src/app.rs:1750-1764 | escaping never shortens a string |
| CommandLine.UnescapeEscape | src/app.rs:1750-1764 | unescaping an escaped string gives it back |
| CommandLine.UnescapePlain | src/app.rs:1750-1764 | text without backslashes is unchanged |
| CommandLine.ParsePluginCommandInput | src/app.rs:1732-1771 | the loop computes the command parse |
| CommandLine.ParsePluginCommand | src/app.rs:1732-1771 | the parsed command is no longer than the trimmed input and has no whitespace at either end |
| CommandLine.UnescapeQuoted | src/app.rs:1750-1768 | the escape-flag loop computes the unescaping, a trailing backslash kept |
| CommandLine.ParseUnquoted | src/app.rs:1733-1746 | unquoted input parses as its trimmed text |
| CommandLine.QuotedRoundTrip | src/app.rs:1732-1771 | a quoted, escaped, trimmed name parses back to the name |
| CommandLine.PluginArgument | src/app.rs:235-238 | the argument after "plugin " or "p " is shorter than the command |
| CommandLine.RouteNonBlank | src/app.rs:229-233 | a command is ignored iff it is blank; a routed plugin command is non-empty |
| CommandLine.RouteCommand | src/app.rs:229-244 | "help" and the reload spellings route only from those exact trimmed commands; the usage note comes only from a prefixed command whose parsed name is empty |
| CommandLine.ArgumentAfter | src/app.rs:235-238 | for a quoted argument X, the argument of "plugin X" or "p X" is X and the line is already trimmed |
| CommandLine.RouteArgument | src/app.rs:235-244 | a prefixed command with a non-empty parsed name runs that plugin command |
| CommandLine.RouteQuoted | src/app.rs:235-244 | `plugin "name"` and `p 'name'` run the plugin command name |
| Plugins.DisplayName | src/plugin/runtime.rs:64-69 | the manifest name when there is a manifest, else the id |
| Plugins.HandledMessageNames | src/plugin/runtime.rs:55-61 | the success message mentions both the plugin and the command |
| Plugins.PluginRuntime.Discover | src/plugin/runtime.rs:22-37 | a readable manifest gives Discovered with that manifest; otherwise Error with no manifest |
| Plugins.PluginRuntime.EnsureLoaded | src/plugin/runtime.rs:80-99 | a loaded runtime stays loaded; without a manifest it fails unchanged; otherwise it loads iff the entry file exists, and the error is recorded in the status |
| Plugins.PluginRuntime.ExecuteCommand | src/plugin/runtime.rs:50-62 | an unsupported command gives Ok(None) and no change; a supported one succeeds iff the runtime ends loaded, with the handled message, and a failure is the status error |
| Plugins.ExpandTilde | src/plugin/manager.rs:199-211 | a leading '~' is replaced by the home directory when known; otherwise the path is unchanged |
| Plugins.TrimEndChar | src/plugin/manager.rs:190 | removes exactly the trailing copies of the character |
| Plugins.TrimEndGit | src/plugin/manager.rs:190 | removes all trailing ".git" |
| Plugins.LastSegment | src/plugin/manager.rs:191-195 | the text after the last '/' |
| Plugins.RepoSlug | src/plugin/manager.rs:189-197 | the slug is never empty and never contains '/' |
| Plugins.RepoSlugOfUrl | src/plugin/manager.rs:189-197 | the slug of ".../name.git/" is name, whatever the trailing ".git" and '/' |
| Plugins.ResolvePluginRoot | src/plugin/manager.rs:153-162 | an explicit path wins, kept as its tilde-expanded text; otherwise a repo gives the base joined with the slug (the text ends with the slug and names base/slug); neither gives None |
| Plugins.PluginKeyDistinguishes | src/plugin/manager.rs:164-174 | repo keys are equal iff the repos are; a repo key never equals a path key |
| Plugins.PluginKey | src/plugin/manager.rs:164-174 | a key starts with "repo:" exactly when the configuration names a repository |
| Plugins.Candidates | src/plugin/manager.rs:17-37 | at most one candidate per config |
| Plugins.Keys | src/plugin/manager.rs:17-37 | the candidate keys, in order |
| Plugins.Firsts | src/plugin/manager.rs:17-37 | the registry has exactly the candidates' keys |
| Plugins.FirstsSpec | src/plugin/manager.rs:27-33 | each key maps to the root of its first candidate |
| Plugins.Register | src/plugin/manager.rs:27-33 | registering keeps the registry invariant, and a key already present leaves the registry unchanged |
| Plugins.RegistryValid | src/plugin/manager.rs:17-37 | the registry order lists each runtime key exactly once |
| Plugins.DiscoverAll | src/plugin/manager.rs:17-37 | the loop builds the registry of the enabled candidates, each discovered from its manifest |
| Plugins.PluginManager.constructor | src/plugin/manager.rs:17-37 | the manager holds the registry of the configs, each runtime discovered |
| Plugins.PluginManager.Rebuild | src/app.rs:272 | rebuilding replaces the registry with one built from the configs |
| Plugins.PluginManager.InfosOf | src/plugin/manager.rs:68-110 | the runtimes' descriptions, in registry order |
| Plugins.PluginManager.SupportingIn | src/plugin/manager.rs:130-137 | exactly the runtimes whose manifest declares the command |
| Plugins.PluginManager.ExecuteCommand | src/plugin/manager.rs:130-151 | no supporter gives "not found", several give "ambiguous" with no status change, one runs that runtime only and reports its message or error |
| Plugins.ErrorCount | src/plugin/manager.rs:43-48 | at most one error per runtime |
| Plugins.ErrorNotifications | src/plugin/manager.rs:68-83 | one line per failed runtime |
| Plugins.SummaryNotification | src/plugin/manager.rs:60-66 | reports the runtimes without errors and those with errors |
| Plugins.StartupNotifications | src/plugin/manager.rs:50-58 | empty iff there are no runtimes; otherwise the summary followed by the error lines |
| Plugins.LexLeTotalPreorder | src/plugin/manager.rs:85-110 | string order is a total preorder |
| Plugins.ListNotificationsSpec | src/plugin/manager.rs:85-110 | "none configured" when empty; otherwise one row per runtime, sorted |
| Plugins.NamesOf | src/plugin/manager.rs:112-128 | a manifest's command names, in order |
| Plugins.SupportedCommandListed | src/plugin/manager.rs:112-128 | every command a runtime supports is among the listed names |
| Plugins.CommandNotificationsSpec | src/plugin/manager.rs:112-128 | the listed command names are distinct, sorted, and exactly the declared ones |
| Plugins.CommandNotificationsEmpty | src/plugin/manager.rs:112-128 | "none discovered" when there are no commands; otherwise one comma-joined line |
| Editor.Capped | src/app.rs:294-299 | the queue keeps its newest entries, at most the cap of 8 |
| Editor.CappedPushLast | src/app.rs:294-299 | pushing onto a queue within the cap stays within it and ends with the new note |
| Editor.PushedAllNewest | src/app.rs:282-284 | pushing several notes stays within the cap and ends with the last of them |
| Editor.ReportNotes | src/app.rs:247-269 | help lists the built-ins first; errors gives "no errors" iff there are none, else one line per error |
| Editor.ErrorLinesPrefixed | src/plugin/manager.rs:68-83 | every error line starts with "plugin " |
| Editor.ReloadNotes | src/app.rs:271-277 | "reloaded", then the summary, then one line per error |
| Editor.Saved | src/app.rs:733-741 | a saved buffer is no longer pending, with text, path and cursor kept |
| Editor.PendingPaths | src/app.rs:175-188 | exactly the inactive buffers with unsaved changes or a deadline |
| Editor.DuePaths | src/app.rs:716-729 | exactly the inactive buffers whose deadline has passed |
| Editor.SaveEachClears | src/app.rs:767-789 | saving every pending inactive buffer leaves none pending |
| Editor.SaveEachValid | src/app.rs:752-765 | saving keeps inactive buffers valid |
| Editor.Pop | src/app.rs:421-422 | removes the last character of a non-empty input |
| Editor.WrapIndex | src/app.rs:879-892 | the wrapped index is within the tabs, and is current+delta when that is in range |
| Editor.WrapIndexEnds | src/app.rs:889 | moving right from the last tab gives the first, and left from the first gives the last |
| Editor.Without | src/app.rs:794-796 | removes exactly the tabs that are the deleted file |
| Editor.WithoutNoDup | src/app.rs:808-812 | removing tabs keeps them duplicate-free |
| Editor.FileState | src/model/buffer.rs:49-59 | a file opened from disk holds its text and path and is clean |
| Editor.Reopened | src/app.rs:907-913 | reopening keeps text, path, cursor, flags and top line, with the configured scroll margin |
| Editor.Stashed | src/app.rs:902-905 | a buffer with a path is stored under it; one without is dropped |
| Editor.TabIndex | src/app.rs:894-899 | the first tab that is the file, and None iff no tab is |
| Editor.AddedTab | src/app.rs:916-918 | a file already open keeps the tabs unchanged |
| Editor.AddedTabNoDup | src/app.rs:916-918 | adding keeps tabs duplicate-free and the file then has a tab |
| Editor.SwitchBackRestores | src/app.rs:901-926 | switching away and back restores the original buffer and leaves the other stored buffers as they were |
| Editor.DropStale | src/app.rs:798-806 | drops exactly the stored buffers of the changed file |
| Editor.Reloaded | src/app.rs:812-823 | a reloaded buffer holds the new text, clean, with the old cursor clamped into it and a top line at or above the cursor row |
| Editor.FinderResultsCapped | src/app.rs:1082-1179 | file mode returns at most the cap; content mode at most the cap, or one at cap 0; content mode with an empty query returns nothing |
| Editor.FinderResults | src/app.rs:1082-1179 | content results, and only they, carry a line number |
| Editor.WithNote | src/app.rs:1025-1031 | the note's missing parents are made and it joins the vault's snapshot; it exists afterwards, a missing note gets the text, an existing one keeps its contents, and every other file keeps both its presence and its contents |
| Editor.NormalAction | src/app.rs:315-402 | g then d follows the link, and only then; motion, panel and save keys are as bound |
| Editor.MotionKeys | src/app.rs:390-393 | h/j/k/l act like the arrow keys |
| Editor.LeaderThenD | src/app.rs:321-327 | 'd' alone does nothing; after 'g' it follows the link |
| Editor.MoveStep | src/app.rs:646-689 | a cursor move keeps the selection |
| Editor.MoveStepInLine | src/app.rs:644-695 | horizontal moves stay on the row and in the line; up and down move one row, saturating at the ends |
| Editor.LeftThenRight | src/app.rs:659-675 | moving left then right returns to the same column |
| Editor.JumpRow | src/app.rs:554-555 | a 1-based line in range jumps to its row, and the row is always valid |
| Editor.App.PendingWriteCount | src/app.rs:175-188 | zero iff neither the active nor any inactive buffer has unsaved changes or a deadline |
| Editor.App.constructor | src/app.rs:134-173 | the initial session: Normal mode, the scratch buffer as the only tab, the startup notifications, and everything else empty |
| Editor.App.PushNotification | src/app.rs:294-299 | the message is appended and the oldest dropped beyond the cap |
| Editor.App.PushAll | src/app.rs:282-284 | each note is pushed in turn |
| Editor.App.RunPluginCommand | src/plugin/manager.rs:130-151 | no supporter reports "not found" and several report "ambiguous", both leaving every runtime alone; with one supporter, only its status can change, it is loaded iff it was or its entry file exists, and the handled message or its "plugin <name>: <error>" line is pushed |
| Editor.App.ReloadPlugins | src/app.rs:271-277 | the manager is rebuilt from the config and the reload lines are shown |
| Editor.App.HandlePluginCommand | src/app.rs:229-285 | blank commands are ignored; built-ins report without touching plugins; a plugin command gives "not found", "ambiguous" or the one supporter's handled message or load error, other runtimes unchanged; reload rebuilds the manager |
| Editor.App.HandlePluginEvent | src/app.rs:287-292 | Notify pushes the message; RequestRedraw marks the render stale |
| Editor.App.WindowBottom | src/app.rs:1250 | the window ends no later than the last line and no later than top plus height |
| Editor.App.RenderEditor | src/app.rs:1248-1271 | the cache is rebuilt only when dirty or the window moved; it then holds the window rendered from the fence state before its top; otherwise it is reused |
| Editor.App.ScheduleAutoSave | src/app.rs:697-700 | the save deadline becomes now plus the debounce |
| Editor.App.SaveActiveAtPath | src/app.rs:743-750 | the active buffer is logged as saved at that path and is clean |
| Editor.App.SaveBuffer | src/app.rs:733-741 | a buffer with a path is logged as saved and made clean; without a path nothing happens |
| Editor.App.SaveInactive | src/app.rs:752-765 | a stored buffer is logged as saved and made clean; an unknown path changes nothing |
| Editor.App.SaveInactiveSet | src/app.rs:716-729 | every given stored buffer is saved and logged |
| Editor.App.SaveAllBuffers | src/app.rs:767-789 | every pending buffer with a path is saved (`AllSaved`): the stored buffers become `SaveEach` of the pending ones, their texts and the active one's join the saved log, the last save records the active path and time when it was saved, and only a pathless active buffer can remain pending |
| Editor.App.ExpireQuitLatch | src/app.rs:705-708 | the quit latch is disarmed once its deadline has passed |
| Editor.App.SaveActiveIfDue | src/app.rs:710-714 | the active buffer is saved once its deadline has passed and it has a path, its text logged and the save time recorded; otherwise nothing changes |
| Editor.App.HandleTick | src/app.rs:702-731 | a tick (`TickDone`) expires the quit latch at its deadline and keeps it before; saves the active buffer when due and exactly the due stored buffers; the saved log gains exactly their texts and the last save is updated only when the active buffer was saved |
| Editor.App.ArmQuit | src/app.rs:356-358 | the latch is armed until now plus 2 s |
| Editor.App.ConfirmQuit | src/app.rs:351-355 | saves everything as SaveAllBuffers does (`AllSaved`: stored buffers, saved log, last save, pending count) and quits, the latch cleared |
| Editor.App.PressQuit | src/app.rs:347-360 | with nothing pending q quits; with pending writes a first q arms the latch and a second saves all as SaveAllBuffers does (`AllSaved`) and quits |
| Editor.App.MarkRenderDirty | src/app.rs:875-877 | only the cache's dirty flag is set |
| Editor.App.BookEdit | src/app.rs:197-198 | (EditBooked) after an edit the render is stale, the save deadline is now + debounce and a write is pending; the buffer's path and viewport are kept and App.Valid is preserved |
| Editor.App.TypeChar | src/app.rs:195-199 | (BufferMsgDone, InsertChar) the character is inserted at the cursor's character index and the column advances by its UTF-8 width; the buffer is dirty, the save deadline becomes now + debounce, the render is marked stale, a write is pending; path and viewport are kept |
| Editor.App.TypeNewline | src/app.rs:205-209 | (BufferMsgDone, NewLine) a newline is inserted at the cursor's character index, the line count grows by one and the cursor goes to the next row's start; dirty, save deadline now + debounce, render stale; path and viewport are kept |
| Editor.App.TypeBackspace | src/app.rs:200-204 | (BufferMsgDone, DeleteChar) the text and cursor become Buffers.Backspace of the old ones; dirty exactly when it was or the cursor was not at the very start; save deadline now + debounce, render stale; path and viewport are kept |
| Editor.App.MoveCursor | src/app.rs:644-695 | (CursorMoved) the cursor moves one step and is clamped, the view scrolls to it; text, path, dirty flag and save deadline are kept; the render is stale iff the view moved or it already was |
| Editor.App.JumpToLine | src/app.rs:551-560 | the cursor goes to the start of the given 1-based line and the view follows |
| Editor.App.ActiveTabIndex | src/app.rs:894-899 | the tab of the active file, and None without a path |
| Editor.App.StashActive | src/app.rs:902-905 | a buffer with a path is stored under it and replaced by an empty one; a pathless buffer stays |
| Editor.App.TakeTab | src/app.rs:907-914 | a stored buffer is taken out and reopened; otherwise the file is read; a missing file gives a read error |
| Editor.App.AddTab | src/app.rs:916-918 | a tab is added only when absent, so tabs stay duplicate-free |
| Editor.App.RefreshBacklinks | src/app.rs:943-993 | the panel holds exactly the sorted backlinks to the active note, first one selected |
| Editor.App.SwapIn | src/app.rs:901-917 | the active buffer is stored, and the target is taken from the store or read from disk; on failure the active slot stays empty |
| Editor.App.ActivateTab | src/app.rs:901-926 | as SwapIn; on success the tab is added and the render marked stale |
| Editor.App.SwitchTabRelative | src/app.rs:879-892 | with at most one tab, or none active, nothing changes; otherwise the tab at (current + delta) mod count is activated |
| Editor.App.SaveIfDirty | src/app.rs:862-864 | a dirty buffer with a path is saved first |
| Editor.App.OpenOther | src/app.rs:862-873 | the old buffer is saved when dirty, then the file is activated |
| Editor.App.OpenFile | src/app.rs:852-873 | opening the active file changes nothing; otherwise the old buffer is saved when dirty and the file is activated |
| Editor.App.OpenFileFrom | src/app.rs:852-873 | on success the active buffer is the opened file |
| Editor.App.PruneTabs | src/app.rs:794-806 | a deleted file loses its tab, and stored copies of the file are dropped |
| Editor.App.ReloadActive | src/app.rs:812-849 | the active buffer is reloaded from disk with its cursor clamped; an unreadable file changes nothing |
| Editor.App.ShouldReloadActive | src/app.rs:828-849 | a reload needs a clean active buffer with a path, and is refused when the same file was saved by the editor at most 1200 ms earlier |
| Editor.App.HandleFileChanged | src/app.rs:791-826 | the tree is refreshed, deleted files lose their tabs, stored copies are dropped, and the active buffer is reloaded exactly when it is clean and not just saved |
| Editor.App.RefreshTree | src/model/file_tree.rs:39-51 | the tree is relisted from disk with its expansion kept |
| Editor.App.ComputeFinderResults | src/app.rs:1082-1179 | the results for the current mode and query |
| Editor.App.RefreshFinderResults | src/app.rs:1082-1179 | the results are recomputed and the selection is clamped, or reset for an empty query |
| Editor.App.SetFinderResults | src/app.rs:1085-1176 | as RefreshFinderResults, after the tree refresh |
| Editor.App.ResetFinder | src/app.rs:1073-1080 | the finder opens in the given mode with an empty query |
| Editor.App.OpenFinder | src/app.rs:1073-1080 | the finder opens with an empty query and the results for it |
| Editor.App.CloseFinder | src/app.rs:594-599 | the finder closes, its query and results cleared |
| Editor.App.EditFinderQuery | src/app.rs:628-637 | the query changes and the results follow it |
| Editor.App.OpenFinderSelection | src/app.rs:601-614 | the selected result is opened, and a content hit jumps to its line |
| Editor.App.HandleKeyFinder | src/app.rs:592-642 | Esc closes; Enter opens the selection and closes; j/k move the selection; typing and Backspace edit the query and refresh |
| Editor.App.BrowseFinder | src/app.rs:617-637 | j/k move the selection; typing and Backspace edit the query and refresh |
| Editor.App.SelectNextResult | src/app.rs:617-622 | the selection moves down within the results |
| Editor.App.SelectPrevResult | src/app.rs:623-627 | the selection moves up, not below 0 |
| Editor.App.OpenBacklinkSelection | src/app.rs:551-560 | the selected backlink's file is opened at its line |
| Editor.App.BrowseBacklinks | src/app.rs:537-550 | Esc hides the panel; j/k move the selection |
| Editor.App.HandleKeyBacklinks | src/app.rs:531-565 | Ctrl-b toggles the panel (mode kept, backlinks refreshed when shown, buffer kept), Esc hides, j/k move, Enter opens the selected backlink at its line |
| Editor.App.FollowLink | src/app.rs:1002-1011 | a resolved link is opened; an unresolved one is held for confirmation |
| Editor.App.HoldNewNote | src/app.rs:1007-1010 | the note path is held and the confirm prompt shown |
| Editor.App.FollowWikilinkUnderCursor | src/app.rs:995-1012 | no link appends "No WikiLink under cursor"; otherwise the link is followed |
| Editor.App.LinkUnderCursor | src/app.rs:1039-1050 | the target of the wikilink under the cursor |
| Editor.App.AppendNotification | src/app.rs:997-998 | the message is appended without the cap |
| Editor.App.TakePendingNote | src/app.rs:1015-1031 | the held path is released; a missing note is created with its title text |
| Editor.App.RelistWithNote | src/app.rs:1034 | the vault is relisted from the snapshot with the note created, and the note has a row when every directory above it is expanded |
| Editor.App.ConfirmCreateWikilink | src/app.rs:1014-1037 | the held note is created when missing, the tree relisted from the snapshot after the creation (listing the note when every directory above it is expanded), and the note opened |
| Editor.App.HandleKeyConfirmCreate | src/app.rs:517-529 | y creates the held note, relists the tree with it and opens it; n or Esc drops it; other keys change nothing |
| Editor.App.ToggleSidebar | src/app.rs:329-336 | the sidebar flips; showing it refreshes the tree and enters Sidebar mode, hiding it keeps the mode and the tree |
| Editor.App.OpenSidebarSelection | src/app.rs:487-509 | a directory is toggled; a file is opened and Normal mode entered |
| Editor.App.MoveTreeSelection | src/app.rs:484-485 | j/k move the tree selection by one |
| Editor.App.CollapseTreeSelection | src/app.rs:486 | with no selection nothing changes; an expanded directory collapses and the selection is clamped to the new listing; otherwise the selection moves to the parent directory's row when it is listed |
| Editor.App.BeginTreeCreate | src/app.rs:497-500 | enters create mode with empty input |
| Editor.App.FlipSidebar | src/app.rs:438-445 | the sidebar visibility flips |
| Editor.App.ToggleTreeDir | src/model/file_tree.rs:88-106 | the selected directory flips expansion |
| Editor.App.SetCreateInput | src/app.rs:573-586 | the create input is set |
| Editor.App.BrowseSidebar | src/app.rs:480-500 | Esc returns to Normal; j/k move the selection by one; h keeps the mode and collapses the selected directory or moves to its parent; a starts creating with empty input; other keys change nothing |
| Editor.App.HideSidebar | src/app.rs:474-477 | the sidebar hides and Normal mode returns |
| Editor.App.HandleKeySidebar | src/app.rs:473-515 | Ctrl-e hides and returns to Normal; l/→/Enter toggle the selected directory or open the selected file; j/k/h/a/Esc browse as BrowseSidebar states, keeping the buffer |
| Editor.App.CommitTreeCreate | src/app.rs:576-582 | the tree's create rule decides the new note and its text, and the tree's new state (prompt cleared, entry created in the vault's snapshot and listed, "dir/" expanded, selection clamped) |
| Editor.App.RecordCreated | src/model/file_tree.rs:172-180 | a missing note is logged as created with its text |
| Editor.App.CommitSidebarCreate | src/app.rs:567-590 | the tree's new state as CommitCreate states it; blank or directory input stays in the sidebar; a note is created when missing and opened |
| Editor.App.OpenCreated | src/app.rs:577-579 | the created note is logged and opened in Normal mode |
| Editor.App.SetMode | src/app.rs:211 | the mode is set |
| Editor.App.HandleKeySidebarCreate | src/app.rs:567-590 | Esc cancels with empty input; Backspace and typing edit the input; Enter leaves the tree as CommitCreate states (prompt cleared, entry created and listed, "dir/" expanded), stays in Sidebar mode for blank or '/'-ending input, and otherwise logs the note when new and opens it in Normal mode; other keys change nothing |
| Editor.App.SetCommandInput | src/app.rs:426-433 | the command input is set |
| Editor.App.Send | src/app.rs:417-419 | the message is appended to the outbox |
| Editor.App.HandleKeyCommand | src/app.rs:404-435 | (CommandKeyDone) Esc clears and leaves; Enter sends the trimmed non-blank command and leaves; Backspace pops and typing (no modifier or Shift) appends; each marks the render stale; other keys change nothing |
| Editor.App.HandleKeyInsert | src/app.rs:437-471 | Ctrl-e toggles the sidebar (SidebarToggled) and keeps the buffer; every other key has InsertKeyDone's effect with the sidebar kept: Esc returns to Normal and changes nothing else; a character, Enter and Backspace edit as TypeChar, TypeNewline and TypeBackspace, each setting the save deadline to now + debounce and marking the render stale; the arrows move as MoveCursor, keeping text, dirty flag and deadline; other keys change nothing; the path is always kept |
| Editor.App.InsertModeKey | src/app.rs:447-469 | (InsertKeyDone) the Insert-mode keys other than Ctrl-e: Esc returns to Normal with the buffer unchanged; the edits as TypeChar/TypeNewline/TypeBackspace with deadline now + debounce and render stale; the arrows as MoveCursor with text, dirty flag and deadline kept; other keys change nothing; only Esc changes the mode |
| Editor.App.SetPendingKey | src/app.rs:321-327 | the pending leader key is set |
| Editor.App.DisarmQuit | src/app.rs:316-319 | the quit latch is cleared |
| Editor.App.RequestQuit | src/app.rs:219 | the session quits |
| Editor.App.EnterCommandLine | src/app.rs:366-370 | Command mode with an empty input |
| Editor.App.SaveActive | src/app.rs:396-398 | the active buffer is saved when it has a path |
| Editor.App.ForceQuit | src/app.rs:361-364 | saves all as SaveAllBuffers does (`AllSaved`) and quits |
| Editor.App.PerformPanelKey | src/app.rs:329-389 | Ctrl-e toggles the sidebar, Ctrl-b the backlinks panel (refreshed when shown), ':' enters Command mode, the finder keys open the finder on its first results for an empty query |
| Editor.App.PerformSessionKey | src/app.rs:347-398 | quit and save keys do what they are bound to: a quit that saves leaves `AllSaved`, one that does not leaves the buffers and the saved log alone; g d follows the link under the cursor or notes there is none; Ctrl-n/Ctrl-p switch to the wrapped neighbouring tab (a failed read is reported), or change nothing with one tab or none active |
| Editor.App.ClearNormalLatches | src/app.rs:316-327 | any key but q disarms the quit latch; the leader key is consumed |
| Editor.App.PerformNormal | src/app.rs:315-402 | g arms the leader; a motion key moves as MoveCursor (CursorMoved: clamped step, scrolled view, text, dirty flag and deadline kept); unbound keys change nothing; the quit latch is only touched by q |
| Editor.App.PerformBufferKey | src/app.rs:342-402 | the non-panel actions: g arms the leader; a motion key moves as MoveCursor (CursorMoved); unbound keys change nothing; q quits when nothing is pending or the latch is armed and otherwise arms it for 2 s, saving all (`AllSaved`) only when it quits with writes pending; Q saves all (`AllSaved`) and quits; Ctrl-s saves the active buffer; gd follows the link (LinkKeyFollowed); Ctrl-n/Ctrl-p switch tabs (TabSwitched) |
| Editor.App.PerformMotionKey | src/app.rs:342-395 | a motion key (h/j/k/l, arrows, 0, $) moves as MoveCursor (CursorMoved: clamped step, scrolled view, text, path, dirty flag and deadline kept); g arms the leader without touching the buffer; otherwise the leader is kept |
| Editor.App.HandleKeyNormal | src/app.rs:315-402 | the key's action is the Normal-mode binding, the quit latch is cleared by non-q keys, the leader key is consumed, and a motion key moves the cursor as MoveCursor (CursorMoved) |
| Editor.App.ShowBacklinksPanel | src/app.rs:929-939 | the panel shows the fresh backlinks in Backlinks mode |
| Editor.App.HideBacklinksPanel | src/app.rs:934-938 | the panel hides and Normal mode returns |
| Editor.App.ToggleBacklinksPanel | src/app.rs:928-941 | the panel flips; shown, it holds the fresh backlinks |
| Editor.App.HandleEditKey | src/app.rs:301-313 | outside Normal mode the leader key, quit flag and quit latch are untouched; only Command mode sends |
| Editor.App.HandleTypingKey | src/app.rs:304-305 | in Insert mode: Ctrl-e toggles the sidebar (SidebarToggled), other keys have InsertKeyDone's effect, the command line is kept; in Command mode: CommandKeyDone's effect with buffer, tree and sidebar kept; outside Command mode nothing is sent |
| Editor.App.HandlePanelKey | src/app.rs:301-313 | only the confirm and sidebar-create modes create notes |
| Editor.App.HandleKey | src/app.rs:301-313 | LinkPicker ignores keys; only Normal mode touches the leader key and quit latch; only Command mode sends; only the create modes create notes |
| Editor.App.Resize | src/app.rs:220-223 | the viewport height becomes the area height minus 3, saturating at 0 |
| Editor.App.UpdateBuffer | src/app.rs:195-223 | (BufferMsgDone) InsertChar, NewLine and DeleteChar edit text, cursor and dirty flag as TypeChar/TypeNewline/TypeBackspace, set the save deadline to now + debounce and mark the render stale; MoveCursor moves as MoveCursor, keeping text, dirty flag and deadline; Resize sets the viewport height to three less and marks the render stale; the path is kept |
| Editor.App.UpdateText | src/app.rs:195-209 | (BufferMsgDone) InsertChar, DeleteChar and NewLine edit as TypeChar, TypeBackspace and TypeNewline, with the save deadline now + debounce and the render stale |
| Editor.App.UpdateView | src/app.rs:210-223 | (BufferMsgDone) MoveCursor moves as MoveCursor; Resize sets the viewport height to three less and marks the render stale, keeping text, cursor, dirty flag and deadline |
| Editor.App.UpdateFiles | src/app.rs:212-218 | only OpenFile can fail; SaveAllBuffers leaves only a pathless active buffer pending; a successful OpenFile makes the file active |
| Editor.App.UpdateSession | src/app.rs:211-219 | Quit sets the quit flag, SetMode sets the mode, and the other messages leave the quit flag alone |
| Editor.App.Update | src/app.rs:192-227 | mouse and scratch-save messages change nothing; Quit quits; SetMode sets the mode; only key messages can send commands |
| Editor.App.UpdateOther | src/app.rs:192-227 | Quit quits, SetMode sets the mode, and every other non-key message keeps the quit flag |
| Editor.RenderWindowOf | src/app.rs:1257-1263 | the window's lines rendered from the fence state before its top |
| Editor.LoadPlugins | src/plugin/manager.rs:17-37 | a manager built from the configured plugins |
| Editor.NewApp | src/app.rs:113-166 | start-up fails iff the scratch file exists but cannot be read; otherwise the initial session |
| Editor.StartApp | src/app.rs:130-166 | the initial session over the vault tree, plugins and scratch buffer |
| Editor.ReloadedBuffer | src/app.rs:815-820 | a fresh buffer with the reloaded state |
| Editor.OpenVault | src/app.rs:130-131 | the tree lists the vault with only the root expanded, and the plugin manager is built |
| Editor.OpenScratch | src/app.rs:116-128 | an existing scratch file is read, a missing one starts empty, an unreadable one is an error |

## Left out

- File system: directories become the `Entry` tree in `Disk`. Directory
  walking (`WalkBuilder`) becomes `AllFilePaths` and `Listing` over that tree;
  the walker lists hidden files (`.hidden(false)`), which the tree may hold
  like any other entry; its ignore-file (`.gitignore`) filtering is not
  modelled, so the tree stands for what the walk returns.
  Reads succeed exactly for paths in the `contents` map. I/O errors other than
  "cannot read", failures of directory creation (`create_dir_all`) and of
  writes, and the `.tmp`-then-rename save are not modelled. A creation whose
  path does not lie below the vault by plain names (an absolute name outside
  it, or a `..` step) leaves the vault's snapshot as it was.
- `same_file_path` compares paths through a given canonicalisation map instead
  of `std::fs::canonicalize`.
- The background save thread (`spawn_buffer_save`) becomes an entry in the ghost
  `saved` log.
- All drawing is left out: `view`, the `render_*` widgets, `centered_rect`,
  syntect highlighting and the syntax-set statics. Styles are abstract tags.
  Code-block lines carry their language instead of highlighted spans.
- The fuzzy scorer (SkimMatcherV2) is an uninterpreted function.
  `to_lowercase` and `eq_ignore_ascii_case` become ASCII lower-casing.
- `HashMap` iteration order is not modelled. The plugin registry keeps an
  insertion-order key sequence; the stored inactive buffers are a `map`.
- Config loading (TOML, layering) is out; `Config` is a record of the values
  used. `expand_tilde`'s home directory and `default_plugin_base_dir` are
  parameters.
- WASM plugin execution is out: loading succeeds exactly when the entry file
  exists, and a supported command returns the handled message.
- Plugin roots, manifest paths and entry paths are kept as the text
  `PathBuf::join` builds (`PathText`), so messages show them as configured
  (`./p` stays `./p`). Whether an entry file exists is decided on the path's
  components, where `.` components and repeated or trailing '/' do not count,
  as for the file system; `..` is not resolved.
- The main loop, the input, tick and watcher threads and the channel are out.
  `App` handles one message per call, as the loop does. Messages sent on the
  channel are appended to `outbox`.
- Mouse messages and `ScratchAutoSave` are ignored, as in the source. The
  unused `last_tick` field is left out.
- Widths and counts (`u16`, `usize`) are unbounded naturals. The one place
  in the modelled code where a subtraction can underflow is listed under
  Findings.
- `Mode` declares `ConfirmCreate` and `Backlinks`, which the application uses
  although the mode file does not list them. Their labels "CONFIRM" and
  "BACKLINKS" are chosen here. `Msg::PluginCommand`, `Msg::PluginEvent`,
  `PluginAction` and `PluginConfig` are declared with the shapes the code uses.
- `move_cursor` Left/Right keep the source's one-byte step, so the column can
  land inside a multi-byte character.
- Editor.App.OpenFile: the second backlinks refresh after opening is not
  modelled; it reads the same disk for the same note and gives the same list.
- Editor.App.OpenFinder: the finder's second result refresh is not modelled;
  it gives the same results.
- Editor.App.ReloadPlugins: the manager is rebuilt in place instead of being
  replaced by a new object.
- Buffers.Buffer.DeleteCharBefore: removes by character index after converting
  the byte offset. The source hands byte offsets to ropey's `remove`
  (src/model/buffer.rs:114 and :128), which counts characters; that code is
  modelled separately by Buffers.BackspaceAsWritten and is the second row
  under Findings.
- Buffers.Buffer.DeleteCharBefore: with the column inside a multi-byte
  character (reachable through the one-byte Left step), the model removes
  the containing character; the source's `byte_slice(..byte_idx)` panics
  there (Buffers.RemoveBeforeAsWritten gives `None`).
- Buffers.Buffer.InsertNewline: inserts the '\n' at the character index of
  the cursor's byte offset; the source hands the byte offset itself to
  `insert_char` (src/model/buffer.rs:93), which the second row under
  Findings covers together with `insert_char`.
- Only '\n' ends a line. ropey's `len_lines`, `line` and `line_to_byte` also
  break lines at a lone '\r', at "\r\n" as one break, and at U+000B,
  U+000C, U+0085, U+2028 and U+2029; text holding those characters has more
  lines in the source than in the model.
- Cursors.CursorState.MoveTo: `move_to` and `clear_selection` assign fields of
  a cursor embedded by value in the buffer; they return the updated value.
- Editor.App.HandleKey: the contract states only what holds across all modes.
  The effect of each key is stated on the per-mode handler it calls.
- Editor.App.HandleEditKey: only the cross-mode facts are stated; the effects
  are on HandleKeyNormal (the action, latches, leader and motions),
  PerformPanelKey and PerformSessionKey (the other Normal-mode keys),
  HandleKeyInsert and HandleKeyCommand.
- Editor.App.HandlePanelKey: only the cross-mode facts are stated; the effects
  are on the sidebar, finder, confirm and backlinks handlers.
- Editor.App.Update: only facts common to all messages are stated; the effects
  are on UpdateBuffer, UpdateFiles, UpdateSession and the handlers.
- Editor.App.UpdateOther: only facts common to all non-key messages are
  stated; the effects are on UpdateBuffer, UpdateFiles and UpdateSession.
- Editor.App.UpdateFiles: states the outcome and the save-all and open cases;
  the full save-all effect is on SaveAllBuffers (`AllSaved`), the tick and
  file-change effects on HandleTick and HandleFileChanged.
- Editor.App.UpdateSession: plugin command and event effects are on
  HandlePluginCommand and HandlePluginEvent.
- Editor.App.PerformNormal: states motion, leader, quit-latch and no-op
  effects; the other actions are stated on PerformPanelKey and
  PerformSessionKey.
- Finder.ListFiles, Finder.FuzzyFiles, Finder.ContentResults: a result's
  preview, and the candidate text the fuzzy scorer is given, is
  `Paths.Display` of the path's components. The vault (`Config.vault`) is
  held as components, so its configured spelling is normalised: with a vault
  configured as `./notes`, `notes/` or `a//b` the model shows `notes/x.md` or
  `a/b/x.md` where the source's `to_string_lossy` shows `./notes/x.md` or
  `a//b/x.md`, and for such a vault the fuzzy scores, and so the ranking, can
  differ. Paths are components throughout because the tree, the link
  resolver and the backlinks compare them component-wise.

## Findings

| source | as written | input that shows it | evidently intended | confidence | as-written member | corrected member |
|---|---|---|---|---|---|---|
| src/model/buffer.rs:154-164 | `top_line + height - scroll_off` (line 161) underflows when the height is below the scroll margin; a Resize to a short terminal sets such a height (src/app.rs:220-223). Even without underflow, the top can move past the cursor, and then `cursor.row - viewport.top_line` in `view` (src/app.rs:1233-1234, not part of this model) underflows as well | cursor row 0 with Viewport(top 0, height 3, margin 5) underflows; row 10 with Viewport(5, 3, 5) sets the top to 13, past the cursor, so the cursor-position subtraction in `view` underflows | the cursor stays in the window, the margin narrowed to fit | not executed | Buffers.ScrollTopAsWritten, Buffers.ScrollAsWrittenLosesCursor | Buffers.ScrollTop, Buffers.ScrollAgreesWhenMarginFits |
| src/model/buffer.rs:83-133 | ropey's `insert_char` and `remove` take character indices, but `insert_char` (lines 85, 93) and `remove` (lines 114, 128) are given byte offsets from `cursor_byte_offset`, and `byte_slice(..byte_idx)` (line 122) is given an offset that can fall inside a character | text "éa" with the cursor at byte column 2 (after 'é') inserts a character or a newline after 'a'; text "é" at byte column 2 is past the end and panics; backspace on "é\nb" at (1, 0) removes the 'b' and keeps the '\n'; backspace on "éa" at byte column 3 removes past the end; backspace on "é" at byte column 1 slices inside the 'é' | insert and remove at the character index of the cursor's byte offset | not executed | Buffers.InsertAtByteAsWritten, Buffers.InsertAfterAccentAsWritten, Buffers.BackspaceAsWritten, Buffers.BackspaceAfterAccentAsWritten | Buffers.Buffer.InsertChar, Buffers.Buffer.InsertNewline, Buffers.Buffer.DeleteCharBefore, Buffers.InsertAgreesOnAscii, Buffers.BackspaceAgreesOnAscii |
