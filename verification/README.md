# File-Processor in Dafny

A model of the core of File-Processor ("ProDev Studio"), an in-browser IDE.
A user keeps projects. Each project is a flat list of file and folder
records, and each record knows its path and its parent path. The model
covers these parts:

- **Editor page** (`Session`, `SessionProps`). This covers the open tabs,
  the active tab and the unsaved edits, and the handlers that select, close,
  edit, save, create and delete. It also covers what the editor shows, its
  language, and the three sources handed to the live preview.
- **Tree builder** (`FileTree`, `FileTreeProps`). This is `buildFileTree`: a
  stable sort, folders first and then by name, followed by one pass that
  hangs every record under the last node seen with its parent path.
- **Language mapping** (`Language`). This is `getLanguageFromFileName`.
- **Live preview composer** (`Preview`, `TemplateTags`). This is
  `generatePreviewContent`: full-document detection, the style and script
  injection with JavaScript's `String.prototype.replace`, the five
  case-insensitive global regular-expression strips, and the fragment
  document.
- **File explorer** (`Explorer`). This covers the expanded folders, the
  name input, clicks and the context menu.
- **Starter templates** (`Templates`). This is `getTemplateFiles`: three
  fixed tables of rows, stamped with the new project's id.
- **Project list and repository list** (`Search`, `Dashboard`,
  `GitHubRepos`). This covers the search filter, the token form and the
  choice of what the page body shows.
- **New-project dialog** (`CreateProject`).

Shared helpers live in `Wrappers` (`Option`), `Strings` (search, ASCII
lower-casing, JavaScript white space and `trim`) and `Seqs` (filter,
subsequence, distinctness).

JavaScript's truthiness is modelled where the code relies on it. An empty
active path, an empty error text and an empty query are all falsy. The
stylesheet and script fall back with `a || b` on strings (`Session.Or`).

## Model

| member | source | states |
|---|---|---|
| FileTree.SortOrder | client/src/pages/editor.tsx:32-36 | the sort is a permutation of the record positions, strictly ordered folders first, then by name, ties in input order |
| FileTree.LastWithPath | client/src/pages/editor.tsx:47-52 | the path lookup finds the last record visited so far with that path, or reports that none has it |
| FileTree.LookupIsLast | client/src/pages/editor.tsx:47-52 | the map the loop fills holds a path exactly when some visited record has it, and maps it to the last such record |
| FileTree.AttachedViaLookup | client/src/pages/editor.tsx:49-55 | a record is pushed under a node exactly when it has a non-empty parent path, the lookup maps that path to the node, and the node is a folder |
| FileTree.RootIdx | client/src/pages/editor.tsx:49-50 | the root list holds exactly the visited records whose parent path is null or empty, in visiting order |
| FileTree.ChildIdx | client/src/pages/editor.tsx:51-55 | a node's children list holds exactly the visited records attached to it, in visiting order |
| FileTree.Visit | client/src/pages/editor.tsx:38-57 | one loop iteration keeps the loop state well formed for one more record |
| FileTree.WalkRootsAndLookup | client/src/pages/editor.tsx:38-57 | the loop's root list and its path map are the declarative root list and lookup |
| FileTree.VisitKids | client/src/pages/editor.tsx:49-55 | one iteration appends the record to exactly the children list of the node it is attached to |
| FileTree.WalkComputesLists | client/src/pages/editor.tsx:38-57 | after any number of iterations every children list of the loop is the declarative list |
| FileTree.BuildFileTreeAsRunIsDeclarative | client/src/pages/editor.tsx:28-60 | running the sort and the loop gives the tree the declarative index lists describe |
| FileTreeProps.SortedRecordsIsStableSort | client/src/pages/editor.tsx:32-36 | the sorted list is the input permuted, in comparator order, with tied records in their input order |
| FileTreeProps.FoldersFirst | client/src/pages/editor.tsx:33-34 | every folder sorts before every file |
| FileTreeProps.SortKeepsUniquePaths | client/src/pages/editor.tsx:32-36 | sorting keeps paths unique |
| FileTreeProps.ParentIdx | client/src/pages/editor.tsx:49-55 | the node a record ends up under is an earlier folder, and it is the only one the record is attached to |
| FileTreeProps.Children | client/src/pages/editor.tsx:45-54 | a materialised folder lists exactly the records whose parent node it is, in sorted order |
| FileTreeProps.KeptIffRootAncestor | client/src/pages/editor.tsx:49-55 | a record reaches the tree exactly when a root record is among its ancestors |
| FileTreeProps.ReachAtIsDescendants | client/src/pages/editor.tsx:38-59 | the subtree of a node holds exactly the records it is an ancestor of |
| FileTreeProps.SiblingSubtreesDisjoint | client/src/pages/editor.tsx:49-55 | the subtrees of two different siblings share no record |
| FileTreeProps.TreeFlattensToOrder | client/src/pages/editor.tsx:28-60 | the tree flattened in preorder is the nodes of the preorder list of records |
| FileTreeProps.TreeOrderDistinct | client/src/pages/editor.tsx:28-60 | no record yields two nodes in the tree |
| FileTreeProps.InTreeIffKept | client/src/pages/editor.tsx:49-56 | a record has a node in the tree if and only if it is kept |
| FileTreeProps.RootEntryIsRootRecord | client/src/pages/editor.tsx:49-50 | every entry of the returned list is the node of a root record |
| FileTreeProps.RootRecordInRootList | client/src/pages/editor.tsx:49-50 | every root record has its node in the returned list |
| FileTreeProps.KeptNeedsEarlierFolder | client/src/pages/editor.tsx:52-55 | a non-root record is kept only under a kept folder, visited before it, whose path is its parent path |
| FileTreeProps.NodeCopiesRecord | client/src/pages/editor.tsx:39-46 | a node copies id, name, path and content, turns the text "true" into the folder flag, and has a children list exactly when it is a folder |
| FileTreeProps.TreeSiblingsOrdered | client/src/pages/editor.tsx:32-36 | every sibling list at every depth is folders first, then by name |
| FileTreeProps.SortKeepsTwoLevel | client/src/pages/editor.tsx:32-36 | sorting keeps a two-level layout two-level |
| FileTreeProps.TwoLevelRecordKept | client/src/pages/editor.tsx:38-57 | in a two-level layout with unique paths every record is kept |
| FileTreeProps.TwoLevelTreeComplete | client/src/pages/editor.tsx:28-60 | a two-level layout with unique paths appears whole: one node per record |
| FileTreeProps.NestedLayoutSorted | client/src/pages/editor.tsx:35 | a sub-folder whose name sorts first is visited before its parent folder |
| FileTreeProps.SubfolderSortedFirstIsLost | client/src/pages/editor.tsx:52-55 | such a sub-folder finds no parent node yet and is lost with its files |
| FileTreeProps.OrphanDropped | client/src/pages/editor.tsx:52-55 | a record whose parent path names no record is dropped, not put at the root |
| Session.Initial | client/src/pages/editor.tsx:71-73 | the page starts with no tab, no active tab and no edit, which satisfies the session invariant with saving disabled |
| Session.FileWithPath | client/src/pages/editor.tsx:63 | the first record with the path, or none exactly when no record has it |
| Session.FileNamed | client/src/pages/editor.tsx:255 | the first record with the name, or none exactly when no record has it |
| Session.TabWithPath | client/src/pages/editor.tsx:249 | the first tab with the path, or none exactly when no tab has it |
| Session.FindFileContent | client/src/pages/editor.tsx:62-65 | the content of the first record at the path, or "" when there is none |
| Session.MarkTabs | client/src/pages/editor.tsx:178-182 | only the tabs at the path change, and only in their modified flag |
| Session.WithoutTab | client/src/pages/editor.tsx:163 | the tabs other than the one at the path, in their order |
| Session.Select | client/src/pages/editor.tsx:148-160 | an unknown path or a folder changes nothing; a file becomes active and, if it had no tab, gains one at the end with its name, not modified; edits are untouched |
| Session.Close | client/src/pages/editor.tsx:162-173 | the tab and its edit go; closing the active tab activates the rightmost remaining tab, or none |
| Session.Edit | client/src/pages/editor.tsx:175-183 | with an active tab, the text is recorded as its edit and its tab is marked modified, keeping its path and name; other tabs are untouched; without one nothing changes |
| Session.SaveRequest | client/src/pages/editor.tsx:185-191 | an update is sent exactly when there is an active path with a record and an edit, and it carries the record's id and the edit |
| Session.SaveSucceeded | client/src/pages/editor.tsx:193-203 | a successful save clears the edit and the modified flag of the saved path only; the saved tab keeps its path and name |
| Session.Save | client/src/pages/editor.tsx:185-209 | without a request nothing changes; with one, the success handler applies |
| Session.KeyDown | client/src/pages/editor.tsx:231-240 | Ctrl+S or Cmd+S saves, any other key changes nothing |
| Session.ApplyUpdate | client/src/pages/editor.tsx:100-101 | the store gives every record with the id the new content and leaves the rest alone |
| Session.LastSlash | client/src/pages/editor.tsx:213 | the position of the last '/' in a path, or none exactly when it has no '/' |
| Session.CreateRequest | client/src/pages/editor.tsx:211-221 | a create is sent only with a project id; the record has empty content, the requested folder flag, the path `parent/name` (or `name` at the root), and as parent the parent path itself, or null exactly for an empty parent path |
| Session.Delete | client/src/pages/editor.tsx:223-229 | a confirmed delete of an existing record sends its id and closes its tab; otherwise nothing happens |
| Session.CurrentContent | client/src/pages/editor.tsx:242-245 | the editor shows the active path's edit, else the stored content, else "" |
| Session.CurrentLanguage | client/src/pages/editor.tsx:247-251 | the language is one the mapping can return; it is plain text without an active tab or its tab, and otherwise the language of the active tab's name |
| Session.Or | client/src/pages/editor.tsx:261-262 | `a \|\| b` on strings is empty only when both are, is `a` when `a` is not empty, and `b` otherwise |
| Session.ContentNamed | client/src/pages/editor.tsx:254-258 | a missing file contributes ""; for the first record with the name, its unsaved edit wins (even an empty one) over its stored content |
| Session.PreviewSources | client/src/pages/editor.tsx:253-264 | the page is "index.html"; the stylesheet and the script are empty only when all their candidates are |
| SessionProps.SelectKeepsValid | client/src/pages/editor.tsx:148-160 | selecting keeps one tab per path, an open active path and edits only for open tabs |
| SessionProps.CloseKeepsValid | client/src/pages/editor.tsx:162-173 | closing keeps the session invariant |
| SessionProps.EditKeepsValid | client/src/pages/editor.tsx:175-183 | editing keeps the session invariant |
| SessionProps.SaveKeepsValid | client/src/pages/editor.tsx:185-209 | saving keeps the session invariant |
| SessionProps.DeleteKeepsValid | client/src/pages/editor.tsx:223-229 | deleting keeps the session invariant |
| SessionProps.KeyDownKeepsValid | client/src/pages/editor.tsx:231-240 | the key handler keeps the session invariant |
| SessionProps.SelectIdempotent | client/src/pages/editor.tsx:148-160 | opening the same file twice is opening it once |
| SessionProps.SelectOpensOneTab | client/src/pages/editor.tsx:152-159 | an opened file is active and has exactly one tab |
| SessionProps.CloseActiveSelectsLast | client/src/pages/editor.tsx:164-167 | closing the active tab activates the last remaining tab; none remains exactly when every tab had that path |
| SessionProps.CloseUnopened | client/src/pages/editor.tsx:162-173 | closing a path with no tab that is not active only drops its edit |
| SessionProps.EditThenContent | client/src/pages/editor.tsx:175-182 | the editor shows what was just typed (the shown text is chosen at lines 242-245) |
| SessionProps.EditEnablesSave | client/src/pages/editor.tsx:175-191 | typing enables the Save button, and the save then sends the typed text for that record (the button's condition is at line 330) |
| SessionProps.SaveSentIffEnabled | client/src/pages/editor.tsx:185-189 | a save is sent exactly when the button is enabled and the active path has a record (the button's condition is at line 330) |
| SessionProps.SaveDisablesSave | client/src/pages/editor.tsx:193-203 | after a successful save nothing is left to save (the button's condition is at line 330) |
| SessionProps.SaveKeepsShownContent | client/src/pages/editor.tsx:185-209 | once the store has the saved text, the editor shows the same text as before the save (the shown text is chosen at lines 242-245) |
| SessionProps.DeleteClosesTab | client/src/pages/editor.tsx:223-229 | a confirmed delete leaves neither a tab nor an edit for the path |
| SessionProps.CurrentLanguageAgainstAsWritten | client/src/pages/editor.tsx:247-251 | the editor's language equals the mapping as written for every active tab name except those whose extension is "constructor" or "__proto__", where the model gives plain text and the code an inherited member |
| SessionProps.EditKeepsLanguage | client/src/pages/editor.tsx:175-183 | typing leaves the editor's language unchanged, since the marked tab keeps its name |
| SessionProps.SaveKeepsLanguage | client/src/pages/editor.tsx:193-203 | saving leaves the editor's language unchanged, since the saved tab keeps its name |
| SessionProps.SelectThenLanguage | client/src/pages/editor.tsx:247-251 | opening a file with no tab selects the language of its name |
| SessionProps.ContentNamedFollowsEditor | client/src/pages/editor.tsx:241-258 | for any name whose first record is the active file, the preview reads exactly what the editor shows |
| SessionProps.EditThenContentNamed | client/src/pages/editor.tsx:254-258 | typing into the active file changes what the preview reads under its name to the typed text, before any save |
| SessionProps.PreviewFollowsEditor | client/src/pages/editor.tsx:253-260 | the preview's page is the editor's text when the active file is the first "index.html" |
| SessionProps.PreviewPrefersStyles | client/src/pages/editor.tsx:261 | a non-empty "styles.css" wins over "style.css" |
| SessionProps.PreviewFallsBackToStyle | client/src/pages/editor.tsx:261 | "style.css" is used when "styles.css" is missing or empty |
| SessionProps.PreviewScriptOrder | client/src/pages/editor.tsx:262 | the script is the first non-empty of "script.js", "main.js" and "app.js" |
| SessionProps.JoinThenSplit | client/src/pages/editor.tsx:213 | a joined path splits back into the parent path and the name |
| SessionProps.CreatedRecordPlacement | client/src/pages/editor.tsx:211-221 | the created record is a root record exactly for an empty parent path, is a folder exactly when requested, its path splits into parent and name, and a non-empty parent path is stored as its parent |
| Language.LastSegment | client/src/components/ide/code-editor.tsx:13 | the text after the last '.', or the whole name without one; it has no '.' and ends the name |
| Language.Table | client/src/components/ide/code-editor.tsx:14-28 | every table entry is a known language other than plain text |
| Language.LanguageOf | client/src/components/ide/code-editor.tsx:12-30 | the result is a known language, and it is plain text exactly when the lower-cased extension is no table key |
| Language.LookupAsWritten | client/src/components/ide/code-editor.tsx:29 | indexing the object literal finds an own entry for a table key and an inherited member for "constructor" and "\_\_proto\_\_" |
| Language.AsWrittenDiffersOnlyOnInherited | client/src/components/ide/code-editor.tsx:13-29 | the mapping as written agrees with the own-entries mapping except on the two inherited names |
| Language.ConstructorExtensionNotALanguage | client/src/components/ide/code-editor.tsx:29 | every name ending in ".constructor" ("index.constructor" for one) is mapped to an inherited member instead of a language, while the intended mapping gives plain text |
| Language.LanguageIgnoresCase | client/src/components/ide/code-editor.tsx:13 | the language ignores the letter case of the name |
| Language.LanguageOfLastSegment | client/src/components/ide/code-editor.tsx:13 | only the text after the last '.' matters |
| Language.NoDotIsWholeName | client/src/components/ide/code-editor.tsx:13 | a name without '.' is its own extension |
| Language.LanguageOfExtension | client/src/components/ide/code-editor.tsx:13-29 | a file's language is the table entry for its lower-cased last segment, else plain text |
| Language.UpperCaseExtension | client/src/components/ide/code-editor.tsx:13-18 | "A.TEST.TS" is TypeScript |
| Language.TrailingDotIsPlaintext | client/src/components/ide/code-editor.tsx:13-29 | a trailing '.' gives the empty extension, which is plain text |
| Language.WholeNameLookup | client/src/components/ide/code-editor.tsx:13-23 | a file called "md" is Markdown |
| Language.WholeNameFallback | client/src/components/ide/code-editor.tsx:13-29 | a file called "Makefile" is plain text |
| Preview.Expand | client/src/components/ide/live-preview.tsx:37 | a replacement text without '$' is inserted as it is |
| Preview.ExpandLiteralPrefix | client/src/components/ide/live-preview.tsx:37 | a '$'-free prefix of a replacement text passes through the expansion unchanged |
| Preview.ReplaceFirst | client/src/components/ide/live-preview.tsx:37 | replacing a string that does not occur leaves the text alone |
| Preview.InsertBefore | client/src/components/ide/live-preview.tsx:37 | the text is inserted at the first occurrence, with the prefix and the rest kept |
| Preview.ReplaceIsInsert | client/src/components/ide/live-preview.tsx:37-47 | replacing the first marker by a '$'-free text plus the marker inserts the text before the marker |
| Preview.InjectStyleAsWritten | client/src/components/ide/live-preview.tsx:34-41 | an empty stylesheet leaves the page alone |
| Preview.InjectScriptAsWritten | client/src/components/ide/live-preview.tsx:44-51 | an empty script leaves the page alone |
| Preview.InjectStyle | client/src/components/ide/live-preview.tsx:34-41 | a non-empty stylesheet is inserted before the first "</head>", else before the first "<body", else not at all |
| Preview.InjectScript | client/src/components/ide/live-preview.tsx:44-51 | a non-empty script is inserted, wrapped, before the first "</body>", else appended |
| Preview.StyleAsWrittenWithoutDollar | client/src/components/ide/live-preview.tsx:34-41 | without a '$' in the stylesheet the code as written is the literal insertion |
| Preview.ScriptAsWrittenWithoutDollar | client/src/components/ide/live-preview.tsx:44-51 | without a '$' in the script the code as written is the literal insertion |
| Preview.DollarQuoteInScript | client/src/components/ide/live-preview.tsx:47 | a script holding `$'` gets the page text after the first "</body>" in place of those two characters |
| Preview.DollarQuoteShortensScript | client/src/components/ide/live-preview.tsx:47 | when the page ends at its first "</body>", such a script comes out two characters shorter than written |
| Preview.ScriptWithDollarQuoteIsMangled | client/src/components/ide/live-preview.tsx:47 | the script `s='$'` in the page `<html></body>` is not injected as written |
| Preview.AttrFrom | client/src/components/ide/live-preview.tsx:54-58 | the first place in a window where `attr=`, a quote, the name and a quote fit, or none when they fit nowhere |
| Preview.FirstGt | client/src/components/ide/live-preview.tsx:54-58 | the first '>' at or after a position, where a run of `[^>]*` must stop |
| Preview.MatchAtSound | client/src/components/ide/live-preview.tsx:54-58 | every end the scanner reports is the end of a regular-expression match |
| Preview.MatchAtComplete | client/src/components/ide/live-preview.tsx:54-58 | every regular-expression match at a position is found, with its end |
| Preview.Strip | client/src/components/ide/live-preview.tsx:54-58 | a global replace by "" leaves the text with some characters deleted |
| Preview.StripAll | client/src/components/ide/live-preview.tsx:54-58 | the five replacements never lengthen the page |
| Preview.StripWithoutAngle | client/src/components/ide/live-preview.tsx:54-58 | text without '<' is left alone |
| Preview.StripKeepsRun | client/src/components/ide/live-preview.tsx:54-58 | a run of positions where the pattern does not match is copied |
| Preview.StripAllWithoutTags | client/src/components/ide/live-preview.tsx:54-58 | a page with no "<link" and no "<script" in any letter case passes all five strips unchanged |
| Preview.StripPatternsCanonical | client/src/components/ide/live-preview.tsx:54-58 | the five patterns are written in lower case, with no '>' in their fixed parts |
| Preview.ElementMatches | client/src/components/ide/live-preview.tsx:54-58 | wherever an element of the pattern's shape stands, the pattern matches exactly it |
| Preview.StripRemovesElement | client/src/components/ide/live-preview.tsx:54-58 | such an element between texts in which the pattern's tag never starts (in any letter case) is removed, and nothing else is |
| Preview.StripRemovesWhole | client/src/components/ide/live-preview.tsx:54-58 | any text the pattern matches whole, between texts in which its tag never starts, is removed, and nothing else is |
| Preview.StripOneMatch | client/src/components/ide/live-preview.tsx:54-58 | with no match before it and no start of the tag after it, one match is the only text removed |
| Preview.MatchInside | client/src/components/ide/live-preview.tsx:54-58 | a match spanning a whole text is found, with the same end, wherever that text stands |
| Preview.StripKeeps | client/src/components/ide/live-preview.tsx:54-58 | where the pattern does not match, the character is kept |
| Preview.StripDrops | client/src/components/ide/live-preview.tsx:54-58 | where the pattern matches, the match is dropped and the scan resumes after it |
| Preview.StripCanReformTag | client/src/components/ide/live-preview.tsx:54 | removing a tag can join its neighbours into a new matching tag, which a single pass leaves in place |
| Preview.InjectedScriptKept | client/src/components/ide/live-preview.tsx:45-58 | the script tag the preview injects is never taken for an external script |
| Preview.Fill | client/src/components/ide/live-preview.tsx:64-87 | the shell with the stylesheet, the page and the script in its holes |
| Preview.FillsIsFill | client/src/components/ide/live-preview.tsx:64-87 | a text that has the shell's parts and the contents at their positions is exactly those parts joined in order |
| Preview.FillsUnique | client/src/components/ide/live-preview.tsx:64-87 | only one text fills a shell with given contents |
| Preview.Fragment | client/src/components/ide/live-preview.tsx:64-87 | the fragment document puts the stylesheet, the page and the script into its holes |
| Preview.FragmentOpensWithDoctype | client/src/components/ide/live-preview.tsx:64-65 | the fragment document opens with a line feed and "<!DOCTYPE" |
| Preview.FragmentIsFullDocument | client/src/components/ide/live-preview.tsx:64-66 | the fragment document would itself be taken for a full document (the test for a full document is at line 30) |
| Preview.Compose | client/src/components/ide/live-preview.tsx:27-88 | a page without "<!DOCTYPE" or "<html" becomes the fragment document; any other gets the style, then the script, then the five strips |
| Preview.UpperCaseHtmlNotFull | client/src/components/ide/live-preview.tsx:30 | mode detection is case-sensitive: "<HTML>" holds neither "<!DOCTYPE" nor "<html" |
| Preview.UpperCaseHtmlIsFragment | client/src/components/ide/live-preview.tsx:30-87 | an "<HTML>" page is therefore wrapped in the fragment document, whatever the stylesheet and script |
| TemplateTags.StaticLinkStripped | server/templates.ts:220 | the static page's stylesheet link is removed by the "styles.css" strip, with nothing else, in any page with no other "<link" (the static page has none) |
| TemplateTags.StaticScriptStripped | server/templates.ts:256 | the static page's script tag is removed by the "script.js" strip, with nothing else, in any page with no other "<script" (the static page has none) |
| TemplateTags.ViteScriptNotMatched | server/templates.ts:168 | no script pattern whose name does not start with '/' matches the Vite page's script tag |
| TemplateTags.ViteScriptKept | server/templates.ts:168 | the Vite page's script tag survives every script strip of the preview, in any page with no other "<script" (the Vite page has none) |
| Explorer.InitialExpanded | client/src/components/ide/file-explorer.tsx:196 | only the root path is expanded at first |
| Explorer.ToggleFolder | client/src/components/ide/file-explorer.tsx:201-211 | the folder's membership flips and every other path keeps its own |
| Explorer.ToggleTwice | client/src/components/ide/file-explorer.tsx:201-211 | toggling twice restores the expanded set |
| Explorer.ToggleCommutes | client/src/components/ide/file-explorer.tsx:201-211 | toggles of two folders commute |
| Explorer.Create | client/src/components/ide/file-explorer.tsx:52-59 | a blank name sends nothing and keeps the input; any other is sent trimmed and closes and clears the input |
| Explorer.CreateSendsTrimmed | client/src/components/ide/file-explorer.tsx:53-54 | the sent name is the typed name without its surrounding white space (the root input does the same at lines 214-215) |
| Explorer.RootCreateIsAtRoot | client/src/components/ide/file-explorer.tsx:213-220 | a root create asks for the empty parent path |
| Explorer.KeyDown | client/src/components/ide/file-explorer.tsx:61-68 | Enter creates, Escape closes and clears the input, any other key changes nothing |
| Explorer.Blur | client/src/components/ide/file-explorer.tsx:158-162 | leaving the input closes it exactly when only white space was typed, and keeps the text |
| Explorer.CreateOnce | client/src/components/ide/file-explorer.tsx:52-59 | after a successful create a second Enter sends nothing |
| Explorer.ClickNode | client/src/components/ide/file-explorer.tsx:80-86 | a click toggles a folder and selects a file, never both |
| Explorer.NewAtRoot | client/src/components/ide/file-explorer.tsx:242-261 | the root buttons open the input for a file or a folder and keep the typed text |
| Explorer.NewInFolder | client/src/components/ide/file-explorer.tsx:110-129 | a folder's "New File" and "New Folder" open the input and toggle the folder |
| Explorer.NewInFolderShowsInputIffCollapsed | client/src/components/ide/file-explorer.tsx:110-144 | the input opened in a folder is shown exactly when the folder was collapsed |
| Templates.NextJsLaidOut | server/templates.ts:11-93 | the Next.js rows have unique paths, and every child sits in a root folder of the table |
| Templates.ViteVueLaidOut | server/templates.ts:95-208 | the Vite + Vue rows are laid out the same way |
| Templates.StaticLaidOut | server/templates.ts:210-372 | the static rows are laid out the same way |
| Templates.TableFor | server/templates.ts:377-389 | any name other than the first two gets the static table, and every table is well laid out |
| Templates.GetTemplateFiles | server/templates.ts:374-399 | one row per table row, each stamped with the project id |
| Templates.GetTemplateFilesCopiesTable | server/templates.ts:391-398 | without the id and the texts the rows are the table, with nothing added, lost, reordered or altered |
| Templates.GetTemplateFilesTexts | server/templates.ts:391-398 | folders are stored with the empty text and files with their own |
| Templates.InsertedLayout | server/templates.ts:374-399 | the stored records of a new project have unique paths and a two-level layout |
| Templates.TemplateTreeComplete | server/templates.ts:374-399 | the explorer shows every file and folder of a new project, whatever the name order |
| Search.EmptyQueryMatches | client/src/pages/dashboard.tsx:69-73 | the empty query matches every item |
| Search.VerbatimNameMatches | client/src/pages/dashboard.tsx:71 | a name holding the query verbatim matches |
| Search.VerbatimDescriptionMatches | client/src/pages/dashboard.tsx:72 | a description holding the query verbatim matches |
| Search.QueryCaseIgnored | client/src/pages/dashboard.tsx:71-72 | the letter case of the query does not matter |
| Search.NoDescriptionSearchesName | client/src/pages/dashboard.tsx:71-72 | without a description only the name is searched |
| Dashboard.FilterProjects | client/src/pages/dashboard.tsx:69-73 | the matching projects, exactly, in list order |
| Dashboard.EmptyQueryKeepsAll | client/src/pages/dashboard.tsx:69-73 | an empty query keeps the whole list |
| Dashboard.DashboardView | client/src/pages/dashboard.tsx:124-157 | skeletons while loading, then the empty state for no projects, then the no-match message, else the grid of matching projects |
| Dashboard.NoMatchNeedsQuery | client/src/pages/dashboard.tsx:109-145 | the no-match message needs a non-empty query, and so a visible search box |
| Dashboard.GridCardsMatch | client/src/pages/dashboard.tsx:147-155 | every card is a project of the list that matches the query |
| GitHubRepos.FilterRepos | client/src/components/github/github-repos.tsx:31-35 | the matching repositories, exactly, in list order |
| GitHubRepos.EmptyQueryKeepsAll | client/src/components/github/github-repos.tsx:31-35 | an empty query keeps every repository |
| GitHubRepos.SubmitToken | client/src/components/github/github-repos.tsx:37-43 | a token is handed on exactly when Connect is enabled; it is trimmed and the input is cleared (the button's condition is at line 86) |
| GitHubRepos.SubmitTrimsToken | client/src/components/github/github-repos.tsx:39-41 | a token pasted with surrounding white space is handed on without it |
| GitHubRepos.ReposView | client/src/components/github/github-repos.tsx:45-148 | the connect form without a token, else the error card for a non-empty error, else skeletons while loading, else the list or an empty message |
| GitHubRepos.EmptyMessageText | client/src/components/github/github-repos.tsx:145-147 | the empty message blames the search exactly when there is a query |
| CreateProject.Blank | client/src/components/dashboard/create-project-modal.tsx:38-40 | the form starts empty with the first offered template |
| CreateProject.Submit | client/src/components/dashboard/create-project-modal.tsx:42-50 | a blank name sends nothing; otherwise a trimmed name, the description and the chosen template are sent |
| CreateProject.SubmitTrims | client/src/components/dashboard/create-project-modal.tsx:44-48 | white space around the name and the description is dropped |
| CreateProject.OpenChange | client/src/components/dashboard/create-project-modal.tsx:52-59 | closing clears the form, opening keeps it |
| CreateProject.EnabledButtonSubmits | client/src/components/dashboard/create-project-modal.tsx:44 | an enabled Create button sends a project; a sendable form is disabled only while a request is pending (the button's condition is at line 141) |
| CreateProject.ReopenedFormSendsNothing | client/src/components/dashboard/create-project-modal.tsx:52-59 | after closing and reopening nothing can be sent until a name is typed |
| CreateProject.OfferedTemplatesHaveTables | client/src/components/dashboard/create-project-modal.tsx:30-40 | every offered template has its own table, and the default is the Next.js starter |

## Left out

- Network, storage and caching. The fetches, mutations, query invalidation and toasts are not modelled. A save or create is modelled by the request it sends, plus a separate step for when it succeeds. A failed save keeps the edit, which is the state before the save.
- Server side. The routes, the storage and authentication are not modelled. The server rejects a duplicate path with status 409 (`server/routes.ts`). The model takes this as the precondition `UniquePaths` where a lemma needs it.
- Browser interaction. The `confirm` dialog is a boolean parameter of `Session.Delete`. The debounce, the iframe, the Blob URL, the "open in new tab" button and the device sizes of the live preview are presentation only.
- FileTree.SortOrder: `localeCompare` is modelled as an arbitrary total preorder on names, passed as a parameter. It is not the ICU collation, so statements hold for every such order.
- Strings.Lower: only ASCII letters are lower-cased. This is exact for every table key and pattern in the core, but not for non-ASCII names.
- Templates.GetTemplateFiles: a file's text is the `texts` parameter, keyed by path. The long template bodies are not copied, apart from the tag lines the preview strips (`TemplateTags`).
- FileTree.NodeAt: a folder whose parent path is its own path is pushed into its own children by the source, which makes a cycle. The model follows only children after the parent. No root reaches such a folder, so the tree returned is unaffected.
- Preview.StripAll: the strip lemmas are stated per pattern (`StripRemovesElement`, `ViteScriptKept`). They are not stated for the whole static starter page.
- Session.CurrentLanguage: it uses the corrected mapping `LanguageOf`, which differs from the code as written (`LanguageAsWritten`) on names whose extension is "constructor" or "__proto__": the model gives "plaintext" where the code gives an inherited member (see Findings and `CurrentLanguageAgainstAsWritten`).
- Preview.Compose: it uses the corrected injection (`InjectStyle`, `InjectScript`), which is the literal insertion. The code as written is `InjectStyleAsWritten` and `InjectScriptAsWritten`, and the two agree whenever the text holds no '$' (see Findings).
- Rendering. Icons, project cards, the welcome screen and the tab bar's look are not modelled.

## Findings

| source | as written | input that shows it | evidently intended | confidence | as-written member | corrected member |
|---|---|---|---|---|---|---|
| client/src/components/ide/code-editor.tsx:13-29 | `languageMap[ext \|\| ""]` also finds members that every object inherits. The lower-cased extensions "constructor" and "\_\_proto\_\_" yield a function or an object, not a language name, and `\|\| "plaintext"` does not catch them because both are truthy. | the file name "index.constructor" | own entries only, so any other extension is plain text | not executed | Language.ConstructorExtensionNotALanguage | Language.LanguageOf |
| client/src/components/ide/live-preview.tsx:37,39,47 | `content.replace("</body>", jsTag + "</body>")` reads `$'`, `` $` ``, `$&` and `$$` in the script or stylesheet as replacement patterns. A script holding `$'` gets the rest of the page in place of those two characters. | the page `<html></body>` with the script `s='$'` | the style and script text inserted literally | not executed | Preview.ScriptWithDollarQuoteIsMangled | Preview.InjectScript |
