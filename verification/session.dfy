/** The editor page's session state and its handlers: open tabs, the active
    tab, unsaved edits, saving, creating and deleting files, and what the
    page derives for the code editor and the live preview.

    Every handler is a function from the current state to the next. The
    project's file records are a parameter (the last fetched list); a store
    request a handler would send is returned as data. */
module Session {
  import opened Wrappers
  import opened Seqs
  import opened FileTree
  import Language

  /** An open editor tab. */
  datatype Tab = Tab(path: string, name: string, isModified: bool)

  /** `openTabs`, `activeTab` and `modifiedFiles` (path to unsaved text). */
  datatype Editor = Editor(tabs: seq<Tab>, active: Option<string>, modified: map<string, string>)

  /** The state the page starts in. */
  function Initial(): (e: Editor)
    ensures Valid(e) && !HasActive(e) && !SaveEnabled(e)
  {
    Editor([], None, map[])
  }

  /** `activeTab` is truthy: set and not the empty string. */
  predicate HasActive(e: Editor) {
    e.active.Some? && e.active.value != ""
  }

  function Paths(tabs: seq<Tab>): (ps: seq<string>)
    ensures |ps| == |tabs|
    ensures forall i :: 0 <= i < |tabs| ==> ps[i] == tabs[i].path
  {
    seq(|tabs|, i requires 0 <= i < |tabs| => tabs[i].path)
  }

  /** What the handlers keep true: one tab per path, the active path is open,
      a tab is marked modified exactly when it has an unsaved edit, and every
      unsaved edit belongs to an open tab. */
  ghost predicate Valid(e: Editor) {
    && Distinct(Paths(e.tabs))
    && (e.active.Some? ==> e.active.value in Paths(e.tabs))
    && (forall i :: 0 <= i < |e.tabs| ==> (e.tabs[i].isModified <==> e.tabs[i].path in e.modified))
    && (forall p :: p in e.modified ==> p in Paths(e.tabs))
  }

  /* -------------------------------------------------------------- lookup */

  /** `files.find((f) => f.path === path)`, as a position. */
  function FileWithPath(files: seq<FileRecord>, path: string): (r: Option<nat>)
    ensures r.Some? ==> r.value < |files| && files[r.value].path == path
    ensures r.Some? ==> forall j :: 0 <= j < r.value ==> files[j].path != path
    ensures r.None? <==> forall j :: 0 <= j < |files| ==> files[j].path != path
  {
    FindIndex((f: FileRecord) => f.path == path, files)
  }

  /** `files.find((f) => f.name === name)`, as a position. */
  function FileNamed(files: seq<FileRecord>, name: string): (r: Option<nat>)
    ensures r.Some? ==> r.value < |files| && files[r.value].name == name
    ensures r.Some? ==> forall j :: 0 <= j < r.value ==> files[j].name != name
    ensures r.None? <==> forall j :: 0 <= j < |files| ==> files[j].name != name
  {
    FindIndex((f: FileRecord) => f.name == name, files)
  }

  /** `openTabs.find((t) => t.path === path)`, as a position. */
  function TabWithPath(tabs: seq<Tab>, path: string): (r: Option<nat>)
    ensures r.Some? ==> r.value < |tabs| && tabs[r.value].path == path
    ensures r.Some? ==> forall j :: 0 <= j < r.value ==> tabs[j].path != path
    ensures r.None? <==> path !in Paths(tabs)
  {
    FindIndex((t: Tab) => t.path == path, tabs)
  }

  /** `findFileContent`: the content of the first record at `path`, or "" when
      there is none. (`content || ""` changes nothing: an empty content falls
      through to the empty string.) */
  function FindFileContent(files: seq<FileRecord>, path: string): (r: string)
    ensures FileWithPath(files, path).None? ==> r == ""
    ensures FileWithPath(files, path).Some? ==> r == files[FileWithPath(files, path).value].content
  {
    match FileWithPath(files, path)
    case None => ""
    case Some(k) => if files[k].content != "" then files[k].content else ""
  }

  /* ---------------------------------------------------------- tab updates */

  /** Sets the modified flag of the tabs at `path`, leaving all else alone. */
  function MarkTabs(tabs: seq<Tab>, path: string, flag: bool): (r: seq<Tab>)
    ensures Paths(r) == Paths(tabs)
    ensures forall i :: 0 <= i < |tabs| ==> r[i].name == tabs[i].name
    ensures forall i :: 0 <= i < |tabs| && tabs[i].path == path ==> r[i] == tabs[i].(isModified := flag)
    ensures forall i :: 0 <= i < |tabs| && tabs[i].path != path ==> r[i] == tabs[i]
  {
    seq(|tabs|, i requires 0 <= i < |tabs| =>
      if tabs[i].path == path then tabs[i].(isModified := flag) else tabs[i])
  }

  /** The tabs other than the one at `path`, in their order. */
  function WithoutTab(tabs: seq<Tab>, path: string): (r: seq<Tab>)
    ensures path !in Paths(r)
    ensures forall t :: t in r <==> t in tabs && t.path != path
    ensures Subseq(r, tabs)
  {
    var r := Filter((t: Tab) => t.path != path, tabs);
    FilterIsSubseq((t: Tab) => t.path != path, tabs);
    assert forall i :: 0 <= i < |r| ==> Paths(r)[i] != path;
    r
  }

  lemma PathOfMember(tabs: seq<Tab>, t: Tab)
    requires t in tabs
    ensures t.path in Paths(tabs)
  {
    var i :| 0 <= i < |tabs| && tabs[i] == t;
    assert Paths(tabs)[i] == t.path;
  }

  lemma MemberOfPath(tabs: seq<Tab>, p: string) returns (i: nat)
    requires p in Paths(tabs)
    ensures i < |tabs| && tabs[i].path == p
  {
    i :| 0 <= i < |tabs| && Paths(tabs)[i] == p;
  }

  /** Removing tabs keeps the paths distinct. */
  lemma {:induction false} SubseqKeepsDistinct(a: seq<Tab>, b: seq<Tab>)
    requires Subseq(a, b) && Distinct(Paths(b))
    ensures Distinct(Paths(a))
    decreases |b|
  {
    if a != [] {
      assert b != [];
      if a[0] == b[0] {
        SubseqKeepsDistinct(a[1..], b[1..]);
        SubseqPaths(a[1..], b[1..]);
        assert Paths(a) == [a[0].path] + Paths(a[1..]);
        assert Paths(b) == [b[0].path] + Paths(b[1..]);
        DistinctAppend([a[0].path], Paths(a[1..]));
      } else {
        assert Paths(b[1..]) == Paths(b)[1..];
        SubseqKeepsDistinct(a, b[1..]);
      }
    }
  }

  /** Every path of a subsequence is a path of the whole. */
  lemma {:induction false} SubseqPaths(a: seq<Tab>, b: seq<Tab>)
    requires Subseq(a, b)
    ensures forall p :: p in Paths(a) ==> p in Paths(b)
    decreases |b|
  {
    if a != [] {
      assert b != [];
      assert Paths(b) == [b[0].path] + Paths(b[1..]);
      if a[0] == b[0] {
        SubseqPaths(a[1..], b[1..]);
        assert Paths(a) == [a[0].path] + Paths(a[1..]);
      } else {
        SubseqPaths(a, b[1..]);
      }
    }
  }

  /* ------------------------------------------------------------- handlers */

  /** `handleSelectFile`: an unknown path or a folder changes nothing; a file
      gets a tab (appended, unless one is open) and becomes active. */
  function Select(files: seq<FileRecord>, e: Editor, path: string): (r: Editor)
    ensures FileWithPath(files, path).None? ==> r == e
    ensures FileWithPath(files, path).Some? && IsFolder(files[FileWithPath(files, path).value]) ==> r == e
    ensures r != e ==> r.active == Some(path) && path in Paths(r.tabs)
    ensures FileWithPath(files, path).Some? && !IsFolder(files[FileWithPath(files, path).value]) ==>
      r.active == Some(path) &&
      (path !in Paths(e.tabs) ==> r.tabs == e.tabs + [Tab(path, files[FileWithPath(files, path).value].name, false)])
    ensures r.modified == e.modified
    ensures |e.tabs| <= |r.tabs| <= |e.tabs| + 1 && r.tabs[..|e.tabs|] == e.tabs
    ensures path in Paths(e.tabs) ==> r.tabs == e.tabs
  {
    match FileWithPath(files, path)
    case None => e
    case Some(k) =>
      if IsFolder(files[k]) then e
      else
        var tabs := if TabWithPath(e.tabs, path).Some? then e.tabs
                    else e.tabs + [Tab(path, files[k].name, false)];
        assert TabWithPath(e.tabs, path).None? ==> Paths(tabs)[|tabs| - 1] == path;
        e.(tabs := tabs, active := Some(path))
  }

  /** `handleCloseTab`: the tab at `path` goes, as does its unsaved edit; if it
      was active, the last remaining tab becomes active, or none. */
  function Close(e: Editor, path: string): (r: Editor)
    ensures path !in Paths(r.tabs) && path !in r.modified
    ensures forall t :: t in r.tabs <==> t in e.tabs && t.path != path
    ensures Subseq(r.tabs, e.tabs)
    ensures r.modified == e.modified - {path}
    ensures e.active != Some(path) ==> r.active == e.active
    ensures e.active == Some(path) && r.tabs == [] ==> r.active.None?
    ensures e.active == Some(path) && r.tabs != [] ==> r.active == Some(r.tabs[|r.tabs| - 1].path)
  {
    var remaining := WithoutTab(e.tabs, path);
    var active := if e.active == Some(path) then
                    (if |remaining| > 0 then Some(remaining[|remaining| - 1].path) else None)
                  else e.active;
    Editor(remaining, active, e.modified - {path})
  }

  /** `handleEditorChange`: with an active tab, records `value` as its unsaved
      text and marks it modified; otherwise nothing happens. */
  function Edit(e: Editor, value: string): (r: Editor)
    ensures !HasActive(e) ==> r == e
    ensures HasActive(e) ==> r.active == e.active && r.modified == e.modified[e.active.value := value]
    ensures Paths(r.tabs) == Paths(e.tabs)
    ensures HasActive(e) ==> forall i :: 0 <= i < |r.tabs| ==>
      (r.tabs[i].path == e.active.value ==> r.tabs[i] == e.tabs[i].(isModified := true)) &&
      (r.tabs[i].path != e.active.value ==> r.tabs[i] == e.tabs[i])
  {
    if !HasActive(e) then e
    else
      var a := e.active.value;
      Editor(MarkTabs(e.tabs, a, true), e.active, e.modified[a := value])
  }

  /** The store update a save sends: file id and the new content. */
  datatype Update = Update(fileId: string, content: string)

  /** The update `handleSave` sends: only with an active tab whose path has a
      record and an unsaved edit. */
  function SaveRequest(files: seq<FileRecord>, e: Editor): (r: Option<Update>)
    ensures r.Some? <==> HasActive(e) && FileWithPath(files, e.active.value).Some? && e.active.value in e.modified
    ensures r.Some? ==> r.value == Update(files[FileWithPath(files, e.active.value).value].id, e.modified[e.active.value])
  {
    if !HasActive(e) then None
    else
      var a := e.active.value;
      match FileWithPath(files, a)
      case None => None
      case Some(k) => if a in e.modified then Some(Update(files[k].id, e.modified[a])) else None
  }

  /** What a successful save does to the tab at `path` (the path that was
      active when the save was issued): not modified, no unsaved edit. */
  function SaveSucceeded(e: Editor, path: string): (r: Editor)
    ensures r.active == e.active && Paths(r.tabs) == Paths(e.tabs)
    ensures path !in r.modified && r.modified == e.modified - {path}
    ensures forall i :: 0 <= i < |r.tabs| ==>
      (r.tabs[i].path == path ==> r.tabs[i] == e.tabs[i].(isModified := false)) &&
      (r.tabs[i].path != path ==> r.tabs[i] == e.tabs[i])
  {
    Editor(MarkTabs(e.tabs, path, false), e.active, e.modified - {path})
  }

  /** A save, when its request is sent and succeeds. */
  function Save(files: seq<FileRecord>, e: Editor): (r: Editor)
    ensures SaveRequest(files, e).None? ==> r == e
    ensures SaveRequest(files, e).Some? ==> r == SaveSucceeded(e, e.active.value)
  {
    if SaveRequest(files, e).Some? then SaveSucceeded(e, e.active.value) else e
  }

  /** The Save button is enabled when the active tab has an unsaved edit. */
  predicate SaveEnabled(e: Editor) {
    HasActive(e) && e.active.value in e.modified
  }

  /** The page's key handler: Ctrl+S or Cmd+S saves ("s" exactly, so a
      shifted "S" does not). */
  function KeyDown(files: seq<FileRecord>, e: Editor, meta: bool, ctrl: bool, key: string): (r: Editor)
    ensures !(meta || ctrl) || key != "s" ==> r == e
    ensures (meta || ctrl) && key == "s" ==> r == Save(files, e)
  {
    if (meta || ctrl) && key == "s" then Save(files, e) else e
  }

  /** The store applying an update: every record with that id gets the new
      content. */
  function ApplyUpdate(files: seq<FileRecord>, u: Update): (r: seq<FileRecord>)
    ensures |r| == |files|
    ensures forall i :: 0 <= i < |files| ==> r[i] == (if files[i].id == u.fileId then files[i].(content := u.content) else files[i])
  {
    seq(|files|, i requires 0 <= i < |files| =>
      if files[i].id == u.fileId then files[i].(content := u.content) else files[i])
  }

  /** `path` under `parentPath`, or `name` alone at the root (an empty parent
      path is falsy). */
  function JoinPath(parentPath: string, name: string): string {
    if parentPath != "" then parentPath + "/" + name else name
  }

  /** Position of the last '/' of `path`. */
  function LastSlash(path: string): (r: Option<nat>)
    ensures r.None? <==> '/' !in path
    ensures r.Some? ==> r.value < |path| && path[r.value] == '/'
    ensures r.Some? ==> forall j :: r.value < j < |path| ==> path[j] != '/'
  {
    if path == [] then None
    else if path[|path| - 1] == '/' then Some(|path| - 1)
    else LastSlash(path[..|path| - 1])
  }

  /** The part of `path` before its last '/', or "" for a top-level path. */
  function DirName(path: string): string {
    match LastSlash(path)
    case None => ""
    case Some(i) => path[..i]
  }

  /** The part of `path` after its last '/'. */
  function BaseName(path: string): string {
    match LastSlash(path)
    case None => path
    case Some(i) => path[i + 1..]
  }

  /** `handleCreateFile`: without a project id (falsy) nothing is sent;
      otherwise a new empty record under `parentPath`, whose empty value is
      sent as a null parent. */
  function CreateRequest(projectId: Option<string>, parentPath: string, name: string, isFolder: bool): (r: Option<NewFile>)
    ensures r.Some? <==> projectId.Some? && projectId.value != ""
    ensures r.Some? ==> r.value.projectId == projectId.value && r.value.name == name && r.value.content == ""
    ensures r.Some? ==> (r.value.isFolder == "true" <==> isFolder)
    ensures r.Some? ==> (r.value.parentPath.None? <==> parentPath == "")
    ensures r.Some? ==> r.value.path == JoinPath(parentPath, name)
    ensures r.Some? && parentPath != "" ==> r.value.parentPath == Some(parentPath)
  {
    if projectId.None? || projectId.value == "" then None
    else
      Some(NewFile(projectId.value, name, JoinPath(parentPath, name), "",
                   if isFolder then "true" else "false",
                   if parentPath != "" then Some(parentPath) else None))
  }

  /** `handleDeleteFile`: a record at `path` whose deletion the user confirms
      is deleted (its id is returned) and its tab closed; otherwise nothing. */
  function Delete(files: seq<FileRecord>, e: Editor, path: string, confirmed: bool): (r: (Option<string>, Editor))
    ensures r.0.Some? <==> FileWithPath(files, path).Some? && confirmed
    ensures r.0.Some? ==> r.0.value == files[FileWithPath(files, path).value].id && r.1 == Close(e, path)
    ensures r.0.None? ==> r.1 == e
  {
    match FileWithPath(files, path)
    case None => (None, e)
    case Some(k) => if confirmed then (Some(files[k].id), Close(e, path)) else (None, e)
  }

  /* ------------------------------------------------------- derived views */

  /** `currentFileContent`: the unsaved edit of the active path if there is
      one (even an empty one), else the stored content; "" with no active
      tab. */
  function CurrentContent(files: seq<FileRecord>, e: Editor): (r: string)
    ensures !HasActive(e) ==> r == ""
    ensures HasActive(e) && e.active.value in e.modified ==> r == e.modified[e.active.value]
    ensures HasActive(e) && e.active.value !in e.modified ==> r == FindFileContent(files, e.active.value)
  {
    if !HasActive(e) then ""
    else
      var a := e.active.value;
      if a in e.modified then e.modified[a] else FindFileContent(files, a)
  }

  /** `currentLanguage`: the language of the active tab's file name, else
      "plaintext". */
  function CurrentLanguage(e: Editor): (r: string)
    ensures r in Language.Languages()
    ensures !HasActive(e) ==> r == "plaintext"
    ensures HasActive(e) && TabWithPath(e.tabs, e.active.value).None? ==> r == "plaintext"
    ensures HasActive(e) && TabWithPath(e.tabs, e.active.value).Some? ==>
      r == Language.LanguageOf(e.tabs[TabWithPath(e.tabs, e.active.value).value].name)
  {
    if !HasActive(e) then "plaintext"
    else match TabWithPath(e.tabs, e.active.value)
      case None => "plaintext"
      case Some(i) => Language.LanguageOf(e.tabs[i].name)
  }

  /** JavaScript's `a || b` on strings. */
  function Or(a: string, b: string): (r: string)
    ensures r == "" <==> a == "" && b == ""
    ensures a != "" ==> r == a
    ensures a == "" ==> r == b
  {
    if a != "" then a else b
  }

  /** The preview's view of the file named `name`: its unsaved edit if any,
      else its content; "" when no record has that name. */
  function ContentNamed(files: seq<FileRecord>, modified: map<string, string>, name: string): (r: string)
    ensures FileNamed(files, name).None? ==> r == ""
    ensures FileNamed(files, name).Some? && files[FileNamed(files, name).value].path in modified ==>
      r == modified[files[FileNamed(files, name).value].path]
    ensures FileNamed(files, name).Some? && files[FileNamed(files, name).value].path !in modified ==>
      r == files[FileNamed(files, name).value].content
  {
    match FileNamed(files, name)
    case None => ""
    case Some(k) => if files[k].path in modified then modified[files[k].path] else files[k].content
  }

  /** The three sources handed to the live preview. */
  datatype Sources = Sources(html: string, css: string, js: string)

  /** `previewContent`: "index.html"; "styles.css", falling back to
      "style.css" when empty; "script.js", then "main.js", then "app.js". */
  function PreviewSources(files: seq<FileRecord>, e: Editor): (r: Sources)
    ensures r.html == ContentNamed(files, e.modified, "index.html")
    ensures r.css == "" <==> ContentNamed(files, e.modified, "styles.css") == "" && ContentNamed(files, e.modified, "style.css") == ""
    ensures r.js == "" <==> ContentNamed(files, e.modified, "script.js") == "" && ContentNamed(files, e.modified, "main.js") == "" && ContentNamed(files, e.modified, "app.js") == ""
  {
    var m := e.modified;
    Sources(
      ContentNamed(files, m, "index.html"),
      Or(ContentNamed(files, m, "styles.css"), ContentNamed(files, m, "style.css")),
      Or(Or(ContentNamed(files, m, "script.js"), ContentNamed(files, m, "main.js")), ContentNamed(files, m, "app.js")))
  }
}
