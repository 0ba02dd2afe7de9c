/** What the editor page's handlers keep and achieve together: the session
    invariant, edits reaching the editor and the preview, saves that keep the
    shown text, and paths that split back into parent and name. */
module SessionProps {
  import opened Wrappers
  import opened Seqs
  import opened FileTree
  import opened Session
  import Language

  /* ----------------------------------------------------------- invariant */

  lemma SelectKeepsValid(files: seq<FileRecord>, e: Editor, path: string)
    requires Valid(e)
    ensures Valid(Select(files, e, path))
  {
    var r := Select(files, e, path);
    if r != e && path !in Paths(e.tabs) {
      assert r.tabs == e.tabs + [r.tabs[|e.tabs|]];
      assert Paths(r.tabs) == Paths(e.tabs) + [path];
      DistinctAppend(Paths(e.tabs), [path]);
      assert path !in e.modified;
      assert forall p :: p in Paths(e.tabs) ==> p in Paths(r.tabs);
    }
  }

  lemma CloseKeepsValid(e: Editor, path: string)
    requires Valid(e)
    ensures Valid(Close(e, path))
  {
    SubseqKeepsDistinct(Close(e, path).tabs, e.tabs);
    CloseKeepsFlags(e, path);
    CloseKeepsEditsOpen(e, path);
    CloseKeepsActiveOpen(e, path);
  }

  lemma CloseKeepsFlags(e: Editor, path: string)
    requires Valid(e)
    ensures var r := Close(e, path);
      forall i :: 0 <= i < |r.tabs| ==> (r.tabs[i].isModified <==> r.tabs[i].path in r.modified)
  {
    var r := Close(e, path);
    forall i | 0 <= i < |r.tabs|
      ensures r.tabs[i].isModified <==> r.tabs[i].path in r.modified
    {
      assert r.tabs[i] in e.tabs;
      var j :| 0 <= j < |e.tabs| && e.tabs[j] == r.tabs[i];
    }
  }

  lemma CloseKeepsEditsOpen(e: Editor, path: string)
    requires Valid(e)
    ensures var r := Close(e, path);
      forall p :: p in r.modified ==> p in Paths(r.tabs)
  {
    var r := Close(e, path);
    forall p | p in r.modified
      ensures p in Paths(r.tabs)
    {
      var j := MemberOfPath(e.tabs, p);
      assert e.tabs[j] in r.tabs;
      PathOfMember(r.tabs, e.tabs[j]);
    }
  }

  lemma CloseKeepsActiveOpen(e: Editor, path: string)
    requires Valid(e)
    ensures var r := Close(e, path);
      r.active.Some? ==> r.active.value in Paths(r.tabs)
  {
    var r := Close(e, path);
    if r.active.Some? {
      if e.active == Some(path) {
        assert r.tabs[|r.tabs| - 1].path == Paths(r.tabs)[|r.tabs| - 1];
      } else {
        var j := MemberOfPath(e.tabs, e.active.value);
        assert e.tabs[j] in r.tabs;
        PathOfMember(r.tabs, e.tabs[j]);
      }
    }
  }

  lemma EditKeepsValid(e: Editor, value: string)
    requires Valid(e)
    ensures Valid(Edit(e, value))
  {
  }

  lemma SaveKeepsValid(files: seq<FileRecord>, e: Editor)
    requires Valid(e)
    ensures Valid(Save(files, e))
  {
  }

  lemma DeleteKeepsValid(files: seq<FileRecord>, e: Editor, path: string, confirmed: bool)
    requires Valid(e)
    ensures Valid(Delete(files, e, path, confirmed).1)
  {
    CloseKeepsValid(e, path);
  }

  lemma KeyDownKeepsValid(files: seq<FileRecord>, e: Editor, meta: bool, ctrl: bool, key: string)
    requires Valid(e)
    ensures Valid(KeyDown(files, e, meta, ctrl, key))
  {
    SaveKeepsValid(files, e);
  }

  /* ------------------------------------------------------------- tabs */

  /** Opening the same file twice is opening it once. */
  lemma SelectIdempotent(files: seq<FileRecord>, e: Editor, path: string)
    ensures Select(files, Select(files, e, path), path) == Select(files, e, path)
  {
    var r := Select(files, e, path);
    if r != e {
      assert path in Paths(r.tabs);
    }
  }

  /** A file that is opened is active and has exactly one tab. */
  lemma SelectOpensOneTab(files: seq<FileRecord>, e: Editor, path: string, k: nat)
    requires Valid(e)
    requires FileWithPath(files, path) == Some(k) && !IsFolder(files[k])
    ensures Select(files, e, path).active == Some(path)
    ensures path in Paths(Select(files, e, path).tabs)
    ensures forall i, j :: 0 <= i < j < |Select(files, e, path).tabs| ==>
      Select(files, e, path).tabs[i].path != path || Select(files, e, path).tabs[j].path != path
  {
    SelectKeepsValid(files, e, path);
    var r := Select(files, e, path);
    assert forall i :: 0 <= i < |r.tabs| ==> Paths(r.tabs)[i] == r.tabs[i].path;
  }

  /** Closing the active tab hands activity to the rightmost remaining tab. */
  lemma CloseActiveSelectsLast(e: Editor, path: string)
    requires Valid(e) && e.active == Some(path)
    ensures Close(e, path).tabs != [] ==> Close(e, path).active == Some(Close(e, path).tabs[|Close(e, path).tabs| - 1].path)
    ensures Close(e, path).tabs == [] <==> forall i :: 0 <= i < |e.tabs| ==> e.tabs[i].path == path
  {
    var r := Close(e, path);
    if r.tabs == [] {
      forall i | 0 <= i < |e.tabs| ensures e.tabs[i].path == path {
        assert e.tabs[i] !in r.tabs;
      }
    } else {
      assert r.tabs[0] in e.tabs;
    }
  }

  /** Closing a tab that is not open and not active only drops its edit. */
  lemma CloseUnopened(e: Editor, path: string)
    requires path !in Paths(e.tabs) && e.active != Some(path)
    ensures Close(e, path) == e.(modified := e.modified - {path})
  {
    FilterKeepsAll((t: Tab) => t.path != path, e.tabs);
  }

  /* -------------------------------------------------------- edit and save */

  /** The editor shows what was just typed. */
  lemma EditThenContent(files: seq<FileRecord>, e: Editor, value: string)
    requires HasActive(e)
    ensures CurrentContent(files, Edit(e, value)) == value
  {
  }

  /** Typing enables the Save button, and the save then sends what was typed. */
  lemma EditEnablesSave(files: seq<FileRecord>, e: Editor, value: string)
    requires HasActive(e)
    ensures SaveEnabled(Edit(e, value))
    ensures FileWithPath(files, e.active.value).Some? ==>
      SaveRequest(files, Edit(e, value)) == Some(Update(files[FileWithPath(files, e.active.value).value].id, value))
  {
  }

  /** A save is sent exactly when the Save button is enabled and the active
      path has a record. */
  lemma SaveSentIffEnabled(files: seq<FileRecord>, e: Editor)
    ensures SaveRequest(files, e).Some? <==> SaveEnabled(e) && FileWithPath(files, e.active.value).Some?
  {
  }

  /** After a successful save nothing is left to save. */
  lemma SaveDisablesSave(files: seq<FileRecord>, e: Editor)
    requires SaveRequest(files, e).Some?
    ensures !SaveEnabled(Save(files, e))
  {
  }

  /** Saving does not change what the editor shows, once the store has
      applied the update and the file list is fetched again. */
  lemma SaveKeepsShownContent(files: seq<FileRecord>, e: Editor)
    requires SaveRequest(files, e).Some?
    ensures CurrentContent(ApplyUpdate(files, SaveRequest(files, e).value), Save(files, e)) == CurrentContent(files, e)
  {
    var a := e.active.value;
    var u := SaveRequest(files, e).value;
    ApplyUpdateKeepsPaths(files, u, a);
    var k := FileWithPath(files, a).value;
    assert ApplyUpdate(files, u)[k].content == e.modified[a];
  }

  /** The store's update moves no record, so a path is found where it was. */
  lemma ApplyUpdateKeepsPaths(files: seq<FileRecord>, u: Update, path: string)
    ensures FileWithPath(ApplyUpdate(files, u), path) == FileWithPath(files, path)
  {
    var files' := ApplyUpdate(files, u);
    assert forall j :: 0 <= j < |files| ==> files'[j].path == files[j].path;
  }

  /** Deleting a confirmed file leaves neither its tab nor its edit. */
  lemma DeleteClosesTab(files: seq<FileRecord>, e: Editor, path: string, confirmed: bool)
    requires Delete(files, e, path, confirmed).0.Some?
    ensures path !in Paths(Delete(files, e, path, confirmed).1.tabs)
    ensures path !in Delete(files, e, path, confirmed).1.modified
  {
  }

  /* ------------------------------------------------------------ languages */

  /** Opening a file that has no tab yet selects the language of its name. */
  lemma SelectThenLanguage(files: seq<FileRecord>, e: Editor, path: string, k: nat)
    requires Valid(e) && path != "" && path !in Paths(e.tabs)
    requires FileWithPath(files, path) == Some(k) && !IsFolder(files[k])
    ensures CurrentLanguage(Select(files, e, path)) == Language.LanguageOf(files[k].name)
  {
    var r := Select(files, e, path);
    assert r.tabs == e.tabs + [Tab(path, files[k].name, false)];
    SelectKeepsValid(files, e, path);
    var i := TabWithPath(r.tabs, path).value;
    assert Paths(r.tabs)[i] == Paths(r.tabs)[|e.tabs|];
  }

  /** The editor's language as the page computes it, against the mapping as
      written: the two agree on every name except those whose extension is an
      inherited key, where the page's mapping gives "plaintext" and the written
      one an inherited member. */
  lemma CurrentLanguageAgainstAsWritten(e: Editor, i: nat)
    requires HasActive(e) && TabWithPath(e.tabs, e.active.value) == Some(i)
    ensures Language.Extension(e.tabs[i].name) !in Language.InheritedKeys() ==>
      Language.LanguageAsWritten(e.tabs[i].name) == Language.Entry(CurrentLanguage(e))
    ensures Language.Extension(e.tabs[i].name) in Language.InheritedKeys() ==>
      CurrentLanguage(e) == "plaintext" &&
      Language.LanguageAsWritten(e.tabs[i].name) == Language.InheritedMember(Language.Extension(e.tabs[i].name))
  {
    var name := e.tabs[i].name;
    assert CurrentLanguage(e) == Language.LanguageOf(name);
    Language.AsWrittenDiffersOnlyOnInherited(name);
    if Language.Extension(name) in Language.InheritedKeys() {
      Language.InheritedKeysNotInTable(Language.Extension(name));
    }
  }

  /** Typing does not change the editor's language: the marked tab keeps its
      name. */
  lemma EditKeepsLanguage(e: Editor, value: string)
    ensures CurrentLanguage(Edit(e, value)) == CurrentLanguage(e)
  {
    if HasActive(e) {
      TabWithPathSamePaths(e.tabs, Edit(e, value).tabs, e.active.value);
    }
  }

  /** Nor does saving: the saved tab keeps its name. */
  lemma SaveKeepsLanguage(files: seq<FileRecord>, e: Editor)
    ensures CurrentLanguage(Save(files, e)) == CurrentLanguage(e)
  {
    if HasActive(e) {
      TabWithPathSamePaths(e.tabs, Save(files, e).tabs, e.active.value);
    }
  }

  /** Tab lists with the same paths find a path at the same place. */
  lemma TabWithPathSamePaths(a: seq<Tab>, b: seq<Tab>, path: string)
    requires Paths(a) == Paths(b)
    ensures TabWithPath(a, path) == TabWithPath(b, path)
  {
    var ra, rb := TabWithPath(a, path), TabWithPath(b, path);
    if ra.Some? && rb.Some? {
      assert Paths(a)[ra.value] == path && Paths(a)[rb.value] == path;
    }
  }

  /* -------------------------------------------------------------- preview */

  /** The preview reads a file by name exactly as the editor shows it when
      that file is the active one: the unsaved edit, else the stored text. */
  lemma ContentNamedFollowsEditor(files: seq<FileRecord>, e: Editor, name: string, k: nat)
    requires HasActive(e)
    requires FileWithPath(files, e.active.value) == Some(k)
    requires FileNamed(files, name) == Some(k)
    ensures ContentNamed(files, e.modified, name) == CurrentContent(files, e)
  {
  }

  /** Typing into the active file changes what the preview reads under that
      file's name to the typed text, before any save. */
  lemma EditThenContentNamed(files: seq<FileRecord>, e: Editor, name: string, k: nat, value: string)
    requires HasActive(e)
    requires FileNamed(files, name) == Some(k) && files[k].path == e.active.value
    ensures ContentNamed(files, Edit(e, value).modified, name) == value
  {
  }

  /** The preview's page is the editor's text when the active file is the
      first "index.html". */
  lemma PreviewFollowsEditor(files: seq<FileRecord>, e: Editor, k: nat)
    requires HasActive(e)
    requires FileWithPath(files, e.active.value) == Some(k)
    requires FileNamed(files, "index.html") == Some(k)
    ensures PreviewSources(files, e).html == CurrentContent(files, e)
  {
    ContentNamedFollowsEditor(files, e, "index.html", k);
  }

  /** A stylesheet named "styles.css" with text wins over "style.css". */
  lemma PreviewPrefersStyles(files: seq<FileRecord>, e: Editor)
    requires ContentNamed(files, e.modified, "styles.css") != ""
    ensures PreviewSources(files, e).css == ContentNamed(files, e.modified, "styles.css")
  {
  }

  /** "style.css" is used only when "styles.css" is missing or empty. */
  lemma PreviewFallsBackToStyle(files: seq<FileRecord>, e: Editor)
    requires ContentNamed(files, e.modified, "styles.css") == ""
    ensures PreviewSources(files, e).css == ContentNamed(files, e.modified, "style.css")
  {
  }

  /** The script is the first non-empty of "script.js", "main.js", "app.js". */
  lemma PreviewScriptOrder(files: seq<FileRecord>, e: Editor)
    ensures ContentNamed(files, e.modified, "script.js") != "" ==>
      PreviewSources(files, e).js == ContentNamed(files, e.modified, "script.js")
    ensures ContentNamed(files, e.modified, "script.js") == "" && ContentNamed(files, e.modified, "main.js") != "" ==>
      PreviewSources(files, e).js == ContentNamed(files, e.modified, "main.js")
    ensures ContentNamed(files, e.modified, "script.js") == "" && ContentNamed(files, e.modified, "main.js") == "" ==>
      PreviewSources(files, e).js == ContentNamed(files, e.modified, "app.js")
  {
  }

  /* ------------------------------------------------------------- creating */

  /** A new path splits back into the parent path and the name. */
  lemma {:induction false} JoinThenSplit(parentPath: string, name: string)
    requires '/' !in name
    ensures DirName(JoinPath(parentPath, name)) == parentPath
    ensures BaseName(JoinPath(parentPath, name)) == name
  {
    var p := JoinPath(parentPath, name);
    if parentPath != "" {
      var n := |parentPath|;
      assert p[n] == '/';
      assert forall j :: n < j < |p| ==> p[j] == name[j - n - 1];
      var i := LastSlash(p).value;
      assert i == n;
      assert p[..n] == parentPath;
      assert p[n + 1..] == name;
    }
  }

  /** The record created for a name under a parent path is stored at that
      parent: a root record exactly when the parent path is empty, a folder
      exactly when requested, with its path built from parent and name. */
  lemma CreatedRecordPlacement(projectId: Option<string>, parentPath: string, name: string, isFolder: bool, id: string)
    requires projectId.Some? && projectId.value != "" && '/' !in name
    ensures CreateRequest(projectId, parentPath, name, isFolder).Some?
    ensures IsRootRecord(Persist(CreateRequest(projectId, parentPath, name, isFolder).value, id)) <==> parentPath == ""
    ensures IsFolder(Persist(CreateRequest(projectId, parentPath, name, isFolder).value, id)) <==> isFolder
    ensures DirName(Persist(CreateRequest(projectId, parentPath, name, isFolder).value, id).path) == parentPath
    ensures BaseName(Persist(CreateRequest(projectId, parentPath, name, isFolder).value, id).path) == name
    ensures parentPath != "" ==> Persist(CreateRequest(projectId, parentPath, name, isFolder).value, id).parentPath == Some(parentPath)
  {
    JoinThenSplit(parentPath, name);
  }
}
