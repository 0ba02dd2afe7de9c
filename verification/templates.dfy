/** The starter projects (`getTemplateFiles`): three fixed tables of files and
    folders, one of which is stamped with the new project's id.

    A file's text belongs to the template and is not modelled: it is supplied
    by the `texts` parameter, keyed by path. Folder rows carry the empty
    text. What is modelled is the layout: names, paths, folder flags and
    parent links. */
module Templates {
  import opened Wrappers
  import opened FileTree
  import opened FileTreeProps
  import Session

  /** A table row without its text. */
  datatype Entry = Entry(name: string, path: string, isFolder: string, parentPath: Option<string>)

  /** The Next.js starter. */
  function NextJs(): seq<Entry> {
    [ Entry("pages", "pages", "true", None),
      Entry("index.js", "pages/index.js", "false", Some("pages")),
      Entry("styles", "styles", "true", None),
      Entry("globals.css", "styles/globals.css", "false", Some("styles")),
      Entry("package.json", "package.json", "false", None) ]
  }

  /** The Vite + Vue starter. */
  function ViteVue(): seq<Entry> {
    [ Entry("src", "src", "true", None),
      Entry("App.vue", "src/App.vue", "false", Some("src")),
      Entry("main.js", "src/main.js", "false", Some("src")),
      Entry("index.html", "index.html", "false", None),
      Entry("package.json", "package.json", "false", None),
      Entry("vite.config.js", "vite.config.js", "false", None) ]
  }

  /** The static HTML/CSS/JS starter. */
  function Static(): seq<Entry> {
    [ Entry("index.html", "index.html", "false", None),
      Entry("styles.css", "styles.css", "false", None),
      Entry("script.js", "script.js", "false", None) ]
  }

  /* ------------------------------------------------------------ layout */

  predicate UniqueEntryPaths(t: seq<Entry>) {
    forall a, b :: 0 <= a < b < |t| ==> t[a].path != t[b].path
  }

  /** Some row of `t` is a root folder at path `p`. */
  predicate HasRootFolderEntry(t: seq<Entry>, p: string) {
    exists j :: 0 <= j < |t| && t[j].parentPath.None? && t[j].isFolder == "true" && t[j].path == p
  }

  /** Every row sits where the editor would create it: a root row's path is its
      name, a child's path is its parent's path, '/', and its name; every
      parent is a root folder of the same table, and children are files. */
  predicate WellLaidOut(t: seq<Entry>) {
    UniqueEntryPaths(t) && PathsJoined(t) && ChildrenInRootFolders(t)
  }

  /** Each row's path is its parent's path joined with its name. */
  predicate PathsJoined(t: seq<Entry>) {
    forall i :: 0 <= i < |t| ==> t[i].path == Session.JoinPath(t[i].parentPath.GetOr(""), t[i].name)
  }

  /** Each child is a file in a root folder of the table. */
  predicate ChildrenInRootFolders(t: seq<Entry>) {
    forall i :: 0 <= i < |t| && t[i].parentPath.Some? ==>
      t[i].parentPath.value != "" && t[i].isFolder == "false" && HasRootFolderEntry(t, t[i].parentPath.value)
  }

  lemma NextJsLaidOut()
    ensures WellLaidOut(NextJs())
  {
    NextJsUnique();
    NextJsJoined();
    NextJsChildren();
  }

  lemma NextJsUnique()
    ensures UniqueEntryPaths(NextJs())
  {
  }

  lemma NextJsJoined()
    ensures PathsJoined(NextJs())
  {
    assert "pages/index.js" == "pages" + "/" + "index.js";
    assert "styles/globals.css" == "styles" + "/" + "globals.css";
  }

  lemma NextJsChildren()
    ensures ChildrenInRootFolders(NextJs())
  {
    var t := NextJs();
    assert t[0].parentPath.None? && t[0].isFolder == "true" && t[0].path == "pages";
    assert t[2].parentPath.None? && t[2].isFolder == "true" && t[2].path == "styles";
  }

  lemma ViteVueLaidOut()
    ensures WellLaidOut(ViteVue())
  {
    ViteVueUnique();
    ViteVueJoined();
    ViteVueChildren();
  }

  lemma ViteVueUnique()
    ensures UniqueEntryPaths(ViteVue())
  {
  }

  lemma ViteVueJoined()
    ensures PathsJoined(ViteVue())
  {
    assert "src/App.vue" == "src" + "/" + "App.vue";
    assert "src/main.js" == "src" + "/" + "main.js";
  }

  lemma ViteVueChildren()
    ensures ChildrenInRootFolders(ViteVue())
  {
    var t := ViteVue();
    assert t[0].parentPath.None? && t[0].isFolder == "true" && t[0].path == "src";
  }

  lemma StaticLaidOut()
    ensures WellLaidOut(Static())
  {
  }

  /* ----------------------------------------------------- getTemplateFiles */

  /** The table for a template name; any name but the first two gets the
      static table. */
  function TableFor(template: string): (t: seq<Entry>)
    ensures template != "nextjs" && template != "vite-vue" ==> t == Static()
    ensures WellLaidOut(t)
  {
    NextJsLaidOut();
    ViteVueLaidOut();
    StaticLaidOut();
    match template
    case "nextjs" => NextJs()
    case "vite-vue" => ViteVue()
    case _ => Static()
  }

  /** The text stored for a row: the empty text for a folder, the template's
      own text for a file. */
  function TextOf(e: Entry, texts: string -> string): string {
    if e.isFolder == "true" then "" else texts(e.path)
  }

  /** The row to insert for `e` in project `projectId`. */
  function Stamp(e: Entry, projectId: string, texts: string -> string): NewFile {
    NewFile(projectId, e.name, e.path, TextOf(e, texts), e.isFolder, e.parentPath)
  }

  /** The rows to insert for a new project, one per table row, in table order. */
  function GetTemplateFiles(template: string, projectId: string, texts: string -> string): (r: seq<NewFile>)
    ensures |r| == |TableFor(template)|
    ensures forall i :: 0 <= i < |r| ==> r[i].projectId == projectId
  {
    var t := TableFor(template);
    seq(|t|, i requires 0 <= i < |t| => Stamp(t[i], projectId, texts))
  }

  /** The layout part of an inserted row. */
  function EntryOf(nf: NewFile): Entry {
    Entry(nf.name, nf.path, nf.isFolder, nf.parentPath)
  }

  /** Dropping the project id and the texts gives back the table, row by row:
      nothing is added, lost, reordered or altered. */
  lemma GetTemplateFilesCopiesTable(template: string, projectId: string, texts: string -> string)
    ensures var r := GetTemplateFiles(template, projectId, texts);
      seq(|r|, i requires 0 <= i < |r| => EntryOf(r[i])) == TableFor(template)
  {
  }

  /** Folders are stored with the empty text, files with their own. */
  lemma GetTemplateFilesTexts(template: string, projectId: string, texts: string -> string, i: nat)
    requires i < |TableFor(template)|
    ensures var e := TableFor(template)[i];
      GetTemplateFiles(template, projectId, texts)[i].content == (if e.isFolder == "true" then "" else texts(e.path))
  {
  }

  /* ------------------------------------------------- the tree of a project */

  /** The records the store returns once it has assigned the ids. */
  function Inserted(rows: seq<NewFile>, ids: seq<string>): (files: seq<FileRecord>)
    requires |ids| == |rows|
    ensures |files| == |rows|
  {
    seq(|rows|, i requires 0 <= i < |rows| => Persist(rows[i], ids[i]))
  }

  /** The records of a new project keep the table's layout. */
  lemma InsertedLayout(template: string, projectId: string, texts: string -> string, ids: seq<string>)
    requires |ids| == |TableFor(template)|
    ensures UniquePaths(Inserted(GetTemplateFiles(template, projectId, texts), ids))
    ensures TwoLevel(Inserted(GetTemplateFiles(template, projectId, texts), ids))
  {
    var t := TableFor(template);
    var files := Inserted(GetTemplateFiles(template, projectId, texts), ids);
    assert forall i :: 0 <= i < |files| ==> files[i].path == t[i].path && files[i].parentPath == t[i].parentPath && files[i].isFolder == t[i].isFolder;
    forall k | 0 <= k < |files| && !IsRootRecord(files[k])
      ensures !IsFolder(files[k]) && HasRootFolder(files, files[k].parentPath.value)
    {
      var j :| 0 <= j < |t| && t[j].parentPath.None? && t[j].isFolder == "true" && t[j].path == t[k].parentPath.value;
      assert IsRootRecord(files[j]) && IsFolder(files[j]) && files[j].path == files[k].parentPath.value;
    }
  }

  /** The explorer shows every file and folder of a new project: the tree has
      exactly one node per record, whatever the name order. */
  lemma TemplateTreeComplete(le: (string, string) -> bool, template: string, projectId: string,
                             texts: string -> string, ids: seq<string>)
    requires TotalPreorder(le)
    requires |ids| == |TableFor(template)|
    ensures |Flatten(BuildFileTree(le, Inserted(GetTemplateFiles(template, projectId, texts), ids)))| == |TableFor(template)|
  {
    InsertedLayout(template, projectId, texts, ids);
    TwoLevelTreeComplete(le, Inserted(GetTemplateFiles(template, projectId, texts), ids));
  }
}
