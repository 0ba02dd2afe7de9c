/** The file explorer's own state: which folders are expanded, and the name
    input used to create a file or folder, either at the root (the header's
    buttons) or inside a folder (the folder's context menu).

    The explorer does not create anything itself; it asks the page to, with a
    parent path, a trimmed name and a folder flag. */
module Explorer {
  import opened Wrappers
  import opened Strings
  import opened FileTree

  /* ------------------------------------------------------- expanded set */

  /** The root path is expanded from the start. */
  function InitialExpanded(): (r: set<string>)
    ensures "" in r && |r| == 1
  {
    {""}
  }

  /** `toggleFolder`: flip whether `path` is expanded, leave every other path
      as it was. */
  function ToggleFolder(expanded: set<string>, path: string): (r: set<string>)
    ensures path in r <==> path !in expanded
    ensures forall q :: q != path ==> (q in r <==> q in expanded)
  {
    if path in expanded then expanded - {path} else expanded + {path}
  }

  /** Toggling twice restores the set. */
  lemma ToggleTwice(expanded: set<string>, path: string)
    ensures ToggleFolder(ToggleFolder(expanded, path), path) == expanded
  {
  }

  /** Toggles of different folders commute. */
  lemma ToggleCommutes(expanded: set<string>, p: string, q: string)
    ensures ToggleFolder(ToggleFolder(expanded, p), q) == ToggleFolder(ToggleFolder(expanded, q), p)
  {
  }

  /* --------------------------------------------------------- name input */

  /** The name input: whether it is shown, whether it creates a folder, and the
      text typed so far. */
  datatype Draft = Draft(creating: bool, folder: bool, name: string)

  function InitialDraft(): Draft {
    Draft(false, false, "")
  }

  /** What the explorer asks the page to create. */
  datatype Request = Request(parentPath: string, name: string, isFolder: bool)

  /** `handleCreate` (inside a folder, `parentPath` its path) and
      `handleCreateRoot` (`parentPath` ""): a name that is all white space does
      nothing; any other is sent trimmed and the input is closed and cleared. */
  function Create(parentPath: string, d: Draft): (r: (Option<Request>, Draft))
    ensures r.0.None? <==> AllSpace(d.name)
    ensures r.0.None? ==> r.1 == d
    ensures r.0.Some? ==> r.0.value.parentPath == parentPath && r.0.value.isFolder == d.folder
    ensures r.0.Some? ==> r.0.value.name != [] && !IsJsSpace(r.0.value.name[0])
    ensures r.0.Some? ==> r.1 == InitialDraft()
  {
    var n := Trim(d.name);
    if n != [] then (Some(Request(parentPath, n, d.folder)), InitialDraft())
    else (None, d)
  }

  /** The sent name is the typed name without its surrounding white space. */
  lemma CreateSendsTrimmed(parentPath: string, pre: string, x: string, post: string, folder: bool)
    requires AllSpace(pre) && AllSpace(post)
    requires x != [] && !IsJsSpace(x[0]) && !IsJsSpace(x[|x| - 1])
    ensures Create(parentPath, Draft(true, folder, pre + x + post)).0 == Some(Request(parentPath, x, folder))
  {
    TrimPadded(pre, x, post);
  }

  /** A root create sends the empty parent path, so the page stores the record
      at the root under its bare name. */
  lemma RootCreateIsAtRoot(d: Draft)
    requires !AllSpace(d.name)
    ensures Create("", d).0.Some? && Create("", d).0.value.parentPath == ""
  {
  }

  /** The input's key handler: Enter creates, Escape closes and clears the
      input, any other key changes nothing. */
  function KeyDown(parentPath: string, d: Draft, key: string): (r: (Option<Request>, Draft))
    ensures key == "Enter" ==> r == Create(parentPath, d)
    ensures key == "Escape" ==> r.0.None? && !r.1.creating && r.1.name == "" && r.1.folder == d.folder
    ensures key != "Enter" && key != "Escape" ==> r == (None, d)
  {
    if key == "Enter" then Create(parentPath, d)
    else if key == "Escape" then (None, d.(creating := false, name := ""))
    else (None, d)
  }

  /** Leaving the input closes it only when nothing but white space was typed;
      the text is kept. */
  function Blur(d: Draft): (r: Draft)
    ensures r.name == d.name && r.folder == d.folder
    ensures r.creating <==> d.creating && !AllSpace(d.name)
  {
    if AllSpace(d.name) then d.(creating := false) else d
  }

  /** After a successful create the input is closed, so a second Enter sends
      nothing. */
  lemma CreateOnce(parentPath: string, d: Draft)
    requires Create(parentPath, d).0.Some?
    ensures Create(parentPath, Create(parentPath, d).1).0.None?
  {
  }

  /* -------------------------------------------------------------- clicks */

  /** What clicking a node asks for. */
  datatype Click = ToggleOf(path: string) | SelectOf(path: string)

  /** A folder is toggled, a file is selected; never both. */
  function ClickNode(n: TreeNode): (r: Click)
    ensures r.ToggleOf? <==> n.isFolder
    ensures r.path == n.path
  {
    if n.isFolder then ToggleOf(n.path) else SelectOf(n.path)
  }

  /** The root buttons open the input for a file or a folder; the typed text
      is kept. */
  function NewAtRoot(d: Draft, folder: bool): (r: Draft)
    ensures r.creating && r.folder == folder && r.name == d.name
  {
    Draft(true, folder, d.name)
  }

  /** A folder's "New File" and "New Folder" open its input and toggle the
      folder. */
  function NewInFolder(expanded: set<string>, d: Draft, path: string, folder: bool): (r: (set<string>, Draft))
    ensures r.1.creating && r.1.folder == folder && r.1.name == d.name
    ensures r.0 == ToggleFolder(expanded, path)
  {
    (ToggleFolder(expanded, path), Draft(true, folder, d.name))
  }

  /** The input inside a folder is shown only while the folder is expanded. */
  predicate InputShown(expanded: set<string>, d: Draft, n: TreeNode) {
    n.isFolder && n.path in expanded && d.creating
  }

  /** On an expanded folder, "New File" collapses it, so the input it opens is
      not shown; on a collapsed folder it is. */
  lemma NewInFolderShowsInputIffCollapsed(expanded: set<string>, d: Draft, n: TreeNode, folder: bool)
    requires n.isFolder
    ensures var r := NewInFolder(expanded, d, n.path, folder);
      InputShown(r.0, r.1, n) <==> n.path !in expanded
  {
  }
}
