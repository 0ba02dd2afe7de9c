/** The flat-record to tree builder of the editor page (`buildFileTree`).

    The builder stable-sorts the records (folders first, then by name), walks the
    sorted list once with a path-to-node lookup, and pushes every node either onto
    the root list or onto the `children` of the node the lookup returns for its
    parent path. A record whose parent is not (yet) a folder in the lookup is
    dropped.

    Node identity in the source is object identity; here a node is named by its
    index in the sorted list, and the finished object graph is materialised from
    the index lists afterwards. */
module FileTree {
  import opened Wrappers

  /** A persisted file or folder row. The folder flag is stored as the text
      "true" or "false"; the parent path is nullable. */
  datatype FileRecord = FileRecord(
    id: string,
    projectId: string,
    name: string,
    path: string,
    content: string,
    isFolder: string,
    parentPath: Option<string>)

  /** A row about to be inserted (no id yet). */
  datatype NewFile = NewFile(
    projectId: string,
    name: string,
    path: string,
    content: string,
    isFolder: string,
    parentPath: Option<string>)

  /** The row the store returns for `nf` once it has assigned `id`. */
  function Persist(nf: NewFile, id: string): FileRecord {
    FileRecord(id, nf.projectId, nf.name, nf.path, nf.content, nf.isFolder, nf.parentPath)
  }

  /** A node of the explorer tree; folders carry a children list, files none. */
  datatype TreeNode = TreeNode(
    id: string,
    name: string,
    path: string,
    isFolder: bool,
    content: string,
    children: Children)

  /** The optional `children` array of a node. */
  datatype Children = NoChildren | ChildList(nodes: seq<TreeNode>)

  predicate IsFolder(r: FileRecord) {
    r.isFolder == "true"
  }

  /** A record is a root entry when its parent path is null or empty. */
  predicate IsRootRecord(r: FileRecord) {
    r.parentPath.None? || r.parentPath.value == ""
  }

  /** The name order `localeCompare` induces, kept abstract: any total preorder. */
  ghost predicate TotalPreorder(le: (string, string) -> bool) {
    && (forall a, b :: le(a, b) || le(b, a))
    && (forall a, b, c :: le(a, b) && le(b, c) ==> le(a, c))
  }

  /** The sort comparator as a weak order on records: `KeyLe(a, b)` says the
      comparator returns a non-positive number for `(a, b)`. */
  predicate KeyLe(le: (string, string) -> bool, a: FileRecord, b: FileRecord) {
    || (IsFolder(a) && !IsFolder(b))
    || (IsFolder(a) == IsFolder(b) && le(a.name, b.name))
  }

  /** Position order of a stable sort: record `i` ends up before record `j` when
      its key is strictly smaller, or the keys tie and `i` came first. */
  predicate Before(le: (string, string) -> bool, files: seq<FileRecord>, i: nat, j: nat)
    requires i < |files| && j < |files|
  {
    KeyLe(le, files[i], files[j]) && (!KeyLe(le, files[j], files[i]) || i < j)
  }

  predicate ValidIndices(files: seq<FileRecord>, xs: seq<nat>) {
    forall k :: 0 <= k < |xs| ==> xs[k] < |files|
  }

  /** `xs` lists indices of `files` in strictly increasing `Before` order. */
  predicate SortedBy(le: (string, string) -> bool, files: seq<FileRecord>, xs: seq<nat>) {
    && ValidIndices(files, xs)
    && forall a, b :: 0 <= a < b < |xs| ==> Before(le, files, xs[a], xs[b])
  }

  lemma BeforeTotal(le: (string, string) -> bool, files: seq<FileRecord>, i: nat, j: nat)
    requires TotalPreorder(le)
    requires i < |files| && j < |files| && i != j
    ensures Before(le, files, i, j) || Before(le, files, j, i)
  {
  }

  lemma BeforeTransitive(le: (string, string) -> bool, files: seq<FileRecord>, i: nat, j: nat, k: nat)
    requires TotalPreorder(le)
    requires i < |files| && j < |files| && k < |files|
    requires Before(le, files, i, j) && Before(le, files, j, k)
    ensures Before(le, files, i, k)
  {
  }

  /** Inserts index `i` into a sorted index list at its stable position. */
  function Insert(le: (string, string) -> bool, files: seq<FileRecord>, i: nat, xs: seq<nat>): (r: seq<nat>)
    requires TotalPreorder(le)
    requires i < |files| && SortedBy(le, files, xs) && i !in xs
    ensures |r| == |xs| + 1
    ensures forall x :: x in r <==> x == i || x in xs
    ensures SortedBy(le, files, r)
  {
    if xs == [] then [i]
    else if Before(le, files, i, xs[0]) then
      forall b | 0 < b < |xs| ensures Before(le, files, i, xs[b]) {
        BeforeTransitive(le, files, i, xs[0], xs[b]);
      }
      [i] + xs
    else
      BeforeTotal(le, files, i, xs[0]);
      var rest := Insert(le, files, i, xs[1..]);
      forall b | 0 <= b < |rest| ensures Before(le, files, xs[0], rest[b]) {
        assert rest[b] in rest;
        if rest[b] != i {
          var c :| 0 <= c < |xs[1..]| && xs[1..][c] == rest[b];
          assert xs[c + 1] == rest[b];
        }
      }
      [xs[0]] + rest
  }

  /** Stable sort of the first `n` records, as a list of their indices. */
  function SortPrefix(le: (string, string) -> bool, files: seq<FileRecord>, n: nat): (r: seq<nat>)
    requires TotalPreorder(le) && n <= |files|
    ensures |r| == n
    ensures forall x :: x in r <==> 0 <= x < n
    ensures SortedBy(le, files, r)
  {
    if n == 0 then []
    else Insert(le, files, n - 1, SortPrefix(le, files, n - 1))
  }

  /** The permutation the stable sort applies: position `k` of the sorted list
      holds record `SortOrder(le, files)[k]`. */
  function SortOrder(le: (string, string) -> bool, files: seq<FileRecord>): (r: seq<nat>)
    requires TotalPreorder(le)
    ensures |r| == |files| && SortedBy(le, files, r)
    ensures forall x :: x in r <==> 0 <= x < |files|
  {
    SortPrefix(le, files, |files|)
  }

  /** `[...files].sort(comparator)`. */
  function SortedRecords(le: (string, string) -> bool, files: seq<FileRecord>): (s: seq<FileRecord>)
    requires TotalPreorder(le)
    ensures |s| == |files|
  {
    var p := SortOrder(le, files);
    seq(|p|, k requires 0 <= k < |p| => files[p[k]])
  }

  /** The last index below `n` whose record has path `p`: what the source's
      path-to-node lookup holds for `p` after the first `n` records were visited. */
  function LastWithPath(s: seq<FileRecord>, p: string, n: nat): (r: Option<nat>)
    requires n <= |s|
    ensures r.Some? ==> r.value < n && s[r.value].path == p
    ensures r.Some? ==> forall k :: r.value < k < n ==> s[k].path != p
    ensures r.None? ==> forall k :: 0 <= k < n ==> s[k].path != p
  {
    if n == 0 then None
    else if s[n - 1].path == p then Some(n - 1)
    else LastWithPath(s, p, n - 1)
  }

  /** Record `k` of the sorted list is pushed onto the children of node `j`: it
      has a non-empty parent path, the lookup (which already holds record `k`
      itself) maps that path to `j`, and `j` is a folder (only folders have a
      children list). */
  predicate AttachedTo(s: seq<FileRecord>, k: nat, j: nat)
    requires k < |s|
  {
    && !IsRootRecord(s[k])
    && LastWithPath(s, s[k].parentPath.value, k + 1) == Some(j)
    && IsFolder(s[j])
  }

  predicate Increasing(xs: seq<nat>) {
    forall a, b :: 0 <= a < b < |xs| ==> xs[a] < xs[b]
  }

  /** The root list after the first `n` records were visited. */
  function RootIdx(s: seq<FileRecord>, n: nat): (r: seq<nat>)
    requires n <= |s|
    ensures forall k :: k in r <==> 0 <= k < n && IsRootRecord(s[k])
    ensures forall i :: 0 <= i < |r| ==> r[i] < n
    ensures Increasing(r)
  {
    if n == 0 then []
    else RootIdx(s, n - 1) + (if IsRootRecord(s[n - 1]) then [n - 1] else [])
  }

  /** The children list of node `j` after the first `n` records were visited. */
  function ChildIdx(s: seq<FileRecord>, j: nat, n: nat): (r: seq<nat>)
    requires n <= |s|
    ensures forall k :: k in r <==> 0 <= k < n && AttachedTo(s, k, j)
    ensures forall i :: 0 <= i < |r| ==> r[i] < n
    ensures Increasing(r)
  {
    if n == 0 then []
    else ChildIdx(s, j, n - 1) + (if AttachedTo(s, n - 1, j) then [n - 1] else [])
  }

  /** Every node's children list once the walk is over. */
  function ChildTable(s: seq<FileRecord>): (t: seq<seq<nat>>)
    ensures |t| == |s|
  {
    seq(|s|, j requires 0 <= j < |s| => ChildIdx(s, j, |s|))
  }

  /** The entries of `cs` strictly between `lo` and `hi`, in order. */
  function Between(lo: int, hi: int, cs: seq<nat>): (r: seq<nat>)
    ensures forall k :: k in r <==> k in cs && lo < k < hi
    ensures forall i :: 0 <= i < |r| ==> lo < r[i] < hi
    ensures Increasing(cs) ==> Increasing(r)
  {
    if cs == [] then []
    else
      var rest := Between(lo, hi, cs[1..]);
      assert Increasing(cs) ==> forall i :: 0 <= i < |rest| ==> cs[0] < rest[i] by {
        if Increasing(cs) {
          forall i | 0 <= i < |rest| ensures cs[0] < rest[i] {
            assert rest[i] in rest;
            var c :| 0 <= c < |cs[1..]| && cs[1..][c] == rest[i];
            assert cs[c + 1] == rest[i];
          }
        }
      }
      (if lo < cs[0] < hi then [cs[0]] else []) + rest
  }

  /** The node object for record `j`, with its children as the walk left them.
      Only children after `j` are followed: the one child that can sit at or
      before its parent is a folder whose parent path is its own path, which the
      walk pushes into its own children and which no root reaches. */
  function NodeAt(s: seq<FileRecord>, kids: seq<seq<nat>>, j: nat): TreeNode
    requires |kids| == |s| && j < |s|
    decreases |s| - j, 1
  {
    var r := s[j];
    TreeNode(r.id, r.name, r.path, IsFolder(r), r.content,
             if IsFolder(r) then ChildList(Nodes(s, kids, j, Between(j, |s|, kids[j]))) else NoChildren)
  }

  /** The nodes for the indices `idx`, all above `lo`. */
  function Nodes(s: seq<FileRecord>, kids: seq<seq<nat>>, lo: int, idx: seq<nat>): (r: seq<TreeNode>)
    requires |kids| == |s|
    requires forall i :: 0 <= i < |idx| ==> lo < idx[i] < |s|
    decreases |s| - lo, 0
    ensures |r| == |idx|
    ensures forall i :: 0 <= i < |idx| ==> r[i] == NodeAt(s, kids, idx[i])
  {
    seq(|idx|, i requires 0 <= i < |idx| => NodeAt(s, kids, idx[i]))
  }

  /** The forest the walk builds over the sorted records `s`, defined from the
      index lists. */
  function TreeOf(s: seq<FileRecord>): seq<TreeNode> {
    Nodes(s, ChildTable(s), -1, RootIdx(s, |s|))
  }

  /** The tree of `buildFileTree`. */
  function BuildFileTree(le: (string, string) -> bool, files: seq<FileRecord>): seq<TreeNode>
    requires TotalPreorder(le)
  {
    TreeOf(SortedRecords(le, files))
  }

  lemma ChildIdxBelow(s: seq<FileRecord>, j: nat, n: nat)
    requires n <= j && n <= |s|
    ensures ChildIdx(s, j, n) == []
  {
    if n > 0 {
      ChildIdxBelow(s, j, n - 1);
    }
  }

  /** The path-to-node lookup after the first `n` records were visited. */
  function LookupAfter(s: seq<FileRecord>, n: nat): (m: map<string, nat>)
    requires n <= |s|
    ensures forall p :: p in m ==> m[p] < n
  {
    if n == 0 then map[] else LookupAfter(s, n - 1)[s[n - 1].path := n - 1]
  }

  /** The lookup maps each path to the last record with that path so far. */
  lemma {:induction false} LookupIsLast(s: seq<FileRecord>, n: nat, p: string)
    requires n <= |s|
    ensures p in LookupAfter(s, n) <==> LastWithPath(s, p, n).Some?
    ensures p in LookupAfter(s, n) ==> LastWithPath(s, p, n) == Some(LookupAfter(s, n)[p])
  {
    if n > 0 {
      LookupIsLast(s, n - 1, p);
    }
  }

  /** Once the lookup holds record `k`, it decides where `k` is pushed. */
  lemma AttachedViaLookup(s: seq<FileRecord>, k: nat, i: nat)
    requires k < |s|
    ensures AttachedTo(s, k, i) <==>
              && !IsRootRecord(s[k])
              && s[k].parentPath.value in LookupAfter(s, k + 1)
              && LookupAfter(s, k + 1)[s[k].parentPath.value] == i
              && IsFolder(s[i])
  {
    if !IsRootRecord(s[k]) {
      LookupIsLast(s, k + 1, s[k].parentPath.value);
    }
  }

  /** The state of the source's loop: the root list, every visited node's
      children list, and the path-to-node lookup. */
  datatype Walk = Walk(roots: seq<nat>, kids: seq<seq<nat>>, lookup: map<string, nat>)

  ghost predicate WalkShape(w: Walk, k: nat) {
    |w.kids| == k && forall p :: p in w.lookup ==> w.lookup[p] < k
  }

  /** One iteration of the loop, on record `k` of the sorted list: register the
      node under its path, then push it onto the root list or onto the children
      of the node the lookup returns for its parent path, if that is a folder. */
  function Visit(s: seq<FileRecord>, w: Walk, k: nat): (w': Walk)
    requires k < |s| && WalkShape(w, k)
    ensures WalkShape(w', k + 1)
  {
    var r := s[k];
    var lookup := w.lookup[r.path := k];
    var kids := w.kids + [[]];
    if IsRootRecord(r) then Walk(w.roots + [k], kids, lookup)
    else
      var pp := r.parentPath.value;
      if pp in lookup && IsFolder(s[lookup[pp]]) then
        Walk(w.roots, kids[lookup[pp] := kids[lookup[pp]] + [k]], lookup)
      else
        Walk(w.roots, kids, lookup)
  }

  /** The loop state after the first `n` records. */
  function WalkAfter(s: seq<FileRecord>, n: nat): (w: Walk)
    requires n <= |s|
    ensures WalkShape(w, n)
  {
    if n == 0 then Walk([], [], map[]) else Visit(s, WalkAfter(s, n - 1), n - 1)
  }

  /** The loop's root list is `RootIdx` and its lookup is `LookupAfter`. */
  lemma {:induction false} WalkRootsAndLookup(s: seq<FileRecord>, n: nat)
    requires n <= |s|
    ensures WalkAfter(s, n).roots == RootIdx(s, n)
    ensures WalkAfter(s, n).lookup == LookupAfter(s, n)
  {
    if n > 0 {
      WalkRootsAndLookup(s, n - 1);
    }
  }

  /** After `n` records every children list of the loop is the `ChildIdx` list. */
  ghost predicate KidsAgree(s: seq<FileRecord>, n: nat)
    requires n <= |s|
  {
    forall j :: 0 <= j < n ==> WalkAfter(s, n).kids[j] == ChildIdx(s, j, n)
  }

  /** One visit appends record `k` to exactly the children list of the node it
      attaches to, and opens an empty list for record `k` itself. */
  lemma VisitKids(s: seq<FileRecord>, k: nat)
    requires k < |s|
    requires KidsAgree(s, k)
    ensures KidsAgree(s, k + 1)
  {
    var n := k + 1;
    forall i | 0 <= i < n ensures WalkAfter(s, n).kids[i] == ChildIdx(s, i, n) {
      VisitKidsAt(s, k, i);
    }
  }

  lemma VisitKidsAt(s: seq<FileRecord>, k: nat, i: nat)
    requires i <= k < |s|
    requires i < k ==> WalkAfter(s, k).kids[i] == ChildIdx(s, i, k)
    ensures WalkAfter(s, k + 1).kids[i] == ChildIdx(s, i, k + 1)
  {
    var w := WalkAfter(s, k);
    WalkRootsAndLookup(s, k);
    AttachedViaLookup(s, k, i);
    if i == k {
      ChildIdxBelow(s, k, k);
    } else {
      assert ChildIdx(s, i, k + 1) == ChildIdx(s, i, k) + (if AttachedTo(s, k, i) then [k] else []);
    }
  }

  /** The loop's children lists are the declarative `ChildIdx` lists. */
  lemma {:induction false} WalkComputesLists(s: seq<FileRecord>, n: nat)
    requires n <= |s|
    ensures WalkAfter(s, n).roots == RootIdx(s, n)
    ensures forall j :: 0 <= j < n ==> WalkAfter(s, n).kids[j] == ChildIdx(s, j, n)
  {
    WalkRootsAndLookup(s, n);
    if n > 0 {
      WalkComputesLists(s, n - 1);
      VisitKids(s, n - 1);
    }
  }

  /** `buildFileTree` as the source runs it: sort, walk, and return the node
      objects of the root list (with their children as the walk left them). */
  function BuildFileTreeAsRun(le: (string, string) -> bool, files: seq<FileRecord>): seq<TreeNode>
    requires TotalPreorder(le)
  {
    var s := SortedRecords(le, files);
    var w := WalkAfter(s, |s|);
    WalkComputesLists(s, |s|);
    Nodes(s, w.kids, -1, w.roots)
  }

  /** Running the loop gives the tree the index lists describe. */
  lemma BuildFileTreeAsRunIsDeclarative(le: (string, string) -> bool, files: seq<FileRecord>)
    requires TotalPreorder(le)
    ensures BuildFileTreeAsRun(le, files) == BuildFileTree(le, files)
  {
    var s := SortedRecords(le, files);
    WalkComputesLists(s, |s|);
    assert WalkAfter(s, |s|).kids == ChildTable(s);
  }
}
