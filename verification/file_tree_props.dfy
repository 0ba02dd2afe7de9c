/** What the tree `buildFileTree` returns contains: the sort it applies, the
    order of every sibling list, which records survive, and that none appears
    twice. */
module FileTreeProps {
  import opened Wrappers
  import opened FileTree
  import opened Seqs

  /* ---------------------------------------------------------------- sort */

  /** The sort is a stable sort: the sorted list is the input permuted by
      `SortOrder`, it is ordered folders first and then by name, and records
      whose keys tie keep their input order. */
  lemma SortedRecordsIsStableSort(le: (string, string) -> bool, files: seq<FileRecord>)
    requires TotalPreorder(le)
    ensures var s, p := SortedRecords(le, files), SortOrder(le, files);
      && |p| == |files|
      && (forall x :: x in p <==> 0 <= x < |files|)
      && (forall a, b :: 0 <= a < b < |p| ==> p[a] != p[b])
      && (forall k :: 0 <= k < |s| ==> s[k] == files[p[k]])
      && (forall a, b :: 0 <= a < b < |s| ==> KeyLe(le, s[a], s[b]))
      && (forall a, b :: 0 <= a < b < |s| && KeyLe(le, s[b], s[a]) ==> p[a] < p[b])
  {
  }

  /** Every folder sorts before every file. */
  lemma FoldersFirst(le: (string, string) -> bool, files: seq<FileRecord>, a: nat, b: nat)
    requires TotalPreorder(le)
    requires a < |files| && b < |files|
    requires IsFolder(SortedRecords(le, files)[b]) && !IsFolder(SortedRecords(le, files)[a])
    ensures b < a
  {
    SortedRecordsIsStableSort(le, files);
  }

  predicate UniquePaths(s: seq<FileRecord>) {
    forall a, b :: 0 <= a < b < |s| ==> s[a].path != s[b].path
  }

  /** Sorting keeps paths unique. */
  lemma SortKeepsUniquePaths(le: (string, string) -> bool, files: seq<FileRecord>)
    requires TotalPreorder(le) && UniquePaths(files)
    ensures UniquePaths(SortedRecords(le, files))
  {
    var s, p := SortedRecords(le, files), SortOrder(le, files);
    SortedRecordsIsStableSort(le, files);
    forall a, b | 0 <= a < b < |s| ensures s[a].path != s[b].path {
      assert s[a] == files[p[a]] && s[b] == files[p[b]];
      if p[a] < p[b] {
        assert files[p[a]].path != files[p[b]].path;
      } else {
        assert files[p[b]].path != files[p[a]].path;
      }
    }
  }

  /* ------------------------------------------------------ parent links */

  /** The node record `k` of the sorted list ends up under, if any: the node the
      lookup returns for its parent path, when that is a folder visited before
      `k`. (A folder whose parent path is its own path finds itself.) */
  function ParentIdx(s: seq<FileRecord>, k: nat): (r: Option<nat>)
    requires k < |s|
    ensures r.Some? ==> r.value < k
    ensures forall j: nat :: j < k ==> (r == Some(j) <==> AttachedTo(s, k, j))
  {
    if IsRootRecord(s[k]) then None
    else
      var l := LastWithPath(s, s[k].parentPath.value, k + 1);
      if l.Some? && l.value < k && IsFolder(s[l.value]) then l else None
  }

  /** The children the materialised node `j` lists. */
  function Children(s: seq<FileRecord>, j: nat): (r: seq<nat>)
    requires j < |s|
    ensures forall k: nat :: k in r <==> k < |s| && ParentIdx(s, k) == Some(j)
    ensures forall i :: 0 <= i < |r| ==> j < r[i] < |s|
    ensures Increasing(r)
  {
    Between(j, |s|, ChildTable(s)[j])
  }

  /** `a` is `k` or an ancestor of `k` along `ParentIdx`. */
  ghost predicate Descends(s: seq<FileRecord>, a: nat, k: nat)
    requires k < |s|
    decreases k
  {
    a == k || (ParentIdx(s, k).Some? && Descends(s, a, ParentIdx(s, k).value))
  }

  /** Record `k` is kept: it is a root, or its parent node is kept. */
  ghost predicate Kept(s: seq<FileRecord>, k: nat)
    requires k < |s|
    decreases k
  {
    IsRootRecord(s[k]) || (ParentIdx(s, k).Some? && Kept(s, ParentIdx(s, k).value))
  }

  lemma {:induction false} DescendsBelow(s: seq<FileRecord>, a: nat, k: nat)
    requires k < |s| && Descends(s, a, k)
    ensures a <= k
    decreases k
  {
    if a != k {
      DescendsBelow(s, a, ParentIdx(s, k).value);
    }
  }

  /** Two ancestors of one record lie on one chain. */
  lemma {:induction false} DescendsComparable(s: seq<FileRecord>, a: nat, b: nat, k: nat)
    requires k < |s| && Descends(s, a, k) && Descends(s, b, k)
    ensures a < |s| && b < |s|
    ensures Descends(s, a, b) || Descends(s, b, a)
    decreases k
  {
    DescendsBelow(s, a, k);
    DescendsBelow(s, b, k);
    if a != k && b != k {
      DescendsComparable(s, a, b, ParentIdx(s, k).value);
    }
  }

  /** Below a proper ancestor `a` of `k` sits a child of `a` that is `k` or an
      ancestor of `k`. */
  lemma {:induction false} DescendsThroughChild(s: seq<FileRecord>, a: nat, k: nat) returns (c: nat)
    requires k < |s| && Descends(s, a, k) && a != k
    ensures c < |s| && ParentIdx(s, c) == Some(a) && Descends(s, c, k)
    decreases k
  {
    var p := ParentIdx(s, k).value;
    if p == a {
      c := k;
    } else {
      c := DescendsThroughChild(s, a, p);
      DescendsBelow(s, c, p);
    }
  }

  /** A kept record is exactly one with a root record among its ancestors. */
  lemma {:induction false} KeptIffRootAncestor(s: seq<FileRecord>, k: nat)
    requires k < |s|
    ensures Kept(s, k) <==> exists r :: 0 <= r < |s| && IsRootRecord(s[r]) && Descends(s, r, k)
    decreases k
  {
    if IsRootRecord(s[k]) {
      assert Descends(s, k, k);
    } else if ParentIdx(s, k).Some? {
      var p := ParentIdx(s, k).value;
      KeptIffRootAncestor(s, p);
      if r :| 0 <= r < |s| && IsRootRecord(s[r]) && Descends(s, r, k) {
        assert r != k;
        assert Descends(s, r, p);
      }
    }
  }

  /* -------------------------------------------------- reachable records */

  /** The records of the subtree of node `j`, in preorder. */
  function ReachAt(s: seq<FileRecord>, j: nat): (r: seq<nat>)
    requires j < |s|
    ensures forall i :: 0 <= i < |r| ==> j <= r[i] < |s|
    decreases |s| - j, 1
  {
    [j] + (if IsFolder(s[j]) then Reach(s, j, Children(s, j)) else [])
  }

  /** The records of the subtrees of the nodes `idx`, in preorder. */
  function Reach(s: seq<FileRecord>, lo: int, idx: seq<nat>): (r: seq<nat>)
    requires forall i :: 0 <= i < |idx| ==> lo < idx[i] < |s|
    ensures forall i :: 0 <= i < |r| ==> lo < r[i] < |s|
    decreases |s| - lo, 0, |idx|
  {
    if idx == [] then [] else ReachAt(s, idx[0]) + Reach(s, lo, idx[1..])
  }

  lemma {:induction false} ReachMembers(s: seq<FileRecord>, lo: int, idx: seq<nat>, k: nat)
    requires forall i :: 0 <= i < |idx| ==> lo < idx[i] < |s|
    ensures k in Reach(s, lo, idx) <==> exists i :: 0 <= i < |idx| && k in ReachAt(s, idx[i])
    decreases |idx|
  {
    if idx != [] {
      ReachMembers(s, lo, idx[1..], k);
      if i :| 0 <= i < |idx| && k in ReachAt(s, idx[i]) {
        if i > 0 {
          assert idx[1..][i - 1] == idx[i];
        }
      }
      if i :| 0 <= i < |idx[1..]| && k in ReachAt(s, idx[1..][i]) {
        assert idx[i + 1] == idx[1..][i];
      }
    }
  }

  /** The subtree of node `j` holds exactly the records `j` is an ancestor of. */
  lemma ReachAtIsDescendants(s: seq<FileRecord>, j: nat, k: nat)
    requires j < |s|
    ensures k in ReachAt(s, j) <==> k < |s| && Descends(s, j, k)
  {
    if k in ReachAt(s, j) {
      ReachAtOnlyDescendants(s, j, k);
    }
    if k < |s| && Descends(s, j, k) {
      ReachAtAllDescendants(s, j, k);
    }
  }

  lemma {:induction false} ReachAtOnlyDescendants(s: seq<FileRecord>, j: nat, k: nat)
    requires j < |s| && k in ReachAt(s, j)
    ensures k < |s| && Descends(s, j, k)
    decreases |s| - j
  {
    if k != j {
      var cs := Children(s, j);
      assert IsFolder(s[j]) && k in Reach(s, j, cs);
      ReachMembers(s, j, cs, k);
      var i :| 0 <= i < |cs| && k in ReachAt(s, cs[i]);
      ReachAtOnlyDescendants(s, cs[i], k);
      DescendsExtend(s, cs[i], j, k);
    }
  }

  lemma {:induction false} ReachAtAllDescendants(s: seq<FileRecord>, j: nat, k: nat)
    requires j < |s| && k < |s| && Descends(s, j, k)
    ensures k in ReachAt(s, j)
    decreases |s| - j
  {
    if k != j {
      var cs := Children(s, j);
      var c := DescendsThroughChild(s, j, k);
      assert c in cs;
      ReachAtAllDescendants(s, c, k);
      assert IsFolder(s[j]) by {
        assert AttachedTo(s, c, j);
      }
      ReachMembers(s, j, cs, k);
      var i :| 0 <= i < |cs| && cs[i] == c;
    }
  }

  /** An ancestor of an ancestor is an ancestor. */
  lemma {:induction false} DescendsExtend(s: seq<FileRecord>, c: nat, j: nat, k: nat)
    requires k < |s| && c < |s| && Descends(s, c, k) && ParentIdx(s, c) == Some(j)
    ensures Descends(s, j, k)
    decreases k
  {
    if c != k {
      DescendsBelow(s, c, k);
      DescendsExtend(s, c, j, ParentIdx(s, k).value);
    }
  }

  /** Siblings: pairwise distinct nodes with one common parent (or none). */
  ghost predicate Siblings(s: seq<FileRecord>, idx: seq<nat>)
    requires forall i :: 0 <= i < |idx| ==> idx[i] < |s|
  {
    && Distinct(idx)
    && forall a, b :: 0 <= a < |idx| && 0 <= b < |idx| ==> ParentIdx(s, idx[a]) == ParentIdx(s, idx[b])
  }

  /** The subtrees of two different siblings share no record. */
  lemma SiblingSubtreesDisjoint(s: seq<FileRecord>, c1: nat, c2: nat, k: nat)
    requires c1 < |s| && c2 < |s| && c1 != c2 && ParentIdx(s, c1) == ParentIdx(s, c2)
    requires k in ReachAt(s, c1)
    ensures k !in ReachAt(s, c2)
  {
    ReachAtIsDescendants(s, c1, k);
    ReachAtIsDescendants(s, c2, k);
    if Descends(s, c2, k) {
      DescendsComparable(s, c1, c2, k);
      if Descends(s, c1, c2) {
        NotAboveSibling(s, c1, c2);
      } else {
        NotAboveSibling(s, c2, c1);
      }
    }
  }

  lemma NotAboveSibling(s: seq<FileRecord>, a: nat, b: nat)
    requires a < |s| && b < |s| && a != b && ParentIdx(s, a) == ParentIdx(s, b)
    ensures !Descends(s, a, b)
  {
    if Descends(s, a, b) {
      var p := ParentIdx(s, b).value;
      DescendsBelow(s, a, p);
    }
  }

  /** No record appears twice in the subtrees of a sibling list. */
  lemma {:induction false} ReachDistinct(s: seq<FileRecord>, lo: int, idx: seq<nat>)
    requires forall i :: 0 <= i < |idx| ==> lo < idx[i] < |s|
    requires Siblings(s, idx)
    ensures Distinct(Reach(s, lo, idx))
    decreases |s| - lo, 0, |idx|
  {
    if idx != [] {
      ReachAtDistinct(s, idx[0]);
      var tail := idx[1..];
      assert Siblings(s, tail) by {
        forall a, b | 0 <= a < b < |tail| ensures tail[a] != tail[b] {
          assert tail[a] == idx[a + 1] && tail[b] == idx[b + 1];
        }
      }
      ReachDistinct(s, lo, tail);
      forall k | k in ReachAt(s, idx[0]) ensures k !in Reach(s, lo, tail) {
        ReachMembers(s, lo, tail, k);
        if i :| 0 <= i < |tail| && k in ReachAt(s, tail[i]) {
          assert tail[i] == idx[i + 1];
          SiblingSubtreesDisjoint(s, idx[0], tail[i], k);
        }
      }
      DistinctAppend(ReachAt(s, idx[0]), Reach(s, lo, tail));
    }
  }

  lemma {:induction false} ReachAtDistinct(s: seq<FileRecord>, j: nat)
    requires j < |s|
    ensures Distinct(ReachAt(s, j))
    decreases |s| - j, 1
  {
    if IsFolder(s[j]) {
      var cs := Children(s, j);
      ReachDistinct(s, j, cs);
      DistinctAppend([j], Reach(s, j, cs));
    }
  }

  /* ------------------------------------------------ the tree of nodes */

  /** All nodes of a forest, in preorder. */
  function Flatten(ns: seq<TreeNode>): seq<TreeNode>
    decreases ns
  {
    if ns == [] then [] else FlattenNode(ns[0]) + Flatten(ns[1..])
  }

  /** A node followed by all nodes below it, in preorder. */
  function FlattenNode(n: TreeNode): seq<TreeNode>
    decreases n
  {
    [n] + match n.children case ChildList(cs) => Flatten(cs) case NoChildren => []
  }

  lemma NodesAppend(s: seq<FileRecord>, lo: int, xs: seq<nat>, ys: seq<nat>)
    requires forall i :: 0 <= i < |xs| ==> lo < xs[i] < |s|
    requires forall i :: 0 <= i < |ys| ==> lo < ys[i] < |s|
    ensures Nodes(s, ChildTable(s), lo, xs + ys) == Nodes(s, ChildTable(s), lo, xs) + Nodes(s, ChildTable(s), lo, ys)
  {
  }

  /** The nodes of a forest, flattened, are the nodes of its reachable records. */
  lemma {:induction false} FlattenNodes(s: seq<FileRecord>, lo: int, idx: seq<nat>)
    requires forall i :: 0 <= i < |idx| ==> lo < idx[i] < |s|
    ensures Flatten(Nodes(s, ChildTable(s), lo, idx)) == Nodes(s, ChildTable(s), -1, Reach(s, lo, idx))
    decreases |s| - lo, 0, |idx|
  {
    var kids := ChildTable(s);
    if idx != [] {
      var ns := Nodes(s, kids, lo, idx);
      assert ns[0] == NodeAt(s, kids, idx[0]);
      assert ns[1..] == Nodes(s, kids, lo, idx[1..]);
      FlattenNodeAt(s, idx[0]);
      FlattenNodes(s, lo, idx[1..]);
      NodesAppend(s, -1, ReachAt(s, idx[0]), Reach(s, lo, idx[1..]));
    }
  }

  lemma {:induction false} FlattenNodeAt(s: seq<FileRecord>, j: nat)
    requires j < |s|
    ensures FlattenNode(NodeAt(s, ChildTable(s), j)) == Nodes(s, ChildTable(s), -1, ReachAt(s, j))
    decreases |s| - j, 1
  {
    var kids := ChildTable(s);
    var below := if IsFolder(s[j]) then Reach(s, j, Children(s, j)) else [];
    if IsFolder(s[j]) {
      FlattenNodes(s, j, Children(s, j));
    }
    NodesAppend(s, -1, [j], below);
  }

  /* ------------------------------------------------------- the theorems */

  /** Every record of the sorted list in preorder of the tree. */
  function TreeOrder(s: seq<FileRecord>): (order: seq<nat>)
    ensures forall i :: 0 <= i < |order| ==> order[i] < |s|
  {
    Reach(s, -1, RootIdx(s, |s|))
  }

  /** The tree, flattened in preorder, is the nodes of `TreeOrder`. */
  lemma TreeFlattensToOrder(s: seq<FileRecord>)
    ensures Flatten(TreeOf(s)) == Nodes(s, ChildTable(s), -1, TreeOrder(s))
  {
    FlattenNodes(s, -1, RootIdx(s, |s|));
  }

  /** No record yields two nodes. */
  lemma TreeOrderDistinct(s: seq<FileRecord>)
    ensures Distinct(TreeOrder(s))
  {
    var roots := RootIdx(s, |s|);
    assert Siblings(s, roots);
    ReachDistinct(s, -1, roots);
  }

  /** A record has a node in the tree iff it is kept. */
  lemma InTreeIffKept(s: seq<FileRecord>, k: nat)
    requires k < |s|
    ensures k in TreeOrder(s) <==> Kept(s, k)
  {
    var roots := RootIdx(s, |s|);
    ReachMembers(s, -1, roots, k);
    KeptIffRootAncestor(s, k);
    if i :| 0 <= i < |roots| && k in ReachAt(s, roots[i]) {
      ReachAtIsDescendants(s, roots[i], k);
      assert roots[i] in roots;
    }
    if r :| 0 <= r < |s| && IsRootRecord(s[r]) && Descends(s, r, k) {
      assert r in roots;
      var i :| 0 <= i < |roots| && roots[i] == r;
      ReachAtIsDescendants(s, r, k);
    }
  }

  /** Every entry of the root list is the node of a root record. */
  lemma RootEntryIsRootRecord(s: seq<FileRecord>, i: nat)
    requires i < |TreeOf(s)|
    ensures exists k: nat :: k < |s| && IsRootRecord(s[k]) && TreeOf(s)[i] == NodeAt(s, ChildTable(s), k)
  {
    var roots := RootIdx(s, |s|);
    assert roots[i] in roots;
  }

  /** Every root record has its node in the root list. */
  lemma RootRecordInRootList(s: seq<FileRecord>, k: nat)
    requires k < |s| && IsRootRecord(s[k])
    ensures exists i :: 0 <= i < |TreeOf(s)| && TreeOf(s)[i] == NodeAt(s, ChildTable(s), k)
  {
    var roots := RootIdx(s, |s|);
    assert k in roots;
    var i :| 0 <= i < |roots| && roots[i] == k;
    assert TreeOf(s)[i] == NodeAt(s, ChildTable(s), k);
  }

  /** A non-root record is kept only under a kept folder visited before it
      whose path is its parent path; with no such folder (a missing parent, or
      a parent that is a file) it is absent from the tree. */
  lemma KeptNeedsEarlierFolder(s: seq<FileRecord>, k: nat)
    requires k < |s| && !IsRootRecord(s[k])
    ensures Kept(s, k) ==>
      exists j :: 0 <= j < k && s[j].path == s[k].parentPath.value && IsFolder(s[j]) && Kept(s, j)
  {
    if Kept(s, k) {
      var j := ParentIdx(s, k).value;
      assert AttachedTo(s, k, j);
    }
  }

  /** Node `j` copies its record: id, name, path and content verbatim, the
      folder flag as the text "true", and a children list for folders only. */
  lemma NodeCopiesRecord(s: seq<FileRecord>, j: nat)
    requires j < |s|
    ensures var n, r := NodeAt(s, ChildTable(s), j), s[j];
      && n.id == r.id && n.name == r.name && n.path == r.path && n.content == r.content
      && (n.isFolder <==> r.isFolder == "true")
      && (n.children.ChildList? <==> n.isFolder)
      && (n.children.ChildList? ==> n.children.nodes == Nodes(s, ChildTable(s), j, Children(s, j)))
  {
  }

  /** Sibling order: folders first, then by name. */
  predicate NodeKeyLe(le: (string, string) -> bool, x: TreeNode, y: TreeNode) {
    || (x.isFolder && !y.isFolder)
    || (x.isFolder == y.isFolder && le(x.name, y.name))
  }

  /** Every sibling list of the forest, at every depth, is in key order. */
  ghost predicate SiblingsOrdered(le: (string, string) -> bool, ns: seq<TreeNode>)
    decreases ns
  {
    && (forall a, b :: 0 <= a < b < |ns| ==> NodeKeyLe(le, ns[a], ns[b]))
    && (forall i :: 0 <= i < |ns| ==> ChildrenOrdered(le, ns[i]))
  }

  ghost predicate ChildrenOrdered(le: (string, string) -> bool, n: TreeNode)
    decreases n
  {
    match n.children case ChildList(cs) => SiblingsOrdered(le, cs) case NoChildren => true
  }

  lemma {:induction false} NodesOrdered(le: (string, string) -> bool, s: seq<FileRecord>, lo: int, idx: seq<nat>)
    requires forall i :: 0 <= i < |idx| ==> lo < idx[i] < |s|
    requires Increasing(idx)
    requires forall a, b :: 0 <= a < b < |s| ==> KeyLe(le, s[a], s[b])
    ensures SiblingsOrdered(le, Nodes(s, ChildTable(s), lo, idx))
    decreases |s| - lo
  {
    var ns := Nodes(s, ChildTable(s), lo, idx);
    forall i | 0 <= i < |ns| ensures ChildrenOrdered(le, ns[i]) {
      NodesOrdered(le, s, idx[i], Children(s, idx[i]));
    }
  }

  /** `buildFileTree` orders every sibling list folders first, then by name. */
  lemma TreeSiblingsOrdered(le: (string, string) -> bool, files: seq<FileRecord>)
    requires TotalPreorder(le)
    ensures SiblingsOrdered(le, BuildFileTree(le, files))
  {
    var s := SortedRecords(le, files);
    SortedRecordsIsStableSort(le, files);
    NodesOrdered(le, s, -1, RootIdx(s, |s|));
  }

  /* -------------------------------------------------- layouts kept whole */

  ghost predicate HasRootFolder(files: seq<FileRecord>, p: string) {
    exists j :: 0 <= j < |files| && IsRootRecord(files[j]) && IsFolder(files[j]) && files[j].path == p
  }

  /** A two-level layout: every non-root record is a file whose parent path is
      the path of a root folder. */
  ghost predicate TwoLevel(files: seq<FileRecord>) {
    forall k :: 0 <= k < |files| && !IsRootRecord(files[k]) ==>
      !IsFolder(files[k]) && HasRootFolder(files, files[k].parentPath.value)
  }

  lemma SortKeepsTwoLevel(le: (string, string) -> bool, files: seq<FileRecord>)
    requires TotalPreorder(le) && TwoLevel(files)
    ensures TwoLevel(SortedRecords(le, files))
  {
    var s, p := SortedRecords(le, files), SortOrder(le, files);
    SortedRecordsIsStableSort(le, files);
    forall k | 0 <= k < |s| && !IsRootRecord(s[k])
      ensures !IsFolder(s[k]) && HasRootFolder(s, s[k].parentPath.value)
    {
      assert s[k] == files[p[k]];
      var j :| 0 <= j < |files| && IsRootRecord(files[j]) && IsFolder(files[j]) && files[j].path == s[k].parentPath.value;
      assert j in p;
      var m :| 0 <= m < |p| && p[m] == j;
      assert s[m] == files[j];
    }
  }

  /** Folders come before files. */
  predicate FoldersBeforeFiles(s: seq<FileRecord>) {
    forall a, b :: 0 <= a < b < |s| && IsFolder(s[b]) ==> IsFolder(s[a])
  }

  /** In a two-level list with unique paths and folders first, every record is
      kept. */
  lemma TwoLevelKept(s: seq<FileRecord>, k: nat)
    requires UniquePaths(s) && TwoLevel(s) && FoldersBeforeFiles(s)
    requires k < |s|
    ensures Kept(s, k)
  {
    if !IsRootRecord(s[k]) {
      var pp := s[k].parentPath.value;
      var j :| 0 <= j < |s| && IsRootRecord(s[j]) && IsFolder(s[j]) && s[j].path == pp;
      assert j < k;
      var l := LastWithPath(s, pp, k + 1);
      assert l == Some(j);
      assert AttachedTo(s, k, j);
    }
  }

  /** In a two-level layout with unique paths every record is kept. */
  lemma TwoLevelRecordKept(le: (string, string) -> bool, files: seq<FileRecord>, k: nat)
    requires TotalPreorder(le) && UniquePaths(files) && TwoLevel(files)
    requires k < |files|
    ensures Kept(SortedRecords(le, files), k)
  {
    var s := SortedRecords(le, files);
    SortKeepsTwoLevel(le, files);
    SortKeepsUniquePaths(le, files);
    SortedRecordsIsStableSort(le, files);
    TwoLevelKept(s, k);
  }

  /** The numbers below `n`. */
  function Below(n: nat): (r: set<nat>)
    ensures forall x: nat :: x in r <==> x < n
    ensures |r| == n
  {
    if n == 0 then {} else Below(n - 1) + {n - 1}
  }

  /** The entries of `xs`, as a set. */
  function Elems(xs: seq<nat>): (r: set<nat>)
    ensures forall x :: x in r <==> x in xs
  {
    if xs == [] then {} else {xs[0]} + Elems(xs[1..])
  }

  lemma {:induction false} DistinctCard(xs: seq<nat>)
    requires Distinct(xs)
    ensures |Elems(xs)| == |xs|
  {
    if xs != [] {
      var tail := xs[1..];
      assert Distinct(tail) by {
        forall a, b | 0 <= a < b < |tail| ensures tail[a] != tail[b] {
          assert tail[a] == xs[a + 1] && tail[b] == xs[b + 1];
        }
      }
      DistinctCard(tail);
      assert xs[0] !in tail;
    }
  }

  /** A duplicate-free list of the numbers below `n` that lists each of them
      has length `n`. */
  lemma DistinctCovering(xs: seq<nat>, n: nat)
    requires Distinct(xs)
    requires forall i :: 0 <= i < |xs| ==> xs[i] < n
    requires forall x :: 0 <= x < n ==> x in xs
    ensures |xs| == n
  {
    DistinctCard(xs);
    assert Elems(xs) == Below(n);
  }

  /** `buildFileTree` keeps a two-level layout with unique paths whole: the
      tree has exactly one node per record. */
  lemma TwoLevelTreeComplete(le: (string, string) -> bool, files: seq<FileRecord>)
    requires TotalPreorder(le) && UniquePaths(files) && TwoLevel(files)
    ensures |Flatten(BuildFileTree(le, files))| == |files|
  {
    var s := SortedRecords(le, files);
    TreeFlattensToOrder(s);
    TreeOrderDistinct(s);
    forall k | 0 <= k < |s| ensures k in TreeOrder(s) {
      TwoLevelRecordKept(le, files, k);
      InTreeIffKept(s, k);
    }
    DistinctCovering(TreeOrder(s), |s|);
  }

  /* ------------------------------------------------------- lost subtrees */

  function Folder(id: string, name: string, path: string, parent: Option<string>): FileRecord {
    FileRecord(id, "p", name, path, "", "true", parent)
  }

  function File(id: string, name: string, path: string, parent: Option<string>): FileRecord {
    FileRecord(id, "p", name, path, "", "false", parent)
  }

  /** The folder `b`, its sub-folder `b/a`, and the file `b/a/x`. */
  function NestedLayout(): seq<FileRecord> {
    [Folder("1", "b", "b", None), Folder("2", "a", "b/a", Some("b")), File("3", "x", "b/a/x", Some("b/a"))]
  }

  lemma NestedLayoutSorted(le: (string, string) -> bool)
    requires TotalPreorder(le) && le("a", "b") && !le("b", "a")
    ensures SortOrder(le, NestedLayout()) == [1, 0, 2]
  {
    var files := NestedLayout();
    assert Before(le, files, 1, 0);
    assert !Before(le, files, 2, 1) && !Before(le, files, 2, 0);
    assert SortPrefix(le, files, 1) == [0];
    assert SortPrefix(le, files, 2) == [1, 0];
    assert Insert(le, files, 2, [0]) == [0, 2];
  }

  /** The walk over the sorted `NestedLayout` keeps only `b`: its sub-folder
      `b/a` comes first, finds no folder `b` yet, and is dropped. */
  lemma NestedLayoutWalk()
    ensures var f := NestedLayout();
      TreeOf([f[1], f[0], f[2]]) == [TreeNode("1", "b", "b", true, "", ChildList([]))]
  {
    var f := NestedLayout();
    var s := [f[1], f[0], f[2]];
    NestedWalkRoots(s);
    NestedWalkNoKids(s);
    SingleRootTree(s, 1);
    EmptyFolderNode(s, ChildTable(s), 1);
  }

  /** A walk with one root gives a forest of that root's node alone. */
  lemma SingleRootTree(s: seq<FileRecord>, j: nat)
    requires j < |s| && RootIdx(s, |s|) == [j]
    ensures TreeOf(s) == [NodeAt(s, ChildTable(s), j)]
  {
  }

  /** A folder with an empty children list is a node with no children. */
  lemma EmptyFolderNode(s: seq<FileRecord>, kids: seq<seq<nat>>, j: nat)
    requires |kids| == |s| && j < |s| && IsFolder(s[j]) && kids[j] == []
    ensures NodeAt(s, kids, j) == TreeNode(s[j].id, s[j].name, s[j].path, true, s[j].content, ChildList([]))
  {
    assert Between(j, |s|, kids[j]) == [];
  }

  /** Only `b`, second in the walk, is a root. */
  lemma NestedWalkRoots(s: seq<FileRecord>)
    requires s == [NestedLayout()[1], NestedLayout()[0], NestedLayout()[2]]
    ensures RootIdx(s, 3) == [1]
  {
    assert RootIdx(s, 1) == [];
    assert RootIdx(s, 2) == [1];
  }

  /** Nothing is attached to `b`: when `b/a` is visited the lookup has no
      `b` yet, and `b/a/x` is attached to `b/a`. */
  lemma NestedWalkNoKids(s: seq<FileRecord>)
    requires s == [NestedLayout()[1], NestedLayout()[0], NestedLayout()[2]]
    ensures ChildIdx(s, 1, 3) == []
  {
    assert LastWithPath(s, "b", 1) == None;
    assert LastWithPath(s, "b/a", 3) == Some(0);
    assert ChildIdx(s, 1, 1) == [];
    assert ChildIdx(s, 1, 2) == [];
  }

  /** A sub-folder whose name sorts before its parent's name is visited before
      its parent, so it is dropped and takes its whole subtree with it: of
      `NestedLayout` only the folder `b` remains, with no children. */
  lemma SubfolderSortedFirstIsLost(le: (string, string) -> bool)
    requires TotalPreorder(le) && le("a", "b") && !le("b", "a")
    ensures BuildFileTree(le, NestedLayout()) == [TreeNode("1", "b", "b", true, "", ChildList([]))]
  {
    var f := NestedLayout();
    NestedLayoutSorted(le);
    assert SortedRecords(le, f) == [f[1], f[0], f[2]];
    NestedLayoutWalk();
  }

  /** A record whose parent path names no record is dropped, not re-rooted. */
  lemma OrphanDropped(le: (string, string) -> bool)
    requires TotalPreorder(le)
    ensures BuildFileTree(le, [File("1", "x", "gone/x", Some("gone"))]) == []
  {
    var files := [File("1", "x", "gone/x", Some("gone"))];
    assert SortOrder(le, files) == [0];
    var s := SortedRecords(le, files);
    assert RootIdx(s, 1) == [];
  }
}
