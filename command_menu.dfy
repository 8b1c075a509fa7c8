/**
 * The file list of the command menu (`allFiles` in src/components/command-menu.tsx): every
 * file node of the tree, depth first, gathered by a recursive loop that pushes into one
 * shared array.
 */
module CommandMenu {
  import opened FileNodes

  /** The file nodes of a sequence, in order. */
  function FilesOf(ns: seq<FileNode>): (r: seq<FileNode>)
    ensures forall n :: n in r <==> n in ns && n.kind == File
    ensures |r| <= |ns|
  {
    if ns == [] then []
    else (if ns[0].kind == File then [ns[0]] else []) + FilesOf(ns[1..])
  }

  lemma {:induction false} FilesOfAppend(a: seq<FileNode>, b: seq<FileNode>)
    ensures FilesOf(a + b) == FilesOf(a) + FilesOf(b)
  {
    if a == [] {
      assert a + b == b;
    } else {
      assert (a + b)[1..] == a[1..] + b;
      FilesOfAppend(a[1..], b);
    }
  }

  /** What lies below a node: its children's enumeration when it has children. */
  function Below(n: FileNode): (r: seq<FileNode>)
    ensures PreorderNode(n) == [n] + r
  {
    match n.children
    case Children(cs) => Preorder(cs)
    case NoChildren => []
  }

  /**
   * `flatten`: each node is pushed when it is a file, then its children are flattened when
   * it has them (whatever its type). What it leaves behind `acc` is exactly the file nodes
   * of the forest's depth-first enumeration.
   */
  method Flatten(nodesList: seq<FileNode>, acc: seq<FileNode>) returns (files: seq<FileNode>)
    ensures files == acc + FilesOf(Preorder(nodesList))
    decreases nodesList
  {
    files := acc;
    assert Preorder(nodesList[..0]) == [];
    for i := 0 to |nodesList|
      invariant files == acc + FilesOf(Preorder(nodesList[..i]))
    {
      var node := nodesList[i];
      FlattenStep(nodesList, i);
      ghost var own := if node.kind == File then [node] else [];
      if node.kind == File {
        files := files + [node];
      }
      assert files == acc + FilesOf(Preorder(nodesList[..i])) + own;
      if node.children.Children? {
        files := Flatten(node.children.list, files);
      } else {
        assert FilesOf(Below(node)) == [];
      }
      assert files == acc + FilesOf(Preorder(nodesList[..i])) + own + FilesOf(Below(node));
      SeqAssoc3(acc, FilesOf(Preorder(nodesList[..i])), own, FilesOf(Below(node)));
    }
    assert nodesList[..|nodesList|] == nodesList;
  }

  lemma {:induction false} SeqAssoc3(a: seq<FileNode>, b: seq<FileNode>, c: seq<FileNode>, d: seq<FileNode>)
    ensures a + b + c + d == a + (b + c + d)
  {
  }

  /** One step of `flatten`: the node when it is a file, then the files below it. */
  lemma {:induction false} FlattenStep(nodesList: seq<FileNode>, i: nat)
    requires i < |nodesList|
    ensures var node := nodesList[i];
            FilesOf(Preorder(nodesList[..i + 1]))
            == FilesOf(Preorder(nodesList[..i])) + (if node.kind == File then [node] else [])
               + FilesOf(Below(node))
  {
    var node := nodesList[i];
    assert nodesList[..i + 1] == nodesList[..i] + [node];
    PreorderAppend(nodesList[..i], [node]);
    assert [node][1..] == [];
    assert Preorder([node]) == [node] + Below(node);
    FilesOfAppend(Preorder(nodesList[..i]), [node] + Below(node));
    FilesOfAppend([node], Below(node));
    assert [node][1..] == [];
  }

  /** `allFiles`: flattening the whole tree into an empty list. */
  method AllFiles(nodes: seq<FileNode>) returns (files: seq<FileNode>)
    ensures files == FilesOf(Preorder(nodes))
    ensures forall n :: n in files <==> n in Preorder(nodes) && n.kind == File
    ensures nodes == [] ==> files == []
  {
    files := Flatten(nodes, []);
  }

  /**
   * The order of the list: a root's entry (when it is a file) comes first, then the files
   * below it, then those of the following roots.
   */
  lemma {:induction false} AllFilesPreorder(n: FileNode, rest: seq<FileNode>)
    ensures FilesOf(Preorder([n] + rest))
            == (if n.kind == File then [n] else []) + FilesOf(Below(n)) + FilesOf(Preorder(rest))
  {
    assert ([n] + rest)[1..] == rest;
    assert Preorder([n] + rest) == [n] + Below(n) + Preorder(rest);
    FilesOfAppend([n] + Below(n), Preorder(rest));
    FilesOfAppend([n], Below(n));
    assert [n][1..] == [];
  }

  /** A file node at any depth below a root is in the list. */
  lemma {:induction false} AllFilesHasNestedFile(nodes: seq<FileNode>, i: nat, m: FileNode)
    requires i < |nodes| && nodes[i].children.Children? && m in Preorder(nodes[i].children.list)
    requires m.kind == File
    ensures m in FilesOf(Preorder(nodes))
  {
    PreorderHasDescendants(nodes, i, m);
  }

  // ---------------------------------------------------------------------------------------
  // The number of files, counted on the tree itself
  // ---------------------------------------------------------------------------------------

  /** The file nodes of one subtree, counted along the tree. */
  function CountFilesNode(n: FileNode): nat
    decreases n
  {
    (if n.kind == File then 1 else 0)
    + match n.children
      case Children(cs) => CountFiles(cs)
      case NoChildren => 0
  }

  /** The file nodes of a forest, counted along the tree. */
  function CountFiles(nodes: seq<FileNode>): nat
    decreases nodes
  {
    if nodes == [] then 0 else CountFilesNode(nodes[0]) + CountFiles(nodes[1..])
  }

  /** The list has one entry per file node of the tree; an empty tree gives an empty list. */
  lemma {:induction false} AllFilesCount(nodes: seq<FileNode>)
    ensures |FilesOf(Preorder(nodes))| == CountFiles(nodes)
    decreases nodes
  {
    if nodes != [] {
      var n := nodes[0];
      AllFilesPreorder(n, nodes[1..]);
      assert [n] + nodes[1..] == nodes;
      AllFilesCountNode(n);
      AllFilesCount(nodes[1..]);
    }
  }

  lemma {:induction false} AllFilesCountNode(n: FileNode)
    ensures |FilesOf(Below(n))| == CountFilesNode(n) - (if n.kind == File then 1 else 0)
    decreases n
  {
    match n.children
    case Children(cs) => AllFilesCount(cs);
    case NoChildren =>
  }
}
