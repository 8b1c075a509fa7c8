/**
 * The file-tree node shared by the scanning backend and the front end
 * (`FileNode` in src/types/file-tree.ts and in file_tree.rs).
 */
module FileNodes {

  datatype NodeType = File | Folder

  /**
   * The optional `children` field (`Option<Vec<FileNode>>` in Rust, `children?: FileNode[]`
   * in TypeScript). It is its own datatype so that termination follows the tree's structure.
   */
  datatype Children = NoChildren | Children(list: seq<FileNode>)

  datatype FileNode = FileNode(id: string, name: string, path: string, kind: NodeType,
                               children: Children)

  predicate IsFile(n: FileNode) {
    n.kind == File
  }

  /** A node followed by everything below it, depth first, following `children` wherever present. */
  function PreorderNode(n: FileNode): (r: seq<FileNode>)
    ensures |r| >= 1 && r[0] == n
    decreases n
  {
    [n] + (match n.children
           case Children(cs) => Preorder(cs)
           case NoChildren => [])
  }

  /** Every node of a forest in depth-first preorder. */
  function Preorder(nodes: seq<FileNode>): (r: seq<FileNode>)
    ensures |r| >= |nodes|
    decreases nodes
  {
    if nodes == [] then [] else PreorderNode(nodes[0]) + Preorder(nodes[1..])
  }

  /** The enumeration of a forest splits at any point between its roots. */
  lemma {:induction false} PreorderAppend(a: seq<FileNode>, b: seq<FileNode>)
    ensures Preorder(a + b) == Preorder(a) + Preorder(b)
  {
    if a == [] {
      assert a + b == b;
    } else {
      assert (a + b)[1..] == a[1..] + b;
      PreorderAppend(a[1..], b);
    }
  }

  /** Every root of the forest is enumerated. */
  lemma {:induction false} PreorderHasRoots(nodes: seq<FileNode>, i: nat)
    requires i < |nodes|
    ensures nodes[i] in Preorder(nodes)
  {
    if i > 0 {
      PreorderHasRoots(nodes[1..], i - 1);
    }
  }

  /** Whatever is enumerated below a root's children is enumerated for the whole forest. */
  lemma {:induction false} PreorderHasDescendants(nodes: seq<FileNode>, i: nat, m: FileNode)
    requires i < |nodes| && nodes[i].children.Children? && m in Preorder(nodes[i].children.list)
    ensures m in Preorder(nodes)
  {
    if i > 0 {
      PreorderHasDescendants(nodes[1..], i - 1, m);
    }
  }
}
