/**
 * The workspace tree component (src/components/file-tree.tsx): the image test for file
 * icons, the conversion of file nodes to tree-view elements, the id-to-node map, the target
 * path of a rename, and the click on a row.
 */
module FileTreeView {
  import opened Wrappers
  import opened Strings
  import opened FileNodes
  import opened TreeView
  import opened FileTreeContext

  /** `IMAGE_EXTENSIONS`. */
  const ImageExtensions: seq<string> := ["png", "jpg", "jpeg", "gif", "svg", "webp", "bmp", "ico"]

  /**
   * `isImageFile`: what follows the last '.' (the whole name when there is none),
   * lower-cased, is one of the image extensions.
   */
  predicate IsImageFile(filename: string) {
    ToLower(AfterLast(filename, '.')) in ImageExtensions
  }

  /** For a name with a dot, the test looks only at what follows the last dot, in any case. */
  lemma {:induction false} ImageByExtension(stem: string, ext: string)
    requires '.' !in ext
    ensures IsImageFile(stem + "." + ext) <==> ToLower(ext) in ImageExtensions
  {
    var s := stem + "." + ext;
    var r := AfterLast(s, '.');
    assert s[|stem|] == '.';
    assert r == s[|s| - |ext|..] == ext;
  }

  /** A name without a dot is tested whole: a file named "PNG" counts as an image. */
  lemma {:induction false} ImageWithoutDot(name: string)
    requires '.' !in name
    ensures IsImageFile(name) <==> ToLower(name) in ImageExtensions
  {
    assert AfterLast(name, '.') == name;
  }

  // ---------------------------------------------------------------------------------------
  // Nodes to tree-view elements
  // ---------------------------------------------------------------------------------------

  /**
   * `e` shows `n`: same id and name, selectable, and children exactly when `n` is a folder
   * with children, themselves showing `n`'s children one for one.
   */
  predicate Mirrors(e: Element, n: FileNode)
    decreases n
  {
    e.id == n.id && e.name == n.name && e.isSelectable == Some(true)
    && if n.kind == Folder && n.children.Children? then
         e.children.Branch? && MirrorsAll(e.children.elements, n.children.list)
       else e.children == Leaf
  }

  /** The elements show the nodes one for one, in order. */
  predicate MirrorsAll(es: seq<Element>, ns: seq<FileNode>)
    decreases ns
  {
    |es| == |ns| && forall i :: 0 <= i < |ns| ==> Mirrors(es[i], ns[i])
  }

  /** The element `convertToTreeElements` makes of one node. */
  function ConvertNode(n: FileNode): (e: Element)
    ensures Mirrors(e, n)
    decreases n
  {
    var children := if n.kind == Folder && n.children.Children? then Branch(ConvertToTreeElements(n.children.list)) else Leaf;
    Element(n.id, n.name, Some(true), children)
  }

  /** `convertToTreeElements`. */
  function ConvertToTreeElements(nodes: seq<FileNode>): (r: seq<Element>)
    ensures MirrorsAll(r, nodes)
    decreases nodes
  {
    if nodes == [] then []
    else
      var rest := ConvertToTreeElements(nodes[1..]);
      var r := [ConvertNode(nodes[0])] + rest;
      assert forall i :: 1 <= i < |nodes| ==> r[i] == rest[i - 1] && nodes[i] == nodes[1..][i - 1];
      r
  }

  // ---------------------------------------------------------------------------------------
  // The id-to-node map
  // ---------------------------------------------------------------------------------------

  /** Setting each node of `s` in turn, so that a later node with the same id wins. */
  function SetAll(m: map<string, FileNode>, s: seq<FileNode>): map<string, FileNode>
    decreases s
  {
    if s == [] then m else SetAll(m[s[0].id := s[0]], s[1..])
  }

  lemma {:induction false} SetAllAppend(m: map<string, FileNode>, a: seq<FileNode>, b: seq<FileNode>)
    ensures SetAll(m, a + b) == SetAll(SetAll(m, a), b)
    decreases a
  {
    if a == [] {
      assert a + b == b;
    } else {
      assert (a + b)[1..] == a[1..] + b;
      SetAllAppend(m[a[0].id := a[0]], a[1..], b);
    }
  }

  /** Every id of `s` is a key afterwards, and every key is from `m` or maps to a node of `s` with that id. */
  lemma {:induction false} SetAllKeys(m: map<string, FileNode>, s: seq<FileNode>)
    ensures forall k :: k in m ==> k in SetAll(m, s)
    ensures forall n :: n in s ==> n.id in SetAll(m, s)
    ensures forall k :: k in SetAll(m, s) ==>
              (SetAll(m, s)[k] in s && SetAll(m, s)[k].id == k) || (k in m && SetAll(m, s)[k] == m[k])
    decreases s
  {
    if s != [] {
      SetAllKeys(m[s[0].id := s[0]], s[1..]);
    }
  }

  /** A node with no later namesake in `s` is what its id maps to. */
  lemma {:induction false} SetAllLastWins(m: map<string, FileNode>, s: seq<FileNode>, i: nat)
    requires i < |s| && forall j :: i < j < |s| ==> s[j].id != s[i].id
    ensures s[i].id in SetAll(m, s) && SetAll(m, s)[s[i].id] == s[i]
    decreases s
  {
    if i == 0 {
      SetAllUntouched(m[s[0].id := s[0]], s[1..], s[0].id);
    } else {
      SetAllLastWins(m[s[0].id := s[0]], s[1..], i - 1);
    }
  }

  /** Keys no node of `s` carries keep their value. */
  lemma {:induction false} SetAllUntouched(m: map<string, FileNode>, s: seq<FileNode>, k: string)
    requires k in m && forall j :: 0 <= j < |s| ==> s[j].id != k
    ensures k in SetAll(m, s) && SetAll(m, s)[k] == m[k]
    decreases s
  {
    if s != [] {
      SetAllUntouched(m[s[0].id := s[0]], s[1..], k);
    }
  }

  /** `traverse`: each node is set, then its children are traversed when it has them. */
  method Traverse(m: map<string, FileNode>, nodeList: seq<FileNode>) returns (r: map<string, FileNode>)
    ensures r == SetAll(m, Preorder(nodeList))
    decreases nodeList
  {
    r := m;
    for i := 0 to |nodeList|
      invariant r == SetAll(m, Preorder(nodeList[..i]))
    {
      var node := nodeList[i];
      var below := match node.children case Children(cs) => Preorder(cs) case NoChildren => [];
      TraverseStep(m, nodeList, i, below);
      r := r[node.id := node];
      if node.children.Children? {
        r := Traverse(r, node.children.list);
      }
    }
    assert nodeList[..|nodeList|] == nodeList;
  }

  /** One step of `traverse`: the node, then what lies below it. */
  lemma {:induction false} TraverseStep(m: map<string, FileNode>, nodeList: seq<FileNode>, i: nat, below: seq<FileNode>)
    requires i < |nodeList|
    requires below == match nodeList[i].children case Children(cs) => Preorder(cs) case NoChildren => []
    ensures var before := SetAll(m, Preorder(nodeList[..i]));
            SetAll(m, Preorder(nodeList[..i + 1])) == SetAll(before[nodeList[i].id := nodeList[i]], below)
  {
    var node := nodeList[i];
    var before := SetAll(m, Preorder(nodeList[..i]));
    assert nodeList[..i + 1] == nodeList[..i] + [node];
    PreorderAppend(nodeList[..i], [node]);
    assert [node][1..] == [];
    assert Preorder([node]) == PreorderNode(node) + Preorder([]);
    assert Preorder([node]) == [node] + below;
    SetAllAppend(m, Preorder(nodeList[..i]), [node] + below);
    assert SetAll(m, Preorder(nodeList[..i + 1])) == SetAll(before, [node] + below);
    assert ([node] + below)[1..] == below && ([node] + below)[0] == node;
  }

  /** `createNodeMap`. */
  method CreateNodeMap(nodes: seq<FileNode>) returns (r: map<string, FileNode>)
    ensures r == SetAll(map[], Preorder(nodes))
  {
    r := Traverse(map[], nodes);
  }

  /**
   * Every node at every depth has its id in the map, and every id maps to a node of the
   * tree carrying that id.
   */
  lemma {:induction false} NodeMapCoversTree(nodes: seq<FileNode>)
    ensures forall n :: n in Preorder(nodes) ==> n.id in SetAll(map[], Preorder(nodes))
    ensures forall k :: k in SetAll(map[], Preorder(nodes)) ==>
              SetAll(map[], Preorder(nodes))[k] in Preorder(nodes) && SetAll(map[], Preorder(nodes))[k].id == k
  {
    SetAllKeys(map[], Preorder(nodes));
  }

  /** The ids of a sequence of nodes are pairwise different. */
  predicate UniqueIds(s: seq<FileNode>) {
    forall i, j :: 0 <= i < j < |s| ==> s[i].id != s[j].id
  }

  // ---------------------------------------------------------------------------------------
  // Clicking a row
  // ---------------------------------------------------------------------------------------

  /**
   * `handleSelect`: the node the row stands for is passed to select unless the row is a
   * folder (an element with children); a row whose id is not in the map is not rendered.
   */
  function HandleSelect(element: Element, nodeMap: map<string, FileNode>): (r: Option<FileNode>)
    ensures r.Some? <==> element.id in nodeMap && element.children.Leaf?
    ensures r.Some? ==> r.value == nodeMap[element.id]
  {
    if element.id !in nodeMap then None
    else if element.children.Branch? then None
    else Some(nodeMap[element.id])
  }

  /** Clicking the row of a folder that has children never selects. */
  lemma {:induction false} FolderClickNeverSelects(n: FileNode, nodeMap: map<string, FileNode>)
    requires n.kind == Folder && n.children.Children?
    ensures HandleSelect(ConvertNode(n), nodeMap) == None
  {
  }

  /**
   * With ids unique across the tree, clicking the row of a top-level file selects exactly
   * that file.
   */
  lemma {:induction false} ClickSelectsFile(nodes: seq<FileNode>, i: nat)
    requires i < |nodes| && nodes[i].kind == File && UniqueIds(Preorder(nodes))
    ensures HandleSelect(ConvertToTreeElements(nodes)[i], SetAll(map[], Preorder(nodes))) == Some(nodes[i])
  {
    var s := Preorder(nodes);
    PreorderHasRoots(nodes, i);
    var k :| 0 <= k < |s| && s[k] == nodes[i];
    SetAllLastWins(map[], s, k);
    var e := ConvertToTreeElements(nodes)[i];
    assert Mirrors(e, nodes[i]);
  }

  // ---------------------------------------------------------------------------------------
  // Renaming
  // ---------------------------------------------------------------------------------------

  /**
   * The rename target of `handleRenameSubmit`: the path up to its last '/' (nothing when it
   * has none), then '/', then the new name.
   */
  function RenameTarget(path: string, newName: string): (r: string)
    ensures |r| > |newName| && r[|r| - |newName|..] == newName && r[|r| - |newName| - 1] == '/'
  {
    var i := LastIndexOf(path, '/');
    var parentPath := if i < 0 then "" else path[..i];
    parentPath + "/" + newName
  }

  /** A rename keeps the entry in its directory. */
  lemma {:induction false} RenameKeepsDirectory(dir: string, name: string, newName: string)
    requires '/' !in name
    ensures RenameTarget(dir + "/" + name, newName) == dir + "/" + newName
  {
    var p := dir + "/" + name;
    var i := LastIndexOf(p, '/');
    assert p[|dir|] == '/';
    assert p[..|dir|] == dir;
  }

  /** The rename field of a row: whether it is open, and its text. */
  class RenameField {
    var isRenaming: bool
    var newName: string

    constructor (name: string)
      ensures !isRenaming && newName == name
    {
      isRenaming := false;
      newName := name;
    }

    /**
     * `handleRenameSubmit`: a blank or unchanged name closes the field with no rename;
     * otherwise the field closes and the rename of `path` to `RenameTarget(path, newName)`
     * is requested, and a failed rename restores the old name and reopens the field.
     */
    method Submit(elementName: string, path: string, renameOk: bool) returns (request: Option<(string, string)>)
      modifies this
      ensures Blank(old(newName)) || old(newName) == elementName ==>
                request == None && !isRenaming && newName == old(newName)
      ensures !(Blank(old(newName)) || old(newName) == elementName) ==>
                request == Some((path, RenameTarget(path, old(newName))))
                && (renameOk ==> !isRenaming && newName == old(newName))
                && (!renameOk ==> isRenaming && newName == elementName)
    {
      if Blank(newName) || newName == elementName {
        isRenaming := false;
        return None;
      }
      isRenaming := false;
      request := Some((path, RenameTarget(path, newName)));
      if !renameOk {
        newName := elementName;
        isRenaming := true;
      }
    }
  }
}
