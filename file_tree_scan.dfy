/**
 * Building the file tree in the backend (src-tauri/src/commands/file_tree.rs): path helpers
 * with the behaviour of Rust's `Path`, the extension whitelist, node construction, and the
 * recursive directory scan. A directory on disk is a `Listing` of entries; the id hash is
 * the parameter `hash`, a deterministic function of the path string.
 */
module FileTreeScan {
  import opened Wrappers
  import opened Strings
  import opened FileNodes

  // Error messages, as the source words them.
  const ReadDirFailedMessage: string := "Failed to read directory '"
  const MissingDirMessage: string := "Directory does not exist: "
  const NotADirMessage: string := "Path is not a directory: "

  /** `SUPPORTED_EXTENSIONS`: compared case-sensitively. */
  const SupportedExtensions: seq<string> := ["md", "MD", "png", "jpg", "jpeg", "gif", "svg", "webp"]

  // ---------------------------------------------------------------------------------------
  // Paths ('/'-separated)
  // ---------------------------------------------------------------------------------------

  /** `dir.join(name)` for a relative `name`: a separator is added unless `dir` is empty or ends in one. */
  function Join(dir: string, name: string): (r: string)
    ensures |r| >= |name| && r[|r| - |name|..] == name
    ensures |r| > |name| ==> r[|r| - |name| - 1] == '/'
    ensures r[..|r| - |name|] == dir || r[..|r| - |name|] == dir + "/"
  {
    if dir == [] || dir[|dir| - 1] == '/' then dir + name else dir + "/" + name
  }

  /**
   * The path without what `Path::components` skips at its end: trailing separators and
   * trailing "." components (a "." that is the whole path is kept).
   */
  function StripTrailing(p: string): (r: string)
    ensures |r| <= |p| && r == p[..|r|]
    ensures r == [] || r[|r| - 1] != '/'
    ensures !(|r| >= 2 && r[|r| - 2] == '/' && r[|r| - 1] == '.')
  {
    if p != [] && p[|p| - 1] == '/' then StripTrailing(p[..|p| - 1])
    else if |p| >= 2 && p[|p| - 2] == '/' && p[|p| - 1] == '.' then StripTrailing(p[..|p| - 2])
    else p
  }

  /**
   * `path.file_name()` with `unwrap_or_default()`: the last component, or "" when that is
   * `.`, `..` or a root, or when there is none.
   */
  function FileName(p: string): (r: string)
    ensures '/' !in r
    ensures r != "." && r != ".."
  {
    var last := AfterLast(StripTrailing(p), '/');
    if last == "." || last == ".." then "" else last
  }

  /** A trailing separator or "." component does not change the file name: "foo.txt/." is "foo.txt". */
  lemma {:induction false} FileNameSkipsTrailingDot(p: string)
    ensures FileName(p + "/.") == FileName(p) && FileName(p + "/") == FileName(p)
  {
    StripTrailingDot(p);
    StripTrailingSlash(p);
  }

  lemma {:induction false} StripTrailingDot(p: string)
    ensures StripTrailing(p + "/.") == StripTrailing(p)
  {
    var q := p + "/.";
    assert q[|q| - 2] == '/' && q[|q| - 1] == '.';
    assert q[..|q| - 2] == p;
  }

  lemma {:induction false} StripTrailingSlash(p: string)
    ensures StripTrailing(p + "/") == StripTrailing(p)
  {
    var q := p + "/";
    assert q[|q| - 1] == '/';
    assert q[..|q| - 1] == p;
  }

  /** A path ending in neither a separator nor a "." component is left as it is. */
  lemma {:induction false} StripTrailingNothing(p: string)
    requires p != [] && p[|p| - 1] != '/' && !(|p| >= 2 && p[|p| - 2] == '/' && p[|p| - 1] == '.')
    ensures StripTrailing(p) == p
  {
  }

  /** Joining a plain name onto a directory gives back that name as the file name. */
  lemma {:induction false} FileNameOfJoin(dir: string, name: string)
    requires name != [] && '/' !in name && name != "." && name != ".."
    ensures FileName(Join(dir, name)) == name
  {
    var p := Join(dir, name);
    JoinEndsWithName(p, name);
    StripTrailingNothing(p);
    AfterLastIsSuffix(p, '/', name);
  }

  /** A path ending in a file name neither ends in a separator nor in a `/.` component. */
  lemma {:induction false} JoinEndsWithName(p: string, name: string)
    requires name != [] && '/' !in name && name != "."
    requires |p| >= |name| && p[|p| - |name|..] == name
    requires |p| > |name| ==> p[|p| - |name| - 1] == '/'
    ensures p != [] && p[|p| - 1] != '/'
    ensures !(|p| >= 2 && p[|p| - 2] == '/' && p[|p| - 1] == '.')
  {
    assert p[|p| - 1] == name[|name| - 1];
    assert |name| >= 2 ==> p[|p| - 2] == name[|name| - 2];
    assert |name| == 1 && |p| >= 2 ==> p[|p| - 2] == '/' && name == [p[|p| - 1]];
  }

  /**
   * Rust's split of a file name at its last dot: `..`, a name without a dot and a name whose
   * only dot is its first character have no extension; otherwise the stem is what precedes
   * the last dot and the extension what follows it (possibly empty).
   */
  function SplitAtDot(name: string): (r: (string, Option<string>))
    ensures r.1.None? ==> r.0 == name
    ensures r.1.Some? ==> |r.0| >= 1 && name == r.0 + "." + r.1.value && '.' !in r.1.value
  {
    var i := LastIndexOf(name, '.');
    if name == ".." || i <= 0 then (name, None)
    else
      assert name == name[..i] + "." + name[i + 1..];
      (name[..i], Some(name[i + 1..]))
  }

  /** `path.extension()`. */
  function Extension(p: string): Option<string> {
    SplitAtDot(FileName(p)).1
  }

  /** `path.file_stem()` (as text; `None` when the path has no file name). */
  function FileStem(p: string): Option<string> {
    if FileName(p) == "" then None else Some(SplitAtDot(FileName(p)).0)
  }

  /** `is_supported_file`: the extension is one of the whitelisted strings. */
  predicate IsSupportedFile(p: string) {
    Extension(p).Some? && Extension(p).value in SupportedExtensions
  }

  /** A name `stem.ext` with a non-empty stem is supported exactly when `ext` is on the whitelist. */
  lemma {:induction false} SupportedIffWhitelisted(dir: string, stem: string, ext: string)
    requires stem != [] && stem != "." && '/' !in stem && '/' !in ext && '.' !in ext
    ensures IsSupportedFile(Join(dir, stem + "." + ext)) <==> ext in SupportedExtensions
  {
    var name := stem + "." + ext;
    DottedNameFacts(stem, ext);
    FileNameOfJoin(dir, name);
    var i := LastIndexOf(name, '.');
    assert i == |stem| > 0 && name != "..";
    assert SplitAtDot(name) == (name[..i], Some(name[i + 1..]));
    assert Extension(Join(dir, name)) == Some(ext);
  }

  lemma {:induction false} DottedNameFacts(stem: string, ext: string)
    requires stem != [] && stem != "." && '/' !in stem && '/' !in ext && '.' !in ext
    ensures var name := stem + "." + ext;
            name != [] && '/' !in name && name != "." && name != ".."
            && LastIndexOf(name, '.') == |stem| && name[|stem| + 1..] == ext
  {
    var name := stem + "." + ext;
    forall k | 0 <= k < |name| ensures name[k] != '/' {
      if k < |stem| { assert name[k] == stem[k]; }
      else if k > |stem| { assert name[k] == ext[k - |stem| - 1]; }
    }
    assert name[|stem|] == '.';
    assert name[|stem| + 1..] == ext;
    assert name[0] == stem[0];
    assert |stem| == 1 ==> stem == [stem[0]];
  }

  /** A name without a dot is never supported, whatever the case of its letters. */
  lemma {:induction false} NoDotUnsupported(dir: string, name: string)
    requires name != [] && '/' !in name && '.' !in name
    ensures !IsSupportedFile(Join(dir, name))
  {
    FileNameOfJoin(dir, name);
  }

  /** `FileNode::new`: the id is the hash of the path string and the name its last component. */
  function NewNode(p: string, kind: NodeType, children: Children, hash: string -> string): (r: FileNode)
    ensures r.id == hash(p) && r.name == FileName(p) && r.path == p
    ensures r.kind == kind && r.children == children
  {
    FileNode(hash(p), FileName(p), p, kind, children)
  }

  /** Equal paths give equal ids; nodes whose ids differ have different paths. */
  lemma {:induction false} IdDeterminedByPath(a: FileNode, b: FileNode, hash: string -> string)
    requires a == NewNode(a.path, a.kind, a.children, hash) && b == NewNode(b.path, b.kind, b.children, hash)
    ensures a.path == b.path ==> a.id == b.id && a.name == b.name
    ensures a.id != b.id ==> a.path != b.path
  {
  }

  // ---------------------------------------------------------------------------------------
  // Ordering by lower-cased name
  // ---------------------------------------------------------------------------------------

  /** `String`'s `Ord`: lexicographic by character code. */
  predicate StrLe(a: string, b: string)
    decreases |a|
  {
    a == [] || (b != [] && (a[0] < b[0] || (a[0] == b[0] && StrLe(a[1..], b[1..]))))
  }

  lemma {:induction false} StrLeTotal(a: string, b: string)
    ensures StrLe(a, b) || StrLe(b, a)
    decreases |a|
  {
    if a != [] && b != [] && a[0] == b[0] {
      StrLeTotal(a[1..], b[1..]);
    }
  }

  lemma {:induction false} StrLeTrans(a: string, b: string, c: string)
    requires StrLe(a, b) && StrLe(b, c)
    ensures StrLe(a, c)
    decreases |a|
  {
    if a != [] && b != [] && c != [] && a[0] == b[0] && b[0] == c[0] {
      StrLeTrans(a[1..], b[1..], c[1..]);
    }
  }

  /** The sort key: `name.to_lowercase()`. */
  function Key(n: FileNode): string {
    ToLower(n.name)
  }

  predicate SortedByName(s: seq<FileNode>) {
    forall i, j :: 0 <= i < j < |s| ==> StrLe(Key(s[i]), Key(s[j]))
  }

  /** Inserts `x` before the first node whose key is not smaller. */
  function InsertByName(x: FileNode, s: seq<FileNode>): (r: seq<FileNode>)
    ensures |r| == |s| + 1
  {
    if s == [] || StrLe(Key(x), Key(s[0])) then [x] + s else [s[0]] + InsertByName(x, s[1..])
  }

  /** `sort_by(|a, b| a.name.to_lowercase().cmp(&b.name.to_lowercase()))`, a stable sort. */
  function SortByName(s: seq<FileNode>): (r: seq<FileNode>)
    ensures |r| == |s|
  {
    if s == [] then [] else InsertByName(s[0], SortByName(s[1..]))
  }

  lemma {:induction false} InsertByNameMultiset(x: FileNode, s: seq<FileNode>)
    ensures multiset(InsertByName(x, s)) == multiset(s) + multiset{x}
  {
    if s != [] && !StrLe(Key(x), Key(s[0])) {
      InsertByNameMultiset(x, s[1..]);
      assert s == [s[0]] + s[1..];
    }
  }

  /** The inserted list holds exactly `x` and the nodes of `s`. */
  lemma {:induction false} InsertByNameElems(x: FileNode, s: seq<FileNode>)
    ensures forall n :: n in InsertByName(x, s) <==> n == x || n in s
  {
    if s != [] && !StrLe(Key(x), Key(s[0])) {
      InsertByNameElems(x, s[1..]);
      assert s == [s[0]] + s[1..];
    }
  }

  /** A sorted list stays sorted under a new head whose key is at most every other key. */
  lemma {:induction false} ConsSortedByName(h: FileNode, t: seq<FileNode>)
    requires SortedByName(t)
    requires forall j :: 0 <= j < |t| ==> StrLe(Key(h), Key(t[j]))
    ensures SortedByName([h] + t)
  {
    var r := [h] + t;
    forall i, j | 0 <= i < j < |r| ensures StrLe(Key(r[i]), Key(r[j])) {
      assert r[j] == t[j - 1];
      if i > 0 { assert r[i] == t[i - 1]; }
    }
  }

  lemma {:induction false} InsertByNameSorted(x: FileNode, s: seq<FileNode>)
    requires SortedByName(s)
    ensures SortedByName(InsertByName(x, s))
  {
    if s == [] {
      ConsSortedByName(x, s);
    } else if StrLe(Key(x), Key(s[0])) {
      forall j | 0 <= j < |s| ensures StrLe(Key(x), Key(s[j])) {
        if j > 0 { StrLeTrans(Key(x), Key(s[0]), Key(s[j])); }
      }
      ConsSortedByName(x, s);
    } else {
      StrLeTotal(Key(x), Key(s[0]));
      var t := s[1..];
      var rest := InsertByName(x, t);
      assert SortedByName(t) by {
        forall i, j | 0 <= i < j < |t| ensures StrLe(Key(t[i]), Key(t[j])) {
          assert t[i] == s[i + 1] && t[j] == s[j + 1];
        }
      }
      InsertByNameSorted(x, t);
      InsertByNameElems(x, t);
      forall j | 0 <= j < |rest| ensures StrLe(Key(s[0]), Key(rest[j])) {
        assert rest[j] in rest;
        if rest[j] != x {
          var k :| 0 <= k < |t| && t[k] == rest[j];
          assert s[k + 1] == rest[j];
        }
      }
      ConsSortedByName(s[0], rest);
    }
  }

  /** The sort keeps exactly the nodes of its input. */
  lemma {:induction false} SortByNameElems(s: seq<FileNode>)
    ensures forall n :: n in SortByName(s) <==> n in s
  {
    if s != [] {
      SortByNameElems(s[1..]);
      InsertByNameElems(s[0], SortByName(s[1..]));
      assert s == [s[0]] + s[1..];
    }
  }

  /** The sort returns a permutation of its input, ordered by lower-cased name. */
  lemma {:induction false} SortByNameFacts(s: seq<FileNode>)
    ensures multiset(SortByName(s)) == multiset(s)
    ensures SortedByName(SortByName(s))
  {
    SortByNameMultiset(s);
    SortByNameSorted(s);
  }

  lemma {:induction false} SortByNameMultiset(s: seq<FileNode>)
    ensures multiset(SortByName(s)) == multiset(s)
  {
    if s != [] {
      SortByNameMultiset(s[1..]);
      InsertByNameMultiset(s[0], SortByName(s[1..]));
      assert s == [s[0]] + s[1..];
    }
  }

  lemma {:induction false} SortByNameSorted(s: seq<FileNode>)
    ensures SortedByName(SortByName(s))
  {
    if s != [] {
      SortByNameSorted(s[1..]);
      InsertByNameSorted(s[0], SortByName(s[1..]));
    }
  }

  // ---------------------------------------------------------------------------------------
  // The directory scan
  // ---------------------------------------------------------------------------------------

  /**
   * One directory entry as `read_dir` reports it: a regular file, a directory with what
   * reading it gives, anything else (neither file nor directory), or an entry that could
   * not be read.
   */
  datatype Entry =
    | FileEntry(name: string)
    | DirEntry(name: string, listing: Listing)
    | OtherEntry(name: string)
    | FailedEntry

  /** What `read_dir` on a directory gives. */
  datatype Listing = Unreadable | Readable(entries: seq<Entry>)

  /** `file_name.starts_with('.')`. */
  predicate Hidden(name: string) {
    StartsWith(name, ".")
  }

  /** The node one entry contributes to its directory's listing, if any. */
  function EntryNode(dir: string, e: Entry, hash: string -> string): Option<FileNode>
    decreases e
  {
    match e
    case FailedEntry => None
    case OtherEntry(_) => None
    case FileEntry(name) =>
      var p := Join(dir, name);
      if Hidden(FileName(p)) || !IsSupportedFile(p) then None
      else Some(NewNode(p, File, NoChildren, hash))
    case DirEntry(name, listing) =>
      var p := Join(dir, name);
      if Hidden(FileName(p)) then None
      else
        Some(NewNode(p, Folder, Children(ChildrenOf(ScanDir(p, listing, hash))), hash))
  }

  /** `unwrap_or_default()` on a subdirectory's scan: its nodes, or none when it cannot be read. */
  function ChildrenOf(scanned: Result<seq<FileNode>>): seq<FileNode> {
    if scanned.Ok? then scanned.value else []
  }

  /** The nodes of a sequence of entries, in `read_dir` order. */
  function EntryNodes(dir: string, es: seq<Entry>, hash: string -> string): seq<FileNode>
    decreases es
  {
    if es == [] then []
    else
      Contribution(EntryNode(dir, es[0], hash)) + EntryNodes(dir, es[1..], hash)
  }

  /** The nodes of one kind, in order. */
  function OfKind(ns: seq<FileNode>, kind: NodeType): (r: seq<FileNode>)
    ensures forall n :: n in r <==> n in ns && n.kind == kind
  {
    if ns == [] then []
    else (if ns[0].kind == kind then [ns[0]] else []) + OfKind(ns[1..], kind)
  }

  /** `scan_directory_recursive`: sorted folders, then sorted files; an unreadable directory is an error. */
  function ScanDir(dir: string, listing: Listing, hash: string -> string): Result<seq<FileNode>>
    decreases listing
  {
    match listing
    case Unreadable => Err(ReadDirFailedMessage + dir + "'")
    case Readable(es) => Ok(Grouped(EntryNodes(dir, es, hash)))
  }

  /** The folders sorted by name, then the files sorted by name. */
  function Grouped(ns: seq<FileNode>): seq<FileNode> {
    SortByName(OfKind(ns, Folder)) + SortByName(OfKind(ns, File))
  }

  lemma {:induction false} EntryNodesAppend(dir: string, a: seq<Entry>, b: seq<Entry>, hash: string -> string)
    ensures EntryNodes(dir, a + b, hash) == EntryNodes(dir, a, hash) + EntryNodes(dir, b, hash)
  {
    if a == [] {
      assert a + b == b;
    } else {
      var ab := a + b;
      assert ab[0] == a[0] && ab[1..] == a[1..] + b;
      var h := Contribution(EntryNode(dir, a[0], hash));
      assert EntryNodes(dir, ab, hash) == h + EntryNodes(dir, a[1..] + b, hash);
      EntryNodesAppend(dir, a[1..], b, hash);
    }
  }

  lemma {:induction false} OfKindAppend(a: seq<FileNode>, b: seq<FileNode>, kind: NodeType)
    ensures OfKind(a + b, kind) == OfKind(a, kind) + OfKind(b, kind)
  {
    if a == [] {
      assert a + b == b;
    } else {
      assert (a + b)[1..] == a[1..] + b;
      OfKindAppend(a[1..], b, kind);
    }
  }

  /** The nodes an optional node contributes. */
  function Contribution(node: Option<FileNode>): (r: seq<FileNode>)
    ensures |r| <= 1
  {
    match node
    case None => []
    case Some(n) => [n]
  }

  /** The nodes of the first `i + 1` entries: those of the first `i`, then entry `i`'s. */
  lemma {:induction false} EntryNodesSnoc(dir: string, es: seq<Entry>, i: nat, hash: string -> string)
    requires i < |es|
    ensures EntryNodes(dir, es[..i + 1], hash)
            == EntryNodes(dir, es[..i], hash) + Contribution(EntryNode(dir, es[i], hash))
  {
    assert es[..i + 1] == es[..i] + [es[i]];
    EntryNodesAppend(dir, es[..i], [es[i]], hash);
    EntryNodesSingle(dir, es[i], hash);
  }

  /** The nodes of a single entry are what that entry contributes. */
  lemma {:induction false} EntryNodesSingle(dir: string, e: Entry, hash: string -> string)
    ensures EntryNodes(dir, [e], hash) == Contribution(EntryNode(dir, e, hash))
  {
    assert [e][1..] == [];
    assert EntryNodes(dir, [], hash) == [];
  }

  /** The nodes of one kind that an optional node contributes. */
  lemma {:induction false} OfKindContribution(node: Option<FileNode>, kind: NodeType)
    ensures OfKind(Contribution(node), kind)
            == (if node.Some? && node.value.kind == kind then [node.value] else [])
  {
    if node.Some? {
      assert Contribution(node)[1..] == [];
    }
  }

  /**
   * One loop step: after entry `i` the nodes of kind `kind` among the first `i + 1` entries
   * are those among the first `i`, followed by entry `i`'s node when it has that kind.
   */
  lemma {:induction false} EntryNodesStep(dir: string, es: seq<Entry>, i: nat, hash: string -> string, kind: NodeType)
    requires i < |es|
    ensures var node := EntryNode(dir, es[i], hash);
            OfKind(EntryNodes(dir, es[..i + 1], hash), kind)
            == OfKind(EntryNodes(dir, es[..i], hash), kind)
               + (if node.Some? && node.value.kind == kind then [node.value] else [])
  {
    var node := EntryNode(dir, es[i], hash);
    EntryNodesSnoc(dir, es, i, hash);
    OfKindAppend(EntryNodes(dir, es[..i], hash), Contribution(node), kind);
    OfKindContribution(node, kind);
  }

  /**
   * `scan_directory_recursive`: one pass over the entries collecting folders and supported
   * files, then both groups sorted and concatenated.
   */
  method ScanDirectoryRecursive(dir: string, listing: Listing, hash: string -> string)
    returns (r: Result<seq<FileNode>>)
    ensures r == ScanDir(dir, listing, hash)
    decreases listing
  {
    if listing.Unreadable? {
      return Err(ReadDirFailedMessage + dir + "'");
    }
    var es := listing.entries;
    var folders: seq<FileNode> := [];
    var files: seq<FileNode> := [];
    for i := 0 to |es|
      invariant folders == OfKind(EntryNodes(dir, es[..i], hash), Folder)
      invariant files == OfKind(EntryNodes(dir, es[..i], hash), File)
    {
      EntryNodesStep(dir, es, i, hash, Folder);
      EntryNodesStep(dir, es, i, hash, File);
      var node := ScanEntry(dir, es[i], hash);
      if node.Some? && node.value.kind == Folder {
        folders := folders + [node.value];
      } else if node.Some? {
        files := files + [node.value];
      }
    }
    assert es[..|es|] == es;
    r := Ok(SortByName(folders) + SortByName(files));
  }

  /**
   * The loop body for one entry: hidden names are skipped; a directory is scanned
   * recursively and kept with no children when that fails; a file is kept when its
   * extension is supported; anything else is skipped.
   */
  method ScanEntry(dir: string, e: Entry, hash: string -> string) returns (node: Option<FileNode>)
    ensures node == EntryNode(dir, e, hash)
    decreases e
  {
    match e {
      case FailedEntry =>
        node := None;
      case OtherEntry(_) =>
        node := None;
      case FileEntry(name) =>
        var p := Join(dir, name);
        if !Hidden(FileName(p)) && IsSupportedFile(p) {
          node := Some(NewNode(p, File, NoChildren, hash));
        } else {
          node := None;
        }
      case DirEntry(name, sub) =>
        var p := Join(dir, name);
        if Hidden(FileName(p)) {
          node := None;
        } else {
          var scanned := ScanDirectoryRecursive(p, sub, hash);
          var children := if scanned.Ok? then scanned.value else [];
          node := Some(NewNode(p, Folder, Children(children), hash));
        }
    }
  }

  /**
   * `scan_directory`: `target` is what exists at the path (`None` when nothing does); only
   * a directory is scanned.
   */
  method ScanDirectory(path: string, target: Option<Entry>, hash: string -> string)
    returns (r: Result<seq<FileNode>>)
    ensures target.None? ==> r.Err?
    ensures target.Some? && !target.value.DirEntry? ==> r.Err?
    ensures target.Some? && target.value.DirEntry? ==> r == ScanDir(path, target.value.listing, hash)
  {
    if target.None? {
      return Err(MissingDirMessage + path);
    }
    if !target.value.DirEntry? {
      return Err(NotADirMessage + path);
    }
    r := ScanDirectoryRecursive(path, target.value.listing, hash);
  }

  // Properties of the scan ----------------------------------------------------------------

  /** What every node of a scan satisfies: not hidden; folders carry children; files are supported leaves. */
  predicate WellShaped(n: FileNode) {
    !Hidden(n.name)
    && (n.kind == Folder ==> n.children.Children?)
    && (n.kind == File ==> n.children == NoChildren && IsSupportedFile(n.path))
  }

  lemma {:induction false} EntryNodesWellShaped(dir: string, es: seq<Entry>, hash: string -> string)
    ensures forall n :: n in EntryNodes(dir, es, hash) ==> WellShaped(n)
  {
    if es != [] {
      EntryNodesWellShaped(dir, es[1..], hash);
    }
  }

  /** Every folder node the scan keeps sits in the sorted folder group, every file node in the file group. */
  lemma {:induction false} SortedGroupKinds(ns: seq<FileNode>)
    ensures forall n :: n in SortByName(OfKind(ns, Folder)) ==> n.kind == Folder && n in ns
    ensures forall n :: n in SortByName(OfKind(ns, File)) ==> n.kind == File && n in ns
    ensures SortedByName(SortByName(OfKind(ns, Folder))) && SortedByName(SortByName(OfKind(ns, File)))
  {
    var fo := OfKind(ns, Folder);
    var fi := OfKind(ns, File);
    SortByNameFacts(fo);
    SortByNameFacts(fi);
    forall n | n in SortByName(fo) ensures n in fo {
      assert n in multiset(SortByName(fo));
    }
    forall n | n in SortByName(fi) ensures n in fi {
      assert n in multiset(SortByName(fi));
    }
  }

  /** Folders followed by files hold, position by position, folders and then files. */
  lemma {:induction false} ConcatKinds(a: seq<FileNode>, b: seq<FileNode>)
    requires forall n :: n in a ==> n.kind == Folder
    requires forall n :: n in b ==> n.kind == File
    ensures forall i :: 0 <= i < |a + b| ==> (a + b)[i].kind == (if i < |a| then Folder else File)
  {
    var r := a + b;
    forall i | 0 <= i < |r| ensures r[i].kind == (if i < |a| then Folder else File) {
      if i < |a| {
        assert r[i] == a[i] && a[i] in a;
      } else {
        assert r[i] == b[i - |a|] && b[i - |a|] in b;
      }
    }
  }

  /** Position by position, the grouped list holds folders up to the end of the folder group, then files. */
  lemma {:induction false} GroupedKinds(ns: seq<FileNode>)
    ensures var r := Grouped(ns);
            forall i :: 0 <= i < |r| ==>
              r[i].kind == (if i < |SortByName(OfKind(ns, Folder))| then Folder else File)
  {
    var a := SortByName(OfKind(ns, Folder));
    var b := SortByName(OfKind(ns, File));
    SortByNameElems(OfKind(ns, Folder));
    SortByNameElems(OfKind(ns, File));
    assert forall n :: n in a ==> n.kind == Folder;
    assert forall n :: n in b ==> n.kind == File;
    ConcatKinds(a, b);
  }

  /** In the grouped list every folder comes before every file. */
  lemma {:induction false} GroupedFoldersFirst(ns: seq<FileNode>)
    ensures var r := Grouped(ns);
            forall i, j :: 0 <= i < j < |r| && r[i].kind == File ==> r[j].kind == File
  {
    GroupedKinds(ns);
  }

  /** In the grouped list two nodes of the same kind are in name order. */
  lemma {:induction false} GroupedSortedByName(ns: seq<FileNode>)
    ensures var r := Grouped(ns);
            forall i, j :: 0 <= i < j < |r| && r[i].kind == r[j].kind ==> StrLe(Key(r[i]), Key(r[j]))
  {
    var a := SortByName(OfKind(ns, Folder));
    var b := SortByName(OfKind(ns, File));
    var r := a + b;
    GroupedKinds(ns);
    SortByNameFacts(OfKind(ns, Folder));
    SortByNameFacts(OfKind(ns, File));
    forall i, j | 0 <= i < j < |r| && r[i].kind == r[j].kind ensures StrLe(Key(r[i]), Key(r[j])) {
      if j < |a| {
        assert r[i] == a[i] && r[j] == a[j];
      } else if i >= |a| {
        assert r[i] == b[i - |a|] && r[j] == b[j - |a|];
      } else {
        assert false;
      }
    }
  }

  /** A readable directory always scans successfully, listing all folders before all files. */
  lemma {:induction false} ScanFoldersFirst(dir: string, es: seq<Entry>, hash: string -> string)
    ensures var r := ScanDir(dir, Readable(es), hash);
            r.Ok? && forall i, j :: 0 <= i < j < |r.value| && r.value[i].kind == File ==> r.value[j].kind == File
  {
    GroupedFoldersFirst(EntryNodes(dir, es, hash));
  }

  /** Within each group the scan is ordered by lower-cased name. */
  lemma {:induction false} ScanSortedByName(dir: string, es: seq<Entry>, hash: string -> string)
    ensures var r := ScanDir(dir, Readable(es), hash).value;
            forall i, j :: 0 <= i < j < |r| && r[i].kind == r[j].kind ==> StrLe(Key(r[i]), Key(r[j]))
  {
    GroupedSortedByName(EntryNodes(dir, es, hash));
  }

  /**
   * No scanned node is hidden, folders carry children, files are supported leaves, and the
   * scan holds exactly the nodes of the directory's entries.
   */
  lemma {:induction false} ScanShapeAndContents(dir: string, es: seq<Entry>, hash: string -> string)
    ensures var r := ScanDir(dir, Readable(es), hash).value;
            (forall n :: n in r ==> WellShaped(n))
            && multiset(r) == multiset(EntryNodes(dir, es, hash))
  {
    var ns := EntryNodes(dir, es, hash);
    SortedGroupKinds(ns);
    EntryNodesWellShaped(dir, es, hash);
    var fo := OfKind(ns, Folder);
    var fi := OfKind(ns, File);
    SortByNameFacts(fo);
    SortByNameFacts(fi);
    OfKindPartition(ns);
  }

  /** Every scanned node is a file or a folder, so the two groups together are the whole list. */
  lemma {:induction false} OfKindPartition(ns: seq<FileNode>)
    ensures multiset(OfKind(ns, Folder)) + multiset(OfKind(ns, File)) == multiset(ns)
  {
    if ns != [] {
      OfKindPartition(ns[1..]);
      assert ns == [ns[0]] + ns[1..];
    }
  }

  /** A visible subdirectory that cannot be read still appears, with no children. */
  lemma {:induction false} UnreadableFolderIsEmpty(dir: string, name: string, hash: string -> string)
    requires !Hidden(FileName(Join(dir, name)))
    ensures EntryNode(dir, DirEntry(name, Unreadable), hash)
            == Some(NewNode(Join(dir, name), Folder, Children([]), hash))
  {
    var p := Join(dir, name);
    var e := DirEntry(name, Unreadable);
    assert EntryNode(dir, e, hash) == Some(NewNode(p, Folder, Children(ChildrenOf(ScanDir(p, Unreadable, hash))), hash));
    assert ChildrenOf(ScanDir(p, Unreadable, hash)) == [];
  }

  /** A hidden entry contributes nothing, whatever it is. */
  lemma {:induction false} HiddenSkipped(dir: string, e: Entry, hash: string -> string)
    requires e.FileEntry? || e.DirEntry?
    requires e.name != [] && '/' !in e.name && e.name != "." && e.name != ".." && Hidden(e.name)
    ensures EntryNode(dir, e, hash) == None
  {
    FileNameOfJoin(dir, e.name);
  }
}
