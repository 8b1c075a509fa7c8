/**
 * The backend commands that change or read single paths (src-tauri/src/commands/file_tree.rs):
 * `create_new_note`, `duplicate_file`, `read_file`, `delete_path`, and the mapping of
 * watcher events. The filesystem is a `Disk`: the files with their contents and the set of
 * directories, keyed by path string. Whether a write, copy, read or removal that passes the
 * guards succeeds is a parameter.
 */
module FileTreeCommands {
  import opened Wrappers
  import opened Strings
  import opened FileNodes
  import opened FileTreeScan
  import opened FileTreeContext

  // Error messages, as the source words them.
  const InvalidParentMessage: string := "Invalid parent directory: "
  const CreateFailedMessage: string := "Failed to create new note"
  const NotAFileSourceMessage: string := "File does not exist or is not a file: "
  const NoParentMessage: string := "Could not determine parent directory"
  const NoStemMessage: string := "Invalid filename stem"
  const CopyFailedMessage: string := "Failed to duplicate file"
  const MissingFileMessage: string := "File does not exist: "
  const NotAFileMessage: string := "Path is not a file: "
  const ReadFailedMessage: string := "Failed to read file '"
  const MissingPathMessage: string := "Path does not exist: "
  const DeleteFailedMessage: string := "Failed to delete '"

  // ---------------------------------------------------------------------------------------
  // Candidate names
  // ---------------------------------------------------------------------------------------

  /**
   * The `k`-th name tried by the unique-name searches: `prefix + suffix` first, then
   * `prefix + " " + k + suffix` for k = 1, 2, ...
   */
  function NameFor(prefix: string, suffix: string, k: nat): (r: string)
    ensures |r| >= |prefix| + |suffix| && r[..|prefix|] == prefix && r[|r| - |suffix|..] == suffix
    ensures k == 0 <==> |r| == |prefix| + |suffix|
  {
    if k == 0 then prefix + suffix else prefix + " " + NatToString(k) + suffix
  }

  /** The stem and extension of `create_new_note`'s names. */
  const UntitledPrefix: string := "Untitled"
  const NoteSuffix: string := ".md"

  /** `create_new_note`'s names: "Untitled.md", "Untitled 1.md", "Untitled 2.md", ... */
  function UntitledName(k: nat): string {
    NameFor(UntitledPrefix, NoteSuffix, k)
  }

  /**
   * `duplicate_file`'s names: "<stem> copy.<ext>", "<stem> copy 1.<ext>", ..., without the
   * dot when the extension is empty.
   */
  function CopyName(stem: string, ext: string, k: nat): string {
    NameFor(stem + " copy", CopySuffix(ext), k)
  }

  /** The extension part of a copy's name. */
  function CopySuffix(ext: string): string {
    if ext == "" then "" else "." + ext
  }

  /** Different counters give different names. */
  lemma {:induction false} NameForInjective(prefix: string, suffix: string, j: nat, k: nat)
    requires NameFor(prefix, suffix, j) == NameFor(prefix, suffix, k)
    ensures j == k
  {
    if j != 0 && k != 0 {
      var a := NameFor(prefix, suffix, j);
      var sj := NatToString(j);
      var sk := NatToString(k);
      assert a[|prefix| + 1..|a| - |suffix|] == sj;
      assert a[|prefix| + 1..|a| - |suffix|] == sk;
      NatToStringInjective(j, k);
    }
  }

  /** A directory joined with different names gives different paths. */
  lemma {:induction false} JoinInjective(dir: string, a: string, b: string)
    requires Join(dir, a) == Join(dir, b)
    ensures a == b
  {
    var p := Join(dir, a);
    assert p[..|p| - |a|] == dir || p[..|p| - |a|] == dir + "/";
    assert a == p[|p| - |a|..];
    assert b == p[|p| - |b|..];
  }

  /** No two counters give the same path. */
  ghost predicate Injective(f: nat -> string) {
    forall i, j :: f(i) == f(j) ==> i == j
  }

  /** The candidate paths of a search in `dir`, by counter. */
  ghost function Candidates(dir: string, prefix: string, suffix: string): (f: nat -> string)
    ensures Injective(f)
    ensures forall k :: f(k) == Join(dir, NameFor(prefix, suffix, k))
  {
    var f := (k: nat) => Join(dir, NameFor(prefix, suffix, k));
    assert Injective(f) by {
      forall i, j | f(i) == f(j) ensures i == j {
        JoinInjective(dir, NameFor(prefix, suffix, i), NameFor(prefix, suffix, j));
        NameForInjective(prefix, suffix, i, j);
      }
    }
    f
  }

  /**
   * Candidate `k` is where a search stops among the paths `existing`: its own path is free
   * and those of all earlier candidates are taken.
   */
  predicate FirstFree(existing: set<string>, dir: string, prefix: string, suffix: string, k: nat) {
    Join(dir, NameFor(prefix, suffix, k)) !in existing
    && forall j :: 0 <= j < k ==> Join(dir, NameFor(prefix, suffix, j)) in existing
  }

  /** A search has exactly one stopping point. */
  lemma {:induction false} FirstFreeUnique(existing: set<string>, dir: string, prefix: string, suffix: string, j: nat, k: nat)
    requires FirstFree(existing, dir, prefix, suffix, j) && FirstFree(existing, dir, prefix, suffix, k)
    ensures j == k
  {
  }

  /** The first `k` paths of a search. */
  ghost function Tried(f: nat -> string, k: nat): set<string> {
    if k == 0 then {} else Tried(f, k - 1) + {f(k - 1)}
  }

  /** A candidate's path is among the first `k` exactly when its counter is below `k`. */
  lemma {:induction false} TriedMember(f: nat -> string, k: nat, m: nat)
    requires Injective(f)
    ensures f(m) in Tried(f, k) <==> m < k
  {
    if k > 0 {
      TriedMember(f, k - 1, m);
    }
  }

  /** The first `k` candidates are `k` different paths. */
  lemma {:induction false} TriedSize(f: nat -> string, k: nat)
    requires Injective(f)
    ensures |Tried(f, k)| == k
  {
    if k > 0 {
      TriedSize(f, k - 1);
      TriedMember(f, k - 1, k - 1);
    }
  }

  // ---------------------------------------------------------------------------------------
  // The filesystem
  // ---------------------------------------------------------------------------------------

  /** `Path::parent`: everything before the last separator, "/" for a root entry, "" for a bare name. */
  function Parent(p: string): (r: Option<string>)
    ensures r.Some? ==> |r.value| < |StripTrailing(p)|
  {
    var q := StripTrailing(p);
    if q == [] then None
    else
      var i := LastIndexOf(q, '/');
      if i < 0 then Some("") else if i == 0 then Some("/") else Some(q[..i])
  }

  /** The returned node for a created or copied file. */
  function FileNodeAt(p: string, hash: string -> string): FileNode {
    NewNode(p, File, NoChildren, hash)
  }

  /** The removal rule of `delete_path`: a directory goes with everything below it, a file alone. */
  predicate Removed(p: string, target: string, targetIsDir: bool) {
    if targetIsDir then RemovedWith(p, target) else p == target
  }

  /** What `delete_path` leaves of a map of files. */
  function FilesAfterDelete(files: map<string, string>, target: string, targetIsDir: bool): (r: map<string, string>)
    ensures forall p :: p in r <==> p in files && !Removed(p, target, targetIsDir)
    ensures forall p :: p in r ==> r[p] == files[p]
  {
    map p | p in files && !Removed(p, target, targetIsDir) :: files[p]
  }

  /** What `delete_path` leaves of a set of directories. */
  function DirsAfterDelete(dirs: set<string>, target: string, targetIsDir: bool): (r: set<string>)
    ensures forall p :: p in r <==> p in dirs && !Removed(p, target, targetIsDir)
  {
    set p | p in dirs && !Removed(p, target, targetIsDir)
  }

  class Disk {
    var files: map<string, string>
    var dirs: set<string>

    /** A path is a file or a directory, never both. */
    ghost predicate Valid()
      reads this
    {
      files.Keys !! dirs
    }

    constructor (files: map<string, string>, dirs: set<string>)
      requires files.Keys !! dirs
      ensures Valid() && this.files == files && this.dirs == dirs
    {
      this.files := files;
      this.dirs := dirs;
    }

    /** `Path::exists`. */
    function Existing(): set<string>
      reads this
    {
      files.Keys + dirs
    }

    /**
     * The unique-name search shared by `create_new_note` and `duplicate_file`: tries the
     * candidates in order and stops at the first whose path in `dir` does not exist.
     */
    method FirstFreeName(dir: string, prefix: string, suffix: string) returns (name: string, ghost k: nat)
      ensures name == NameFor(prefix, suffix, k) && FirstFree(Existing(), dir, prefix, suffix, k)
    {
      ghost var f := Candidates(dir, prefix, suffix);
      var counter := 0;
      name := NameFor(prefix, suffix, 0);
      while Join(dir, name) in files || Join(dir, name) in dirs
        invariant name == NameFor(prefix, suffix, counter)
        invariant Tried(f, counter) <= Existing()
        decreases |Existing()| - counter
      {
        SearchStep(f, counter, Existing());
        counter := counter + 1;
        name := NameFor(prefix, suffix, counter);
      }
      k := counter;
      FirstFreeOfTried(Existing(), dir, prefix, suffix, k);
    }

    /**
     * `create_new_note`: a parent that is not an existing directory is rejected; otherwise
     * an empty file is written at the first free "Untitled" name and its node returned.
     */
    method CreateNewNote(parent: string, writeOk: bool, hash: string -> string)
      returns (r: Result<FileNode>, ghost k: nat)
      requires Valid()
      modifies this
      ensures Valid() && dirs == old(dirs)
      ensures parent !in old(dirs) || !writeOk ==> r.Err? && files == old(files)
      ensures parent in old(dirs) && writeOk ==>
                && FirstFree(old(Existing()), parent, UntitledPrefix, NoteSuffix, k)
                && r == Ok(FileNodeAt(Join(parent, UntitledName(k)), hash))
                && files == old(files)[Join(parent, UntitledName(k)) := ""]
    {
      if parent !in dirs {
        return Err(InvalidParentMessage + parent), 0;
      }
      r, k := WriteUntitled(parent, writeOk, hash);
    }

    /** The tail of `create_new_note` once `parent` is known to be a directory. */
    method WriteUntitled(parent: string, writeOk: bool, hash: string -> string)
      returns (r: Result<FileNode>, ghost k: nat)
      requires Valid()
      modifies this`files
      ensures Valid()
      ensures !writeOk ==> r.Err? && files == old(files)
      ensures writeOk ==>
                && FirstFree(old(Existing()), parent, UntitledPrefix, NoteSuffix, k)
                && r == Ok(FileNodeAt(Join(parent, UntitledName(k)), hash))
                && files == old(files)[Join(parent, UntitledName(k)) := ""]
    {
      var p;
      p, k := WriteAtFirstFree(parent, UntitledPrefix, NoteSuffix, "", writeOk);
      if !writeOk {
        return Err(CreateFailedMessage), k;
      }
      r := Ok(FileNodeAt(p, hash));
    }

    /**
     * The shared tail of `create_new_note` and `duplicate_file`: the first free candidate
     * path in `dir` is found, then `content` is written there when the write succeeds.
     */
    method WriteAtFirstFree(dir: string, prefix: string, suffix: string, content: string, writeOk: bool)
      returns (p: string, ghost k: nat)
      requires Valid()
      modifies this`files
      ensures Valid()
      ensures p == Join(dir, NameFor(prefix, suffix, k)) && FirstFree(old(Existing()), dir, prefix, suffix, k)
      ensures writeOk ==> files == old(files)[p := content]
      ensures !writeOk ==> files == old(files)
    {
      var name;
      name, k := FirstFreeName(dir, prefix, suffix);
      p := Join(dir, name);
      if writeOk {
        files := files[p := content];
      }
    }

    /**
     * `duplicate_file`: a source that is not an existing file is rejected, as is one
     * without a parent or a stem; otherwise the content is copied to the first free
     * "<stem> copy" name next to the source and the copy's node returned.
     */
    method DuplicateFile(source: string, copyOk: bool, hash: string -> string)
      returns (r: Result<FileNode>, ghost k: nat)
      requires Valid()
      modifies this
      ensures Valid() && dirs == old(dirs)
      ensures source !in old(files) || Parent(source).None? || FileStem(source).None? || !copyOk ==>
                r.Err? && files == old(files)
      ensures source in old(files) && Parent(source).Some? && FileStem(source).Some? && copyOk ==>
                var dir := Parent(source).value;
                var stem := FileStem(source).value;
                var ext := Extension(source).GetOr("");
                && FirstFree(old(Existing()), dir, stem + " copy", CopySuffix(ext), k)
                && r == Ok(FileNodeAt(Join(dir, CopyName(stem, ext, k)), hash))
                && files == old(files)[Join(dir, CopyName(stem, ext, k)) := old(files)[source]]
    {
      if source !in files {
        return Err(NotAFileSourceMessage + source), 0;
      }
      var parent := Parent(source);
      if parent.None? {
        return Err(NoParentMessage), 0;
      }
      var stem := FileStem(source);
      if stem.None? {
        return Err(NoStemMessage), 0;
      }
      r, k := CopyBeside(source, parent.value, stem.value, Extension(source).GetOr(""), copyOk, hash);
    }

    /**
     * The tail of `duplicate_file` once the source is known to be a file with parent `dir`,
     * stem `stem` and extension `ext`: the copy goes to the first free "<stem> copy" name.
     */
    method CopyBeside(source: string, dir: string, stem: string, ext: string, copyOk: bool, hash: string -> string)
      returns (r: Result<FileNode>, ghost k: nat)
      requires Valid() && source in files
      modifies this`files
      ensures Valid()
      ensures !copyOk ==> r.Err? && files == old(files)
      ensures copyOk ==>
                && FirstFree(old(Existing()), dir, stem + " copy", CopySuffix(ext), k)
                && r == Ok(FileNodeAt(Join(dir, CopyName(stem, ext, k)), hash))
                && files == old(files)[Join(dir, CopyName(stem, ext, k)) := old(files)[source]]
    {
      var p;
      p, k := WriteAtFirstFree(dir, stem + " copy", CopySuffix(ext), files[source], copyOk);
      if !copyOk {
        return Err(CopyFailedMessage), k;
      }
      r := Ok(FileNodeAt(p, hash));
    }

    /** `read_file`: a missing path and a directory are rejected; otherwise the read's outcome. */
    function ReadFile(path: string, readOk: bool): (r: Result<string>)
      reads this
      ensures r.Ok? <==> path in files && readOk
      ensures r.Ok? ==> r.value == files[path]
    {
      if path !in Existing() then Err(MissingFileMessage + path)
      else if path !in files then Err(NotAFileMessage + path)
      else if !readOk then Err(ReadFailedMessage + path + "'")
      else Ok(files[path])
    }

    /**
     * `delete_path`: a missing path is rejected; a directory is removed with everything
     * below it and a file alone. A failed removal changes nothing.
     */
    method DeletePath(path: string, removeOk: bool) returns (r: Result<Unit>)
      requires Valid()
      modifies this
      ensures Valid()
      ensures r.Ok? <==> path in old(Existing()) && removeOk
      ensures r.Err? ==> files == old(files) && dirs == old(dirs)
      ensures r.Ok? ==> files == FilesAfterDelete(old(files), path, path in old(dirs))
                        && dirs == DirsAfterDelete(old(dirs), path, path in old(dirs))
    {
      if path !in files && path !in dirs {
        return Err(MissingPathMessage + path);
      }
      if !removeOk {
        return Err(DeleteFailedMessage + path + "'");
      }
      var isDir := path in dirs;
      files := FilesAfterDelete(files, path, isDir);
      dirs := DirsAfterDelete(dirs, path, isDir);
      r := Ok(Unit);
    }
  }

  /** One more taken candidate: the first `k + 1` are taken, so there are more than `k` existing paths. */
  lemma {:induction false} SearchStep(f: nat -> string, k: nat, existing: set<string>)
    requires Injective(f) && Tried(f, k) <= existing && f(k) in existing
    ensures Tried(f, k + 1) <= existing && k + 1 <= |existing|
  {
    TriedSize(f, k + 1);
    CardinalityOfSubset(Tried(f, k + 1), existing);
  }

  /** A search whose first `k` candidates are taken and whose candidate `k` is free stops at `k`. */
  lemma {:induction false} FirstFreeOfTried(existing: set<string>, dir: string, prefix: string, suffix: string, k: nat)
    requires Tried(Candidates(dir, prefix, suffix), k) <= existing
    requires Join(dir, NameFor(prefix, suffix, k)) !in existing
    ensures FirstFree(existing, dir, prefix, suffix, k)
  {
    var f := Candidates(dir, prefix, suffix);
    forall j | 0 <= j < k ensures Join(dir, NameFor(prefix, suffix, j)) in existing {
      TriedMember(f, k, j);
    }
  }

  /** A set is at least as large as any of its subsets. */
  lemma {:induction false} CardinalityOfSubset<T>(a: set<T>, b: set<T>)
    requires a <= b
    ensures |a| <= |b|
  {
    assert b == a + (b - a);
  }

  // Properties of the commands -----------------------------------------------------------

  /** Every name tried by `create_new_note` keeps the ".md" extension, so the new note is listed by a scan. */
  lemma {:induction false} UntitledIsSupported(dir: string, k: nat)
    ensures IsSupportedFile(Join(dir, UntitledName(k)))
  {
    var stem := if k == 0 then "Untitled" else "Untitled " + NatToString(k);
    assert UntitledName(k) == stem + "." + "md";
    assert '/' !in stem by {
      if k > 0 {
        var d := NatToString(k);
        forall i | 0 <= i < |stem| ensures stem[i] != '/' {
          if i >= 9 { assert stem[i] == d[i - 9]; }
        }
      }
    }
    SupportedIffWhitelisted(dir, stem, "md");
  }

  /** After a successful delete, a file survives exactly when the frontend keeps it selected. */
  lemma {:induction false} DeleteMatchesSelectionRule(files: map<string, string>, dirs: set<string>, target: string, p: string)
    requires target in dirs && p in files
    ensures p in FilesAfterDelete(files, target, true) <==> !RemovedWith(p, target)
  {
  }

  // ---------------------------------------------------------------------------------------
  // Watcher events
  // ---------------------------------------------------------------------------------------

  /** The change kinds `notify` reports for a rename or other modification. */
  datatype ModifyKind = NameChange | DataChange | MetadataChange | AnyChange | OtherChange

  /** The event kinds `notify` reports. */
  datatype EventKind = Create | Remove | Modify(change: ModifyKind) | Access | AnyEvent | OtherEvent

  /** What is emitted to the frontend for one path. */
  datatype FileEvent = FileEvent(eventType: string, path: string)

  /** The event-kind mapping of `start_watching`'s callback. */
  function EventType(kind: EventKind): (r: Option<string>)
    ensures r == Some("create") <==> kind.Create?
    ensures r == Some("delete") <==> kind.Remove?
    ensures r == Some("rename") <==> kind == Modify(NameChange)
    ensures r.None? <==> !(kind.Create? || kind.Remove? || kind == Modify(NameChange))
  {
    match kind
    case Create => Some("create")
    case Remove => Some("delete")
    case Modify(NameChange) => Some("rename")
    case _ => None
  }

  /** One event per affected path, in order, when the kind is mapped; none otherwise. */
  method EventsFor(kind: EventKind, paths: seq<string>) returns (events: seq<FileEvent>)
    ensures EventType(kind).None? ==> events == []
    ensures EventType(kind).Some? ==>
              |events| == |paths|
              && forall i :: 0 <= i < |paths| ==> events[i] == FileEvent(EventType(kind).value, paths[i])
  {
    events := [];
    var eventType := EventType(kind);
    if eventType.Some? {
      for i := 0 to |paths|
        invariant |events| == i
        invariant forall j :: 0 <= j < i ==> events[j] == FileEvent(eventType.value, paths[j])
      {
        events := events + [FileEvent(eventType.value, paths[i])];
      }
    }
  }
}
