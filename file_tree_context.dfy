/**
 * The file-tree provider (src/contexts/file-tree-context.tsx): the scanned tree, the
 * selected file and its content, and the loading and error state. Each call into the
 * backend (scan, read, create, delete) is a parameter holding its outcome; a method that
 * may skip the call returns whether it made it.
 */
module FileTreeContext {
  import opened Wrappers
  import opened Strings
  import opened FileNodes

  const InvalidPathMessage: string := "Invalid file path"
  const InvalidVaultPathMessage: string := "Invalid vault path: path is empty"

  /** `!s || s.trim() === ''`: an empty or whitespace-only string (see `BlankIsTrimEmpty`). */
  predicate Blank(s: string) {
    AllWhitespace(s)
  }

  lemma {:induction false} BlankIsTrimEmpty(s: string)
    ensures Blank(s) <==> Trim(s) == []
  {
    TrimEmptyIff(s);
  }

  /**
   * The selection rule after a successful delete of `deleted`: the selected path is the
   * deleted path itself or lies below it.
   */
  predicate RemovedWith(selectedPath: string, deleted: string) {
    selectedPath == deleted || StartsWith(selectedPath, deleted + "/")
  }

  /** A path below the deleted one is removed with it. */
  lemma {:induction false} DescendantRemoved(deleted: string, rest: string)
    ensures RemovedWith(deleted + "/" + rest, deleted)
  {
    assert (deleted + "/" + rest)[..|deleted + "/"|] == deleted + "/";
  }

  /** A sibling whose name merely extends the deleted name (`/a/bc` for `/a/b`) is kept. */
  lemma {:induction false} SiblingNotRemoved(deleted: string, suffix: string)
    requires suffix != [] && suffix[0] != '/'
    ensures !RemovedWith(deleted + suffix, deleted)
  {
    var p := deleted + suffix;
    if |deleted + "/"| <= |p| {
      assert p[..|deleted| + 1][|deleted|] == suffix[0];
      assert (deleted + "/")[|deleted|] == '/';
    }
  }

  /** `selectedFile?.id === node.id`. */
  predicate AlreadySelected(selected: Option<FileNode>, node: FileNode) {
    selected.Some? && selected.value.id == node.id
  }

  class FileTreeProvider {
    var nodes: seq<FileNode>
    var selectedFile: Option<FileNode>
    var fileContent: Option<string>
    var isLoading: bool
    var error: Option<string>

    /** A file is selected exactly when its content is loaded, and only files are selected. */
    ghost predicate Valid()
      reads this
    {
      (selectedFile.Some? <==> fileContent.Some?)
      && (selectedFile.Some? ==> selectedFile.value.kind == File)
    }

    constructor ()
      ensures Valid() && nodes == [] && selectedFile == None && fileContent == None
      ensures !isLoading && error == None
    {
      nodes := [];
      selectedFile := None;
      fileContent := None;
      isLoading := false;
      error := None;
    }

    /**
     * `loadFileTree`: a blank path records an error and empties the tree without scanning;
     * otherwise the scan's result replaces the tree, or a failed scan empties it and records
     * the error. Loading ends false either way.
     */
    method LoadFileTree(vaultPath: string, scan: Result<seq<FileNode>>) returns (scanned: bool)
      modifies this`nodes, this`isLoading, this`error
      ensures scanned <==> !Blank(vaultPath)
      ensures !scanned ==> nodes == [] && error == Some(InvalidVaultPathMessage)
      ensures scanned && scan.Ok? ==> nodes == scan.value && error == None
      ensures scanned && scan.Err? ==> nodes == [] && error == Some(scan.error)
      ensures !isLoading
    {
      if Blank(vaultPath) {
        error := Some(InvalidVaultPathMessage);
        nodes := [];
        isLoading := false;
        return false;
      }
      scanned := true;
      isLoading := true;
      error := None;
      match scan {
        case Ok(loaded) =>
          nodes := loaded;
        case Err(e) =>
          error := Some(e);
          nodes := [];
      }
      isLoading := false;
    }

    /** `refresh`: reloads from the current vault's path when there is a non-empty one. */
    method Refresh(vaultPath: Option<string>, scan: Result<seq<FileNode>>) returns (scanned: bool)
      modifies this`nodes, this`isLoading, this`error
      ensures scanned <==> vaultPath.Some? && !Blank(vaultPath.value)
      ensures vaultPath.None? || vaultPath.value == "" ==>
                nodes == old(nodes) && isLoading == old(isLoading) && error == old(error)
      ensures scanned && scan.Ok? ==> nodes == scan.value && error == None
      ensures scanned && scan.Err? ==> nodes == [] && error == Some(scan.error)
      ensures vaultPath.Some? && vaultPath.value != "" ==> !isLoading
      ensures vaultPath.Some? && vaultPath.value != "" && !scanned ==>
                nodes == [] && error == Some(InvalidVaultPathMessage)
    {
      scanned := false;
      if vaultPath.Some? && vaultPath.value != "" {
        scanned := LoadFileTree(vaultPath.value, scan);
      }
    }

    /**
     * `selectFile`: folders and the already selected file are ignored; a blank path records
     * an error; otherwise the file is read, and a successful read selects the node together
     * with its content, while a failed read keeps the previous selection and records the
     * error.
     */
    method SelectFile(node: FileNode, read: Result<string>) returns (readCalled: bool)
      requires Valid()
      modifies this`selectedFile, this`fileContent, this`isLoading, this`error
      ensures Valid()
      ensures readCalled <==> node.kind == File && !AlreadySelected(old(selectedFile), node) && !Blank(node.path)
      ensures !readCalled ==> selectedFile == old(selectedFile) && fileContent == old(fileContent)
                              && isLoading == old(isLoading)
      ensures node.kind != File || AlreadySelected(old(selectedFile), node) ==> error == old(error)
      ensures node.kind == File && !AlreadySelected(old(selectedFile), node) && Blank(node.path) ==>
                error == Some(InvalidPathMessage)
      ensures readCalled && read.Ok? ==> selectedFile == Some(node) && fileContent == Some(read.value) && error == None
      ensures readCalled && read.Err? ==>
                selectedFile == old(selectedFile) && fileContent == old(fileContent) && error == Some(read.error)
      ensures readCalled ==> !isLoading
    {
      if node.kind != File {
        return false;
      }
      if AlreadySelected(selectedFile, node) {
        return false;
      }
      if Blank(node.path) {
        error := Some(InvalidPathMessage);
        return false;
      }
      readCalled := true;
      isLoading := true;
      error := None;
      match read {
        case Ok(content) =>
          selectedFile := Some(node);
          fileContent := Some(content);
        case Err(e) =>
          error := Some(e);
      }
      isLoading := false;
    }

    /**
     * `createNewNote`: a failed create records the error and keeps the selection; a created
     * note is then selected through `selectFile` with the outcome of reading it.
     */
    method CreateNewNote(parentPath: string, created: Result<FileNode>, read: Result<string>)
      requires Valid()
      modifies this`selectedFile, this`fileContent, this`isLoading, this`error
      ensures Valid() && !isLoading
      ensures created.Err? ==>
                selectedFile == old(selectedFile) && fileContent == old(fileContent) && error == Some(created.error)
      ensures created.Ok? && read.Ok? && created.value.kind == File && !Blank(created.value.path)
              && !AlreadySelected(old(selectedFile), created.value) ==>
                selectedFile == Some(created.value) && fileContent == Some(read.value) && error == None
      ensures created.Ok? && read.Err? ==> selectedFile == old(selectedFile) && fileContent == old(fileContent)
      ensures created.Ok? && read.Err? && created.value.kind == File && !Blank(created.value.path)
              && !AlreadySelected(old(selectedFile), created.value) ==>
                error == Some(read.error)
      ensures created.Ok? && created.value.kind == File && Blank(created.value.path)
              && !AlreadySelected(old(selectedFile), created.value) ==>
                selectedFile == old(selectedFile) && fileContent == old(fileContent)
                && error == Some(InvalidPathMessage)
      ensures created.Ok? && (created.value.kind != File || AlreadySelected(old(selectedFile), created.value)) ==>
                selectedFile == old(selectedFile) && fileContent == old(fileContent) && error == None
    {
      isLoading := true;
      error := None;
      match created {
        case Ok(newNode) =>
          var _ := SelectFile(newNode, read);
        case Err(e) =>
          error := Some(e);
      }
      isLoading := false;
    }

    /**
     * `deleteNode`: after a successful delete the selection and content are cleared when the
     * selected file was the deleted path or lay below it; a failed delete keeps them and
     * records the error.
     */
    method DeleteNode(path: string, deleted: Result<Unit>)
      requires Valid()
      modifies this`selectedFile, this`fileContent, this`isLoading, this`error
      ensures Valid() && !isLoading
      ensures deleted.Err? ==>
                selectedFile == old(selectedFile) && fileContent == old(fileContent) && error == Some(deleted.error)
      ensures deleted.Ok? ==> error == None
      ensures deleted.Ok? && old(selectedFile).Some? && RemovedWith(old(selectedFile).value.path, path) ==>
                selectedFile == None && fileContent == None
      ensures deleted.Ok? && !(old(selectedFile).Some? && RemovedWith(old(selectedFile).value.path, path)) ==>
                selectedFile == old(selectedFile) && fileContent == old(fileContent)
    {
      isLoading := true;
      error := None;
      match deleted {
        case Ok(_) =>
          if selectedFile.Some? && RemovedWith(selectedFile.value.path, path) {
            selectedFile := None;
            fileContent := None;
          }
        case Err(e) =>
          error := Some(e);
      }
      isLoading := false;
    }

    /**
     * The effect run when the current vault's path changes: without a path everything is
     * cleared; otherwise the tree is reloaded and the selection is kept.
     */
    method VaultPathChanged(vaultPath: Option<string>, scan: Result<seq<FileNode>>) returns (scanned: bool)
      requires Valid()
      modifies this
      ensures Valid()
      ensures vaultPath.None? || vaultPath.value == "" ==>
                !scanned && nodes == [] && selectedFile == None && fileContent == None
                && error == None && !isLoading
      ensures vaultPath.Some? && vaultPath.value != "" ==>
                selectedFile == old(selectedFile) && fileContent == old(fileContent)
                && (scanned <==> !Blank(vaultPath.value))
                && (scanned && scan.Ok? ==> nodes == scan.value && error == None)
                && (scanned && scan.Err? ==> nodes == [] && error == Some(scan.error))
                && (!scanned ==> nodes == [] && error == Some(InvalidVaultPathMessage))
                && !isLoading
    {
      if vaultPath.None? || vaultPath.value == "" {
        nodes := [];
        selectedFile := None;
        fileContent := None;
        error := None;
        isLoading := false;
        return false;
      }
      scanned := LoadFileTree(vaultPath.value, scan);
    }
  }
}
