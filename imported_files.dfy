/**
 * The list of imported file paths shown in the window's file tree (`imported_files`) and the path
 * of the file that is open (`current_file`). Importing appends new paths, removing drops one,
 * and "Save As" replaces the open file's path by the new one.
 */
module ImportedFiles {
  import opened Wrappers

  predicate NoDuplicates(s: seq<string>) {
    forall i, j :: 0 <= i < j < |s| ==> s[i] != s[j]
  }

  /** One pass of `import_file`'s loop: a non-empty path that is not listed yet is appended. */
  function ImportOne(files: seq<string>, path: string): seq<string> {
    if path != "" && path !in files then files + [path] else files
  }

  /** `imported_files` after `import_file` with the paths the file dialog returned, in order. */
  function Imported(files: seq<string>, paths: seq<string>): seq<string>
    decreases |paths|
  {
    if paths == [] then files else Imported(ImportOne(files, paths[0]), paths[1..])
  }

  /** Python's `s.remove(x)` for an `x` that occurs: the first occurrence is dropped. */
  function RemoveFirst(s: seq<string>, x: string): (r: seq<string>)
    requires x in s
    ensures |r| == |s| - 1
    ensures multiset(r) == multiset(s) - multiset{x}
  {
    var i := IndexOf(s, x);
    assert s == s[..i] + [x] + s[i + 1..];
    s[..i] + s[i + 1..]
  }

  /** `if path in files: files.remove(path)`. */
  function Removed(files: seq<string>, path: string): seq<string> {
    if path in files then RemoveFirst(files, path) else files
  }

  /**
   * `imported_files` after `save_file_as` from the open file `current` (None when no file is
   * open) to the non-empty path `path`.
   */
  function Renamed(files: seq<string>, current: Option<string>, path: string): seq<string> {
    var rest := if current.Some? then Removed(files, current.value) else files;
    if path !in rest then rest + [path] else rest
  }

  /** Importing only appends: the paths that were listed keep their places at the front. */
  lemma {:induction false} ImportedKeepsOrder(files: seq<string>, paths: seq<string>)
    ensures var r := Imported(files, paths); |files| <= |r| && r[..|files|] == files
    decreases |paths|
  {
    if paths != [] {
      var next := ImportOne(files, paths[0]);
      ImportedKeepsOrder(next, paths[1..]);
      assert next[..|files|] == files;
    }
  }

  /** A path is listed after importing exactly when it was listed before or is a non-empty new one. */
  lemma {:induction false} ImportedMembers(files: seq<string>, paths: seq<string>, x: string)
    ensures x in Imported(files, paths) <==> x in files || (x != "" && x in paths)
    decreases |paths|
  {
    if paths != [] {
      ImportedMembers(ImportOne(files, paths[0]), paths[1..], x);
      assert paths == [paths[0]] + paths[1..];
    }
  }

  /** Importing never lists a path twice and never lists the empty path. */
  lemma {:induction false} ImportedStaysClean(files: seq<string>, paths: seq<string>)
    requires NoDuplicates(files) && "" !in files
    ensures NoDuplicates(Imported(files, paths)) && "" !in Imported(files, paths)
    decreases |paths|
  {
    if paths != [] {
      ImportedStaysClean(ImportOne(files, paths[0]), paths[1..]);
    }
  }

  /** Importing the same paths a second time changes nothing. */
  lemma {:induction false} ImportIsIdempotent(files: seq<string>, paths: seq<string>)
    ensures Imported(Imported(files, paths), paths) == Imported(files, paths)
  {
    var once := Imported(files, paths);
    forall x | x in paths ensures x == "" || x in once {
      ImportedMembers(files, paths, x);
    }
    AlreadyListed(once, paths);
  }

  /** Importing paths that are all empty or already listed changes nothing. */
  lemma {:induction false} AlreadyListed(files: seq<string>, paths: seq<string>)
    requires forall x :: x in paths ==> x == "" || x in files
    ensures Imported(files, paths) == files
    decreases |paths|
  {
    if paths != [] {
      assert paths[0] in paths;
      forall x | x in paths[1..] ensures x == "" || x in files {
        assert x in paths;
      }
      AlreadyListed(files, paths[1..]);
    }
  }

  /**
   * `remove_selected_file` on a list without duplicates: the path is gone, every other path is
   * still listed, in the same order, and nothing was added.
   */
  lemma {:induction false} RemovedFacts(files: seq<string>, path: string)
    requires NoDuplicates(files)
    ensures var r := Removed(files, path);
      && path !in r
      && NoDuplicates(r)
      && (forall y :: y != path ==> (y in r <==> y in files))
      && (path !in files ==> r == files)
      && (path in files ==> exists i :: 0 <= i < |files| && files[i] == path && r == files[..i] + files[i + 1..])
  {
    if path in files {
      DropAtFacts(files, IndexOf(files, path));
    }
  }

  /** Dropping the element at `i` from a list without duplicates loses exactly that element. */
  lemma DropAtFacts(s: seq<string>, i: nat)
    requires NoDuplicates(s) && i < |s|
    ensures var r := s[..i] + s[i + 1..];
      && NoDuplicates(r)
      && forall y :: y in r <==> y in s && y != s[i]
  {
    var r := s[..i] + s[i + 1..];
    assert forall j :: 0 <= j < |r| ==> r[j] == s[if j < i then j else j + 1];
    forall y ensures y in r <==> y in s && y != s[i] {
      if y in s && y != s[i] {
        var k :| 0 <= k < |s| && s[k] == y;
        assert r[if k < i then k else k - 1] == y;
      }
    }
  }

  /** The index of the first occurrence of `x` in `s`. */
  function IndexOf(s: seq<string>, x: string): (i: nat)
    requires x in s
    ensures i < |s| && s[i] == x && x !in s[..i]
  {
    if s[0] == x then 0 else 1 + IndexOf(s[1..], x)
  }

  /**
   * `save_file_as` from `current` to `path`: `path` is listed exactly once, the old path is gone
   * unless it is `path` itself, every other path keeps its listing, and the list stays free of
   * duplicates.
   */
  lemma RenamedFacts(files: seq<string>, current: Option<string>, path: string)
    requires NoDuplicates(files)
    ensures var r := Renamed(files, current, path);
      && multiset(r)[path] == 1
      && (current.Some? && current.value != path ==> current.value !in r)
      && (forall y :: y != path && current != Some(y) ==> (y in r <==> y in files))
      && NoDuplicates(r)
  {
    var rest := if current.Some? then Removed(files, current.value) else files;
    if current.Some? {
      RemovedFacts(files, current.value);
    }
    CountOfUnique(rest, path);
    if path !in rest {
      assert multiset(rest + [path])[path] == multiset(rest)[path] + 1;
    }
  }

  /**
   * `save_file_as` keeps the order of the list: it starts with the list as `remove` leaves it
   * (the list itself when no file is open), and at most the new path follows.
   */
  lemma RenamedKeepsOrder(files: seq<string>, current: Option<string>, path: string)
    ensures var rest := if current.Some? then Removed(files, current.value) else files;
      var r := Renamed(files, current, path);
      && |rest| <= |r| <= |rest| + 1 && r[..|rest|] == rest
      && (|r| > |rest| ==> r[|rest|] == path)
  {
  }

  /** In a list without duplicates, a listed path occurs once and an unlisted one not at all. */
  lemma {:induction false} CountOfUnique(s: seq<string>, x: string)
    requires NoDuplicates(s)
    ensures multiset(s)[x] == if x in s then 1 else 0
  {
    if s != [] {
      assert s == [s[0]] + s[1..];
      assert NoDuplicates(s[1..]);
      CountOfUnique(s[1..], x);
      if s[0] == x {
        forall j | 0 <= j < |s[1..]| ensures s[1..][j] != x {
          assert s[1..][j] == s[j + 1];
        }
      }
    }
  }

  /** The window's file bookkeeping. */
  class FileList {
    var files: seq<string>
    var current: Option<string>

    /** No path is listed twice and the empty path is never listed. */
    ghost predicate Valid()
      reads this
    {
      NoDuplicates(files) && "" !in files
    }

    constructor ()
      ensures Valid() && files == [] && current == None
    {
      files, current := [], None;
    }

    /** `import_file` with the paths the open-file dialog returned. */
    method ImportFiles(paths: seq<string>)
      requires Valid()
      modifies this
      ensures Valid()
      ensures files == Imported(old(files), paths) && current == old(current)
    {
      var i := 0;
      while i < |paths|
        invariant 0 <= i <= |paths|
        invariant Valid() && current == old(current)
        invariant Imported(files, paths[i..]) == Imported(old(files), paths)
      {
        var path := paths[i];
        assert paths[i..] == [path] + paths[i + 1..];
        if path != "" && path !in files {
          files := files + [path];
        }
        i := i + 1;
      }
      assert paths[i..] == [];
    }

    /**
     * `remove_selected_file` for the path stored in the selected tree item: the path leaves the
     * list, and when it was the open file, no file is open any more.
     */
    method RemoveSelected(path: string)
      requires Valid()
      modifies this
      ensures Valid()
      ensures files == Removed(old(files), path)
      ensures current == if old(current) == Some(path) then None else old(current)
    {
      RemovedFacts(files, path);
      if path in files {
        files := RemoveFirst(files, path);
      }
      if current == Some(path) {
        current := None;
      }
    }

    /**
     * `load_csv_file(path)`: the file becomes the open one only when it was read and held at
     * least one row (`loaded`); an empty file or a read error leaves the open file as it was.
     */
    method OpenFile(path: string, loaded: bool)
      requires Valid()
      modifies this
      ensures Valid() && files == old(files)
      ensures current == if loaded then Some(path) else old(current)
    {
      if loaded {
        current := Some(path);
      }
    }

    /**
     * `save_file_as` with the path the save dialog returned (`""` when it was cancelled). Writing
     * the file in between is not part of this state.
     */
    method SaveFileAs(path: string)
      requires Valid()
      modifies this
      ensures Valid()
      ensures path == "" ==> files == old(files) && current == old(current)
      ensures path != "" ==> files == Renamed(old(files), old(current), path) && current == Some(path)
    {
      if path == "" {
        return;
      }
      var previous := current;
      current := Some(path);
      RenamedFacts(files, previous, path);
      if previous.Some? && previous.value in files {
        files := RemoveFirst(files, previous.value);
      }
      if path !in files {
        files := files + [path];
      }
    }
  }
}
