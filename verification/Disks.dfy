/**
 * The part of a file system extraction uses: recursive directory creation, exclusive file creation,
 * appending and forced removal. A disk also remembers, for reasoning, every state it went through.
 */
module Disks {
  import opened Bytes
  import opened Paths

  datatype Fs = Fs(files: map<AbsolutePath, Data>, dirs: set<AbsolutePath>)

  /** A state of the file system, reached while the `begun`-th member was handled. */
  datatype Snapshot = Snapshot(begun: nat, fs: Fs)

  /** A file at the path or above it, which no directory can replace. */
  predicate Blocked(fs: Fs, path: AbsolutePath) {
    exists k | 0 <= k <= |path| :: path[..k] in fs.files
  }

  function WithDirectory(fs: Fs, path: AbsolutePath): Fs {
    fs.(dirs := fs.dirs + set k | 0 <= k <= |path| :: path[..k])
  }

  function WithFile(fs: Fs, path: AbsolutePath, content: Data): Fs {
    fs.(files := fs.files[path := content])
  }

  function WithoutFile(fs: Fs, path: AbsolutePath): Fs {
    fs.(files := fs.files - {path})
  }

  /** Bytes held by all the files together. */
  ghost function Size(files: map<AbsolutePath, Data>): nat
    decreases |files|
  {
    if files == map[] then 0
    else
      var path :| path in files;
      |files[path]| + Size(files - {path})
  }

  lemma {:induction false} SizeWithout(files: map<AbsolutePath, Data>, path: AbsolutePath)
    requires path in files
    ensures Size(files) == |files[path]| + Size(files - {path})
    decreases |files|
  {
    var first :| first in files && Size(files) == |files[first]| + Size(files - {first});
    if first != path {
      var rest := files - {first};
      SizeWithout(rest, path);
      assert path in files - {first} && first in files - {path};
      SizeWithout(files - {path}, first);
      assert rest - {path} == files - {path} - {first};
    }
  }

  lemma SizeWith(files: map<AbsolutePath, Data>, path: AbsolutePath, content: Data)
    ensures Size(files[path := content]) == |content| + Size(files - {path})
    ensures path !in files ==> Size(files[path := content]) == |content| + Size(files)
    ensures Size(files - {path}) <= Size(files)
  {
    SizeWithout(files[path := content], path);
    assert files[path := content] - {path} == files - {path};
    if path in files {
      SizeWithout(files, path);
    } else {
      assert files - {path} == files;
    }
  }

  class Disk {
    var fs: Fs
    ghost var history: seq<Snapshot>

    constructor (fs: Fs)
      ensures this.fs == fs && history == []
    {
      this.fs := fs;
      history := [];
    }

    /** `mkdir(path, { recursive: true })`. */
    method MakeDirectory(path: AbsolutePath, ghost begun: nat) returns (ok: bool)
      modifies this
      ensures ok <==> !Blocked(old(fs), path)
      ensures fs == if ok then WithDirectory(old(fs), path) else old(fs)
      ensures history == old(history) + [Snapshot(begun, fs)]
    {
      ok := !Blocked(fs, path);
      if ok {
        fs := WithDirectory(fs, path);
      }
      history := history + [Snapshot(begun, fs)];
    }

    /** `open(path, 'wx')`: fails on anything already there. */
    method CreateExclusive(path: AbsolutePath, ghost begun: nat) returns (ok: bool)
      modifies this
      ensures ok <==> path !in old(fs).files && path !in old(fs).dirs
      ensures fs == if ok then WithFile(old(fs), path, []) else old(fs)
      ensures history == old(history) + [Snapshot(begun, fs)]
    {
      ok := path !in fs.files && path !in fs.dirs;
      if ok {
        fs := WithFile(fs, path, []);
      }
      history := history + [Snapshot(begun, fs)];
    }

    method Append(path: AbsolutePath, chunk: Data, ghost begun: nat)
      requires path in fs.files
      modifies this
      ensures fs == WithFile(old(fs), path, old(fs).files[path] + chunk)
      ensures history == old(history) + [Snapshot(begun, fs)]
    {
      fs := WithFile(fs, path, fs.files[path] + chunk);
      history := history + [Snapshot(begun, fs)];
    }

    /** `rm(path, { force: true })`: a missing file is fine, a directory stays. */
    method Remove(path: AbsolutePath, ghost begun: nat)
      modifies this
      ensures fs == WithoutFile(old(fs), path)
      ensures history == old(history) + [Snapshot(begun, fs)]
    {
      fs := WithoutFile(fs, path);
      history := history + [Snapshot(begun, fs)];
    }
  }
}
