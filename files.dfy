/**
 * `mdFiles`: the markdown files under a directory, found by a recursive
 * listing. The file system is an abstract tree of directory entries; anything
 * `lstat` does not report as a directory (a regular file, a symbolic link) is
 * a file.
 */
module Files {
  import opened Strings

  datatype DirEntry = File(name: string) | Dir(name: string, entries: seq<DirEntry>)

  /** `path.join(dir, name)` for a single entry name. */
  function PathJoin(dir: string, name: string): string {
    dir + "/" + name
  }

  /** The paths of every `.md` file below `dir`, in listing order, directories expanded where they are listed. */
  function MdFiles(dir: string, entries: seq<DirEntry>): (r: seq<string>)
    ensures forall i :: 0 <= i < |r| ==> EndsWith(r[i], ".md")
    decreases entries
  {
    if entries == [] then []
    else
      var here :=
        match entries[0]
        case File(n) => if EndsWith(n, ".md") then [PathJoin(dir, n)] else []
        case Dir(n, es) => MdFiles(PathJoin(dir, n), es);
      here + MdFiles(dir, entries[1..])
  }

  /** Every file path below `dir`, in the same order: the reference listing. */
  function AllFiles(dir: string, entries: seq<DirEntry>): seq<string>
    decreases entries
  {
    if entries == [] then []
    else
      var here :=
        match entries[0]
        case File(n) => [PathJoin(dir, n)]
        case Dir(n, es) => AllFiles(PathJoin(dir, n), es);
      here + AllFiles(dir, entries[1..])
  }

  /** The paths of a list that end in `.md`, in order. */
  function MdOnly(paths: seq<string>): seq<string> {
    if paths == [] then []
    else (if EndsWith(paths[0], ".md") then [paths[0]] else []) + MdOnly(paths[1..])
  }

  lemma {:induction false} MdOnlyAppend(a: seq<string>, b: seq<string>)
    ensures MdOnly(a + b) == MdOnly(a) + MdOnly(b)
  {
    if a != [] {
      MdOnlyAppend(a[1..], b);
      assert (a + b)[1..] == a[1..] + b;
    } else {
      assert a + b == b;
    }
  }

  /** A joined path ends in `.md` exactly when the entry name does, as `/` is not part of the suffix. */
  lemma JoinedSuffix(dir: string, name: string)
    ensures EndsWith(PathJoin(dir, name), ".md") <==> EndsWith(name, ".md")
  {
    var p := PathJoin(dir, name);
    assert p[|p| - |name|..] == name;
    if EndsWith(name, ".md") {
      assert p[|p| - 3..] == name[|name| - 3..];
    }
    if |name| < 3 && |p| >= 3 {
      var k := |p| - |name| - 1;
      assert p[k] == '/';
      assert p[|p| - 3..][k - (|p| - 3)] == p[k];
    }
    if EndsWith(p, ".md") && |name| >= 3 {
      assert p[|p| - 3..] == name[|name| - 3..];
    }
  }

  /** `mdFiles` lists exactly the files of the tree whose path ends in `.md`, in listing order. */
  lemma {:induction false} MdFilesAreMdOnly(dir: string, entries: seq<DirEntry>)
    ensures MdFiles(dir, entries) == MdOnly(AllFiles(dir, entries))
    decreases entries
  {
    if entries != [] {
      MdFilesAreMdOnly(dir, entries[1..]);
      match entries[0]
      case File(n) =>
        JoinedSuffix(dir, n);
        MdOnlyAppend([PathJoin(dir, n)], AllFiles(dir, entries[1..]));
      case Dir(n, es) =>
        MdFilesAreMdOnly(PathJoin(dir, n), es);
        MdOnlyAppend(AllFiles(PathJoin(dir, n), es), AllFiles(dir, entries[1..]));
    }
  }
}
