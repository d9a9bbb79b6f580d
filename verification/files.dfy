/** The filesystem as the browser sees it through java.io.File: a map from
    absolute path to node, and the File values (entries) built from paths. */
module Files {
  import opened Text

  datatype Option<T> = None | Some(value: T)

  /** A directory lists its child names in enumeration order; `readable` is
      false when enumerating it fails (permission, I/O error). */
  datatype Node = Directory(children: seq<string>, readable: bool) | RegularFile

  type FileSystem = map<string, Node>

  /** A java.io.File as the core uses it: its name, its path, and whether the
      filesystem reported it as a directory. */
  datatype Entry = Entry(name: string, path: string, isDirectory: bool)

  /** `new File(parent, child)` for a child in normal form: the child
      resolved against the parent as the Unix file system resolves it. An
      empty child names the parent itself, a child starting with a separator
      is appended without another one, and under the root "/" no second
      separator is added. */
  function Join(parent: string, child: string): string
  {
    if child == "" then parent
    else if child[0] == '/' then (if parent == "/" then child else parent + child)
    else if parent == "/" then parent + child
    else parent + "/" + child
  }

  /** The resolved path starts with the parent and ends with the child; a
      relative child sits behind exactly one separator, which is the root's
      own when the parent is "/", and an empty child adds nothing. */
  lemma JoinShape(parent: string, child: string)
    ensures var p := Join(parent, child);
      StartsWith(p, parent) && EndsWith(p, child) &&
      (child == "" ==> p == parent) &&
      (child != "" && child[0] != '/' ==>
        |p| == |parent| + |child| + (if parent == "/" then 0 else 1) && p[|p| - |child| - 1] == '/') &&
      (child != "" && child[0] == '/' ==>
        |p| == |child| + (if parent == "/" then 0 else |parent|))
  {
    var p := Join(parent, child);
    if child != "" && child[0] == '/' && parent == "/" {
      assert p[..1] == child[..1];
    } else if child != "" {
      var pre := if child[0] == '/' || parent == "/" then parent else parent + "/";
      assert p == pre + child;
      assert p[..|parent|] == parent by {
        assert pre[..|parent|] == parent;
      }
      assert p[|p| - |child|..] == child;
    }
  }

  /** `File.getName()`: the part of the path after its last separator. */
  function BaseName(path: string): (name: string)
    ensures '/' !in name
    ensures |name| <= |path| && path[|path| - |name|..] == name
    ensures |name| < |path| ==> path[|path| - |name| - 1] == '/'
  {
    var k := LastIndexOf(path, '/');
    path[k + 1..]
  }

  /** `File.exists()` */
  predicate Exists(fs: FileSystem, path: string)
  {
    path in fs
  }

  /** `File.isDirectory()` */
  predicate IsDirectory(fs: FileSystem, path: string)
  {
    path in fs && fs[path].Directory?
  }

  /** `File.list()`: the child names of a readable directory; None (Java's
      null) for anything else, including a path that does not exist. */
  function ListNames(fs: FileSystem, dir: string): (r: Option<seq<string>>)
    ensures r.Some? <==> IsDirectory(fs, dir) && fs[dir].readable
    ensures r.Some? ==> r.value == fs[dir].children
  {
    if dir in fs && fs[dir].Directory? && fs[dir].readable then Some(fs[dir].children) else None
  }

  /** The File value for a path. */
  function FileAt(fs: FileSystem, path: string): Entry
  {
    Entry(BaseName(path), path, IsDirectory(fs, path))
  }

  /** `new File(dir, name)` for a name returned by listing `dir`. */
  function ChildAt(fs: FileSystem, dir: string, name: string): Entry
  {
    var p := Join(dir, name);
    Entry(name, p, IsDirectory(fs, p))
  }

  /** The name of a child File is the listed name, as for any File built from
      its path, whenever the listed name is non-empty and holds no separator. */
  lemma ChildAtIsFileAt(fs: FileSystem, dir: string, name: string)
    requires name != "" && '/' !in name
    ensures ChildAt(fs, dir, name) == FileAt(fs, Join(dir, name))
  {
    JoinBaseName(dir, name);
  }

  /** `getName()` of a child path gives back a non-empty, separator-free child. */
  lemma JoinBaseName(parent: string, child: string)
    requires child != "" && '/' !in child
    ensures BaseName(Join(parent, child)) == child
  {
    var p := Join(parent, child);
    var pre := if parent == "/" then "/" else parent + "/";
    assert child[0] in child;
    assert p == pre + child;
    forall i | |pre| <= i < |p| ensures p[i] != '/' {
      assert p[i] == child[i - |pre|];
    }
    LastIndexOfAt(p, '/', |pre| - 1);
    assert p[|pre|..] == child;
  }

  /** Under the root no second separator appears: "/" and "a" give "/a". */
  lemma JoinUnderRoot()
    ensures Join("/", "a") == "/a"
  {
  }

  /** An empty child names the parent: "/sd" and "" give "/sd". */
  lemma JoinEmptyChild()
    ensures Join("/sd", "") == "/sd"
  {
  }
}
