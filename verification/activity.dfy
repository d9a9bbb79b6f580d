/** `setup()` of the main activity: the listing shown on screen, built from
    an explicit path or from the configured default locations, replaced by
    an empty array when listing fails, and sorted in place with directories
    first and names in compareTo order. */
module Activity {
  import opened Text
  import opened Files
  import opened Listing
  import opened Ordering
  import opened Mime
  import opened Dispatch

  /** The configured default locations, relative to the storage root. The
      shipped configuration names none. */
  const DEFAULT_PATHS: seq<string> := []

  /** `setup()`: `path` is the `path` extra of the starting Intent (None when
      absent), `root` the external storage directory. The array is the one
      handed to the list adapter. */
  method Setup(fs: FileSystem, root: string, specs: seq<string>, path: Option<string>)
    returns (files: array<Entry>)
    ensures files[..] == Sort(Unsorted(fs, root, specs, path))
    ensures Sorted(files[..])
    ensures multiset(files[..]) == multiset(Unsorted(fs, root, specs, path))
    ensures forall k :: WithKey(files[..], k) == WithKey(Unsorted(fs, root, specs, path), k)
    ensures path.Some? ==> forall i :: 0 <= i < files.Length ==> !Hidden(files[i].name)
    ensures path.None? ==> forall i :: 0 <= i < files.Length ==> Exists(fs, files[i].path)
  {
    var listed: array?<Entry>;
    if path.Some? {
      var r := ListVisible(fs, path.value);
      if r.None? {
        listed := null;
      } else {
        var es := r.value;
        listed := new Entry[|es|](i requires 0 <= i < |es| => es[i]);
      }
    } else {
      var es := ExpandDefaults(fs, root, specs);
      listed := new Entry[|es|](i requires 0 <= i < |es| => es[i]);
    }
    if listed == null {
      listed := new Entry[0];
    }
    ghost var unsorted := Unsorted(fs, root, specs, path);
    assert listed[..] == unsorted;
    SortInPlace(listed);
    files := listed;
    forall k {
      SortStable(unsorted, k);
    }
    forall i | 0 <= i < files.Length
      ensures path.Some? ==> !Hidden(files[i].name)
      ensures path.None? ==> Exists(fs, files[i].path)
    {
      var e := files[i];
      assert e in multiset(unsorted) by {
        assert e in multiset(files[..]) by { assert files[..][i] == e; }
      }
      if path.Some? {
        ExplicitListing(fs, root, specs, path.value, e);
      }
    }
  }

  /** With the shipped configuration and no explicit path there is nothing
      to show. */
  lemma DefaultListingEmpty(fs: FileSystem, root: string)
    ensures Sort(Unsorted(fs, root, DEFAULT_PATHS, None)) == []
  {
  }

  /** A listed name never starts with a dot, so it is never made of dots only
      and can always be resolved. */
  lemma VisibleNameResolvable(name: string)
    requires !Hidden(name)
    ensures !OnlyDots(name)
  {
    if |name| > 0 {
      assert name[..1] == [name[0]];
    }
  }

  /** Every entry of an explicit listing can be opened: its name starts with
      no dot, so it is never made of dots only, and getMimeType on it cannot
      fail. A directory navigates to the child path under the listed one. */
  lemma ListedEntryOpens(fs: FileSystem, root: string, specs: seq<string>, p: string,
                         table: map<string, string>, uriFor: string -> string, e: Entry)
    requires e in Sort(Unsorted(fs, root, specs, Some(p)))
    ensures !OnlyDots(e.name)
    ensures e.path == Join(p, e.name)
    ensures e.isDirectory ==> OpenFileIntent(table, uriFor, e) == Navigate(Join(p, e.name))
    ensures !e.isDirectory ==> OpenFileIntent(table, uriFor, e).View?
  {
    var u := Unsorted(fs, root, specs, Some(p));
    assert e in multiset(Sort(u));
    assert e in u;
    ExplicitListing(fs, root, specs, p, e);
    VisibleNameResolvable(e.name);
  }

  /** Opening a listed directory starts the browser on that directory's
      path, whose own listing succeeds exactly when it is readable. */
  lemma NavigateRelists(fs: FileSystem, root: string, specs: seq<string>, p: string,
                        table: map<string, string>, uriFor: string -> string, e: Entry)
    requires e in Sort(Unsorted(fs, root, specs, Some(p))) && e.isDirectory
    ensures OpenFileIntent(table, uriFor, e).Navigate?
    ensures var q := OpenFileIntent(table, uriFor, e).path;
      q == Join(p, e.name) && IsDirectory(fs, q) &&
      (ListVisible(fs, q).Some? <==> fs[q].readable)
  {
    var u := Unsorted(fs, root, specs, Some(p));
    assert e in multiset(Sort(u));
    ExplicitListing(fs, root, specs, p, e);
  }

  // ---------------------------------------------------------------------
  // A worked configuration

  /** Storage root "/sd" holding a directory A, a directory B with "x.txt"
      and the hidden ".y", and a directory C with another "x.txt". */
  function SampleFs(): FileSystem
  {
    map[
      "/sd" := Directory(["A", "B", "C"], true),
      "/sd/A" := Directory([], true),
      "/sd/B" := Directory(["x.txt", ".y"], true),
      "/sd/B/x.txt" := RegularFile,
      "/sd/B/.y" := RegularFile,
      "/sd/C" := Directory(["x.txt"], true),
      "/sd/C/x.txt" := RegularFile
    ]
  }

  const SAMPLE_SPECS: seq<string> := ["B/*", "A", "C/*"]

  /** The wildcard spec for B contributes its visible child only. */
  lemma SampleExpandB()
    ensures ExpandDefaults(SampleFs(), "/sd", ["B/*"]) == [Entry("x.txt", "/sd/B/x.txt", false)]
  {
    var fs := SampleFs();
    assert "B/*"[..1] == "B" && "B/*"[1..] == WILDCARD;
    assert Join("/sd", "B") == "/sd/B";
    assert ListNames(fs, "/sd/B") == Some(["x.txt", ".y"]);
    assert "x.txt"[..1] == "x";
    assert DropHidden(["x.txt", ".y"]) == ["x.txt"];
    assert Join("/sd/B", "x.txt") == "/sd/B/x.txt";
    assert ChildAt(fs, "/sd/B", "x.txt") == Entry("x.txt", "/sd/B/x.txt", false);
    ExpandWildcard(fs, "/sd", "B/*");
  }

  /** The literal "A" contributes the directory "/sd/A". */
  lemma SampleExpandA()
    ensures ExpandDefaults(SampleFs(), "/sd", ["A"]) == [Entry("A", "/sd/A", true)]
  {
    var fs := SampleFs();
    assert Join("/sd", "A") == "/sd/A";
    assert LastIndexOf("/sd/A", '/') == 3;
    assert BaseName("/sd/A") == "A";
    assert FileAt(fs, "/sd/A") == Entry("A", "/sd/A", true);
    ExpandLiteral(fs, "/sd", "A");
  }

  /** The wildcard spec for C contributes its child. */
  lemma SampleExpandC()
    ensures ExpandDefaults(SampleFs(), "/sd", ["C/*"]) == [Entry("x.txt", "/sd/C/x.txt", false)]
  {
    var fs := SampleFs();
    assert "C/*"[..1] == "C" && "C/*"[1..] == WILDCARD;
    assert Join("/sd", "C") == "/sd/C";
    assert ListNames(fs, "/sd/C") == Some(["x.txt"]);
    assert "x.txt"[..1] == "x";
    assert DropHidden(["x.txt"]) == ["x.txt"];
    assert Join("/sd/C", "x.txt") == "/sd/C/x.txt";
    assert ChildAt(fs, "/sd/C", "x.txt") == Entry("x.txt", "/sd/C/x.txt", false);
    ExpandWildcard(fs, "/sd", "C/*");
  }

  /** The last two specs, in order: the directory A, then C's child. */
  lemma SampleExpandTail()
    ensures ExpandDefaults(SampleFs(), "/sd", ["A", "C/*"]) ==
      [Entry("A", "/sd/A", true), Entry("x.txt", "/sd/C/x.txt", false)]
  {
    SampleExpandA();
    SampleExpandC();
    ExpandConcat(SampleFs(), "/sd", ["A"], ["C/*"]);
    assert ["A", "C/*"] == ["A"] + ["C/*"];
  }

  /** Expansion goes spec by spec: B's visible child, then A, then C's child. */
  lemma SampleExpansion()
    ensures ExpandDefaults(SampleFs(), "/sd", SAMPLE_SPECS) ==
      [Entry("x.txt", "/sd/B/x.txt", false), Entry("A", "/sd/A", true), Entry("x.txt", "/sd/C/x.txt", false)]
  {
    var fs := SampleFs();
    var b, a, c := Entry("x.txt", "/sd/B/x.txt", false), Entry("A", "/sd/A", true), Entry("x.txt", "/sd/C/x.txt", false);
    assert SAMPLE_SPECS == ["B/*"] + ["A", "C/*"];
    calc {
      ExpandDefaults(fs, "/sd", SAMPLE_SPECS);
      { ExpandConcat(fs, "/sd", ["B/*"], ["A", "C/*"]); }
      ExpandDefaults(fs, "/sd", ["B/*"]) + ExpandDefaults(fs, "/sd", ["A", "C/*"]);
      { SampleExpandB(); SampleExpandTail(); }
      [b] + [a, c];
    }
  }

  /** Inserting the directory after a file moves it in front. */
  lemma SampleInsertDirectory()
    ensures Insert([Entry("x.txt", "/sd/B/x.txt", false)], Entry("A", "/sd/A", true)) ==
      [Entry("A", "/sd/A", true), Entry("x.txt", "/sd/B/x.txt", false)]
  {
    var b, a := Entry("x.txt", "/sd/B/x.txt", false), Entry("A", "/sd/A", true);
    assert Before(a, b);
    assert [b][..0] == [];
  }

  /** Inserting a file whose key equals the last one's leaves it last. */
  lemma SampleInsertEqualKey()
    ensures Insert([Entry("A", "/sd/A", true), Entry("x.txt", "/sd/B/x.txt", false)],
                   Entry("x.txt", "/sd/C/x.txt", false)) ==
      [Entry("A", "/sd/A", true), Entry("x.txt", "/sd/B/x.txt", false), Entry("x.txt", "/sd/C/x.txt", false)]
  {
  }

  /** Sorting moves the directory first and keeps the two "x.txt" files,
      whose keys are equal, in their input order. */
  lemma SampleSort()
    ensures Sort([Entry("x.txt", "/sd/B/x.txt", false), Entry("A", "/sd/A", true), Entry("x.txt", "/sd/C/x.txt", false)]) ==
      [Entry("A", "/sd/A", true), Entry("x.txt", "/sd/B/x.txt", false), Entry("x.txt", "/sd/C/x.txt", false)]
  {
    var b, a, c := Entry("x.txt", "/sd/B/x.txt", false), Entry("A", "/sd/A", true), Entry("x.txt", "/sd/C/x.txt", false);
    var s := [b, a, c];
    calc {
      Sort(s);
      { assert s[..2] == [b, a]; }
      Insert(Sort([b, a]), c);
      { assert [b, a][..1] == [b]; }
      Insert(Insert(Sort([b]), a), c);
      { assert [b][..0] == []; }
      Insert(Insert([b], a), c);
      { SampleInsertDirectory(); }
      Insert([a, b], c);
      { SampleInsertEqualKey(); }
      [a, b, c];
    }
  }

  /** The worked configuration, end to end: the directory first, then the
      two "x.txt" files in expansion order, B's before C's. */
  lemma SampleSetup()
    ensures Sort(Unsorted(SampleFs(), "/sd", SAMPLE_SPECS, None)) ==
      [Entry("A", "/sd/A", true), Entry("x.txt", "/sd/B/x.txt", false), Entry("x.txt", "/sd/C/x.txt", false)]
  {
    SampleExpansion();
    SampleSort();
  }
}
