/** Building the unsorted listing: listing an explicit directory without its
    hidden children, and expanding the configured default locations
    relative to the storage root. */
module Listing {
  import opened Text
  import opened Files

  /** A name the listing filter drops: it starts with a dot. */
  predicate Hidden(name: string)
  {
    StartsWith(name, ".")
  }

  /** The filter the listing passes to listFiles: a name is kept unless it
      starts with a dot, and the kept names stay in enumeration order. */
  function DropHidden(names: seq<string>): (kept: seq<string>)
    ensures |kept| <= |names|
    ensures forall n :: n in kept <==> n in names && !Hidden(n)
  {
    if |names| == 0 then []
    else if Hidden(names[0]) then DropHidden(names[1..])
    else [names[0]] + DropHidden(names[1..])
  }

  /** The entries for some listed child names of `dir`. */
  function Children(fs: FileSystem, dir: string, names: seq<string>): (es: seq<Entry>)
    ensures |es| == |names|
    ensures forall i :: 0 <= i < |names| ==> es[i] == ChildAt(fs, dir, names[i])
  {
    if |names| == 0 then [] else [ChildAt(fs, dir, names[0])] + Children(fs, dir, names[1..])
  }

  /** listFiles on `dir` with the hidden-name filter: the child Files of the
      names kept, or None (Java's null) when the listing fails. */
  function ListVisible(fs: FileSystem, dir: string): (r: Option<seq<Entry>>)
    ensures r.Some? <==> ListNames(fs, dir).Some?
  {
    match ListNames(fs, dir)
    case None => None
    case Some(names) => Some(Children(fs, dir, DropHidden(names)))
  }

  /** No entry of a successful filtered listing is hidden, and the entries are
      exactly the visible children of the directory, each under `dir`. */
  lemma ListVisibleContents(fs: FileSystem, dir: string, e: Entry)
    requires ListVisible(fs, dir).Some?
    ensures e in ListVisible(fs, dir).value <==>
      e.name in fs[dir].children && !Hidden(e.name) && e == ChildAt(fs, dir, e.name)
  {
    var names := DropHidden(fs[dir].children);
    var es := ListVisible(fs, dir).value;
    if e in es {
      var i :| 0 <= i < |es| && es[i] == e;
      assert names[i] in names;
    }
    if e.name in fs[dir].children && !Hidden(e.name) && e == ChildAt(fs, dir, e.name) {
      var i :| 0 <= i < |names| && names[i] == e.name;
      assert es[i] == e;
    }
  }

  lemma ListVisibleExactly(fs: FileSystem, dir: string)
    requires ListVisible(fs, dir).Some?
    ensures forall e :: e in ListVisible(fs, dir).value <==>
      e.name in fs[dir].children && !Hidden(e.name) && e == ChildAt(fs, dir, e.name)
  {
    forall e {
      ListVisibleContents(fs, dir, e);
    }
  }

  /** The marker that makes a configured location mean "the children of". */
  const WILDCARD := "/*"

  /** `getFiles(root, spec)`: a literal spec stands for the one File
      `root/spec`; a spec ending in the wildcard marker stands for the
      visible children of the directory it names, and for nothing when that
      cannot be listed. */
  function GetFiles(fs: FileSystem, root: string, spec: string): seq<Entry>
  {
    if !EndsWith(spec, WILDCARD) then
      [FileAt(fs, Join(root, spec))]
    else
      var dir := Join(root, spec[..|spec| - |WILDCARD|]);
      match ListVisible(fs, dir)
      case None => []
      case Some(es) => es
  }

  /** A literal spec yields the one File at `root/spec`, whatever the
      filesystem holds there, before the existence filter. */
  lemma GetFilesLiteral(fs: FileSystem, root: string, spec: string)
    requires !EndsWith(spec, WILDCARD)
    ensures var r, p := GetFiles(fs, root, spec), Join(root, spec);
      |r| == 1 && r[0].path == p && r[0].name == BaseName(p) && (r[0].isDirectory <==> IsDirectory(fs, p))
  {
  }

  /** A wildcard spec yields exactly the visible children of the directory
      it names, before the existence filter. */
  lemma GetFilesWildcard(fs: FileSystem, root: string, spec: string, e: Entry)
    requires EndsWith(spec, WILDCARD)
    ensures var dir := Join(root, spec[..|spec| - |WILDCARD|]);
      (ListNames(fs, dir).None? ==> GetFiles(fs, root, spec) == []) &&
      (ListNames(fs, dir).Some? ==>
        (e in GetFiles(fs, root, spec) <==>
          e.name in fs[dir].children && !Hidden(e.name) && e == ChildAt(fs, dir, e.name)))
  {
    var dir := Join(root, spec[..|spec| - |WILDCARD|]);
    if ListNames(fs, dir).Some? {
      ListVisibleContents(fs, dir, e);
    }
  }

  /** A wildcard on the storage root itself, the spec made of the marker
      alone, lists the visible children of the root. */
  lemma WildcardOnRoot(fs: FileSystem, root: string)
    ensures GetFiles(fs, root, WILDCARD) ==
      if ListNames(fs, root).None? then [] else ListVisible(fs, root).value
  {
    assert WILDCARD[..0] == "";
  }

  /** The candidates of every spec, spec by spec, in spec order (the flatMap). */
  function Candidates(fs: FileSystem, root: string, specs: seq<string>): seq<Entry>
  {
    if |specs| == 0 then [] else GetFiles(fs, root, specs[0]) + Candidates(fs, root, specs[1..])
  }

  /** The existence filter of the default expansion: the entries whose path
      exists, in their order. */
  function KeepExisting(fs: FileSystem, es: seq<Entry>): (kept: seq<Entry>)
    ensures |kept| <= |es|
    ensures forall e :: e in kept <==> e in es && Exists(fs, e.path)
  {
    if |es| == 0 then []
    else if Exists(fs, es[0].path) then [es[0]] + KeepExisting(fs, es[1..])
    else KeepExisting(fs, es[1..])
  }

  lemma {:induction false} KeepExistingConcat(fs: FileSystem, a: seq<Entry>, b: seq<Entry>)
    ensures KeepExisting(fs, a + b) == KeepExisting(fs, a) + KeepExisting(fs, b)
  {
    if |a| != 0 {
      assert (a + b)[1..] == a[1..] + b;
      KeepExistingConcat(fs, a[1..], b);
    } else {
      assert a + b == b;
    }
  }

  /** The listing used when no explicit path is given. */
  function ExpandDefaults(fs: FileSystem, root: string, specs: seq<string>): (r: seq<Entry>)
    ensures forall e :: e in r <==> e in Candidates(fs, root, specs) && Exists(fs, e.path)
  {
    KeepExisting(fs, Candidates(fs, root, specs))
  }

  /** The listing `setup` holds before sorting: the filtered listing of an
      explicit path, with a failed listing replaced by an empty one, or the
      expansion of the default locations. */
  function Unsorted(fs: FileSystem, root: string, specs: seq<string>, path: Option<string>): (r: seq<Entry>)
    ensures path.Some? && ListNames(fs, path.value).None? ==> r == []
    ensures path.Some? ==> forall e :: e in r ==> !Hidden(e.name)
    ensures path.None? ==> forall e :: e in r ==> Exists(fs, e.path)
  {
    match path
    case Some(p) => (match ListVisible(fs, p) case None => [] case Some(es) => ListVisibleExactly(fs, p); es)
    case None => ExpandDefaults(fs, root, specs)
  }

  // ---------------------------------------------------------------------
  // Properties of expansion

  /** A literal spec contributes exactly the File `root/spec`, if it exists. */
  lemma ExpandLiteral(fs: FileSystem, root: string, spec: string)
    requires !EndsWith(spec, WILDCARD)
    ensures ExpandDefaults(fs, root, [spec]) ==
      if Exists(fs, Join(root, spec)) then [FileAt(fs, Join(root, spec))] else []
  {
    assert Candidates(fs, root, [spec]) == GetFiles(fs, root, spec) + Candidates(fs, root, []);
    assert [FileAt(fs, Join(root, spec))][1..] == [];
  }

  /** A wildcard spec contributes the existing visible children of the
      directory named by the spec without its last two characters, and
      nothing at all when that directory cannot be listed. */
  lemma ExpandWildcard(fs: FileSystem, root: string, spec: string)
    requires EndsWith(spec, WILDCARD)
    ensures var dir := Join(root, spec[..|spec| - 2]);
      ExpandDefaults(fs, root, [spec]) ==
        if ListNames(fs, dir).None? then [] else KeepExisting(fs, ListVisible(fs, dir).value)
    ensures forall e :: e in ExpandDefaults(fs, root, [spec]) ==> !Hidden(e.name)
  {
    var dir := Join(root, spec[..|spec| - 2]);
    assert |WILDCARD| == 2;
    var g := GetFiles(fs, root, spec);
    assert g == if ListNames(fs, dir).None? then [] else ListVisible(fs, dir).value;
    assert Candidates(fs, root, [spec]) == g + Candidates(fs, root, []);
    assert g + Candidates(fs, root, []) == g;
    assert ExpandDefaults(fs, root, [spec]) == KeepExisting(fs, g);
    if ListNames(fs, dir).Some? {
      forall e | e in KeepExisting(fs, g) ensures !Hidden(e.name) {
        assert e in g;
        ListVisibleContents(fs, dir, e);
      }
    }
  }

  /** Expansion works spec by spec, in spec order. */
  lemma {:induction false} ExpandConcat(fs: FileSystem, root: string, specs1: seq<string>, specs2: seq<string>)
    ensures ExpandDefaults(fs, root, specs1 + specs2) ==
      ExpandDefaults(fs, root, specs1) + ExpandDefaults(fs, root, specs2)
  {
    CandidatesConcat(fs, root, specs1, specs2);
    KeepExistingConcat(fs, Candidates(fs, root, specs1), Candidates(fs, root, specs2));
  }

  lemma {:induction false} CandidatesConcat(fs: FileSystem, root: string, specs1: seq<string>, specs2: seq<string>)
    ensures Candidates(fs, root, specs1 + specs2) ==
      Candidates(fs, root, specs1) + Candidates(fs, root, specs2)
  {
    if |specs1| == 0 {
      assert specs1 + specs2 == specs2;
    } else {
      assert (specs1 + specs2)[1..] == specs1[1..] + specs2;
      CandidatesConcat(fs, root, specs1[1..], specs2);
    }
  }

  /** Every expanded location exists, and it comes from one of the specs. */
  lemma {:induction false} ExpandedExist(fs: FileSystem, root: string, specs: seq<string>, e: Entry)
    ensures e in ExpandDefaults(fs, root, specs) <==>
      Exists(fs, e.path) && exists i :: 0 <= i < |specs| && e in GetFiles(fs, root, specs[i])
  {
    CandidatesMembership(fs, root, specs, e);
  }

  lemma {:induction false} CandidatesMembership(fs: FileSystem, root: string, specs: seq<string>, e: Entry)
    ensures e in Candidates(fs, root, specs) <==>
      exists i :: 0 <= i < |specs| && e in GetFiles(fs, root, specs[i])
  {
    if |specs| != 0 {
      CandidatesMembership(fs, root, specs[1..], e);
      if e in Candidates(fs, root, specs[1..]) {
        var i :| 0 <= i < |specs| - 1 && e in GetFiles(fs, root, specs[1..][i]);
        assert e in GetFiles(fs, root, specs[i + 1]);
      }
      if exists i :: 0 <= i < |specs| && e in GetFiles(fs, root, specs[i]) {
        var i :| 0 <= i < |specs| && e in GetFiles(fs, root, specs[i]);
        if i > 0 {
          assert specs[1..][i - 1] == specs[i];
        }
      }
    }
  }

  /** No location list yields no entries. */
  lemma ExpandNothing(fs: FileSystem, root: string)
    ensures ExpandDefaults(fs, root, []) == []
  {
  }

  // ---------------------------------------------------------------------
  // Properties of the explicit-path listing

  /** An explicit path lists exactly its visible children, and a failed
      listing yields an empty sequence rather than an error. */
  lemma ExplicitListing(fs: FileSystem, root: string, specs: seq<string>, p: string, e: Entry)
    ensures ListNames(fs, p).None? ==> Unsorted(fs, root, specs, Some(p)) == []
    ensures ListNames(fs, p).Some? ==>
      (e in Unsorted(fs, root, specs, Some(p)) <==>
        e.name in fs[p].children && !Hidden(e.name) && e == ChildAt(fs, p, e.name))
  {
    if ListNames(fs, p).Some? {
      ListVisibleContents(fs, p, e);
    }
  }
}
