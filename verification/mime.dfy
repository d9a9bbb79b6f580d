/** Content-type resolution, `getMimeType(name)`: the name is split on dots
    with Java's String.split (which drops trailing empty pieces); a single
    piece means no extension; otherwise the last piece is looked up in the
    system extension table, with "application/octet-stream" as fallback. */
module Mime {
  import opened Text
  import opened Files

  const OCTET_STREAM := "application/octet-stream"

  /** The pieces of `s` between dots, empty ones included. */
  function SplitOnDot(s: string): (pieces: seq<string>)
    ensures |pieces| >= 1
    ensures forall i :: 0 <= i < |pieces| ==> '.' !in pieces[i]
    decreases |s|
  {
    var k := LastIndexOf(s, '.');
    if k < 0 then [s]
    else
      var last := s[k + 1..];
      assert forall j :: 0 <= j < |last| ==> last[j] == s[k + 1 + j];
      SplitOnDot(s[..k]) + [last]
  }

  /** The pieces put back together with a dot between each two. */
  function JoinOnDot(pieces: seq<string>): string
    requires |pieces| >= 1
  {
    if |pieces| == 1 then pieces[0]
    else JoinOnDot(pieces[..|pieces| - 1]) + "." + pieces[|pieces| - 1]
  }

  /** Splitting loses nothing: joining the pieces gives back the string. */
  lemma {:induction false} JoinSplit(s: string)
    ensures JoinOnDot(SplitOnDot(s)) == s
    decreases |s|
  {
    var k := LastIndexOf(s, '.');
    if k >= 0 {
      var p := SplitOnDot(s[..k]);
      JoinSplit(s[..k]);
      assert (p + [s[k + 1..]])[..|p|] == p;
      assert s == s[..k] + "." + s[k + 1..];
    }
  }

  /** Splitting `j.last`, for a dot-free `last`, splits `j` and adds `last`. */
  lemma SplitSnoc(j: string, last: string)
    requires '.' !in last
    ensures SplitOnDot(j + "." + last) == SplitOnDot(j) + [last]
  {
    var s := j + "." + last;
    forall i | |j| < i < |s| ensures s[i] != '.' {
      assert s[i] == last[i - |j| - 1];
    }
    LastIndexOfAt(s, '.', |j|);
    assert s[..|j|] == j && s[|j| + 1..] == last;
  }

  /** Joining dot-free pieces and splitting again gives back the pieces. */
  lemma {:induction false} SplitJoin(pieces: seq<string>)
    requires |pieces| >= 1
    requires forall i :: 0 <= i < |pieces| ==> '.' !in pieces[i]
    ensures SplitOnDot(JoinOnDot(pieces)) == pieces
  {
    if |pieces| > 1 {
      var init, last := pieces[..|pieces| - 1], pieces[|pieces| - 1];
      var j := JoinOnDot(init);
      assert forall i :: 0 <= i < |init| ==> init[i] == pieces[i];
      calc {
        SplitOnDot(JoinOnDot(pieces));
        SplitOnDot(j + "." + last);
        { SplitSnoc(j, last); }
        SplitOnDot(j) + [last];
        { SplitJoin(init); }
        init + [last];
        pieces;
      }
    }
  }

  /** Java drops the empty pieces at the end of a split. */
  function DropTrailingEmpty(pieces: seq<string>): (kept: seq<string>)
    ensures |kept| <= |pieces| && kept == pieces[..|kept|]
    ensures |kept| == 0 || kept[|kept| - 1] != ""
    ensures forall i :: |kept| <= i < |pieces| ==> pieces[i] == ""
  {
    if |pieces| == 0 || pieces[|pieces| - 1] != "" then pieces
    else DropTrailingEmpty(pieces[..|pieces| - 1])
  }

  /** Java's String.split on a dot: a string without a dot is its own single piece;
      otherwise the pieces between dots, less the empty ones at the end. */
  function JavaSplit(s: string): (r: seq<string>)
    ensures '.' !in s ==> r == [s]
    ensures '.' in s ==> |r| <= |SplitOnDot(s)| && r == SplitOnDot(s)[..|r|] && (|r| == 0 || r[|r| - 1] != "")
    ensures '.' in s ==> forall i :: |r| <= i < |SplitOnDot(s)| ==> SplitOnDot(s)[i] == ""
    ensures forall i :: 0 <= i < |r| ==> '.' !in r[i]
  {
    if '.' !in s then [s] else DropTrailingEmpty(SplitOnDot(s))
  }

  /** Every character is a dot (vacuously so for the empty name). */
  predicate AllDots(s: string)
  {
    forall i :: 0 <= i < |s| ==> s[i] == '.'
  }

  /** Every piece is empty. */
  predicate AllEmpty(pieces: seq<string>)
  {
    forall i :: 0 <= i < |pieces| ==> pieces[i] == ""
  }

  /** A non-empty name made of dots only, such as "...". */
  predicate OnlyDots(s: string)
  {
    |s| > 0 && AllDots(s)
  }

  lemma AllEmptySnoc(pieces: seq<string>, e: string)
    ensures AllEmpty(pieces + [e]) <==> AllEmpty(pieces) && e == ""
  {
    var q := pieces + [e];
    assert q[|pieces|] == e;
    assert forall i :: 0 <= i < |pieces| ==> q[i] == pieces[i];
  }

  /** A name is all dots exactly when both sides of one of its dots are. */
  lemma AllDotsAround(s: string, k: int)
    requires 0 <= k < |s| && s[k] == '.'
    ensures AllDots(s) <==> AllDots(s[..k]) && AllDots(s[k + 1..])
  {
    assert forall i :: 0 <= i < k ==> s[..k][i] == s[i];
    assert forall i :: k < i < |s| ==> s[k + 1..][i - k - 1] == s[i];
    if AllDots(s[..k]) && AllDots(s[k + 1..]) {
      forall i | 0 <= i < |s| ensures s[i] == '.' {
        if i < k {
          assert s[..k][i] == s[i];
        } else if i > k {
          assert s[k + 1..][i - k - 1] == s[i];
        }
      }
    }
  }

  /** A dot-free piece is all dots only when it is empty. */
  lemma AllDotsDotFree(e: string)
    requires '.' !in e
    ensures AllDots(e) <==> e == ""
  {
    if e != "" {
      assert e[0] in e;
    }
  }

  lemma {:induction false} PiecesEmptyIffDots(s: string)
    ensures AllEmpty(SplitOnDot(s)) <==> AllDots(s)
    decreases |s|
  {
    var k := LastIndexOf(s, '.');
    if k >= 0 {
      PiecesEmptyIffDots(s[..k]);
      var p, e := SplitOnDot(s[..k]), s[k + 1..];
      assert SplitOnDot(s) == p + [e];
      AllEmptySnoc(p, e);
      AllDotsAround(s, k);
      assert forall i :: 0 <= i < |e| ==> e[i] == s[k + 1 + i];
      AllDotsDotFree(e);
    } else {
      assert SplitOnDot(s) == [s] && SplitOnDot(s)[0] == s;
      assert |s| != 0 ==> s[0] != '.';
    }
  }

  /** The split is empty, and `strings[strings.length - 1]` would be out of
      bounds, exactly for a name made of dots only. */
  lemma SplitEmptyIffOnlyDots(s: string)
    ensures |JavaSplit(s)| == 0 <==> OnlyDots(s)
  {
    assert OnlyDots(s) ==> s[0] == '.';
    if '.' in s {
      PiecesEmptyIffDots(s);
      var p := SplitOnDot(s);
      var d := DropTrailingEmpty(p);
      assert |d| == 0 ==> forall i :: 0 <= i < |p| ==> p[i] == "";
      assert |d| != 0 ==> p[|d| - 1] != "";
    }
  }

  /** The extension the source looks up: None when the split has one piece,
      otherwise its last piece. */
  function Extension(name: string): (ext: Option<string>)
    requires !OnlyDots(name)
    ensures '.' !in name ==> ext.None?
    ensures ext.Some? ==> ext.value != "" && '.' !in ext.value
  {
    var pieces := JavaSplit(name);
    SplitEmptyIffOnlyDots(name);
    if |pieces| == 1 then None else Some(pieces[|pieces| - 1])
  }

  // ---------------------------------------------------------------------
  // A reference definition of the extension

  /** The name without the dots at its end. */
  function TrimTrailingDots(s: string): (t: string)
    ensures |t| <= |s| && t == s[..|t|]
    ensures |t| == 0 || t[|t| - 1] != '.'
    ensures forall i :: |t| <= i < |s| ==> s[i] == '.'
  {
    if |s| != 0 && s[|s| - 1] == '.' then TrimTrailingDots(s[..|s| - 1]) else s
  }

  /** What follows the last dot once trailing dots are removed; None when no
      dot is left. */
  function LastSegment(s: string): Option<string>
  {
    var t := TrimTrailingDots(s);
    var k := LastIndexOf(t, '.');
    if k < 0 then None else Some(t[k + 1..])
  }

  /** A trailing dot of the name makes an empty last piece, which Java drops. */
  lemma DropSplitTrailingDot(s: string)
    requires |s| != 0 && s[|s| - 1] == '.'
    ensures DropTrailingEmpty(SplitOnDot(s)) == DropTrailingEmpty(SplitOnDot(s[..|s| - 1]))
  {
    var p := SplitOnDot(s[..|s| - 1]);
    assert LastIndexOf(s, '.') == |s| - 1;
    assert s[|s|..] == "";
    assert SplitOnDot(s) == p + [""];
    assert (p + [""])[..|p|] == p;
  }

  lemma {:induction false} DropSplitTrim(s: string)
    ensures DropTrailingEmpty(SplitOnDot(s)) == DropTrailingEmpty(SplitOnDot(TrimTrailingDots(s)))
    decreases |s|
  {
    if |s| != 0 && s[|s| - 1] == '.' {
      DropSplitTrailingDot(s);
      DropSplitTrim(s[..|s| - 1]);
    }
  }

  /** The extension Java's split yields is the last segment of the name:
      "archive.tar.gz" uses "gz", "foo." has none, "a.b." uses "b". */
  lemma ExtensionIsLastSegment(s: string)
    requires !OnlyDots(s)
    ensures Extension(s) == LastSegment(s)
  {
    var t := TrimTrailingDots(s);
    var k := LastIndexOf(t, '.');
    if '.' in s {
      DropSplitTrim(s);
      if k < 0 {
        assert SplitOnDot(t) == [t];
      } else {
        var p := SplitOnDot(t[..k]);
        assert SplitOnDot(t) == p + [t[k + 1..]];
      }
    }
  }

  /** A name ending in a dot has the segment of the name without it. */
  lemma LastSegmentTrailingDot(s: string)
    requires |s| != 0 && s[|s| - 1] == '.'
    ensures LastSegment(s) == LastSegment(s[..|s| - 1])
  {
  }

  /** After the last dot of `p.e` stands `e`, when `e` is a non-empty
      dot-free segment. */
  lemma LastSegmentAfterDot(p: string, e: string)
    requires e != "" && '.' !in e
    ensures LastSegment(p + "." + e) == Some(e)
  {
    var s := p + "." + e;
    assert s[|s| - 1] == e[|e| - 1];
    assert TrimTrailingDots(s) == s;
    assert forall i :: |p| < i < |s| ==> s[i] == e[i - |p| - 1];
    assert forall i :: |p| < i < |s| ==> s[i] != '.';
    LastIndexOfAt(s, '.', |p|);
    assert s[|p| + 1..] == e;
  }

  /** A dot-free name has no extension. */
  lemma LastSegmentNoDot(s: string)
    requires '.' !in s
    ensures LastSegment(s) == None
  {
  }

  /** "archive.tar.gz" uses only "gz". */
  lemma ExtensionOfArchive()
    ensures !OnlyDots("archive.tar.gz") && Extension("archive.tar.gz") == Some("gz")
  {
    assert "archive.tar.gz"[0] == 'a';
    assert "archive.tar.gz" == "archive.tar" + "." + "gz";
    LastSegmentAfterDot("archive.tar", "gz");
    ExtensionIsLastSegment("archive.tar.gz");
  }

  /** "foo." has no extension: its only non-empty piece is "foo". */
  lemma ExtensionOfTrailingDot()
    ensures !OnlyDots("foo.") && Extension("foo.") == None
  {
    assert "foo."[0] == 'f';
    assert "foo."[..3] == "foo";
    LastSegmentTrailingDot("foo.");
    LastSegmentNoDot("foo");
    ExtensionIsLastSegment("foo.");
  }

  /** "a.b." uses "b": the empty piece after the final dot is dropped. */
  lemma ExtensionBeforeTrailingDot()
    ensures !OnlyDots("a.b.") && Extension("a.b.") == Some("b")
  {
    assert "a.b."[0] == 'a';
    assert "a.b."[..3] == "a" + "." + "b";
    LastSegmentTrailingDot("a.b.");
    LastSegmentAfterDot("a", "b");
    ExtensionIsLastSegment("a.b.");
  }

  /** A dot-free name such as "README" has no extension. */
  lemma ExtensionOfPlainName()
    ensures !OnlyDots("README") && Extension("README") == None
  {
    assert "README"[0] == 'R';
    LastSegmentNoDot("README");
    ExtensionIsLastSegment("README");
  }

  // ---------------------------------------------------------------------
  // The resolver

  /** `getMimeType(name)` against the system extension table. Stated in terms
      of the last segment of the name; the table is whatever the platform
      provides (`MimeTypeMap`), a missing key standing for Java's null. */
  function GetMimeType(table: map<string, string>, name: string): (mime: string)
    requires !OnlyDots(name)
    ensures LastSegment(name).None? ==> mime == OCTET_STREAM
    ensures LastSegment(name).Some? ==>
      mime == if LastSegment(name).value in table then table[LastSegment(name).value] else OCTET_STREAM
    ensures (forall ext :: ext in table ==> table[ext] != "") ==> mime != ""
  {
    ExtensionIsLastSegment(name);
    match Extension(name)
    case None => OCTET_STREAM
    case Some(ext) => if ext in table then table[ext] else OCTET_STREAM
  }
}
