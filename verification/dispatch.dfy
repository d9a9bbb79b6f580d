/** Opening a selected entry, `openFileIntent(context, file)`: a directory is
    opened by navigating to it (the browser itself, started on its path); a
    file is handed to an external viewer with its content type, a read grant
    on its content URI, and a new task unless it is a video. */
module Dispatch {
  import opened Text
  import opened Files
  import opened Mime

  /** The Intent action set on the result. */
  datatype IntentAction = ActionMain | ActionView

  /** The two kinds of Intent the core builds. `grantRead` stands for
      FLAG_GRANT_READ_URI_PERMISSION, `newTask` for FLAG_ACTIVITY_NEW_TASK. */
  datatype OpenAction =
    | Navigate(path: string)
    | View(uri: string, mimeType: string, grantRead: bool, newTask: bool)

  function ActionOf(a: OpenAction): IntentAction
  {
    match a
    case Navigate(_) => ActionMain
    case View(_, _, _, _) => ActionView
  }

  const VIDEO_PREFIX := "video/"

  /** `newIntent(context, path)`: the browser, started on `path`, with action
      MAIN (shortcuts require an action). */
  function NewIntent(path: string): (a: OpenAction)
    ensures a.Navigate? && a.path == path
    ensures ActionOf(a) == ActionMain
  {
    Navigate(path)
  }

  /** `openFileIntent(context, file)`. `uriFor` stands for the content
      provider's `getUriForFile`; `table` for the system extension table. */
  function OpenFileIntent(table: map<string, string>, uriFor: string -> string, e: Entry): (a: OpenAction)
    requires !e.isDirectory ==> !OnlyDots(e.name)
    ensures e.isDirectory ==> a == Navigate(e.path) && ActionOf(a) == ActionMain
    ensures !e.isDirectory ==>
      a.View? && ActionOf(a) == ActionView && a.uri == uriFor(e.path) &&
      a.mimeType == GetMimeType(table, e.name) && a.grantRead &&
      (a.newTask <==> !StartsWith(a.mimeType, VIDEO_PREFIX))
  {
    if e.isDirectory then
      NewIntent(e.path)
    else
      var mimeType := GetMimeType(table, e.name);
      View(uriFor(e.path), mimeType, true, !StartsWith(mimeType, VIDEO_PREFIX))
  }

  /** Opening a directory consults neither the extension table nor the
      content provider. */
  lemma DirectoryIgnoresMime(t1: map<string, string>, t2: map<string, string>,
                             u1: string -> string, u2: string -> string, e: Entry)
    requires e.isDirectory
    ensures OpenFileIntent(t1, u1, e) == OpenFileIntent(t2, u2, e) == Navigate(e.path)
  {
  }

  /** The fallback type is not a video type. */
  lemma OctetStreamNotVideo()
    ensures !StartsWith(OCTET_STREAM, VIDEO_PREFIX)
  {
    assert OCTET_STREAM[0] != VIDEO_PREFIX[0];
  }

  /** A file keeps the current task exactly when its extension maps to a
      video type; an unknown or missing extension gets a new task. */
  lemma VideoKeepsTask(table: map<string, string>, uriFor: string -> string, e: Entry)
    requires !e.isDirectory && !OnlyDots(e.name)
    ensures var a := OpenFileIntent(table, uriFor, e);
      !a.newTask <==> LastSegment(e.name).Some? && LastSegment(e.name).value in table &&
                      StartsWith(table[LastSegment(e.name).value], VIDEO_PREFIX)
  {
    OctetStreamNotVideo();
  }

  /** "clip.mp4", with "mp4" mapped to "video/mp4", opens in the current task. */
  lemma OpenVideoExample(uriFor: string -> string)
    ensures !OnlyDots("clip.mp4") &&
      OpenFileIntent(map["mp4" := "video/mp4"], uriFor, Entry("clip.mp4", "/sd/clip.mp4", false))
      == View(uriFor("/sd/clip.mp4"), "video/mp4", true, false)
  {
    assert "clip.mp4"[0] == 'c';
    assert "clip.mp4" == "clip" + "." + "mp4";
    LastSegmentAfterDot("clip", "mp4");
    assert StartsWith("video/mp4", VIDEO_PREFIX) by {
      assert "video/mp4"[..6] == VIDEO_PREFIX;
    }
  }

  /** "doc.pdf", with "pdf" mapped to "application/pdf", opens in a new task. */
  lemma OpenDocumentExample(uriFor: string -> string)
    ensures !OnlyDots("doc.pdf") &&
      OpenFileIntent(map["pdf" := "application/pdf"], uriFor, Entry("doc.pdf", "/sd/doc.pdf", false))
      == View(uriFor("/sd/doc.pdf"), "application/pdf", true, true)
  {
    assert "doc.pdf"[0] == 'd';
    assert "doc.pdf" == "doc" + "." + "pdf";
    LastSegmentAfterDot("doc", "pdf");
    assert !StartsWith("application/pdf", VIDEO_PREFIX) by {
      assert "application/pdf"[0] != VIDEO_PREFIX[0];
    }
  }

  /** "README" has no extension: it is opened as an octet stream, in a new task. */
  lemma OpenPlainNameExample(table: map<string, string>, uriFor: string -> string)
    ensures !OnlyDots("README") &&
      OpenFileIntent(table, uriFor, Entry("README", "/sd/README", false))
      == View(uriFor("/sd/README"), OCTET_STREAM, true, true)
  {
    assert "README"[0] == 'R';
    LastSegmentNoDot("README");
    OctetStreamNotVideo();
  }
}
