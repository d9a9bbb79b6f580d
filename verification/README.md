# open: listing and open-dispatch core, in Dafny

`open` is a small Android file browser. Its main activity does two things worth modelling.

**Listing.** The activity builds a listing of entries and shows it. With an explicit `path` extra, the listing is the children of that directory. Names starting with `.` are dropped, and a failed listing becomes an empty array. Without the extra, the listing is the expansion of the configured default locations against the storage root:
- a location ending in `/*` stands for the visible children of a directory;
- any other location stands for one path;
- only the candidates that exist are kept.

The listing is then sorted in place: directories first, then names under `String.compareTo`. The sort is stable.

**Opening.** The activity opens a selected entry. A directory restarts the browser on its path. A file is handed to a viewer with:
- its MIME type, looked up from the extension that `String.split("\\.")` yields;
- a read grant on its content URI;
- a new task, unless the type is a video type.

The model has seven modules:

- `Text`: the `java.lang.String` operations the core relies on (`startsWith`, `endsWith`, `lastIndexOf`, `compareTo`), with the order laws of `compareTo`.
- `Files`: the filesystem as a map from path to node, and `Entry`, the `java.io.File` value with its name, path and directory flag. `new File(parent, child)` resolves the child against the parent as the Unix file system does. `listFiles` yields an `Option`, where `None` stands for Java's `null`.
- `Listing`: the hidden-name filter, `getFiles`, and the expansion of default locations.
- `Ordering`: the comparator and the sort. `Sort` is a stable insertion sort, and `SortInPlace` runs it in place on an array. A lemma shows that every sorted rearrangement that keeps the order of equal keys equals `Sort`. So any stable sort, such as the one `Arrays.sort` uses, gives the same array.
- `Mime`: Java's split on dots, the extension it yields, and `getMimeType` against an injected extension table.
- `Dispatch`: `newIntent` and `openFileIntent`, with a result datatype `Navigate(path) | View(uri, mimeType, grantRead, newTask)`.
- `Activity`: `DEFAULT_PATHS`, the imperative `setup` as a method over an array, and properties that join listing, ordering and dispatch, including a worked configuration.

`String.split("\\.")` is modelled as written. Trailing empty pieces are dropped, so `"foo."` has no extension and `"a.b."` has extension `b`. This is not "the substring after the last dot", which would give an empty extension for `"foo."`.

The model also does not assume names are unique in a listing. Two wildcard locations can list the same child name, so the stability of the sort is part of the contract.

## Model

| member | source | states |
|---|---|---|
| Text.LastIndexOf | src/main/java/io/github/rsookram/open/MainActivity.java:142 | `lastIndexOf`, the helper behind `getName` (lines 95 and 142) and the split model of line 156: the result is -1 or a position holding the character, and the character occurs nowhere after it |
| Text.CompareNamesAntisymmetric | src/main/java/io/github/rsookram/open/MainActivity.java:95 | swapping the arguments of `compareTo` negates the result |
| Text.CompareNames | src/main/java/io/github/rsookram/open/MainActivity.java:95 | `compareTo` is zero exactly on equal names |
| Text.CompareNamesTransitive | src/main/java/io/github/rsookram/open/MainActivity.java:95 | "at most" under `compareTo` is transitive |
| Files.JoinShape | src/main/java/io/github/rsookram/open/MainActivity.java:121 | `new File(parent, child)` starts with the parent and ends with the child; a child not starting with a separator sits behind exactly one separator, which is the root's own under `/`; a child starting with a separator adds no other; an empty child gives the parent |
| Files.JoinBaseName | src/main/java/io/github/rsookram/open/MainActivity.java:80 | the name of the child File of a directory, for a non-empty separator-free name, is that name |
| Files.ChildAtIsFileAt | src/main/java/io/github/rsookram/open/MainActivity.java:80 | the entry built for a listed child is the File at the child path, named by that child |
| Files.JoinUnderRoot | src/main/java/io/github/rsookram/open/MainActivity.java:121 | under the root `/` no second separator is added: `/` and `a` give `/a` |
| Files.JoinEmptyChild | src/main/java/io/github/rsookram/open/MainActivity.java:125 | an empty child names the parent itself |
| Files.BaseName | src/main/java/io/github/rsookram/open/MainActivity.java:95 | `getName` is a separator-free suffix of the path, preceded by a separator when shorter than the path |
| Files.ListNames | src/main/java/io/github/rsookram/open/MainActivity.java:80 | listing succeeds exactly for an existing, readable directory, and then yields its children in enumeration order |
| Listing.DropHidden | src/main/java/io/github/rsookram/open/MainActivity.java:80 | a name is kept exactly when it was listed and does not start with `.`; nothing is added |
| Listing.Children | src/main/java/io/github/rsookram/open/MainActivity.java:80 | one entry per kept name, in the same order, each the child File of the listed directory |
| Listing.ListVisible | src/main/java/io/github/rsookram/open/MainActivity.java:80 | the filtered listing is null exactly when the directory cannot be listed |
| Listing.ListVisibleContents | src/main/java/io/github/rsookram/open/MainActivity.java:80 | a successful filtered listing holds exactly the non-hidden children of the directory, so no entry name starts with `.` |
| Listing.ListVisibleExactly | src/main/java/io/github/rsookram/open/MainActivity.java:80 | the same, for all entries at once |
| Listing.GetFilesLiteral | src/main/java/io/github/rsookram/open/MainActivity.java:120-122 | a spec not ending in `/*` yields, before the existence filter, exactly one File: the one at `root/spec`, named by the text after its last separator, a directory exactly when the filesystem says so |
| Listing.GetFilesWildcard | src/main/java/io/github/rsookram/open/MainActivity.java:124-126 | a spec ending in `/*` yields nothing when the directory it names cannot be listed, and otherwise exactly the visible child Files of that directory |
| Listing.WildcardOnRoot | src/main/java/io/github/rsookram/open/MainActivity.java:124-126 | the spec `/*` alone names the storage root itself, whose visible children it yields |
| Listing.KeepExisting | src/main/java/io/github/rsookram/open/MainActivity.java:85 | `filter(File::exists)` keeps exactly the entries whose path exists |
| Listing.KeepExistingConcat | src/main/java/io/github/rsookram/open/MainActivity.java:85 | the existence filter works element by element and keeps the order |
| Listing.ExpandDefaults | src/main/java/io/github/rsookram/open/MainActivity.java:83-86 | the default listing holds exactly the candidates of the specs that exist |
| Listing.ExpandLiteral | src/main/java/io/github/rsookram/open/MainActivity.java:120-122 | a spec not ending in `/*` contributes exactly `root/spec` when it exists, and nothing otherwise |
| Listing.ExpandWildcard | src/main/java/io/github/rsookram/open/MainActivity.java:124-126 | a spec ending in `/*` contributes the existing visible children of `root/` plus the spec without its last two characters; an unlistable directory contributes nothing; no contributed name is hidden |
| Listing.ExpandConcat | src/main/java/io/github/rsookram/open/MainActivity.java:83-86 | expansion works spec by spec, in spec order |
| Listing.CandidatesConcat | src/main/java/io/github/rsookram/open/MainActivity.java:84 | `flatMap` over the specs concatenates the contributions in spec order |
| Listing.CandidatesMembership | src/main/java/io/github/rsookram/open/MainActivity.java:84 | an entry is a candidate exactly when some spec's `getFiles` yields it |
| Listing.ExpandedExist | src/main/java/io/github/rsookram/open/MainActivity.java:83-86 | an expanded entry is one that exists and comes from some spec, and every such entry is expanded |
| Listing.ExpandNothing | src/main/java/io/github/rsookram/open/MainActivity.java:83-86 | no specs expand to no entries |
| Listing.ExplicitListing | src/main/java/io/github/rsookram/open/MainActivity.java:77-81 | with a path, a failed listing becomes an empty listing, not an error, and a successful one holds exactly the non-hidden children of the path |
| Listing.Unsorted | src/main/java/io/github/rsookram/open/MainActivity.java:77-91 | before sorting: with a path, a failed listing is the empty listing and no name is hidden; without one, every entry exists |
| Ordering.CompareEntriesAntisymmetric | src/main/java/io/github/rsookram/open/MainActivity.java:93-96 | the comparator is antisymmetric |
| Ordering.CompareEntriesTransitive | src/main/java/io/github/rsookram/open/MainActivity.java:93-96 | "at most" under the comparator is transitive |
| Ordering.CompareEntries | src/main/java/io/github/rsookram/open/MainActivity.java:93-96 | a directory sorts before a file, a file after a directory, and two entries of the same kind compare as their names under `compareTo` |
| Ordering.SortedMeans | src/main/java/io/github/rsookram/open/MainActivity.java:93-96 | sorted under the comparator means every directory precedes every file and names do not decrease under `compareTo` within each group, in both directions |
| Ordering.InsertPermutation | src/main/java/io/github/rsookram/open/MainActivity.java:93-96 | one insertion step adds exactly the inserted entry to the multiset |
| Ordering.InsertSorted | src/main/java/io/github/rsookram/open/MainActivity.java:93-96 | inserting into a sorted sequence keeps it sorted |
| Ordering.Sort | src/main/java/io/github/rsookram/open/MainActivity.java:93-96 | the sort's result is sorted under the comparator and a permutation of its input |
| Ordering.WithKeyMembership | src/main/java/io/github/rsookram/open/MainActivity.java:93-96 | the entries with a given key are exactly the members with that key |
| Ordering.InsertWithKey | src/main/java/io/github/rsookram/open/MainActivity.java:93-96 | an insertion step puts the inserted entry after every earlier entry with an equal key |
| Ordering.SortStable | src/main/java/io/github/rsookram/open/MainActivity.java:93-96 | the sort is stable: entries with equal keys keep their input order |
| Ordering.SortedUnique | src/main/java/io/github/rsookram/open/MainActivity.java:93-96 | two sorted sequences with the same entries per key, in the same order per key, are equal |
| Ordering.SortedLastIsGreatest | src/main/java/io/github/rsookram/open/MainActivity.java:93-96 | the last entry of a sorted sequence is at least every member |
| Ordering.SortedLastEqual | src/main/java/io/github/rsookram/open/MainActivity.java:93-96 | two sorted sequences with the same entries per key end with the same entry |
| Ordering.SortIsTheStableSort | src/main/java/io/github/rsookram/open/MainActivity.java:93-96 | every sorted rearrangement that keeps the order of equal keys is the sort's result, so any stable sort gives the same array |
| Ordering.SortOfSorted | src/main/java/io/github/rsookram/open/MainActivity.java:93-96 | sorting an already sorted sequence changes nothing |
| Ordering.SortIdempotent | src/main/java/io/github/rsookram/open/MainActivity.java:93-96 | sorting twice is sorting once |
| Ordering.InsertAt | src/main/java/io/github/rsookram/open/MainActivity.java:93-96 | an insertion step places the entry just after the last entry it does not sort before |
| Ordering.SortStep | src/main/java/io/github/rsookram/open/MainActivity.java:93-96 | sorting one more element is inserting it into the sorted prefix |
| Ordering.InsertInPlace | src/main/java/io/github/rsookram/open/MainActivity.java:93-96 | the shifting pass leaves the prefix equal to the insertion step and the rest of the array unchanged |
| Ordering.SortInPlace | src/main/java/io/github/rsookram/open/MainActivity.java:93-96 | sorting the array in place leaves it equal to the stable sort of its old contents |
| Mime.SplitOnDot | src/main/java/io/github/rsookram/open/MainActivity.java:156 | splitting yields at least one piece, and no piece holds a dot |
| Mime.JoinSplit | src/main/java/io/github/rsookram/open/MainActivity.java:156 | joining the pieces with dots gives back the name |
| Mime.SplitJoin | src/main/java/io/github/rsookram/open/MainActivity.java:156 | splitting dot-free pieces joined with dots gives back the pieces |
| Mime.DropTrailingEmpty | src/main/java/io/github/rsookram/open/MainActivity.java:156 | the kept pieces are a prefix that ends in a non-empty piece, and every dropped piece is empty |
| Mime.JavaSplit | src/main/java/io/github/rsookram/open/MainActivity.java:156 | a dot-free name is its own single piece; otherwise the pieces are the pieces between dots less exactly the empty ones at the end: a prefix that ends in a non-empty piece, with only empty pieces dropped; no piece holds a dot |
| Mime.Extension | src/main/java/io/github/rsookram/open/MainActivity.java:156-161 | a dot-free name has no extension; an extension is never empty and never holds a dot |
| Mime.PiecesEmptyIffDots | src/main/java/io/github/rsookram/open/MainActivity.java:156 | every piece is empty exactly when the name is all dots |
| Mime.SplitEmptyIffOnlyDots | src/main/java/io/github/rsookram/open/MainActivity.java:156-161 | the split is empty, so line 161 would index out of bounds, exactly for a non-empty name made only of dots |
| Mime.TrimTrailingDots | src/main/java/io/github/rsookram/open/MainActivity.java:156 | the trimmed name is a prefix not ending in a dot, and everything removed is dots |
| Mime.DropSplitTrim | src/main/java/io/github/rsookram/open/MainActivity.java:156 | trailing dots of the name do not change Java's split |
| Mime.ExtensionIsLastSegment | src/main/java/io/github/rsookram/open/MainActivity.java:156-161 | the extension the split yields is the text after the last dot once trailing dots are removed, or none when no dot is left |
| Mime.LastSegmentTrailingDot | src/main/java/io/github/rsookram/open/MainActivity.java:156 | a trailing dot does not change the extension |
| Mime.LastSegmentAfterDot | src/main/java/io/github/rsookram/open/MainActivity.java:161 | a name made of any prefix, a dot and a non-empty dot-free segment has that segment as extension |
| Mime.LastSegmentNoDot | src/main/java/io/github/rsookram/open/MainActivity.java:157-159 | a dot-free name has no extension |
| Mime.ExtensionOfArchive | src/main/java/io/github/rsookram/open/MainActivity.java:156-161 | `archive.tar.gz` uses only `gz` |
| Mime.ExtensionOfTrailingDot | src/main/java/io/github/rsookram/open/MainActivity.java:156-159 | `foo.` has no extension |
| Mime.ExtensionBeforeTrailingDot | src/main/java/io/github/rsookram/open/MainActivity.java:156-161 | `a.b.` uses `b` |
| Mime.ExtensionOfPlainName | src/main/java/io/github/rsookram/open/MainActivity.java:156-159 | `README` has no extension |
| Mime.GetMimeType | src/main/java/io/github/rsookram/open/MainActivity.java:155-164 | no extension gives `application/octet-stream`; otherwise the table's type for the extension, or `application/octet-stream` when the table has none; never empty when the table holds no empty type |
| Activity.VisibleNameResolvable | src/main/java/io/github/rsookram/open/MainActivity.java:80 | a name that the listing filter keeps is never made only of dots |
| Dispatch.NewIntent | src/main/java/io/github/rsookram/open/MainActivity.java:39-45 | the browser Intent navigates to exactly the given path and carries action MAIN |
| Dispatch.OpenFileIntent | src/main/java/io/github/rsookram/open/MainActivity.java:133-153 | a directory gives a MAIN navigation to exactly its path; a file gives a VIEW with the provider's URI for its path, `getMimeType` of its name, the read grant always set, and a new task exactly when the type does not start with `video/` |
| Dispatch.DirectoryIgnoresMime | src/main/java/io/github/rsookram/open/MainActivity.java:134-135 | opening a directory depends on neither the extension table nor the URI provider |
| Dispatch.OctetStreamNotVideo | src/main/java/io/github/rsookram/open/MainActivity.java:145-147 | the fallback type does not start with `video/`, so it gets a new task |
| Dispatch.VideoKeepsTask | src/main/java/io/github/rsookram/open/MainActivity.java:145-147 | a file stays in the current task exactly when its extension is in the table with a `video/` type |
| Dispatch.OpenVideoExample | src/main/java/io/github/rsookram/open/MainActivity.java:137-151 | `clip.mp4`, with `mp4` mapped to `video/mp4`, is viewed as `video/mp4` without a new task |
| Dispatch.OpenDocumentExample | src/main/java/io/github/rsookram/open/MainActivity.java:137-151 | `doc.pdf`, with `pdf` mapped to `application/pdf`, is viewed as `application/pdf` in a new task |
| Dispatch.OpenPlainNameExample | src/main/java/io/github/rsookram/open/MainActivity.java:137-151 | `README` is viewed as `application/octet-stream` in a new task, whatever the table |
| Activity.Setup | src/main/java/io/github/rsookram/open/MainActivity.java:75-96 | the array is the stable sort of the unsorted listing: sorted, a permutation of it, equal keys in listing order; with a path no name is hidden; without one every entry exists |
| Activity.DefaultListingEmpty | src/main/java/io/github/rsookram/open/MainActivity.java:33-34 | with the shipped empty `DEFAULT_PATHS` and no path, the listing is empty |
| Activity.ListedEntryOpens | src/main/java/io/github/rsookram/open/MainActivity.java:80 | every entry of an explicit listing can be opened: its name is not all dots and its path is the child path; a directory navigates there and a file is viewed |
| Activity.NavigateRelists | src/main/java/io/github/rsookram/open/MainActivity.java:134-135 | opening a listed directory navigates to the child path, which is a directory whose own listing succeeds exactly when it is readable |
| Activity.SampleExpandB | src/main/java/io/github/rsookram/open/MainActivity.java:124-126 | in the worked configuration, the wildcard on B yields `x.txt` and drops `.y` |
| Activity.SampleExpandA | src/main/java/io/github/rsookram/open/MainActivity.java:120-122 | in the worked configuration, the literal `A` yields the directory `/sd/A` |
| Activity.SampleExpandC | src/main/java/io/github/rsookram/open/MainActivity.java:124-126 | in the worked configuration, the wildcard on C yields its `x.txt` |
| Activity.SampleExpansion | src/main/java/io/github/rsookram/open/MainActivity.java:83-86 | in the worked configuration, expansion yields B's `x.txt`, then `A`, then C's `x.txt` |
| Activity.SampleSort | src/main/java/io/github/rsookram/open/MainActivity.java:93-96 | the directory moves first, and the two `x.txt` files keep their order |
| Activity.SampleSetup | src/main/java/io/github/rsookram/open/MainActivity.java:75-96 | the worked configuration is shown as `A`, then B's `x.txt`, then C's `x.txt` |

## Left out

- The Android lifecycle and the permission flow (`onCreate`, `onActivityResult`, the all-files-access check and the redirect to Settings). These are host plumbing around the call to `setup`.
- View code: system-bar insets, the list adapter and its row views.
- Hardware-key and click handling. These only call `openFile` on the selected entry.
- Shortcut pinning through `ShortcutManager`. It is a system service, and it reuses `openFileIntent`.
- `startActivity` is not modelled. `openFile` only passes the `OpenFileIntent` result to it.
- `FileProvider.getUriForFile` and the `MimeTypeMap` singleton are parameters. The URI provider is an arbitrary function from path to URI. The extension table is a map, and a missing key stands for `null`. Exceptions the provider may throw are not modelled.
- Real filesystem I/O is replaced by a map from absolute path to node. The storage root is a string parameter, and the `path` extra is an `Option`. A directory that exists but cannot be enumerated is a `Directory` node marked unreadable.
- `java.io.File` path normalisation is not modelled. Java collapses repeated separators and drops a trailing one in every path it is given: the `path` extra, the storage root and each default location. The model uses them as written. `new File(parent, child)` follows the Unix resolve rule on those strings:
  - an empty child gives the parent, so the location `/*` lists the storage root itself;
  - a child starting with `/` is appended without another separator;
  - under the parent `/` no second separator is added.
  Java never resolves `.` or `..` components, and neither does the model.
- Entries are snapshots. Whether an entry is a directory is read once, when the listing is built, and `OpenFileIntent`, `Activity.ListedEntryOpens` and `Activity.NavigateRelists` use that flag. Java asks the filesystem again when the user opens the entry (`openFileIntent`, MainActivity.java:134). So an entry deleted or replaced after listing is dispatched here by its listed kind, while Java dispatches it by its current kind. In particular, a directory removed after listing is opened here by navigating to it, while Java treats it as a file.
- `compareTo` compares characters by their Dafny code point, while Java compares UTF-16 code units. The two orders differ only for characters outside the Basic Multilingual Plane.
- The integer values of the Intent flags are left out. They are booleans `grantRead` and `newTask`, and the Intent's other fields (component, extras) are folded into `Navigate(path)`.
- Mime.GetMimeType: the result is proved non-empty only when every type in the table is non-empty. The platform's table is not modelled, so the source's implicit guarantee about it is an assumption stated in the contract.
- Mime.GetMimeType: a name made only of dots makes the source throw `ArrayIndexOutOfBoundsException`. It is a precondition here. `Activity.VisibleNameResolvable` shows that no listed name can be like that, though a literal default location could name such a file.
- Ordering.SortInPlace: `Arrays.sort` on objects is TimSort. It runs a binary insertion sort on arrays of fewer than 32 elements and merges sorted runs above that. The model sorts by straight insertion, so only the resulting array is modelled, not the comparisons made or their order. `Ordering.SortIsTheStableSort` shows that any stable sort with this comparator gives the same array.
