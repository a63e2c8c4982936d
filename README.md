# Archive viewer: tree builder and tab state, in Dafny

The web app opens a `.zip` or `.docx` archive and lists its entries in a
sidebar tree. Clicking a file opens it in a tab and shows its text. This
project models the two pieces of that app that hold logic and proves what
they promise:

- **The archive tree builder** (`buildTree` in `app-sidebar.tsx`). It walks
  each entry's `/`-separated segments and inserts them into a nested
  dictionary. It then turns the dictionary into an array, recursively: each
  level is sorted with directories first and then by name. The sidebar
  rebuilds a file's path by joining names with `/` and passes it to the
  select handler.
- **The page state** (`main.tsx`). The archive's entries, its name, the
  open tabs, the selected tab, the cache of file texts and the loaded
  archive are state fields, and each event handler is a state transition:
  - select a file;
  - close a tab;
  - click a tab;
  - pick a new archive.
  Two small display helpers are also modelled: the tab label and the
  content pane.

Layout:

- `string_ops.dfy`:
  - `Options`, an `Option` datatype.
  - `StringOps`, the JavaScript string built-ins the code uses, written over
    `seq<char>`: `split`, `filter(Boolean)`, `lastIndexOf`, `substring`,
    ASCII `toLowerCase`, and a lexicographic order that stands in for
    `localeCompare`. `Join` and `EndsWith` are not used by the code; they
    are helpers for stating properties (a path built from names, the ending
    of a name).
- `archive_tree.dfy` (module `ArchiveTree`):
  - The insertion phase is an imperative method. Its loops update a
    dictionary keyed by segment paths (`true` means a directory object,
    `false` the `null` file marker) and a list of keys in the order they
    were first added.
  - `convertToArray` and the sort are functions.
  - A declarative description of the tree the entries call for:
    - `Index` says which nodes must exist and which of them are
      directories;
    - `Describes` says what a tree matching a dictionary must be.
    - The built tree is proved to be the unique tree satisfying both.
- `app_state.dfy` (module `App`):
  - the class `AppState` holds the six fields and has one method per
    handler;
  - each handler's effect is described by pure functions (`Opened`,
    `CacheAfterSelect`, `Without`, `SelectionAfterClose`, `Extension`),
    and the lemmas about them state the handler's promises.

A read from the archive and the listing of a picked archive come from the
zip library, which is not part of this model. Each arrives as a parameter
holding its outcome:

- a read is `ReadOutcome`: `Found(text)`, `Missing`, `DirectoryEntry` or
  `Failed`;
- a listing is `Listing`: `Listed(entries)` or `ListFailed`.

## Model

| member | source | states |
|---|---|---|
| StringOps.Split | apps/web/src/components/app-sidebar.tsx:56 | `split("/")` yields at least one piece and no piece contains the separator |
| StringOps.JoinSplit | apps/web/src/components/app-sidebar.tsx:56 | joining the pieces of a split with the separator gives the string back |
| StringOps.SplitJoin | apps/web/src/components/app-sidebar.tsx:175 | splitting a join of separator-free pieces gives the pieces back |
| StringOps.SplitLastPiece | apps/web/src/main.tsx:170 | the last piece of a split (`pop()`) is a suffix of the string; it is the whole string when there is one piece, and otherwise a separator stands right before it |
| StringOps.DropEmpty | apps/web/src/components/app-sidebar.tsx:56 | `filter(Boolean)` keeps exactly the non-empty pieces and never lengthens the list |
| StringOps.DropEmptySingle | apps/web/src/components/app-sidebar.tsx:56 | the filter keeps one piece exactly when it is non-empty |
| StringOps.DropEmptyAppend | apps/web/src/components/app-sidebar.tsx:56 | the filter of a concatenation is the concatenation of the filters; with `DropEmptySingle` this fixes the order and the number of kept pieces |
| StringOps.SplitAtSeparator | apps/web/src/components/app-sidebar.tsx:56 | the pieces of `x + "/" + y` are the pieces of `x` followed by the pieces of `y` |
| StringOps.DropEmptyNoOp | apps/web/src/components/app-sidebar.tsx:56 | filtering a list with no empty piece changes nothing |
| StringOps.SplitHasNonEmptyPiece | apps/web/src/components/app-sidebar.tsx:56 | some piece is non-empty exactly when the string has a character other than `/` |
| StringOps.LastIndexOf | apps/web/src/main.tsx:100 | the result is -1 or a position holding the character, and no later position holds it |
| StringOps.LastIndexOfAt | apps/web/src/main.tsx:100 | a position holding the character with none after it is the result |
| StringOps.SubstringFrom | apps/web/src/main.tsx:99-100 | `substring(start)` is the whole string for a negative start, else the tail from `start`; the result is always a suffix |
| StringOps.LowerChar | apps/web/src/main.tsx:101 | an upper-case ASCII letter maps to the same letter in lower case (its code shifted by `'a' - 'A'`); other characters are kept; the result is `.` exactly when the input is |
| StringOps.Lower | apps/web/src/main.tsx:101 | `toLowerCase` applies `LowerChar` at every position; its meaning is stated by `LowerChar`'s contract |
| StringOps.Less | apps/web/src/components/app-sidebar.tsx:106 | the name order standing in for `localeCompare`; `LessIrreflexive`, `LessAsymmetric`, `LessTransitive` and `LessTotal` state that it is a strict total order |
| StringOps.LessIrreflexive | apps/web/src/components/app-sidebar.tsx:106 | the name order never puts a name before itself |
| StringOps.LessAsymmetric | apps/web/src/components/app-sidebar.tsx:106 | the name order never puts two names before each other |
| StringOps.LessTransitive | apps/web/src/components/app-sidebar.tsx:106 | the name order is transitive |
| StringOps.LessTotal | apps/web/src/components/app-sidebar.tsx:106 | of two distinct names, one comes before the other |
| ArchiveTree.Segments | apps/web/src/components/app-sidebar.tsx:56 | a path's segments are non-empty and slash-free, and there are none exactly when the path is all slashes |
| ArchiveTree.SegmentsExamples | apps/web/src/components/app-sidebar.tsx:56 | `"a//b/"` and `"a/b"` both give `["a", "b"]`; `""` and `"/"` give no segment |
| ArchiveTree.DoubledSlash | apps/web/src/components/app-sidebar.tsx:56 | for any `x` and `y`, `x + "//" + y` has the same segments as `x + "/" + y` |
| ArchiveTree.SegmentsOfJoin | apps/web/src/components/app-sidebar.tsx:56 | the segments of clean names joined by `/` are those names |
| ArchiveTree.PrefixesSnoc | apps/web/src/components/app-sidebar.tsx:55-79 | one more entry adds exactly the leading parts of its segments as nodes, and exactly the ones it passes through (or ends at, as a directory) as directories |
| ArchiveTree.IndexPrefixClosed | apps/web/src/components/app-sidebar.tsx:59-77 | every strict leading part of a node's key is a directory node |
| ArchiveTree.ChildKeys | apps/web/src/components/app-sidebar.tsx:82 | `Object.keys` of one level: exactly the keys one level below, without repeats |
| ArchiveTree.Visit | apps/web/src/components/app-sidebar.tsx:62-73 | the dictionary update for one segment; `VisitEffect` states its meaning |
| ArchiveTree.VisitEffect | apps/web/src/components/app-sidebar.tsx:62-73 | visiting a key adds it if missing, changes no other key, and leaves it a directory if it was one or the walk continues past it or the entry is a directory: a directory is never downgraded, and a file marker becomes a directory when a later entry passes through it |
| ArchiveTree.TracksAfterSet | apps/web/src/components/app-sidebar.tsx:62-73 | setting a key keeps the key order a duplicate-free list of exactly the dictionary's keys, with a new key at the end |
| ArchiveTree.VisitSegment | apps/web/src/components/app-sidebar.tsx:60-76 | one segment step performs the visit, appends a new key to the key order, and moves the cursor into the node unless the segment is the last one |
| ArchiveTree.InsertSegment | apps/web/src/components/app-sidebar.tsx:59-77 | one pass of the inner loop extends the walk by one step and leaves the cursor on the next leading part |
| ArchiveTree.InsertPath | apps/web/src/components/app-sidebar.tsx:59-77 | the inner loop over one entry's segments performs the whole walk and keeps the key order in step with the dictionary |
| ArchiveTree.VisitKeepsWalk | apps/web/src/components/app-sidebar.tsx:59-77 | after step `index` of the walk, the dictionary holds the earlier nodes plus the first `index + 1` leading parts, with the kinds the entry calls for |
| ArchiveTree.WalkAdds | apps/web/src/components/app-sidebar.tsx:59-77 | any number of walk steps adds exactly the leading parts seen so far, with their kinds |
| ArchiveTree.NextEntry | apps/web/src/components/app-sidebar.tsx:55-78 | after an entry's complete walk, the dictionary is the index of the entries so far |
| ArchiveTree.InsertedIsIndex | apps/web/src/components/app-sidebar.tsx:55-79 | the insertion loop over all entries builds exactly `Index(entries)` |
| ArchiveTree.InsertNode | apps/web/src/components/app-sidebar.tsx:101-107 | an insertion step of the sort adds the node and loses none (multiset) |
| ArchiveTree.InsertNodeSorted | apps/web/src/components/app-sidebar.tsx:101-107 | inserting a node with a fresh name into a sorted level keeps it sorted |
| ArchiveTree.SortNodes | apps/web/src/components/app-sidebar.tsx:101-107 | the sort is a permutation of its input (multiset) |
| ArchiveTree.SortNodesSorted | apps/web/src/components/app-sidebar.tsx:101-107 | with distinct names, the sorted level puts directories first and then orders by name |
| ArchiveTree.SortedUnique | apps/web/src/components/app-sidebar.tsx:101-107 | two sorted levels holding the same nodes are equal, so the sort's result does not depend on the key order |
| ArchiveTree.Precedes | apps/web/src/components/app-sidebar.tsx:101-107 | the sort comparator, directories first and then by name; `PrecedesTransitive`, `PrecedesAsymmetric` and `PrecedesTotal` state that it is a strict total order on nodes with distinct names |
| ArchiveTree.PrecedesTransitive | apps/web/src/components/app-sidebar.tsx:101-107 | the comparator (directories first, then by name) is transitive |
| ArchiveTree.PrecedesAsymmetric | apps/web/src/components/app-sidebar.tsx:101-107 | the comparator never orders two nodes both ways |
| ArchiveTree.PrecedesTotal | apps/web/src/components/app-sidebar.tsx:101-107 | the comparator orders any two nodes with different names |
| ArchiveTree.ToNodes | apps/web/src/components/app-sidebar.tsx:83-99 | the `map` over the keys of one level; `ToNodesDescribe` states its meaning |
| ArchiveTree.ConvertToArray | apps/web/src/components/app-sidebar.tsx:81-108 | `convertToArray`: map, then sort; `ConvertDescribes` states its meaning and `DescribesUnique` makes it the only such tree |
| ArchiveTree.ToNodesDescribe | apps/web/src/components/app-sidebar.tsx:83-99 | the `map` step makes one node per key, named by the key's last segment: a file node with no children for `null`, a directory node with its converted children otherwise |
| ArchiveTree.SortedLevelDescribes | apps/web/src/components/app-sidebar.tsx:101-107 | sorting a level of nodes that each match the dictionary and cover all its keys gives the level the dictionary calls for |
| ArchiveTree.ConvertDescribes | apps/web/src/components/app-sidebar.tsx:81-108 | `convertToArray` of a dictionary and its key order returns a tree that describes the dictionary: sorted levels, matching kinds, complete |
| ArchiveTree.DescribesUnique | apps/web/src/components/app-sidebar.tsx:81-108 | a dictionary is described by at most one tree |
| ArchiveTree.DescribedNamesDistinct | apps/web/src/components/app-sidebar.tsx:39-44 | sibling names are distinct at a level that describes a dictionary |
| ArchiveTree.BuildTree | apps/web/src/components/app-sidebar.tsx:52-111 | `buildTree` returns the tree that describes `Index(entries)` |
| ArchiveTree.LookupDescribes | apps/web/src/components/app-sidebar.tsx:81-108 | following names down a tree that describes a dictionary reaches a node exactly at the dictionary's keys, with the recorded kind |
| ArchiveTree.TreeMatchesEntries | apps/web/src/components/app-sidebar.tsx:53-108 | a path of names leads to a node exactly when it is a leading part of some entry's segments, and to a directory exactly when some entry passes through it or ends there as a directory |
| ArchiveTree.EntryReachable | apps/web/src/components/app-sidebar.tsx:59-77 | every entry with a segment has a node at its segments (a directory if the entry is one), and every strict leading part is a directory node |
| ArchiveTree.FileExactly | apps/web/src/components/app-sidebar.tsx:62-73 | a node is a file exactly when some entry ends there as a file and no entry marks it a directory |
| ArchiveTree.DirectoryWins | apps/web/src/components/app-sidebar.tsx:62-73 | a node that any entry passes through is a directory, whatever other entries say and in whatever order they come |
| ArchiveTree.IndexSameEntries | apps/web/src/components/app-sidebar.tsx:55-79 | entry lists with the same members call for the same nodes |
| ArchiveTree.OrderIndependent | apps/web/src/components/app-sidebar.tsx:52-111 | entry lists with the same members (for instance, any permutation) give the same tree |
| ArchiveTree.EmptyEntries | apps/web/src/components/app-sidebar.tsx:113-116 | no entries give the empty tree |
| ArchiveTree.SegmentlessEntryIgnored | apps/web/src/components/app-sidebar.tsx:56-59 | an entry with no segment (such as `""` or `"/"`) adds nothing |
| ArchiveTree.DescribedIsWellOrdered | apps/web/src/components/app-sidebar.tsx:101-107 | at every level: directories before files, names ascending within each group, names distinct, files childless; and the same for every directory's children |
| ArchiveTree.ChildPath | apps/web/src/components/app-sidebar.tsx:175 | `currentPath` of one node from its parent's path; `PathOfBelow` and `LeafPathIsJoin` state its meaning |
| ArchiveTree.PathOf | apps/web/src/components/app-sidebar.tsx:175 | the path a node gets along a chain of names; `PathOfBelow`, `LeafPathIsJoin` and `LeafPathIsFilename` state its meaning |
| ArchiveTree.PathOfBelow | apps/web/src/components/app-sidebar.tsx:175 | below a non-empty prefix, the path is the prefix, a slash, and the names joined by `/` |
| ArchiveTree.LeafPathIsJoin | apps/web/src/components/app-sidebar.tsx:175 | from the top level, the path handed to the select handler is the names joined by `/` |
| ArchiveTree.LeafPathIsFilename | apps/web/src/components/app-sidebar.tsx:175 | for a filename with no empty segment, that path is the filename itself |
| ArchiveTree.ExampleTree | apps/web/src/components/app-sidebar.tsx:52-111 | entries `d/x`, `d/y`, `f` (say `docs/a.txt`, `docs/b.txt`, `readme.md`) give `[d [x, y], f]` |
| App.Opened | apps/web/src/main.tsx:44-46 | the tabs after a select are the old tabs with the path appended if it was absent: same members plus the path, no new duplicate, old tabs kept in place |
| App.OpenedIdempotent | apps/web/src/main.tsx:44-46 | the tabs are unchanged exactly when the path is open, and selecting the same path twice equals selecting it once |
| App.NeedsRead | apps/web/src/main.tsx:49 | `!fileContents[p]`: nothing or the empty text cached; `ReadsAgainIff` and `LoadingIffNeedsRead` state its role |
| App.CacheAfterSelect | apps/web/src/main.tsx:49-68 | no key other than the selected path changes, and nothing changes unless an archive is loaded and the path has no cached text or an empty one |
| App.CacheAfterRead | apps/web/src/main.tsx:55-67 | when a read happens: found text is stored, a thrown error stores the failure message, and a missing or directory entry stores nothing |
| App.ReadsAgainIff | apps/web/src/main.tsx:49 | a second select reads again exactly when the first one needed a read and got a missing or directory entry or an empty text |
| App.Without | apps/web/src/main.tsx:74 | the filtered tab list is no longer than the old one |
| App.WithoutMembers | apps/web/src/main.tsx:74 | the filter keeps exactly the tabs other than the closed path, and changes nothing when the path is not open |
| App.IndexOf | apps/web/src/main.tsx:81 | the result is -1 exactly when the path is absent; otherwise it is the position of the path's first occurrence |
| App.WithoutAt | apps/web/src/main.tsx:74 | for distinct tabs, closing one removes just its position and keeps the others in their order |
| App.WithoutNoDuplicates | apps/web/src/main.tsx:74 | closing keeps the tab list duplicate-free |
| App.NeighbourInOldList | apps/web/src/main.tsx:80-82 | the tab picked in the new list is the closed tab's left neighbour in the old list, or its right neighbour when it was first |
| App.NeighbourInBounds | apps/web/src/main.tsx:82 | the picked index is always inside the new list, so the `\|\| ""` fallback never applies |
| App.SelectionAfterClose | apps/web/src/main.tsx:78-86 | closing a tab that is not selected keeps the selection, and closing the last remaining tab clears it |
| App.CloseSelectsNeighbour | apps/web/src/main.tsx:78-86 | closing the selected tab selects the tab left of it in the old list, the tab right of it if it was first, or nothing if it was the only tab; a selected path that is not open leads to the first tab |
| App.CloseKeepsSelectionOpen | apps/web/src/main.tsx:78-86 | after a close, the selection is empty or one of the remaining tabs |
| App.Extension | apps/web/src/main.tsx:99-101 | the lower-cased tail from the last dot; `ExtensionShape` and `ExtensionOfSuffix` state its meaning |
| App.IsSupportedArchive | apps/web/src/main.tsx:103 | the accept test; `AcceptedIff`, `NoDotRefused` and `UpperZipAccepted` state its meaning |
| App.ExtensionShape | apps/web/src/main.tsx:99-101 | the extension is an ending of the lower-cased name: all of it (no dot), or a dot followed by no other dot |
| App.ExtensionOfSuffix | apps/web/src/main.tsx:99-101 | a dot-led, otherwise dot-free ending of the lower-cased name is the extension |
| App.AcceptedIff | apps/web/src/main.tsx:99-103 | an import is accepted exactly when the lower-cased name ends with `.zip` or `.docx` |
| App.NoDotRefused | apps/web/src/main.tsx:99-103 | a name without a dot is refused, even `"zip"` |
| App.UpperZipAccepted | apps/web/src/main.tsx:99-103 | any name ending in `.ZIP` is accepted |
| App.TabLabel | apps/web/src/main.tsx:170 | `filepath.split("/").pop() \|\| filepath`; `TabLabelAfterLastSlash` and `TabLabelOfJoin` state its meaning |
| App.TabLabelAfterLastSlash | apps/web/src/main.tsx:170 | the tab label is what follows the last slash, or the whole path when there is no slash or the path ends with one |
| App.TabLabelOfJoin | apps/web/src/main.tsx:170 | the tab of a path built from clean names is labelled with the last name |
| App.ContentPane | apps/web/src/main.tsx:233-237 | the pane is empty exactly when nothing is selected; it shows the cached text whenever that is non-empty, and the placeholder `加载中...` whenever a path is selected and its cached text is absent or empty |
| App.LoadingIffNeedsRead | apps/web/src/main.tsx:237 | when no cached text equals the placeholder, the placeholder shows exactly when the cached text is absent or empty |
| App.AppState.constructor | apps/web/src/main.tsx:30-35 | all six fields start empty and the tab invariant holds |
| App.AppState.HandleFileSelect | apps/web/src/main.tsx:41-70 | selects the path, opens its tab as `Opened` says, updates the cache as `CacheAfterSelect` says, changes nothing else, and keeps the tab invariant |
| App.AppState.HandleCloseFile | apps/web/src/main.tsx:72-88 | the tabs become `Without(old tabs, path)`, the selection becomes `SelectionAfterClose`, the cache and the other fields are untouched, and the tab invariant holds |
| App.AppState.HandleTabClick | apps/web/src/main.tsx:175 | selects the clicked tab, changes nothing else, and keeps the invariant |
| App.AppState.HandleFileChange | apps/web/src/main.tsx:90-133 | an accepted name with a successful listing replaces the entries, the name and the archive, and clears tabs, selection and cache; any other outcome changes no field |

## Left out

- The nested dictionary of `buildTree` and its cursor are modelled as one
  map keyed by segment paths. Because of that, aliasing between the cursor
  and the dictionary is not modelled. The cursor is the path prefix it
  stands for.
- `localeCompare`: collation depends on the locale, so names are compared
  by plain lexicographic order on character codes. All order lemmas are
  stated for that order.
- `Array.prototype.sort` is modelled as an insertion sort. Only its result
  matters: the comparator is a strict total order on nodes with distinct
  names, so every correct sort returns the same array.
- The zip library (`ZipReader`, `getEntries`, `getData`, `close`) is a
  foreign decoder. Reads and listings are parameters holding the outcome.
- A `close()` that throws after a successful `getData` is folded into
  `Failed`. The catch then overwrites the text with the failure message,
  which is what `Failed` stores.
- A `close()` that throws after the reset in `handleFileChange` counts as
  `Listed`. The reset has already happened by then.
- `async`/`await` interleavings and stale closures are not modelled. Each
  handler is one atomic step that reads the state it started with.
- JSX and widget composition are not modelled: panels, the sidebar, the
  breadcrumb markup and the file-input click.
- Logging, `event.target.value = ""`, the `useMemo` caching and the unused
  `size` field of an entry are not modelled.
- Plain-object prototype keys (such as `"constructor"`) are truthy in both
  the tree dictionary and the text cache, and the model ignores that quirk.
  Both are modelled as plain maps.
- `Object.keys` lists integer-like keys (such as `"10"`) first in numeric
  order and the other keys in insertion order. The model keeps every key
  in insertion order. The result is the same either way, because the sort
  makes each level independent of the key order (`SortedUnique`).
- `toLowerCase` is modelled on ASCII letters only, which is enough to
  compare against `.zip` and `.docx`.
- HandleTabClick: requires the clicked path to be an open tab. The page
  only renders tab buttons for the paths in the open list.
- HandleFileChange: tests the name with `IsSupportedArchive`, which is
  `IsArchiveExtension(Extension(name))`, in one expression instead of
  through an intermediate variable.

Behaviour of the code worth noting:

- The code reads a file again when its cached text is the empty string
  (`!fileContents[path]`), not only when it is absent. `ReadsAgainIff`
  states when a second select reads.
- A missing or directory entry stores nothing, so the next select reads
  again.
- There is no archive-generation guard against late reads. A read
  completing after an import would write into the new cache. Since each
  handler is one atomic step here, the model has no such interleaving.
