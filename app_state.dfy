/**
 * The viewer's page state (main.tsx): the imported archive's listing, the
 * open tabs, the selected tab and the cache of file texts, with one method
 * per event handler. Reading the archive is outside the model: each read or
 * listing arrives as a parameter holding its outcome.
 */
module App {
  import opened Options
  import opened StringOps
  import opened ArchiveTree

  /** Stored under a path whose read threw. */
  const Unreadable: string := "无法读取文件内容"
  /** Shown while the selected path has no (or an empty) cached text. */
  const Loading: string := "加载中..."

  /** How reading one path out of the archive ended. */
  datatype ReadOutcome =
    | Found(text: string)   // a file entry whose text was read
    | Missing               // no entry has that filename
    | DirectoryEntry        // the entry is a directory
    | Failed                // opening, reading or closing the archive threw

  /** How listing a picked archive ended. */
  datatype Listing = Listed(entries: seq<Entry>) | ListFailed

  /** The file the user picked (only its name matters here). */
  datatype PickedFile = PickedFile(name: string)

  // ---------------------------------------------------------------------
  // opening a tab

  /** The tab list after selecting `p`: `p` is appended unless already open. */
  function Opened(open: seq<string>, p: string): (r: seq<string>)
    ensures forall x :: x in r <==> x in open || x == p
    ensures NoDuplicates(open) ==> NoDuplicates(r)
    ensures |open| <= |r| <= |open| + 1 && r[..|open|] == open
  {
    if p in open then open else open + [p]
  }

  /** Selecting an open path again leaves the tabs alone, and selecting the
      same path twice is the same as selecting it once. */
  lemma OpenedIdempotent(open: seq<string>, p: string)
    ensures p in open <==> Opened(open, p) == open
    ensures Opened(Opened(open, p), p) == Opened(open, p)
  {
    if p !in open {
      assert Opened(open, p)[|open|] == p;
    }
  }

  // ---------------------------------------------------------------------
  // the content cache

  /** `!fileContents[p]`: nothing is cached for `p`, or only the empty text. */
  predicate NeedsRead(cache: map<string, string>, p: string) {
    p !in cache || cache[p] == ""
  }

  /** The cache after selecting `p`: when an archive is loaded and `p` needs
      reading, a found text is stored, a thrown read stores `Unreadable`, and
      a missing or directory entry stores nothing. */
  function CacheAfterSelect(cache: map<string, string>, zipLoaded: bool, p: string,
                            read: ReadOutcome): (r: map<string, string>)
    ensures forall k :: k != p ==> (k in r <==> k in cache)
    ensures forall k :: k != p && k in cache ==> r[k] == cache[k]
    ensures !(zipLoaded && NeedsRead(cache, p)) ==> r == cache
  {
    if zipLoaded && NeedsRead(cache, p) then
      match read
      case Found(text) => cache[p := text]
      case Failed => cache[p := Unreadable]
      case Missing => cache
      case DirectoryEntry => cache
    else cache
  }

  /** What a select leaves under `p` when it reads: the found text, the
      failure message, or whatever was there for a missing or directory
      entry. */
  lemma CacheAfterRead(cache: map<string, string>, p: string, read: ReadOutcome)
    requires NeedsRead(cache, p)
    ensures var r := CacheAfterSelect(cache, true, p, read);
      && (read.Found? ==> p in r && r[p] == read.text)
      && (read.Failed? ==> p in r && r[p] == Unreadable)
      && (read.Missing? || read.DirectoryEntry? ==> r == cache)
  {
  }

  /** With an archive loaded, a second select of `p` reads again exactly when
      the first one needed a read and found nothing to keep: a missing or
      directory entry, or an empty text. */
  lemma ReadsAgainIff(cache: map<string, string>, p: string, read: ReadOutcome)
    ensures NeedsRead(CacheAfterSelect(cache, true, p, read), p) <==>
            NeedsRead(cache, p) && (read.Missing? || read.DirectoryEntry? || read == Found(""))
  {
    assert Unreadable != "";
  }

  // ---------------------------------------------------------------------
  // closing a tab

  /** `open.filter(f => f !== p)`. */
  function Without(open: seq<string>, p: string): (r: seq<string>)
    ensures |r| <= |open|
    decreases |open|
  {
    if open == [] then []
    else if open[0] == p then Without(open[1..], p)
    else [open[0]] + Without(open[1..], p)
  }

  /** The filter keeps exactly the paths other than `p`. */
  lemma {:induction false} WithoutMembers(open: seq<string>, p: string)
    ensures forall x :: x in Without(open, p) <==> x in open && x != p
    ensures p !in open ==> Without(open, p) == open
    decreases |open|
  {
    if open != [] {
      WithoutMembers(open[1..], p);
      assert open == [open[0]] + open[1..];
    }
  }

  /** `s.indexOf(x)`: the first position of `x`, or -1. */
  function IndexOf(s: seq<string>, x: string): (r: int)
    ensures -1 <= r < |s|
    ensures r == -1 <==> x !in s
    ensures r >= 0 ==> s[r] == x && forall j :: 0 <= j < r ==> s[j] != x
    decreases |s|
  {
    if s == [] then -1
    else if s[0] == x then 0
    else
      var r := IndexOf(s[1..], x);
      if r == -1 then -1
      else r + 1
  }

  /** Closing a tab that is open once removes just that position and keeps
      the others in their order. */
  lemma {:induction false} WithoutAt(open: seq<string>, p: string)
    requires NoDuplicates(open) && p in open
    ensures Without(open, p) == open[..IndexOf(open, p)] + open[IndexOf(open, p) + 1..]
  {
    var i := IndexOf(open, p);
    WithoutSplit(open, p, i);
    assert p !in open[i + 1..] by {
      forall j | i < j < |open| ensures open[j] != p {
        assert open[i] != open[j];
      }
    }
    WithoutMembers(open[i + 1..], p);
  }

  /** Filtering keeps everything before the first occurrence of `p`. */
  lemma {:induction false} WithoutSplit(open: seq<string>, p: string, i: nat)
    requires i < |open| && open[i] == p
    requires forall j :: 0 <= j < i ==> open[j] != p
    ensures Without(open, p) == open[..i] + Without(open[i + 1..], p)
    decreases i
  {
    if i > 0 {
      var rest := open[1..];
      WithoutSplit(rest, p, i - 1);
      assert Without(open, p) == [open[0]] + Without(rest, p);
      assert open[..i] == [open[0]] + rest[..i - 1];
      assert open[i + 1..] == rest[i..];
    }
  }

  /** A duplicate-free list stays so without its head, which does not occur
      in its tail. */
  lemma NoDuplicatesTail(open: seq<string>)
    requires NoDuplicates(open) && open != []
    ensures NoDuplicates(open[1..]) && open[0] !in open[1..]
  {
    var rest := open[1..];
    forall i, j | 0 <= i < j < |rest| ensures rest[i] != rest[j] {
      assert rest[i] == open[i + 1] && rest[j] == open[j + 1];
    }
    forall j | 0 <= j < |rest| ensures rest[j] != open[0] {
      assert rest[j] == open[j + 1];
    }
  }

  /** Removing a path keeps a duplicate-free tab list duplicate-free. */
  lemma {:induction false} WithoutNoDuplicates(open: seq<string>, p: string)
    requires NoDuplicates(open)
    ensures NoDuplicates(Without(open, p))
    decreases |open|
  {
    if open != [] {
      NoDuplicatesTail(open);
      WithoutNoDuplicates(open[1..], p);
      WithoutMembers(open[1..], p);
    }
  }

  /** The neighbour picked in the new list, described in the old one: the
      tab left of the closed one, or the tab right of it when it was first. */
  lemma NeighbourInOldList(open: seq<string>, p: string)
    requires NoDuplicates(open) && p in open && |open| > 1
    ensures var i := IndexOf(open, p);
      var j := if i > 0 then i - 1 else 0;
      j < |Without(open, p)| &&
      Without(open, p)[j] == if i > 0 then open[i - 1] else open[1]
  {
    WithoutAt(open, p);
  }

  /** The `|| ""` fallback is dead: the neighbour index always falls inside
      the new list when a closed path was open exactly once and something
      remains. */
  lemma NeighbourInBounds(open: seq<string>, p: string)
    requires NoDuplicates(open) && p in open
    requires Without(open, p) != []
    ensures var i := IndexOf(open, p);
      (if i > 0 then i - 1 else 0) < |Without(open, p)|
  {
    WithoutAt(open, p);
  }

  /** The selection after closing `p`: unchanged unless `p` was selected;
      then the tab at the closed tab's old index minus one (or the first
      tab) in the new list, or nothing when no tab remains. */
  function SelectionAfterClose(open: seq<string>, selected: string, p: string): (r: string)
    ensures p != selected ==> r == selected
    ensures p == selected && Without(open, p) == [] ==> r == ""
  {
    if p == selected then
      var newOpenFiles := Without(open, p);
      if |newOpenFiles| > 0 then
        var currentIndex := IndexOf(open, p);
        var newIndex := if currentIndex > 0 then currentIndex - 1 else 0;
        if newIndex < |newOpenFiles| then newOpenFiles[newIndex] else ""
      else ""
    else selected
  }

  /** Closing the selected tab selects its left neighbour in the old list,
      or its right neighbour when it was first, or nothing when it was the
      only tab; closing a selected path that is not open picks the first
      tab. */
  lemma CloseSelectsNeighbour(open: seq<string>, p: string)
    requires NoDuplicates(open)
    ensures p in open ==>
      var i := IndexOf(open, p);
      SelectionAfterClose(open, p, p) == if |open| == 1 then ""
                                         else if i > 0 then open[i - 1]
                                         else open[1]
    ensures p !in open ==>
      SelectionAfterClose(open, p, p) == if open == [] then "" else open[0]
  {
    WithoutMembers(open, p);
    if p in open {
      WithoutAt(open, p);
      if |open| > 1 {
        NeighbourInOldList(open, p);
      }
    }
  }

  /** The selection after a close is empty or one of the remaining tabs,
      when it was empty or an open tab before. */
  lemma CloseKeepsSelectionOpen(open: seq<string>, selected: string, p: string)
    requires selected == "" || selected in open
    ensures var r := SelectionAfterClose(open, selected, p);
      r == "" || r in Without(open, p)
  {
    WithoutMembers(open, p);
  }

  // ---------------------------------------------------------------------
  // importing an archive

  /** `name.substring(name.lastIndexOf(".")).toLowerCase()`. */
  function Extension(name: string): string {
    Lower(SubstringFrom(name, LastIndexOf(name, '.')))
  }

  /** The extension is an ending of the lower-cased name: either all of it,
      or a dot followed by no further dot. */
  lemma ExtensionShape(name: string)
    ensures var r := Extension(name);
      && |r| <= |name| && r == Lower(name)[|name| - |r|..]
      && (|r| == |name| || (|r| >= 1 && r[0] == '.'))
      && forall j :: 1 <= j < |r| ==> r[j] != '.'
  {
    var at := LastIndexOf(name, '.');
    var r := Extension(name);
    if at >= 0 {
      assert SubstringFrom(name, at) == name[at..];
      forall j | 1 <= j < |r| ensures r[j] != '.' {
        assert r[j] == LowerChar(name[at + j]);
      }
    }
  }

  /** The two extensions `handleFileChange` accepts. */
  predicate IsArchiveExtension(ext: string) {
    ext == ".docx" || ext == ".zip"
  }

  /** The accept test of `handleFileChange`. */
  predicate IsSupportedArchive(name: string) {
    IsArchiveExtension(Extension(name))
  }

  /** A dot-led, otherwise dot-free ending of the lower-cased name is the
      extension. */
  lemma ExtensionOfSuffix(name: string, ext: string)
    requires |ext| >= 1 && ext[0] == '.'
    requires forall j :: 1 <= j < |ext| ==> ext[j] != '.'
    requires EndsWith(Lower(name), ext)
    ensures Extension(name) == ext
  {
    var low := Lower(name);
    var at := |name| - |ext|;
    assert low[at] == ext[0];
    forall j | at < j < |name| ensures name[j] != '.' {
      assert low[j] == ext[j - at];
    }
    LastIndexOfAt(name, '.', at);
    assert Lower(SubstringFrom(name, at)) == low[at..];
  }

  /** The import is accepted exactly when the lower-cased name ends with
      ".zip" or ".docx". */
  lemma AcceptedIff(name: string)
    ensures IsSupportedArchive(name) <==>
            EndsWith(Lower(name), ".zip") || EndsWith(Lower(name), ".docx")
  {
    var e := Extension(name);
    assert EndsWith(Lower(name), e) by { ExtensionShape(name); }
    if EndsWith(Lower(name), ".zip") {
      ExtensionOfSuffix(name, ".zip");
    } else if EndsWith(Lower(name), ".docx") {
      ExtensionOfSuffix(name, ".docx");
    }
  }

  /** A name without a dot is its own extension, so even "zip" is refused. */
  lemma NoDotRefused(name: string)
    requires '.' !in name
    ensures !IsSupportedArchive(name)
  {
    var low := Extension(name);
    ExtensionShape(name);
    assert forall j :: 0 <= j < |name| ==> low[j] != '.';
    assert ".zip"[0] == '.' && ".docx"[0] == '.';
  }

  /** Upper-case extensions are accepted: `stem + ".ZIP"` is, whatever the
      stem. */
  lemma UpperZipAccepted(stem: string)
    ensures IsSupportedArchive(stem + ".ZIP")
  {
    var name := stem + ".ZIP";
    var low := Lower(name);
    var n := |stem|;
    assert low[n] == '.' && low[n + 1] == 'z' && low[n + 2] == 'i' && low[n + 3] == 'p';
    assert low[n..] == ".zip";
    AcceptedIff(name);
  }

  // ---------------------------------------------------------------------
  // what the page shows

  /** The tab label: the last `/`-piece of the path, or the whole path when
      that piece is empty. */
  function TabLabel(path: string): string {
    var pieces := Split(path, '/');
    var last := pieces[|pieces| - 1];
    if last != "" then last else path
  }

  /** The label is what follows the last slash, or the whole path when there
      is no slash or the path ends with one. */
  lemma TabLabelAfterLastSlash(path: string)
    ensures var i := LastIndexOf(path, '/');
      TabLabel(path) == if i == -1 || i == |path| - 1 then path else path[i + 1..]
  {
    SplitLastPiece(path, '/');
    var pieces := Split(path, '/');
    if |pieces| == 1 {
      assert '/' !in path;
    } else {
      var last := pieces[|pieces| - 1];
      SlashBeforeLastPiece(path, |path| - |last| - 1);
    }
  }

  lemma SlashBeforeLastPiece(path: string, at: int)
    requires var pieces := Split(path, '/');
      |pieces| > 1 && at == |path| - |pieces[|pieces| - 1]| - 1 &&
      0 <= at < |path| && path[at] == '/' && path[at + 1..] == pieces[|pieces| - 1]
    ensures LastIndexOf(path, '/') == at
    ensures TabLabel(path) == if at == |path| - 1 then path else path[at + 1..]
  {
    var last := path[at + 1..];
    forall j | at < j < |path| ensures path[j] != '/' {
      assert path[j] == last[j - at - 1];
    }
    LastIndexOfAt(path, '/', at);
  }

  lemma TabLabelOfPieces(path: string, names: seq<string>)
    requires Split(path, '/') == names
    requires names[|names| - 1] != ""
    ensures TabLabel(path) == names[|names| - 1]
  {
  }

  /** The tab of a file reached through clean names is labelled with its own
      name. */
  lemma TabLabelOfJoin(names: seq<string>)
    requires |names| >= 1
    requires forall i :: 0 <= i < |names| ==> names[i] != "" && '/' !in names[i]
    ensures TabLabel(Join(names, '/')) == names[|names| - 1]
  {
    SplitJoin(names, '/');
    TabLabelOfPieces(Join(names, '/'), names);
  }

  /** The main pane. */
  datatype Pane = NothingSelected | Shows(text: string)

  /** Nothing selected shows the empty pane; otherwise the cached text, or
      `Loading` while there is none or it is empty. */
  function ContentPane(selected: string, cache: map<string, string>): (r: Pane)
    ensures r.NothingSelected? <==> selected == ""
    ensures r.Shows? && !NeedsRead(cache, selected) ==> r.text == cache[selected]
    ensures selected != "" && NeedsRead(cache, selected) ==> r == Shows(Loading)
  {
    if selected == "" then NothingSelected
    else if !NeedsRead(cache, selected) then Shows(cache[selected])
    else Shows(Loading)
  }

  /** When no cached text is the placeholder itself, the pane shows the
      placeholder exactly when a select of the same path would read. */
  lemma LoadingIffNeedsRead(selected: string, cache: map<string, string>)
    requires selected != ""
    requires forall k :: k in cache ==> cache[k] != Loading
    ensures ContentPane(selected, cache) == Shows(Loading) <==> NeedsRead(cache, selected)
  {
  }

  // ---------------------------------------------------------------------
  // the page state and its handlers

  class AppState {
    var fileEntries: seq<Entry>
    var uploadedFileName: string
    var selectedFile: string
    var openFiles: seq<string>
    var fileContents: map<string, string>
    var zipFile: Option<PickedFile>

    /** Tabs are distinct, and the selection is empty or one of the tabs. */
    ghost predicate Valid()
      reads this
    {
      NoDuplicates(openFiles) && (selectedFile == "" || selectedFile in openFiles)
    }

    constructor()
      ensures Valid()
      ensures fileEntries == [] && uploadedFileName == "" && selectedFile == ""
      ensures openFiles == [] && fileContents == map[] && zipFile == None
    {
      fileEntries := [];
      uploadedFileName := "";
      selectedFile := "";
      openFiles := [];
      fileContents := map[];
      zipFile := None;
    }

    /** handleFileSelect: select `filepath`, open its tab, and read its text
        when an archive is loaded and nothing usable is cached. */
    method HandleFileSelect(filepath: string, read: ReadOutcome)
      requires Valid()
      modifies this
      ensures Valid()
      ensures selectedFile == filepath
      ensures openFiles == Opened(old(openFiles), filepath)
      ensures fileContents == CacheAfterSelect(old(fileContents), old(zipFile).Some?, filepath, read)
      ensures fileEntries == old(fileEntries) && uploadedFileName == old(uploadedFileName)
      ensures zipFile == old(zipFile)
    {
      selectedFile := filepath;
      if filepath !in openFiles {
        openFiles := openFiles + [filepath];
      }
      if NeedsRead(fileContents, filepath) && zipFile.Some? {
        match read {
          case Found(text) => fileContents := fileContents[filepath := text];
          case Failed => fileContents := fileContents[filepath := Unreadable];
          case Missing =>
          case DirectoryEntry =>
        }
      }
    }

    /** handleCloseFile: drop the tab; if it was the selected one, select
        its left neighbour in the old list (the right one when it was first),
        or nothing when no tab remains. */
    method HandleCloseFile(filepath: string)
      requires Valid()
      modifies this
      ensures Valid()
      ensures openFiles == Without(old(openFiles), filepath)
      ensures selectedFile == SelectionAfterClose(old(openFiles), old(selectedFile), filepath)
      ensures fileContents == old(fileContents) && fileEntries == old(fileEntries)
      ensures uploadedFileName == old(uploadedFileName) && zipFile == old(zipFile)
    {
      WithoutNoDuplicates(openFiles, filepath);
      CloseKeepsSelectionOpen(openFiles, selectedFile, filepath);
      var newOpenFiles := Without(openFiles, filepath);
      selectedFile := SelectionAfterClose(openFiles, selectedFile, filepath);
      openFiles := newOpenFiles;
    }

    /** A click on an open tab selects it. */
    method HandleTabClick(filepath: string)
      requires Valid() && filepath in openFiles
      modifies this
      ensures Valid()
      ensures selectedFile == filepath
      ensures openFiles == old(openFiles) && fileContents == old(fileContents)
      ensures fileEntries == old(fileEntries) && uploadedFileName == old(uploadedFileName)
      ensures zipFile == old(zipFile)
    {
      selectedFile := filepath;
    }

    /** handleFileChange: a picked ".zip" or ".docx" whose listing succeeds
        replaces the archive and clears tabs, selection and cache; anything
        else changes nothing. */
    method HandleFileChange(file: Option<PickedFile>, listing: Listing)
      requires Valid()
      modifies this
      ensures Valid()
      ensures file.Some? && IsSupportedArchive(file.value.name) && listing.Listed? ==>
        && fileEntries == listing.entries && uploadedFileName == file.value.name
        && zipFile == file && openFiles == [] && selectedFile == "" && fileContents == map[]
      ensures !(file.Some? && IsSupportedArchive(file.value.name) && listing.Listed?) ==>
        unchanged(this)
    {
      if file.None? {
        return;
      }
      var fileName := file.value.name;
      if IsSupportedArchive(fileName) {
        match listing {
          case Listed(fileList) =>
            uploadedFileName := fileName;
            fileEntries := fileList;
            zipFile := file;
            openFiles := [];
            selectedFile := "";
            fileContents := map[];
          case ListFailed =>
        }
      }
    }
  }
}
