/** The filesystem storage backend: pages are files under a root directory,
    read by name and enumerated by walking the tree.

    The file system itself is a `Disk`, a map from paths to what reading the
    file there gives, and a directory walk is the sequence of items the
    walker yields. */
module FsStorage {
  import opened Wrappers
  import opened Paths
  import opened Storage

  /** The backend's own failures, carried inside `ImplError`. */
  datatype FsError =
    | StorageDirNotFound
    | IgnoringHiddenName
    | PathNotValidUnicode
    | IoError
    | WalkdirError
    | StripPrefixError

  type FsResult = PageResult<FsError>

  /** Backend configuration: the root directory, whether hidden entries are
      skipped when walking, and the extension content files carry. */
  datatype Fs = Fs(path: Path, ignoreHidden: bool, extension: Option<string>)

  /** A backend rooted at `path` with the default settings. */
  function New(path: Path): (fs: Fs)
    ensures fs.path == path && fs.ignoreHidden && fs.extension == Some("md")
  {
    Fs(path, true, Some("md"))
  }

  function Clone(fs: Fs): Fs {
    Fs(fs.path, fs.ignoreHidden, fs.extension)
  }

  /** What reading a file gives: its text, or a failure (a directory, a
      permission problem, contents that are not UTF-8). A path absent from
      the disk cannot be opened. */
  datatype Content = Readable(text: string) | Unreadable

  type Disk = map<Path, Content>

  // -----------------------------------------------------------------------
  // read and write

  /** The file `read` opens for `name`: the name pushed onto the root, then
      given the configured extension with `set_extension`. */
  function ReadPath(fs: Fs, name: string): Path {
    var p := Push(fs.path, name);
    match fs.extension
    case None => p
    case Some(ext) => SetExtension(p, ext)
  }

  /** `read`: the page named `name`, built from the file `ReadPath` gives.
      Any failure to open or read the file is an I/O error; `PageNotFound` is
      never returned. */
  function Read(fs: Fs, name: string, disk: Disk): (r: FsResult)
    ensures r.Ok? <==> ReadPath(fs, name) in disk && disk[ReadPath(fs, name)].Readable?
    ensures r.Ok? ==>
      r.value.name == name && r.value.source == disk[ReadPath(fs, name)].text
      && r.value.metadata == Metadata(None, DefaultMetadataTemplate())
    ensures r.Err? ==> r.error == ImplError(IoError)
  {
    var p := ReadPath(fs, name);
    if p !in disk then Err(ImplError(IoError))
    else match disk[p]
      case Unreadable => Err(ImplError(IoError))
      case Readable(source) => Ok(Page(name, source, Metadata(None, "page")))
  }

  /** `write`: succeeds and stores nothing; the disk after it is the disk
      before. */
  function Write(fs: Fs, name: string, data: string, disk: Disk): (r: (Result<(), Error<FsError>>, Disk))
    ensures r.0 == Ok(())
    ensures r.1 == disk
  {
    (Ok(()), disk)
  }

  // -----------------------------------------------------------------------
  // The directory walk

  /** An entry the walk reaches. `isDir` is whether the path is a directory
      (following symbolic links). */
  datatype Entry = Entry(path: Path, isDir: bool)

  /** One item of the walk: an entry, or a failure met while listing the
      directory `dir` (for a failure on the starting path, that path). */
  datatype WalkItem = Found(entry: Entry) | Failed(dir: Path)

  predicate StartsWithDot(s: string) {
    s != [] && s[0] == '.'
  }

  /** The walker's filter: an entry is hidden when its file name (the whole
      path, for a path that does not end in a name) is valid unicode
      beginning with ".". */
  predicate Hidden(e: Entry) {
    match FileName(e.path)
    case Some(c) => c.unicode && StartsWithDot(c.text)
    case None => ToStr(e.path).Some? && StartsWithDot(ToStr(e.path).value)
  }

  predicate StrictPrefix(a: Path, b: Path) {
    |a| < |b| && b[..|a|] == a
  }

  /** The item belongs to the subtree below the directory `d`. */
  predicate Within(w: WalkItem, d: Path) {
    match w
    case Found(e) => StrictPrefix(d, e.path)
    case Failed(dir) => |d| <= |dir| && dir[..|d|] == d
  }

  /** The walk is depth-first pre-order: only directories have items below
      them, and those follow the directory in one unbroken run. */
  ghost predicate PreOrder(ws: seq<WalkItem>) {
    forall k, j | 0 <= k < |ws| && 0 <= j < |ws| && ws[k].Found? && Within(ws[j], ws[k].entry.path) ::
      ws[k].entry.isDir && k < j && forall m | k < m < j :: Within(ws[m], ws[k].entry.path)
  }

  /** `skip_current_dir` after the directory `d` was yielded: the rest of its
      subtree is dropped from the front of the walk. */
  function SkipDir(d: Path, ws: seq<WalkItem>): (rest: seq<WalkItem>)
    ensures |rest| <= |ws| && rest == ws[|ws| - |rest|..]
    ensures forall k :: 0 <= k < |ws| - |rest| ==> Within(ws[k], d)
    ensures rest != [] ==> !Within(rest[0], d)
  {
    if ws != [] && Within(ws[0], d) then SkipDir(d, ws[1..]) else ws
  }

  /** The walk as `filter_entry` passes it on: failures go through, a hidden
      entry is dropped and, when it is a directory, so is its subtree. */
  function FilterHidden(ws: seq<WalkItem>): seq<WalkItem>
    decreases |ws|
  {
    if ws == [] then []
    else match ws[0]
      case Failed(_) => [ws[0]] + FilterHidden(ws[1..])
      case Found(e) =>
        if !Hidden(e) then [ws[0]] + FilterHidden(ws[1..])
        else if e.isDir then FilterHidden(SkipDir(e.path, ws[1..]))
        else FilterHidden(ws[1..])
  }

  /** The walk an iterator over `fs` consumes, given the full walk of its
      root. */
  function Walker(fs: Fs, tree: seq<WalkItem>): seq<WalkItem> {
    if fs.ignoreHidden then FilterHidden(tree) else tree
  }

  // -----------------------------------------------------------------------
  // From an entry to a page

  predicate EndsWith(s: string, suffix: string) {
    |suffix| <= |s| && s[|s| - |suffix|..] == suffix
  }

  /** `t` is some number of copies of `pat`, one after another. */
  predicate Repeats(t: string, pat: string)
    requires pat != ""
    decreases |t|
  {
    t == "" || (EndsWith(t, pat) && Repeats(t[..|t| - |pat|], pat))
  }

  /** `trim_right_matches(pat)`: `s` without all the copies of `pat` it ends
      with. */
  function TrimEnd(s: string, pat: string): (r: string)
    requires pat != ""
    ensures |r| <= |s| && s[..|r|] == r
    ensures Repeats(s[|r|..], pat)
    ensures !EndsWith(r, pat)
    decreases |s|
  {
    if EndsWith(s, pat) then
      var r := TrimEnd(s[..|s| - |pat|], pat);
      assert s[|r|..] == s[..|s| - |pat|][|r|..] + s[|s| - |pat|..];
      RepeatsExtended(s[..|s| - |pat|][|r|..], pat);
      r
    else
      s
  }

  /** One more copy of `pat` at the end keeps a run of copies. */
  lemma RepeatsExtended(u: string, pat: string)
    requires pat != "" && Repeats(u, pat)
    ensures Repeats(u + pat, pat)
  {
    assert (u + pat)[..|u + pat| - |pat|] == u;
  }

  /** The page name `next` derives from an entry's path: the path below the
      root, as text, with every trailing copy of "." and the entry's own
      extension removed. */
  function PageName(root: Path, p: Path): Result<string, FsError> {
    match StripPrefix(p, root)
    case None => Err(StripPrefixError)
    case Some(rel) =>
      match ToStr(rel)
      case None => Err(PathNotValidUnicode)
      case Some(s) =>
        match Extension(rel)
        case None => Ok(s)
        case Some(ext) => Ok(TrimEnd(s, "." + ext))
  }

  predicate IsDirEntry(w: WalkItem) {
    w.Found? && w.entry.isDir
  }

  /** The item `next` yields for a walk item that is not a directory: a
      walk failure, a path error, or the result of reading the derived name;
      every error is wrapped as `ImplError`. */
  function ItemFor(fs: Fs, w: WalkItem, disk: Disk): FsResult {
    match w
    case Failed(_) => Err(ImplError(WalkdirError))
    case Found(e) =>
      match PageName(fs.path, e.path)
      case Err(cause) => Err(ImplError(cause))
      case Ok(name) => Read(fs, name, disk)
  }

  /** The items the iterator yields for a stretch of the walk, in order. */
  function Items(fs: Fs, ws: seq<WalkItem>, disk: Disk): (items: seq<FsResult>)
    ensures |items| <= |ws|
    ensures items == [] <==> forall k :: 0 <= k < |ws| ==> IsDirEntry(ws[k])
  {
    if ws == [] then []
    else (if IsDirEntry(ws[0]) then [] else [ItemFor(fs, ws[0], disk)]) + Items(fs, ws[1..], disk)
  }

  lemma {:induction false} ItemsSkipDirs(fs: Fs, ws: seq<WalkItem>, n: nat, disk: Disk)
    requires n <= |ws|
    requires forall k :: 0 <= k < n ==> IsDirEntry(ws[k])
    ensures Items(fs, ws, disk) == Items(fs, ws[n..], disk)
  {
    if n > 0 {
      ItemsSkipDirs(fs, ws[1..], n - 1, disk);
      assert ws[1..][n - 1..] == ws[n..];
    }
  }

  // -----------------------------------------------------------------------
  // The iterator

  /** The page iterator: a cursor over the walk of the backend's root. */
  class FsIter {
    const fs: Fs
    const walker: seq<WalkItem>
    var cursor: nat

    ghost predicate Valid()
      reads this
    {
      cursor <= |walker|
    }

    /** The items the iterator has still to yield, with the disk as given. */
    ghost function Pending(disk: Disk): seq<FsResult>
      reads this
      requires Valid()
    {
      Items(fs, walker[cursor..], disk)
    }

    /** `FsIter::new`: the walk of the root, with hidden entries pruned when
        the backend ignores them. */
    constructor (fs: Fs, tree: seq<WalkItem>)
      ensures Valid() && this.fs == fs && walker == Walker(fs, tree) && cursor == 0
    {
      this.fs := fs;
      walker := Walker(fs, tree);
      cursor := 0;
    }

    /** `next`: skips directories, then yields one item for the first walk
        item that is not one, and moves past it; `None` once only
        directories remain. */
    method Next(disk: Disk) returns (item: Option<FsResult>)
      requires Valid()
      modifies this
      ensures Valid() && old(cursor) <= cursor
      ensures item.None? ==> cursor == |walker|
      ensures item.Some? ==>
        old(cursor) < cursor && !IsDirEntry(walker[cursor - 1])
        && (forall k :: old(cursor) <= k < cursor - 1 ==> IsDirEntry(walker[k]))
        && item.value == ItemFor(fs, walker[cursor - 1], disk)
      ensures item.None? ==> old(Pending(disk)) == []
      ensures item.Some? ==> old(Pending(disk)) == [item.value] + Pending(disk)
    {
      ghost var pending := Pending(disk);
      var i := cursor;
      while i < |walker| && IsDirEntry(walker[i])
        invariant old(cursor) <= i <= |walker|
        invariant forall k :: old(cursor) <= k < i ==> IsDirEntry(walker[k])
      {
        i := i + 1;
      }
      ItemsAfterDirs(fs, walker, cursor, i, disk);
      if i == |walker| {
        cursor := i;
        return None;
      }
      item := Some(ItemFor(fs, walker[i], disk));
      cursor := i + 1;
      assert pending == [item.value] + Items(fs, walker[cursor..], disk);
    }
  }

  /** Past a run of directories, the pending items are the next non-directory
      item's followed by the rest. */
  lemma ItemsAfterDirs(fs: Fs, ws: seq<WalkItem>, start: nat, i: nat, disk: Disk)
    requires start <= i <= |ws|
    requires forall k :: start <= k < i ==> IsDirEntry(ws[k])
    requires i < |ws| ==> !IsDirEntry(ws[i])
    ensures i == |ws| ==> Items(fs, ws[start..], disk) == []
    ensures i < |ws| ==> Items(fs, ws[start..], disk) == [ItemFor(fs, ws[i], disk)] + Items(fs, ws[i + 1..], disk)
  {
    ItemsSkipDirs(fs, ws[start..], i - start, disk);
    assert ws[start..][i - start..] == ws[i..];
    if i < |ws| {
      assert ws[i..][1..] == ws[i + 1..];
    }
  }

  /** `into_iter`: an iterator over a copy of the backend. */
  method IntoIter(fs: Fs, tree: seq<WalkItem>) returns (it: FsIter)
    ensures fresh(it) && it.Valid() && it.cursor == 0
    ensures it.fs.path == fs.path && it.fs.ignoreHidden == fs.ignoreHidden && it.fs.extension == fs.extension
    ensures it.walker == Walker(fs, tree)
  {
    it := new FsIter(Clone(fs), tree);
  }
}
