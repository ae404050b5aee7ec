# kuebico filesystem storage, modelled in Dafny

kuebico is a wiki whose pages live in a storage backend. A page has a name
(which may hold "/" for nested pages), a markdown source and metadata (an
optional title and a template). The storage layer reads pages by name, writes
them, and enumerates every page of the store. The filesystem backend keeps
each page as a file under a root directory. It reads a page by pushing the
name onto the root and setting the configured extension ("md" by default).
It enumerates pages by walking the root depth-first. When hidden names are
ignored, that walk prunes every entry whose name starts with "." together
with its subtree. The walk also skips directories. It turns each remaining
file path into a page name: the path below the root, less every trailing
copy of "." plus the file's own extension. Each such name is then read.

The model has five modules:

- `Paths` (paths.dfy): the part of Rust's `std::path` the backend relies on,
  on a Unix host. A path is the list of its components, and the model gives
  `push`, `set_extension`, `extension`, `file_name`, `file_stem`,
  `strip_prefix` and `to_str`.
- `Storage` (storage.dfy): the records and the error enum shared by every
  backend.
- `FsStorage` (fs.dfy): the backend. `read` and `write` are functions of a
  `Disk`, a map from paths to what reading the file there gives. The
  directory walk is a given sequence of walk items. The iterator is a class
  whose cursor `Next` advances with a loop over directories.
- `FsProperties` (fs_properties.dfy): what the backend promises, proved.
- `FsFindings` (findings.dfy): page names from the iterator that do not lead
  back to their files, and a corrected naming proved to do so.

The storage error enum documents `PageNotFound` as the error for a page name
that cannot be found (src/storage/mod.rs:8-9). The filesystem backend never
builds it. Its `read` turns every file it cannot open or read, a missing one
included, into `ImplError(IoError)` (src/storage/fs.rs:64-70 and 209-213).
The model follows the code.

## Model

| member | source | states |
|---|---|---|
| Storage.DefaultMetadataTemplate | src/storage/mod.rs:59-61 | the default template is "page" |
| FsStorage.New | src/storage/fs.rs:45-52 | a new backend keeps the given root, ignores hidden names and uses the extension "md" |
| FsStorage.Read | src/storage/fs.rs:56-83 | `read` succeeds exactly when the file the name resolves to exists and is readable; the page then carries the name as given, the file's text and the metadata (no title, template "page"); every failure is `ImplError(IoError)`, never `PageNotFound` |
| FsStorage.Write | src/storage/fs.rs:85-87 | `write` always returns `Ok(())` and leaves the disk as it was |
| FsProperties.WriteLeavesReadsAlone | src/storage/fs.rs:85-87 | reading any name after a write gives what it gave before |
| FsProperties.ReadPathSpec | src/storage/fs.rs:57-62 | `ReadPath`: without an extension the name is pushed onto the root unchanged; with a plain one, the last component keeps its stem, loses any extension it had and gets the configured one |
| FsProperties.ReadPathOfPlainName | src/storage/fs.rs:57-62 | a plain name is read from the root plus "stem of the name" + "." + extension |
| FsProperties.ReadPathOfDottedName | src/storage/fs.rs:60-62 | a name "stem.tail" is read from "stem" + "." + extension: the tail is replaced, not kept |
| FsProperties.DottedNameSpec | src/storage/fs.rs:60-62 | the name "v1.2" under root "wiki" is read from "wiki/v1.md" |
| FsProperties.NestedNameSpec | src/storage/fs.rs:57-58 | with no extension, a name made of plain names joined by "/" is read from the matching nested path below the root |
| FsProperties.ReadPathOfNestedName | src/storage/fs.rs:57-62 | with an extension, a nested name such as "b/c" whose last part has no dot is read from root/b/c.ext |
| FsProperties.NewSpec | src/storage/fs.rs:45-52 | a new backend prunes hidden entries from its walk and reads every plain file name with the extension "md" |
| Paths.SetExtensionSpec | src/storage/fs.rs:60-62 | `SetExtension` (`set_extension`): with a plain extension replaces the file name by its stem + "." + extension, leaves the rest of the path alone and gives the path exactly that extension; a path without a file name is unchanged |
| Paths.SetExtensionOfUndotted | src/storage/fs.rs:60-62 | `SetExtension` appends "." + extension to a file name without a dot |
| Paths.PushPlainName | src/storage/fs.rs:58 | `PushName` (`push`): pushing a plain name appends exactly one component |
| Paths.PushText | src/storage/fs.rs:58 | `Push`: pushing the text of plain components appends exactly those components |
| Paths.Split | src/storage/fs.rs:58 | splitting at "/" gives pieces with no "/" that join back to the text |
| Paths.SplitUnsplit | src/storage/fs.rs:58 | splitting undoes joining |
| Paths.LastIndexOf | src/storage/fs.rs:60-62 | the index of the last occurrence of a character, or none exactly when it does not occur |
| Paths.StripPrefix | src/storage/fs.rs:172 | `strip_prefix` succeeds exactly when the root's components begin the path, and returns the rest |
| Paths.TextExtendLast | src/storage/fs.rs:57-62 | lengthening the last name of a path lengthens its text by the same string at the end |
| Paths.DotSplitsAppended | src/storage/fs.rs:60-62 | `SplitAtDot` (std's `split_file_at_dot`): a name built as stem + "." + a dot-free extension splits back into that stem and extension |
| FsStorage.IntoIter | src/storage/fs.rs:94-108 | `into_iter`, through `Clone`, gives a fresh iterator at the start of the walk whose backend has the same root, hidden-name setting and extension |
| FsStorage.FsIter.constructor | src/storage/fs.rs:123-146 | the iterator walks the full tree, filtered when hidden names are ignored, from its start |
| FsStorage.SkipDir | src/storage/fs.rs:135-137 | skipping a pruned directory drops exactly the leading run of items below it |
| FsProperties.WalkerSpec | src/storage/fs.rs:133-140 | `Walker` and `FilterHidden`: without `ignore_hidden` the walk is unfiltered; with it, an item is walked exactly when it is in the tree, not hidden itself and below no hidden entry; either way the walk is a subsequence of the tree (same order, each item at most as often as in the tree) |
| FsProperties.FilterHiddenInOrder | src/storage/fs.rs:133-138 | the filter keeps items in walk order and never repeats one: its output is a subsequence of its input |
| FsProperties.SubsequenceMultiset | src/storage/fs.rs:133-138 | a subsequence holds each item at most as often as the sequence it comes from |
| FsProperties.FilterHiddenSound | src/storage/fs.rs:133-138 | every item the filter keeps is a visible item of the tree |
| FsProperties.FilterHiddenComplete | src/storage/fs.rs:133-138 | every visible item of the tree is kept by the filter |
| FsProperties.FilterHiddenStep | src/storage/fs.rs:135-137 | one filter step keeps a visible head, and a hidden directory takes its whole subtree with it |
| FsProperties.EmptyRootSpec | src/storage/fs.rs:155-168 | a root with nothing below it yields no item |
| FsStorage.FsIter.Next | src/storage/fs.rs:154-194 | `next` skips directories and yields the item for the first non-directory walk item, moving just past it; it returns `None` only at the end of the walk with no item pending; otherwise the items still to come shrink by exactly the one yielded |
| FsStorage.Items | src/storage/fs.rs:154-168 | the items of a stretch of walk are at most one per walk item, and none exactly when the stretch holds only directories |
| FsStorage.ItemsAfterDirs | src/storage/fs.rs:165-168 | past a run of directories, the items still to come start with the item of the next non-directory |
| FsStorage.TrimEnd | src/storage/fs.rs:186-189 | `trim_right_matches` leaves a prefix of the text that no longer ends with the pattern, and what it removed is a run of whole copies of the pattern |
| FsProperties.PageNameSpec | src/storage/fs.rs:170-192 | `PageName`: a failed prefix strip is `StripPrefixError`, a non-unicode path `PathNotValidUnicode`; otherwise the name is the relative text less a run of copies of "." + its own extension, and no longer ends with one |
| FsProperties.ItemForSpec | src/storage/fs.rs:155-193 | `ItemFor`: a walk failure yields `ImplError(WalkdirError)` (the `try_some!` conversion in src/util/macros.rs:2-9), a naming failure its own error wrapped in `ImplError`, and any other entry exactly what reading its name yields |
| FsFindings.PageNameOfFile | src/storage/fs.rs:186-188 | a file directly below the root is named by its file name less every trailing copy of "." + its own extension |
| FsFindings.DottedNameMissesItsFile | src/storage/fs.rs:60-62 | "wiki/v1.2.md" is named "v1.2", and reading "v1.2" opens "wiki/v1.md", not that file |
| FsFindings.RepeatedSuffixMissesItsFile | src/storage/fs.rs:188 | "wiki/a.md.md" is named "a", and reading "a" opens "wiki/a.md", not that file |
| FsFindings.ForeignExtensionMissesItsFile | src/storage/fs.rs:186-189 | "wiki/notes.txt" is named "notes", and reading "notes" opens "wiki/notes.md", not that file |
| FsFindings.FixedRoundTrip | src/storage/fs.rs:57-62 | under the corrected naming, the name given to any file of plain names below the root leads the corrected lookup back to that file |
| FsFindings.FixedNamesEveryPage | src/storage/fs.rs:186-189 | under the corrected naming, every file carrying the configured extension is named as a page |
| FsFindings.FixedPagesCarryExtension | src/storage/fs.rs:186-189 | under the corrected naming, only files carrying the configured extension are named as pages |
| FsFindings.ForeignFileIsNoPage | src/storage/fs.rs:186-189 | under the corrected naming, a file whose own extension differs from the configured one is no page |
| FsFindings.ForeignExtensionIsNoPage | src/storage/fs.rs:186-189 | under the corrected naming, "wiki/notes.txt" is no page of a new backend |
| FsFindings.FixedAgreesWithoutDots | src/storage/fs.rs:57-62 | for a name, nested or not, whose last part has no dot, the corrected lookup opens the same file as the code as written: root/name.ext |

## Left out

- The `Storage` and `StorageIter` traits (src/storage/mod.rs:18-28) are interfaces. The filesystem backend is their only implementation, so the model gives its operations directly.
- Real I/O is not modelled. `File::open` and `read_to_string` become a lookup in a `Disk` map. A path absent from the map cannot be opened, and `Unreadable` covers permission failures, directories and contents that are not UTF-8. The kind of `io::Error` is not kept.
- The walkdir library is not modelled. Its output is a given sequence of walk items in depth-first pre-order. A walk failure is an item naming the directory being listed, and pruning a hidden directory drops the failures met inside it.
- `is_dir` is a flag on each entry. The model does not check it against the disk, and it does not model symbolic links or the walk racing with changes to the tree.
- Unicode validity of a path is one flag per name. A name `set_extension` rebuilds keeps its flag, and Rust's byte-level handling of paths that are not UTF-8 is not modelled.
- Path parsing follows Rust on a Unix host. Windows prefixes and the textual form of paths that are not valid unicode are left out. The root directory is written as "/" and names are joined with "/".
- `Display`, `description` and `debug!` logging (src/storage/fs.rs:166, 197-207) produce text only and are left out.
- The error variants `StorageDirNotFound` and `IgnoringHiddenName` exist in the model but are never produced, as in the code.
- The iterator's walk is taken whole when the iterator is built. The code builds the walker at that point too, but it reads the tree lazily, so changes made to the tree during iteration are not modelled.
- FsStorage.FsIter.Next: the contract does not state separately that it returns `None` exactly when only directories remain. That follows from the `Pending` clauses together with the contract of `FsStorage.Items`.
- src/main.rs, src/export.rs, src/util/mkdirall.rs and src/lib.rs are not part of this model: they hold argument parsing, an exporter that only stores its fields, a directory-creation wrapper and module wiring.

## Findings

The iterator names a page so that it can be read back, but several files get names that `read` resolves to a different file. The model of the iterator keeps the behaviour as written. `FixedReadPath` and `FixedPageName` in `FsFindings` give the corrected naming and lookup.

| source | as written | input that shows it | evidently intended | confidence | as-written member | corrected member |
|---|---|---|---|---|---|---|
| src/storage/fs.rs:60-62 | `read` replaces the last dotted part of the name with the extension | root "wiki", file "v1.2.md": it is named "v1.2", and reading "v1.2" opens "wiki/v1.md" | reading a page name opens the file it came from | not executed | FsFindings.DottedNameMissesItsFile | FsFindings.FixedRoundTrip |
| src/storage/fs.rs:188 | `trim_right_matches` removes every trailing copy of ".md" | root "wiki", file "a.md.md": it is named "a", and reading "a" opens "wiki/a.md" | only one copy of the extension is removed | not executed | FsFindings.RepeatedSuffixMissesItsFile | FsFindings.FixedRoundTrip |
| src/storage/fs.rs:186-189 | the file's own extension is removed, not the configured one | root "wiki", file "notes.txt": it is named "notes", and reading "notes" opens "wiki/notes.md" | only files with the configured extension are pages | not executed | FsFindings.ForeignExtensionMissesItsFile | FsFindings.FixedPagesCarryExtension |
