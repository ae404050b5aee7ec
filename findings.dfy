/** Page names found by walking do not always lead `read` back to the file
    they came from. The lemmas first exhibit three files whose derived name
    reads a different file, then give a corrected naming and lookup and prove
    that it always leads back. The iterator in FsStorage keeps the behaviour
    as written. */
module FsFindings {
  import opened Wrappers
  import opened Paths
  import opened Storage
  import opened FsStorage
  import opened FsProperties

  // -----------------------------------------------------------------------
  // As written

  /** The name `next` gives a plain file directly below the root: the file
      name less every trailing copy of "." and its own extension. */
  lemma PageNameOfFile(root: Path, name: string, ext: string)
    requires PlainName(name) && ExtensionOf(name) == Some(ext)
    ensures PageName(root, root + [Normal(name, true)]) == Ok(TrimEnd(name, "." + ext))
  {
    var rel := [Normal(name, true)];
    assert (root + rel)[..|root|] == root && (root + rel)[|root|..] == rel;
    assert StripPrefix(root + rel, root) == Some(rel);
    assert Texts(rel) == [name];
    assert ToStr(rel) == Some(name);
    assert FileName(rel) == Some(Normal(name, true));
    assert Extension(rel) == Some(ext);
  }

  lemma ExtensionOfDotted(stem: string, ext: string)
    requires stem != [] && ext != [] && '.' !in ext
    ensures ExtensionOf(stem + "." + ext) == Some(ext)
  {
    DotSplitsAppended(stem, ext);
  }

  // The examples below take their string constants as parameters fixed by
  // `requires x == "..."`. Written inline, a constant string next to
  // symbolic ones sends the solver unfolding every sequence function on it;
  // as a parameter it stays one term until an assertion asks about it.

  /** "v1.2.md" is named "v1.2", which `read` looks up as "v1.md". */
  lemma DottedNameMissesItsFile(root: Path, file: string)
    requires root == [Normal("wiki", true)] && file == "v1.2.md"
    ensures PageName(root, root + [Normal(file, true)]) == Ok("v1.2")
    ensures ReadPath(New(root), "v1.2") == root + [Normal("v1.md", true)] != root + [Normal(file, true)]
  {
    DottedName(root, file);
    DottedNameSpec(root, "v1.2");
    assert |"v1.md"| != |file|;
    assert (root + [Normal("v1.md", true)])[1] != (root + [Normal(file, true)])[1];
  }

  lemma DottedName(root: Path, file: string)
    requires root == [Normal("wiki", true)] && file == "v1.2.md"
    ensures PageName(root, root + [Normal(file, true)]) == Ok("v1.2")
  {
    assert file == "v1.2" + "." + "md";
    assert "v1.2"[1..][0] == '1' && ("." + "md")[0] == '.';
    assert !EndsWith("v1.2", "." + "md");
    NamedAfterTrim(root, "v1.2", "md", file, "v1.2");
  }

  /** "a.md.md" is named "a", all copies of ".md" being trimmed, which `read`
      looks up as "a.md". */
  lemma RepeatedSuffixMissesItsFile(root: Path, file: string)
    requires root == [Normal("wiki", true)] && file == "a.md.md"
    ensures PageName(root, root + [Normal(file, true)]) == Ok("a")
    ensures ReadPath(New(root), "a") == root + [Normal("a.md", true)] != root + [Normal(file, true)]
  {
    RepeatedSuffixName(root, file);
    assert "a.md" == "a" + "." + "md";
    assert |"a.md"| != |file|;
    ReadElsewhere(root, "a", "md", "a.md", file);
  }

  lemma RepeatedSuffixName(root: Path, file: string)
    requires root == [Normal("wiki", true)] && file == "a.md.md"
    ensures PageName(root, root + [Normal(file, true)]) == Ok("a")
  {
    assert file == "a.md" + "." + "md";
    assert "a.md"[1..] == "." + "md" && "a.md"[..1] == "a";
    assert "a"[..0] == [];
    NamedAfterTrim(root, "a.md", "md", file, "a");
  }

  /** "notes.txt" is named "notes", its own extension being trimmed although
      the backend's is "md", and `read` looks it up as "notes.md". */
  lemma ForeignExtensionMissesItsFile(root: Path, file: string)
    requires root == [Normal("wiki", true)] && file == "notes.txt"
    ensures PageName(root, root + [Normal(file, true)]) == Ok("notes")
    ensures ReadPath(New(root), "notes") == root + [Normal("notes.md", true)] != root + [Normal(file, true)]
  {
    ForeignExtensionRead(root, file);
    ForeignExtensionName(root, file);
  }

  lemma ForeignExtensionRead(root: Path, file: string)
    requires root == [Normal("wiki", true)] && file == "notes.txt"
    ensures ReadPath(New(root), "notes") == root + [Normal("notes.md", true)] != root + [Normal(file, true)]
  {
    assert "notes.md" == "notes" + "." + "md";
    assert |"notes.md"| != |file|;
    ReadElsewhere(root, "notes", "md", "notes.md", file);
  }

  lemma ForeignExtensionName(root: Path, file: string)
    requires root == [Normal("wiki", true)] && file == "notes.txt"
    ensures PageName(root, root + [Normal(file, true)]) == Ok("notes")
  {
    assert file == "notes" + "." + "txt";
    assert "notes"[2..][0] == 't' && ("." + "txt")[0] == '.';
    assert !EndsWith("notes", "." + "txt");
    NamedAfterTrim(root, "notes", "txt", file, "notes");
  }

  /** A file `stem + "." + ext` directly below the root is named by what
      trimming leaves of `stem`. */
  lemma NamedAfterTrim(root: Path, stem: string, ext: string, file: string, name: string)
    requires stem != [] && ext != [] && '.' !in ext && '/' !in stem + ext
    requires file == stem + "." + ext && TrimEnd(stem, "." + ext) == name
    ensures PageName(root, root + [Normal(file, true)]) == Ok(name)
  {
    TrimmedName(root, stem, ext, file);
  }

  /** An undotted name is read from a file other than `file` whenever the
      name plus the extension is not `file`. */
  lemma ReadElsewhere(root: Path, name: string, ext: string, read: string, file: string)
    requires root != [] && PlainName(name) && '.' !in name
    requires ext != [] && '.' !in ext && '/' !in ext
    requires read == name + "." + ext && read != file
    ensures ReadPath(Fs(root, true, Some(ext)), name) == root + [Normal(read, true)] != root + [Normal(file, true)]
  {
    UndottedRead(root, name, ext);
    assert (root + [Normal(read, true)])[|root|] != (root + [Normal(file, true)])[|root|];
  }

  /** The file `stem + "." + ext` directly below the root is named by
      trimming "." + `ext` from `stem`. */
  lemma TrimmedName(root: Path, stem: string, ext: string, file: string)
    requires stem != [] && ext != [] && '.' !in ext && '/' !in stem + ext
    requires file == stem + "." + ext
    ensures PageName(root, root + [Normal(file, true)]) == Ok(TrimEnd(stem, "." + ext))
  {
    ExtensionOfDotted(stem, ext);
    assert PlainName(file);
    PageNameOfFile(root, file, ext);
    TrimAppended(stem, ext, file);
  }

  lemma TrimAppended(stem: string, ext: string, file: string)
    requires file == stem + "." + ext
    ensures TrimEnd(file, "." + ext) == TrimEnd(stem, "." + ext)
  {
    var pat := "." + ext;
    assert file == stem + pat;
    assert (stem + pat)[..|stem + pat| - |pat|] == stem;
  }

  /** A name with no dot is read from itself plus the extension. */
  lemma UndottedRead(root: Path, name: string, ext: string)
    requires root != [] && PlainName(name) && '.' !in name
    requires ext != [] && '.' !in ext && '/' !in ext
    ensures ReadPath(Fs(root, true, Some(ext)), name) == root + [Normal(name + "." + ext, true)]
  {
    ReadPathOfPlainName(Fs(root, true, Some(ext)), name);
  }

  // -----------------------------------------------------------------------
  // Corrected

  /** The corrected lookup: the configured extension is appended to the
      name, never put in place of part of it. */
  function FixedReadPath(fs: Fs, name: string): Path {
    match fs.extension
    case None => Push(fs.path, name)
    case Some(ext) => Push(fs.path, name + "." + ext)
  }

  /** The corrected naming: a file is a page only when it carries the
      configured extension, and exactly one "." + extension is removed. The
      error cases are those of the code as written. */
  function FixedPageName(fs: Fs, p: Path): Result<Option<string>, FsError> {
    match StripPrefix(p, fs.path)
    case None => Err(StripPrefixError)
    case Some(rel) =>
      match ToStr(rel)
      case None => Err(PathNotValidUnicode)
      case Some(s) =>
        match fs.extension
        case None => Ok(Some(s))
        case Some(ext) =>
          if Extension(rel) == Some(ext) && EndsWith(s, "." + ext) then Ok(Some(s[..|s| - |ext| - 1]))
          else Ok(None)
  }

  /** Round trip: the name given to a file below the root leads the
      corrected lookup back to that very file. */
  lemma FixedRoundTrip(fs: Fs, p: Path, name: string)
    requires |fs.path| < |p| && p[..|fs.path|] == fs.path
    requires forall i :: |fs.path| <= i < |p| ==> Plain(p[i])
    requires FixedPageName(fs, p) == Ok(Some(name))
    ensures FixedReadPath(fs, name) == p
  {
    FixedNameIsTextLessExtension(fs, p, name);
    FixedLookupOfText(fs, p, name);
  }

  lemma FixedNameIsTextLessExtension(fs: Fs, p: Path, name: string)
    requires |fs.path| < |p| && p[..|fs.path|] == fs.path
    requires forall i :: |fs.path| <= i < |p| ==> Plain(p[i])
    requires FixedPageName(fs, p) == Ok(Some(name))
    ensures fs.extension.Some? ==> name + "." + fs.extension.value == Text(p[|fs.path|..])
    ensures fs.extension.None? ==> name == Text(p[|fs.path|..])
  {
    var rel := PlainBelow(fs.path, p);
  }

  lemma FixedLookupOfText(fs: Fs, p: Path, name: string)
    requires |fs.path| < |p| && p[..|fs.path|] == fs.path
    requires forall i :: |fs.path| <= i < |p| ==> Plain(p[i])
    requires fs.extension.Some? ==> name + "." + fs.extension.value == Text(p[|fs.path|..])
    requires fs.extension.None? ==> name == Text(p[|fs.path|..])
    ensures FixedReadPath(fs, name) == p
  {
    var rel := PlainBelow(fs.path, p);
    PushText(fs.path, rel);
  }

  /** The part of `p` below `root`, all plain names. */
  lemma PlainBelow(root: Path, p: Path) returns (rel: Path)
    requires |root| < |p| && p[..|root|] == root
    requires forall i :: |root| <= i < |p| ==> Plain(p[i])
    ensures rel == p[|root|..] && p == root + rel && rel != []
    ensures forall i :: 0 <= i < |rel| ==> Plain(rel[i])
    ensures ToStr(rel) == Some(Text(rel))
  {
    rel := p[|root|..];
    forall i | 0 <= i < |rel| ensures Plain(rel[i]) {
      assert rel[i] == p[|root| + i];
    }
  }

  /** The written-out path ends with its last name. */
  lemma TextEndsWithLast(cs: Path)
    requires cs != [] && cs != [RootDir]
    ensures EndsWith(Text(cs), ComponentText(cs[|cs| - 1]))
  {
    if |cs| > 1 {
      var ts := Texts(cs);
      UnsplitEndsWithLast(ts);
    }
  }

  lemma {:induction false} UnsplitEndsWithLast(ts: seq<string>)
    requires ts != []
    ensures EndsWith(Unsplit(ts), ts[|ts| - 1])
  {
    if |ts| > 1 {
      UnsplitEndsWithLast(ts[1..]);
      var u := Unsplit(ts[1..]);
      assert Unsplit(ts) == ts[0] + "/" + u;
      assert Unsplit(ts)[|Unsplit(ts)| - |u|..] == u;
    }
  }

  /** Every file below the root whose name carries the configured extension
      is a page under the corrected naming. */
  lemma FixedNamesEveryPage(fs: Fs, p: Path)
    requires |fs.path| < |p| && p[..|fs.path|] == fs.path
    requires forall i :: |fs.path| <= i < |p| ==> Plain(p[i])
    requires fs.extension.Some? && Extension(p[|fs.path|..]) == fs.extension
    ensures FixedPageName(fs, p).Ok? && FixedPageName(fs, p).value.Some?
  {
    var rel := PlainBelow(fs.path, p);
    var ext := fs.extension.value;
    var last := rel[|rel| - 1];
    assert FileName(rel) == Some(last);
    ExtensionEnds(last.text, ext);
    TextEndsWithLast(rel);
    EndsWithTransitive(Text(rel), last.text, "." + ext);
  }

  /** A name with an extension ends with "." and that extension. */
  lemma ExtensionEnds(name: string, ext: string)
    requires ExtensionOf(name) == Some(ext)
    ensures EndsWith(name, "." + ext)
  {
    var i := LastIndexOf(name, '.').value;
    assert name[i..] == "." + ext;
  }

  lemma EndsWithTransitive(a: string, b: string, c: string)
    requires EndsWith(a, b) && EndsWith(b, c)
    ensures EndsWith(a, c)
  {
    assert a[|a| - |c|..] == a[|a| - |b|..][|b| - |c|..];
  }

  /** Only files with the configured extension are pages under the
      corrected naming. */
  lemma FixedPagesCarryExtension(fs: Fs, p: Path, name: string)
    requires fs.extension.Some? && FixedPageName(fs, p) == Ok(Some(name))
    ensures StripPrefix(p, fs.path).Some?
    ensures Extension(StripPrefix(p, fs.path).value) == fs.extension
  {
  }

  /** A file directly below the root whose own extension is not the
      configured one is no page under the corrected naming. */
  lemma ForeignFileIsNoPage(fs: Fs, stem: string, own: string, file: string)
    requires stem != [] && own != [] && '.' !in own && PlainName(file)
    requires file == stem + "." + own && fs.extension.Some? && fs.extension.value != own
    ensures FixedPageName(fs, fs.path + [Normal(file, true)]) == Ok(None)
  {
    var rel := [Normal(file, true)];
    assert (fs.path + rel)[..|fs.path|] == fs.path && (fs.path + rel)[|fs.path|..] == rel;
    assert Texts(rel) == [file];
    assert ToStr(rel) == Some(file);
    assert FileName(rel) == Some(Normal(file, true));
    ExtensionOfDotted(stem, own);
  }

  /** For instance "notes.txt" is no page of a new backend, whose
      extension is "md". */
  lemma ForeignExtensionIsNoPage(root: Path, file: string)
    requires root == [Normal("wiki", true)] && file == "notes.txt"
    ensures FixedPageName(New(root), root + [Normal(file, true)]) == Ok(None)
  {
    assert file == "notes" + "." + "txt";
    assert PlainName(file);
    ForeignFileIsNoPage(New(root), "notes", "txt", file);
  }

  /** For a name whose last part has no dot, nested or not, the code as
      written and the corrected lookup open the same file. */
  lemma FixedAgreesWithoutDots(fs: Fs, dirs: Path, stem: string, ext: string)
    requires forall i :: 0 <= i < |dirs| ==> Plain(dirs[i])
    requires PlainName(stem) && '.' !in stem
    requires fs.extension == Some(ext) && ext != "" && '.' !in ext && '/' !in ext
    ensures var name := Text(dirs + [Normal(stem, true)]);
      FixedReadPath(fs, name) == ReadPath(fs, name) == fs.path + dirs + [Normal(stem + "." + ext, true)]
  {
    ReadPathOfNestedName(fs, dirs, stem, ext);
    FixedReadOfNested(fs, dirs, stem, ext);
  }

  lemma FixedReadOfNested(fs: Fs, dirs: Path, stem: string, ext: string)
    requires forall i :: 0 <= i < |dirs| ==> Plain(dirs[i])
    requires PlainName(stem) && '.' !in stem
    requires fs.extension == Some(ext) && ext != "" && '.' !in ext && '/' !in ext
    ensures FixedReadPath(fs, Text(dirs + [Normal(stem, true)])) == fs.path + dirs + [Normal(stem + "." + ext, true)]
  {
    var name := Text(dirs + [Normal(stem, true)]);
    var full := dirs + [Normal(stem + "." + ext, true)];
    TextOfAppended(dirs, stem, ext);
    PlainAppended(stem, ext);
    AllPlain(dirs, Normal(stem + "." + ext, true));
    PushText(fs.path, full);
    assert FixedReadPath(fs, name) == Push(fs.path, Text(full));
    assert fs.path + full == fs.path + dirs + [Normal(stem + "." + ext, true)];
  }

  lemma AllPlain(dirs: Path, c: Component)
    requires forall i :: 0 <= i < |dirs| ==> Plain(dirs[i])
    requires Plain(c)
    ensures forall i :: 0 <= i < |dirs + [c]| ==> Plain((dirs + [c])[i])
  {
  }

  lemma TextOfAppended(dirs: Path, stem: string, ext: string)
    ensures Text(dirs + [Normal(stem + "." + ext, true)]) == Text(dirs + [Normal(stem, true)]) + "." + ext
  {
    var cs := dirs + [Normal(stem, true)];
    TextExtendLast(cs, "." + ext);
    assert cs[..|cs| - 1] == dirs;
    assert stem + ("." + ext) == stem + "." + ext;
  }

  lemma PlainAppended(stem: string, ext: string)
    requires PlainName(stem) && ext != "" && '/' !in ext
    ensures PlainName(stem + "." + ext)
  {
    var name := stem + "." + ext;
    assert |name| >= 3;
    assert forall j :: 0 <= j < |name| ==> name[j] == (if j < |stem| then stem[j] else if j == |stem| then '.' else ext[j - |stem| - 1]);
  }
}
