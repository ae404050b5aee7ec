/** The part of Rust's std::path that the filesystem backend relies on, on a
    Unix host: a path is the sequence of components Rust parses it into, and
    push, set_extension, strip_prefix, to_str and extension act on that
    sequence the way the standard library does. */
module Paths {
  import opened Wrappers

  /** One component of a path. A `Normal` component is a file or directory
      name; `unicode` says whether its bytes are valid UTF-8 (whether `to_str`
      succeeds on it), and `text` is the name it reads as. */
  datatype Component = RootDir | CurDir | ParentDir | Normal(text: string, unicode: bool)

  type Path = seq<Component>

  /** A name a directory listing can hold: non-empty, no separator, neither
      "." nor "..". */
  predicate PlainName(s: string) {
    s != "" && s != "." && s != ".." && '/' !in s
  }

  /** A component built from such a name, with valid unicode. */
  predicate Plain(c: Component) {
    c.Normal? && c.unicode && PlainName(c.text)
  }

  // ---------------------------------------------------------------------
  // Separators

  /** The pieces joined back with "/". */
  function Unsplit(pieces: seq<string>): string
    requires pieces != []
  {
    if |pieces| == 1 then pieces[0] else pieces[0] + "/" + Unsplit(pieces[1..])
  }

  /** The pieces of `s` between separators, empty ones included. */
  function Split(s: string): (pieces: seq<string>)
    ensures pieces != [] && Unsplit(pieces) == s
    ensures forall i :: 0 <= i < |pieces| ==> '/' !in pieces[i]
  {
    if s == [] then [""]
    else
      var rest := Split(s[1..]);
      if s[0] == '/' then
        [""] + rest
      else
        assert |rest| > 1 ==> Unsplit(rest) == rest[0] + "/" + Unsplit(rest[1..]);
        assert |rest| > 1 ==> ([s[0]] + rest[0] + "/") + Unsplit(rest[1..]) == [s[0]] + (rest[0] + "/" + Unsplit(rest[1..]));
        [[s[0]] + rest[0]] + rest[1..]
  }

  lemma {:induction false} SplitAround(a: string, b: string)
    requires '/' !in a
    ensures Split(a + "/" + b) == [a] + Split(b)
  {
    if a != [] {
      assert (a + "/" + b)[1..] == a[1..] + "/" + b;
      SplitAround(a[1..], b);
      assert [a[0]] + a[1..] == a;
    } else {
      assert a + "/" + b == "/" + b;
    }
  }

  lemma {:induction false} SplitWhole(a: string)
    requires '/' !in a
    ensures Split(a) == [a]
  {
    if a != [] {
      SplitWhole(a[1..]);
      assert [a[0]] + a[1..] == a;
    }
  }

  /** Splitting undoes joining: the pieces come back as they were. */
  lemma {:induction false} SplitUnsplit(pieces: seq<string>)
    requires pieces != []
    requires forall i :: 0 <= i < |pieces| ==> '/' !in pieces[i]
    ensures Split(Unsplit(pieces)) == pieces
  {
    if |pieces| == 1 {
      SplitWhole(pieces[0]);
    } else {
      SplitAround(pieces[0], Unsplit(pieces[1..]));
      SplitUnsplit(pieces[1..]);
    }
  }

  // ---------------------------------------------------------------------
  // Parsing and pushing

  /** The components a run of pieces yields after the start of a path:
      empty pieces (repeated or trailing separators) and "." vanish, ".."
      is the parent directory, anything else is a name. */
  function Body(pieces: seq<string>, unicode: bool): Path {
    if pieces == [] then []
    else
      var head := pieces[0];
      (if head == "" || head == "." then []
       else if head == ".." then [ParentDir]
       else [Normal(head, unicode)]) + Body(pieces[1..], unicode)
  }

  /** The components of a whole path string: a leading "/" is the root, a
      leading "." of a relative path is kept as the current directory. */
  function Components(s: string, unicode: bool): Path {
    (if s != [] && s[0] == '/' then [RootDir]
     else if s == "." || (|s| >= 2 && s[0] == '.' && s[1] == '/') then [CurDir]
     else []) + Body(Split(s), unicode)
  }

  /** `PathBuf::push`: an absolute `s` replaces the path; otherwise the
      components of `s` are appended (a leading "." of `s` is then interior
      and vanishes). Onto an empty path, `s` is taken as it is. */
  function PushName(p: Path, s: string, unicode: bool): Path {
    if p == [] || (s != [] && s[0] == '/') then Components(s, unicode)
    else p + Body(Split(s), unicode)
  }

  /** Pushing a Rust `String`, which is always valid unicode. */
  function Push(p: Path, s: string): Path {
    PushName(p, s, true)
  }

  // ---------------------------------------------------------------------
  // Text

  function ComponentText(c: Component): string {
    match c
    case RootDir => ""
    case CurDir => "."
    case ParentDir => ".."
    case Normal(text, _) => text
  }

  function Texts(p: Path): (ts: seq<string>)
    ensures |ts| == |p| && forall i :: 0 <= i < |p| ==> ts[i] == ComponentText(p[i])
  {
    if p == [] then [] else [ComponentText(p[0])] + Texts(p[1..])
  }

  /** The path written out with "/" between components. */
  function Text(p: Path): string {
    if p == [] then ""
    else if p == [RootDir] then "/"
    else Unsplit(Texts(p))
  }

  /** `Path::to_str`: the text, when every name in the path is valid unicode. */
  function ToStr(p: Path): Option<string> {
    if forall i :: 0 <= i < |p| ==> p[i].Normal? ==> p[i].unicode then Some(Text(p)) else None
  }

  // ---------------------------------------------------------------------
  // File names and extensions

  /** `Path::file_name`: the last component, when it is a name. */
  function FileName(p: Path): Option<Component> {
    if p != [] && p[|p| - 1].Normal? then Some(p[|p| - 1]) else None
  }

  /** The index of the last `c` in `s`. */
  function LastIndexOf(s: string, c: char): (r: Option<nat>)
    ensures r.None? ==> forall j :: 0 <= j < |s| ==> s[j] != c
    ensures r.Some? ==> r.value < |s| && s[r.value] == c && forall j :: r.value < j < |s| ==> s[j] != c
  {
    if s == [] then None
    else if s[|s| - 1] == c then Some(|s| - 1)
    else LastIndexOf(s[..|s| - 1], c)
  }

  /** std's `split_file_at_dot`: the part before the last "." and the part
      after it; a name with no ".", or whose only "." is its first character,
      or that is "..", has no part after. */
  function SplitAtDot(name: string): (Option<string>, Option<string>) {
    if name == ".." then (Some(name), None)
    else match LastIndexOf(name, '.')
      case None => (None, Some(name))
      case Some(i) => if i == 0 then (Some(name), None) else (Some(name[..i]), Some(name[i + 1..]))
  }

  /** `file_stem` of a file name. */
  function FileStem(name: string): string {
    var (before, after) := SplitAtDot(name);
    if before.Some? then before.value else after.value
  }

  /** `extension` of a file name. */
  function ExtensionOf(name: string): Option<string> {
    var (before, after) := SplitAtDot(name);
    if before.Some? then after else None
  }

  /** `Path::extension`. */
  function Extension(p: Path): Option<string> {
    match FileName(p)
    case None => None
    case Some(c) => ExtensionOf(c.text)
  }

  /** `PathBuf::set_extension`: when the path has a file name, it becomes its
      stem followed by "." and `ext` (only the stem when `ext` is empty);
      whatever extension the name had is dropped. Without a file name the
      path stays as it is. */
  function SetExtension(p: Path, ext: string): Path {
    match FileName(p)
    case None => p
    case Some(c) =>
      var stem := FileStem(c.text);
      PushName(p[..|p| - 1], if ext == "" then stem else stem + "." + ext, c.unicode)
  }

  /** `Path::strip_prefix`: what follows `base`, when `base`'s components
      begin the path. */
  function StripPrefix(p: Path, base: Path): (r: Option<Path>)
    ensures r.Some? <==> |base| <= |p| && p[..|base|] == base
    ensures r.Some? ==> p == base + r.value
  {
    if |base| <= |p| && p[..|base|] == base then Some(p[|base|..]) else None
  }

  // ---------------------------------------------------------------------
  // Properties

  lemma {:induction false} StemIsPlain(name: string)
    requires PlainName(name)
    ensures FileStem(name) != "" && '/' !in FileStem(name)
  {
    match LastIndexOf(name, '.')
    case None =>
    case Some(i) =>
      if i != 0 {
        assert forall ch :: ch in name[..i] ==> ch in name;
      }
  }

  /** A "." placed between a stem and a dot-free extension is the last one. */
  lemma {:induction false} DotSplitsAppended(stem: string, ext: string)
    requires stem != [] && ext != [] && '.' !in ext
    ensures SplitAtDot(stem + "." + ext) == (Some(stem), Some(ext))
  {
    var name := stem + "." + ext;
    assert |name| >= 3 && name != "..";
    assert name[|stem|] == '.';
    assert name[|stem| + 1..] == ext;
    assert forall j :: |stem| < j < |name| ==> name[j] == ext[j - |stem| - 1];
    assert name[..|stem|] == stem;
  }

  /** set_extension with a plain extension keeps everything before the file
      name and the file name's stem, and gives the path exactly that
      extension; a path without a file name is left alone. */
  lemma SetExtensionSpec(p: Path, ext: string)
    requires ext != "" && '.' !in ext && '/' !in ext
    requires FileName(p).Some? ==> PlainName(FileName(p).value.text)
    ensures FileName(p).None? ==> SetExtension(p, ext) == p
    ensures FileName(p).Some? ==>
      var r := SetExtension(p, ext);
      r == p[..|p| - 1] + [Normal(FileStem(p[|p| - 1].text) + "." + ext, p[|p| - 1].unicode)]
      && FileStem(r[|r| - 1].text) == FileStem(p[|p| - 1].text)
      && Extension(r) == Some(ext)
  {
    if FileName(p).Some? {
      var c := p[|p| - 1];
      var stem := FileStem(c.text);
      StemIsPlain(c.text);
      var name := stem + "." + ext;
      assert PlainName(name) by {
        assert |name| >= 3;
        assert forall ch :: ch in name ==> ch in stem || ch == '.' || ch in ext;
      }
      PushPlainName(p[..|p| - 1], name, c.unicode);
      DotSplitsAppended(stem, ext);
    }
  }

  /** A file name without a dot gets ".ext" appended by set_extension. */
  lemma SetExtensionOfUndotted(q: Path, stem: string, ext: string)
    requires PlainName(stem) && '.' !in stem
    requires ext != "" && '.' !in ext && '/' !in ext
    ensures SetExtension(q + [Normal(stem, true)], ext) == q + [Normal(stem + "." + ext, true)]
  {
    var p := q + [Normal(stem, true)];
    SetExtensionSpec(p, ext);
    assert LastIndexOf(stem, '.').None?;
    assert p[..|p| - 1] == q;
  }

  /** Pushing a plain name appends it as one component. */
  lemma PushPlainName(p: Path, name: string, unicode: bool)
    requires PlainName(name)
    ensures PushName(p, name, unicode) == p + [Normal(name, unicode)]
  {
    SplitWhole(name);
    assert Body([name], unicode) == [Normal(name, unicode)];
    if |name| >= 2 {
      assert name[1] != '/';
    }
  }

  /** Pushing a relative path written out from plain names appends exactly
      those names. */
  lemma PushText(p: Path, cs: Path)
    requires cs != [] && forall i :: 0 <= i < |cs| ==> Plain(cs[i])
    ensures Push(p, Text(cs)) == p + cs
  {
    var ts := Texts(cs);
    assert cs != [RootDir];
    SplitUnsplit(ts);
    BodyOfPlainTexts(cs);
    var s := Text(cs);
    if |cs| > 1 {
      assert s == ts[0] + "/" + Unsplit(ts[1..]);
    }
    assert s[..|ts[0]|] == ts[0];
    assert s[0] == ts[0][0];
    if |s| >= 2 && s[1] == '/' {
      assert |ts[0]| == 1;
    }
  }

  lemma {:induction false} BodyOfPlainTexts(cs: Path)
    requires forall i :: 0 <= i < |cs| ==> Plain(cs[i])
    ensures Body(Texts(cs), true) == cs
  {
    if cs != [] {
      BodyOfPlainTexts(cs[1..]);
      assert Texts(cs)[1..] == Texts(cs[1..]);
    }
  }

  /** Lengthening the last name of a path lengthens its text at the end. */
  lemma TextExtendLast(cs: Path, x: string)
    requires cs != [] && cs[|cs| - 1].Normal?
    ensures var last := cs[|cs| - 1];
      Text(cs[..|cs| - 1] + [Normal(last.text + x, last.unicode)]) == Text(cs) + x
  {
    var last := cs[|cs| - 1];
    var longer := cs[..|cs| - 1] + [Normal(last.text + x, last.unicode)];
    var ts := Texts(cs);
    assert Texts(longer) == ts[..|ts| - 1] + [ts[|ts| - 1] + x];
    UnsplitExtendLast(ts, x);
  }

  lemma {:induction false} UnsplitExtendLast(ts: seq<string>, x: string)
    requires ts != []
    ensures Unsplit(ts[..|ts| - 1] + [ts[|ts| - 1] + x]) == Unsplit(ts) + x
  {
    if |ts| > 1 {
      var longer := ts[..|ts| - 1] + [ts[|ts| - 1] + x];
      var tail := ts[1..];
      UnsplitExtendLast(tail, x);
      assert longer[1..] == tail[..|tail| - 1] + [tail[|tail| - 1] + x];
      assert ts[0] + "/" + (Unsplit(tail) + x) == (ts[0] + "/" + Unsplit(tail)) + x;
    }
  }
}
