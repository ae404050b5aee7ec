/** What the filesystem backend promises, proved about the model in
    FsStorage: how `read` finds a file, which walk items the iterator sees
    after hidden entries are pruned, and what each yields. */
module FsProperties {
  import opened Wrappers
  import opened Paths
  import opened Storage
  import opened FsStorage

  // -----------------------------------------------------------------------
  // read

  /** `read` looks up the name under the root: unchanged without an
      extension; with one, the last component keeps its stem, loses whatever
      extension it had and gets the configured one. */
  lemma ReadPathSpec(fs: Fs, name: string)
    ensures fs.extension.None? ==> ReadPath(fs, name) == Push(fs.path, name)
    ensures fs.extension.Some? ==>
      var ext := fs.extension.value;
      var p := Push(fs.path, name);
      ext != "" && '.' !in ext && '/' !in ext && FileName(p).Some? && PlainName(FileName(p).value.text) ==>
        var r := ReadPath(fs, name);
        r == p[..|p| - 1] + [Normal(FileStem(p[|p| - 1].text) + "." + ext, p[|p| - 1].unicode)]
        && Extension(r) == Some(ext)
  {
    var p := Push(fs.path, name);
    if fs.extension.Some? && FileName(p).Some? && PlainName(FileName(p).value.text) {
      var ext := fs.extension.value;
      if ext != "" && '.' !in ext && '/' !in ext {
        SetExtensionSpec(p, ext);
      }
    }
  }

  /** A plain name is read from the file under the root named by the name's
      stem and the configured extension. */
  lemma ReadPathOfPlainName(fs: Fs, name: string)
    requires fs.path != [] && PlainName(name)
    requires fs.extension.Some? && fs.extension.value != "" && '.' !in fs.extension.value && '/' !in fs.extension.value
    ensures ReadPath(fs, name) == fs.path + [Normal(FileStem(name) + "." + fs.extension.value, true)]
  {
    var v := [Normal(name, true)];
    assert Texts(v) == [name];
    PushText(fs.path, v);
    var p := fs.path + v;
    SetExtensionSpec(p, fs.extension.value);
    assert p[..|p| - 1] == fs.path;
  }

  /** A new backend walks with hidden entries pruned and reads a name from
      the file of that name's stem with the "md" extension. */
  lemma NewSpec(path: Path, name: string, tree: seq<WalkItem>)
    ensures Walker(New(path), tree) == FilterHidden(tree)
    ensures var p := Push(path, name);
      FileName(p).Some? && PlainName(FileName(p).value.text) ==>
        Extension(ReadPath(New(path), name)) == New(path).extension
  {
    ReadPathSpec(New(path), name);
  }

  /** Nested page names: a name written as plain names joined by "/" is
      looked up in the matching subdirectories of the root. */
  lemma NestedNameSpec(fs: Fs, names: Path)
    requires names != [] && forall i :: 0 <= i < |names| ==> Plain(names[i])
    requires fs.extension.None?
    ensures ReadPath(fs, Text(names)) == fs.path + names
  {
    PushText(fs.path, names);
  }

  /** A nested name whose last part has no dot is read from the matching
      nested file with the configured extension appended. */
  lemma ReadPathOfNestedName(fs: Fs, dirs: Path, stem: string, ext: string)
    requires forall i :: 0 <= i < |dirs| ==> Plain(dirs[i])
    requires PlainName(stem) && '.' !in stem
    requires fs.extension == Some(ext) && ext != "" && '.' !in ext && '/' !in ext
    ensures ReadPath(fs, Text(dirs + [Normal(stem, true)])) == fs.path + dirs + [Normal(stem + "." + ext, true)]
  {
    var cs := dirs + [Normal(stem, true)];
    PushText(fs.path, cs);
    assert fs.path + cs == (fs.path + dirs) + [Normal(stem, true)];
    SetExtensionOfUndotted(fs.path + dirs, stem, ext);
  }

  /** A name "stem.tail" is read from the file "stem" plus the configured
      extension: `set_extension` replaces "tail" rather than appending. */
  lemma ReadPathOfDottedName(fs: Fs, stem: string, tail: string)
    requires fs.path != [] && stem != [] && tail != [] && '.' !in tail && PlainName(stem + "." + tail)
    requires fs.extension.Some? && fs.extension.value != "" && '.' !in fs.extension.value && '/' !in fs.extension.value
    ensures ReadPath(fs, stem + "." + tail) == fs.path + [Normal(stem + "." + fs.extension.value, true)]
  {
    ReadPathOfPlainName(fs, stem + "." + tail);
    DotSplitsAppended(stem, tail);
  }

  // The root and the name are parameters fixed by `requires` rather than
  // constants written inline, which keeps the proof cheap (see FsFindings).
  /** For instance, the name "v1.2" is read from "v1.md", not "v1.2.md". */
  lemma DottedNameSpec(root: Path, name: string)
    requires root == [Normal("wiki", true)] && name == "v1.2"
    ensures ReadPath(New(root), name) == root + [Normal("v1.md", true)]
  {
    var stem, tail := DottedParts(name);
    ReadPathOfDottedName(New(root), stem, tail);
    assert stem + "." + "md" == "v1.md";
  }

  lemma DottedParts(name: string) returns (stem: string, tail: string)
    requires name == "v1.2"
    ensures stem == "v1" && tail == "2" && name == stem + "." + tail && PlainName(name)
  {
    stem, tail := "v1", "2";
    assert name == stem + "." + tail;
  }

  /** `write` stores nothing: whatever is written, reading any name
      afterwards gives what it gave before. */
  lemma WriteLeavesReadsAlone(fs: Fs, name: string, data: string, other: string, disk: Disk)
    ensures Read(fs, other, Write(fs, name, data, disk).1) == Read(fs, other, disk)
  {
  }

  // -----------------------------------------------------------------------
  // Pruning hidden entries

  /** The item is not a hidden entry and lies below no hidden entry of the
      walk `ws`. */
  ghost predicate Visible(ws: seq<WalkItem>, x: WalkItem) {
    !(x.Found? && Hidden(x.entry))
    && forall h | h in ws && h.Found? && Hidden(h.entry) :: !Within(x, h.entry.path)
  }

  lemma WithinTransitive(w: WalkItem, a: Path, b: Path)
    requires StrictPrefix(a, b) && Within(w, b)
    ensures Within(w, a)
  {
    match w
    case Found(e) => assert e.path[..|a|] == e.path[..|b|][..|a|];
    case Failed(dir) => assert dir[..|a|] == dir[..|b|][..|a|];
  }

  lemma PreOrderSuffix(ws: seq<WalkItem>, n: nat)
    requires PreOrder(ws) && n <= |ws|
    ensures PreOrder(ws[n..])
  {
    var vs := ws[n..];
    forall k, j | 0 <= k < |vs| && 0 <= j < |vs| && vs[k].Found? && Within(vs[j], vs[k].entry.path)
      ensures vs[k].entry.isDir && k < j && forall m | k < m < j :: Within(vs[m], vs[k].entry.path)
    {
      assert vs[k] == ws[n + k] && vs[j] == ws[n + j];
      forall m | k < m < j ensures Within(vs[m], vs[k].entry.path) {
        assert vs[m] == ws[n + m];
      }
    }
  }

  /** One step of the filter: the head is kept when it is not hidden, and the
      filter goes on from `n`, past the head and, for a hidden directory, its
      subtree. */
  lemma FilterHiddenStep(ws: seq<WalkItem>) returns (n: nat)
    requires ws != []
    ensures 1 <= n <= |ws|
    ensures FilterHidden(ws) == (if ws[0].Found? && Hidden(ws[0].entry) then [] else [ws[0]]) + FilterHidden(ws[n..])
    ensures n > 1 ==> ws[0].Found? && Hidden(ws[0].entry) && ws[0].entry.isDir
    ensures forall k :: 1 <= k < n ==> Within(ws[k], ws[0].entry.path)
    ensures ws[0].Found? && Hidden(ws[0].entry) && ws[0].entry.isDir && n < |ws| ==> !Within(ws[n], ws[0].entry.path)
  {
    match ws[0]
    case Failed(_) =>
      n := 1;
    case Found(e) =>
      if Hidden(e) && e.isDir {
        var rest := SkipDir(e.path, ws[1..]);
        n := |ws| - |rest|;
        assert rest == ws[n..];
        forall k | 1 <= k < n ensures Within(ws[k], e.path) {
          assert ws[k] == ws[1..][k - 1];
        }
      } else {
        n := 1;
      }
  }

  /** An item past the subtree the filter skipped lies below no entry of
      that subtree, nor below the skipped directory itself. */
  lemma PastSkippedSubtree(ws: seq<WalkItem>, n: nat, j: nat, k: nat)
    requires PreOrder(ws)
    requires 1 <= n <= j < |ws| && k < n
    requires n > 1 ==> ws[0].Found? && Hidden(ws[0].entry) && ws[0].entry.isDir && forall i :: 1 <= i < n ==> Within(ws[i], ws[0].entry.path)
    requires ws[0].Found? && Hidden(ws[0].entry) && ws[0].entry.isDir ==> !Within(ws[n], ws[0].entry.path)
    requires ws[k].Found? && Hidden(ws[k].entry)
    ensures !Within(ws[j], ws[k].entry.path)
  {
    if Within(ws[j], ws[k].entry.path) {
      assert Within(ws[n], ws[k].entry.path);
      if k > 0 {
        WithinTransitive(ws[n], ws[0].entry.path, ws[k].entry.path);
      }
    }
  }

  /** Every item the filter keeps is a visible item of the walk. */
  lemma {:induction false} FilterHiddenSound(ws: seq<WalkItem>)
    requires PreOrder(ws)
    ensures forall x | x in FilterHidden(ws) :: x in ws && Visible(ws, x)
    decreases |ws|
  {
    if ws != [] {
      var n := FilterHiddenStep(ws);
      PreOrderSuffix(ws, n);
      FilterHiddenSound(ws[n..]);
      forall x | x in FilterHidden(ws[n..]) ensures x in ws && Visible(ws, x) {
        VisiblePastStep(ws, n, x);
      }
      if !(ws[0].Found? && Hidden(ws[0].entry)) {
        HeadVisible(ws);
      }
    }
  }

  /** An item visible in the walk left after one filter step is visible in
      the whole walk. */
  lemma VisiblePastStep(ws: seq<WalkItem>, n: nat, x: WalkItem)
    requires PreOrder(ws) && 1 <= n <= |ws|
    requires n > 1 ==> ws[0].Found? && Hidden(ws[0].entry) && ws[0].entry.isDir && forall i :: 1 <= i < n ==> Within(ws[i], ws[0].entry.path)
    requires ws[0].Found? && Hidden(ws[0].entry) && ws[0].entry.isDir && n < |ws| ==> !Within(ws[n], ws[0].entry.path)
    requires x in ws[n..] && Visible(ws[n..], x)
    ensures x in ws && Visible(ws, x)
  {
    var i :| 0 <= i < |ws[n..]| && ws[n..][i] == x;
    assert ws[n + i] == x;
    forall h | h in ws && h.Found? && Hidden(h.entry) ensures !Within(x, h.entry.path) {
      NotBelowHidden(ws, n, n + i, h);
    }
  }

  lemma NotBelowHidden(ws: seq<WalkItem>, n: nat, j: nat, h: WalkItem)
    requires PreOrder(ws) && 1 <= n <= j < |ws|
    requires n > 1 ==> ws[0].Found? && Hidden(ws[0].entry) && ws[0].entry.isDir && forall i :: 1 <= i < n ==> Within(ws[i], ws[0].entry.path)
    requires ws[0].Found? && Hidden(ws[0].entry) && ws[0].entry.isDir ==> !Within(ws[n], ws[0].entry.path)
    requires Visible(ws[n..], ws[j])
    requires h in ws && h.Found? && Hidden(h.entry)
    ensures !Within(ws[j], h.entry.path)
  {
    var k :| 0 <= k < |ws| && ws[k] == h;
    if k >= n {
      assert h == ws[n..][k - n];
    } else {
      PastSkippedSubtree(ws, n, j, k);
    }
  }

  /** The first item of a pre-order walk lies below no entry of the walk. */
  lemma HeadVisible(ws: seq<WalkItem>)
    requires PreOrder(ws) && ws != []
    requires !(ws[0].Found? && Hidden(ws[0].entry))
    ensures Visible(ws, ws[0])
  {
    forall h | h in ws && h.Found? && Hidden(h.entry) ensures !Within(ws[0], h.entry.path) {
      var k :| 0 <= k < |ws| && ws[k] == h;
    }
  }

  /** Every visible item of the walk is kept by the filter. */
  lemma {:induction false} FilterHiddenComplete(ws: seq<WalkItem>, x: WalkItem)
    requires x in ws && Visible(ws, x)
    ensures x in FilterHidden(ws)
    decreases |ws|
  {
    var n := FilterHiddenStep(ws);
    if x != ws[0] {
      VisibleBeyondStep(ws, n, x);
      FilterHiddenComplete(ws[n..], x);
    }
  }

  /** A visible item other than the first lies beyond the first filter step,
      and is visible in what follows it. */
  lemma VisibleBeyondStep(ws: seq<WalkItem>, n: nat, x: WalkItem)
    requires 1 <= n <= |ws|
    requires n > 1 ==> ws[0].Found? && Hidden(ws[0].entry) && forall k :: 1 <= k < n ==> Within(ws[k], ws[0].entry.path)
    requires x in ws && Visible(ws, x) && x != ws[0]
    ensures x in ws[n..] && Visible(ws[n..], x)
  {
    var i :| 0 <= i < |ws| && ws[i] == x;
    assert i >= n;
    assert ws[n..][i - n] == x;
    forall h | h in ws[n..] ensures h in ws {
      var k :| 0 <= k < |ws[n..]| && ws[n..][k] == h;
      assert ws[n + k] == h;
    }
  }

  /** The iterator's walk: with `ignore_hidden`, exactly the visible items of
      the full walk; without it, the full walk. */
  lemma WalkerSpec(fs: Fs, tree: seq<WalkItem>)
    requires PreOrder(tree)
    ensures !fs.ignoreHidden ==> Walker(fs, tree) == tree
    ensures forall x :: x in Walker(fs, tree) <==> x in tree && (fs.ignoreHidden ==> Visible(tree, x))
    ensures Subsequence(Walker(fs, tree), tree) && multiset(Walker(fs, tree)) <= multiset(tree)
  {
    if fs.ignoreHidden {
      FilterHiddenSound(tree);
      forall x | x in tree && Visible(tree, x) ensures x in FilterHidden(tree) {
        FilterHiddenComplete(tree, x);
      }
      FilterHiddenInOrder(tree);
    } else {
      SubsequenceOfSuffix(tree, tree, 0);
    }
    SubsequenceMultiset(Walker(fs, tree), tree);
  }

  /** `a` is `b` with some items left out and the rest kept in order. */
  predicate Subsequence(a: seq<WalkItem>, b: seq<WalkItem>)
    decreases |b|
  {
    a == [] || (b != [] && ((a[0] == b[0] && Subsequence(a[1..], b[1..])) || Subsequence(a, b[1..])))
  }

  /** The filter keeps items in walk order, each at most once. */
  lemma {:induction false} FilterHiddenInOrder(ws: seq<WalkItem>)
    ensures Subsequence(FilterHidden(ws), ws)
    decreases |ws|
  {
    if ws != [] {
      var n := FilterHiddenStep(ws);
      FilterHiddenInOrder(ws[n..]);
      var dropped := ws[0].Found? && Hidden(ws[0].entry);
      StepInOrder(ws, n, FilterHidden(ws), FilterHidden(ws[n..]), dropped);
    }
  }

  /** Keeping the head or dropping a prefix keeps a subsequence one. */
  lemma StepInOrder(ws: seq<WalkItem>, n: nat, a: seq<WalkItem>, kept: seq<WalkItem>, dropped: bool)
    requires 1 <= n <= |ws| && (!dropped ==> n == 1)
    requires a == (if dropped then [] else [ws[0]]) + kept
    requires Subsequence(kept, ws[n..])
    ensures Subsequence(a, ws)
  {
    if dropped {
      assert a == kept;
      SubsequenceOfSuffix(kept, ws, n);
    } else {
      assert ws == [ws[0]] + ws[1..];
      SubsequenceOfCons(ws[0], kept, ws[1..]);
    }
  }

  lemma SubsequenceOfCons(x: WalkItem, a: seq<WalkItem>, b: seq<WalkItem>)
    requires Subsequence(a, b)
    ensures Subsequence([x] + a, [x] + b)
  {
    assert ([x] + a)[1..] == a && ([x] + b)[1..] == b;
  }

  lemma {:induction false} SubsequenceOfSuffix(a: seq<WalkItem>, b: seq<WalkItem>, n: nat)
    requires n <= |b| && (n == 0 ==> a == b) && (n > 0 ==> Subsequence(a, b[n..]))
    ensures Subsequence(a, b)
    decreases |b| + n
  {
    if n > 0 {
      assert b[n - 1..][1..] == b[n..];
      if n == 1 {
        assert b[n - 1..] == b;
      } else {
        SubsequenceOfSuffix(a, b, n - 1);
      }
    } else if a != [] {
      SubsequenceOfSuffix(a[1..], b[1..], 0);
    }
  }

  /** Items kept in order are never more than the items walked. */
  lemma {:induction false} SubsequenceMultiset(a: seq<WalkItem>, b: seq<WalkItem>)
    requires Subsequence(a, b)
    ensures multiset(a) <= multiset(b)
    decreases |b|
  {
    if a != [] {
      assert b == [b[0]] + b[1..];
      if a[0] == b[0] && Subsequence(a[1..], b[1..]) {
        SubsequenceMultiset(a[1..], b[1..]);
        assert a == [a[0]] + a[1..];
      } else {
        SubsequenceMultiset(a, b[1..]);
      }
    }
  }

  // -----------------------------------------------------------------------
  // Page names and items

  /** The name of an entry: the path below the root with every trailing
      "." + own-extension removed; failing to strip the root or to read the
      path as unicode are errors. */
  lemma PageNameSpec(root: Path, p: Path)
    ensures PageName(root, p) == Err(StripPrefixError) <==> !(|root| <= |p| && p[..|root|] == root)
    ensures PageName(root, p) == Err(PathNotValidUnicode) <==>
      |root| <= |p| && p[..|root|] == root && ToStr(p[|root|..]).None?
    ensures PageName(root, p).Ok? ==>
      var rel := p[|root|..];
      var s := Text(rel);
      var n := PageName(root, p).value;
      ToStr(rel) == Some(s) && |n| <= |s| && s[..|n|] == n
      && (Extension(rel).None? ==> n == s)
      && (Extension(rel).Some? ==>
            Repeats(s[|n|..], "." + Extension(rel).value) && !EndsWith(n, "." + Extension(rel).value))
  {
  }

  /** What `next` yields for one walk item: a walk failure is a walk error,
      a path that cannot be named is its error, and any other entry gives
      exactly what reading its name gives. */
  lemma ItemForSpec(fs: Fs, w: WalkItem, disk: Disk)
    ensures w.Failed? ==> ItemFor(fs, w, disk) == Err(ImplError(WalkdirError))
    ensures w.Found? && PageName(fs.path, w.entry.path).Err? ==>
      ItemFor(fs, w, disk) == Err(ImplError(PageName(fs.path, w.entry.path).error))
    ensures w.Found? && PageName(fs.path, w.entry.path).Ok? ==>
      var name := PageName(fs.path, w.entry.path).value;
      ItemFor(fs, w, disk) == Read(fs, name, disk)
      && (ItemFor(fs, w, disk).Ok? ==> ItemFor(fs, w, disk).value.name == name)
    ensures ItemFor(fs, w, disk).Err? ==> ItemFor(fs, w, disk).error.ImplError?
  {
  }

  /** An empty root directory yields no items. */
  lemma EmptyRootSpec(fs: Fs, disk: Disk)
    ensures Items(fs, Walker(fs, [Found(Entry(fs.path, true))]), disk) == []
  {
    if fs.ignoreHidden {
      assert FilterHidden([Found(Entry(fs.path, true))]) <= [Found(Entry(fs.path, true))];
    }
  }
}
