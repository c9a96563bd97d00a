/** parser.TraverseNode, as its tests pin it down: a walk over a Netscape bookmark tree
    that stores each bookmark in the file of its label, the label being the path of
    folder names joined with ".", and "root" for the top level. */
module Netscape {
  import opened Errors
  import opened Text
  import opened Uuids
  import opened Quoting
  import opened Bookmarks

  /** config.StdLabel and config.StdLabelSeparator. */
  const StdLabel := "root"
  const StdLabelSeparator := "."

  /** A bookmark and a folder of the parsed document. */
  datatype Mark = Mark(title: string, url: string)
  datatype Folder = Folder(name: string, bookmarks: seq<Mark>, subfolders: seq<Folder>)

  /** The file a list of labels names. */
  function LabelName(labels: seq<string>): (n: string)
    ensures labels == [] ==> n == StdLabel
    ensures |labels| == 1 ==> n == labels[0]
  {
    if labels == [] then StdLabel else Text.Join(labels, StdLabelSeparator)
  }

  /** One more folder level adds the separator and the folder's label. */
  lemma {:induction false} NestedLabel(labels: seq<string>, name: string)
    requires labels != []
    ensures LabelName(labels + [name]) == LabelName(labels) + StdLabelSeparator + name
    decreases |labels|
  {
    if |labels| == 1 {
      assert labels + [name] == [labels[0], name];
      assert [labels[0], name][1..] == [name];
    } else {
      assert (labels + [name])[1..] == labels[1..] + [name];
      NestedLabel(labels[1..], name);
    }
  }

  // ---------------------------------------------------------------------------
  // The walk

  /** A bookmark with the label of the file it goes to. */
  datatype Entry = Entry(file: string, mark: Mark)

  function Marks(file: string, ms: seq<Mark>): (es: seq<Entry>)
    ensures |es| == |ms| && forall i :: 0 <= i < |ms| ==> es[i] == Entry(file, ms[i])
  {
    seq(|ms|, i requires 0 <= i < |ms| => Entry(file, ms[i]))
  }

  /** The bookmarks of a folder in the order the walk stores them: the folder's own
      first, then each subfolder's, one label level deeper. `labelOf` is the label a
      folder name becomes. */
  function Entries(labels: seq<string>, f: Folder, labelOf: string -> string): seq<Entry>
    decreases f, 1
  {
    Marks(LabelName(labels), f.bookmarks) + SubEntries(labels, f.subfolders, labelOf)
  }

  function SubEntries(labels: seq<string>, fs: seq<Folder>, labelOf: string -> string): seq<Entry>
    decreases fs, 0
  {
    if fs == [] then []
    else
      var last := fs[|fs| - 1];
      SubEntries(labels, fs[..|fs| - 1], labelOf) + Entries(labels + [labelOf(last.name)], last, labelOf)
  }

  lemma {:induction false} SubEntriesAppend(labels: seq<string>, xs: seq<Folder>, ys: seq<Folder>, labelOf: string -> string)
    ensures SubEntries(labels, xs + ys, labelOf) == SubEntries(labels, xs, labelOf) + SubEntries(labels, ys, labelOf)
    decreases |ys|
  {
    if ys == [] {
      assert xs + ys == xs;
    } else {
      var init, last := ys[..|ys| - 1], ys[|ys| - 1];
      var e := Entries(labels + [labelOf(last.name)], last, labelOf);
      assert SubEntries(labels, xs + ys, labelOf) == SubEntries(labels, xs + init, labelOf) + e by {
        assert (xs + ys)[..|xs + ys| - 1] == xs + init;
        assert (xs + ys)[|xs + ys| - 1] == last;
      }
      SubEntriesAppend(labels, xs, init, labelOf);
      AppendAssoc(SubEntries(labels, xs, labelOf), SubEntries(labels, init, labelOf), e);
    }
  }

  lemma AppendAssoc<T>(a: seq<T>, b: seq<T>, c: seq<T>)
    ensures (a + b) + c == a + (b + c)
  {
  }

  /** A tree without a single bookmark, at any depth. */
  predicate NoMarks(f: Folder)
    decreases f
  {
    f.bookmarks == [] && forall i :: 0 <= i < |f.subfolders| ==> NoMarks(f.subfolders[i])
  }

  /** The walk meets a bookmark exactly when the tree holds one. */
  lemma {:induction false} NoMarksNoEntries(labels: seq<string>, f: Folder, labelOf: string -> string)
    ensures NoMarks(f) <==> Entries(labels, f, labelOf) == []
    decreases f, 1
  {
    SubfoldersNoEntries(labels, f.subfolders, labelOf);
  }

  lemma {:induction false} SubfoldersNoEntries(labels: seq<string>, fs: seq<Folder>, labelOf: string -> string)
    ensures (forall i :: 0 <= i < |fs| ==> NoMarks(fs[i])) <==> SubEntries(labels, fs, labelOf) == []
    decreases fs, 0
  {
    if fs != [] {
      var init, last := fs[..|fs| - 1], fs[|fs| - 1];
      SubfoldersNoEntries(labels, init, labelOf);
      NoMarksNoEntries(labels + [labelOf(last.name)], last, labelOf);
      var before := SubEntries(labels, init, labelOf);
      var own := Entries(labels + [labelOf(last.name)], last, labelOf);
      assert SubEntries(labels, fs, labelOf) == before + own;
      assert before + own == [] <==> before == [] && own == [] by {
        assert |before + own| == |before| + |own|;
      }
      AllNoMarksSnoc(fs, init);
    }
  }

  lemma AllNoMarksSnoc(fs: seq<Folder>, init: seq<Folder>)
    requires fs != [] && init == fs[..|fs| - 1]
    ensures (forall i :: 0 <= i < |fs| ==> NoMarks(fs[i]))
      <==> (forall i :: 0 <= i < |init| ==> NoMarks(init[i])) && NoMarks(fs[|fs| - 1])
  {
    if (forall i :: 0 <= i < |init| ==> NoMarks(init[i])) && NoMarks(fs[|fs| - 1]) {
      forall i | 0 <= i < |fs|
        ensures NoMarks(fs[i])
      {
        if i < |init| {
          assert fs[i] == init[i];
        }
      }
    }
  }

  // ---------------------------------------------------------------------------
  // Storing the bookmarks

  /** What the walk does with a bookmark, given the lines its label file already holds.
      The tests do not settle whether a repeated bookmark is kept, skipped or refused,
      so the model takes that decision as a parameter. */
  datatype Admission = Keep | Skip | Refuse(error: Error)

  /** What the walk gets from outside: the ids NewBookmark generates, the title fetch,
      the label a folder name becomes, and the decision on each bookmark. */
  datatype ImportEnv = ImportEnv(
    gen: nat -> Uuid,
    page: string -> Option<string>,
    labelOf: string -> string,
    admit: (seq<string>, Bookmark) -> Admission)

  /** The label files (label to lines, each written by Bookmark.String), how many ids
      NewBookmark has drawn, and the error that stopped the walk. */
  datatype Imported = Imported(files: map<string, seq<string>>, issued: nat, err: Option<Error>)

  function FileLines(files: map<string, seq<string>>, file: string): seq<string> {
    if file in files then files[file] else []
  }

  /** One bookmark: NewBookmark(url, WithTitle(title)), then the decision on it. */
  function Save(r: Imported, e: Entry, env: ImportEnv): Imported {
    if r.err.Some? then r
    else
      match NewBookmark(e.mark.url, [WithTitle(e.mark.title)], env.gen(r.issued), env.page)
      case Err(x) => r.(err := Some(x))
      case Ok(b) => Place(r, e.file, String(b), env.admit(FileLines(r.files, e.file), b))
  }

  /** The decision on a built bookmark carried out: a kept bookmark's line goes at the end
      of its label file; every built bookmark has drawn an id. */
  function Place(r: Imported, file: string, line: string, a: Admission): Imported {
    match a
    case Keep => Imported(r.files[file := FileLines(r.files, file) + [line]], r.issued + 1, None)
    case Skip => Imported(r.files, r.issued + 1, None)
    case Refuse(x) => Imported(r.files, r.issued + 1, Some(x))
  }

  /** The bookmarks stored in order; the first error ends the walk. */
  function Import(start: Imported, es: seq<Entry>, env: ImportEnv): Imported
    decreases |es|
  {
    if es == [] then start else Save(Import(start, es[..|es| - 1], env), es[|es| - 1], env)
  }

  lemma {:induction false} ImportAppend(s: Imported, a: seq<Entry>, b: seq<Entry>, env: ImportEnv)
    ensures Import(s, a + b, env) == Import(Import(s, a, env), b, env)
    decreases |b|
  {
    if b == [] {
      assert a + b == a;
    } else {
      var init := b[..|b| - 1];
      assert (a + b)[..|a + b| - 1] == a + init;
      assert (a + b)[|a + b| - 1] == b[|b| - 1];
      ImportAppend(s, a, init, env);
    }
  }

  lemma ImportSnoc(s: Imported, es: seq<Entry>, e: Entry, env: ImportEnv)
    ensures Import(s, es + [e], env) == Save(Import(s, es, env), e, env)
  {
    assert (es + [e])[..|es + [e]| - 1] == es;
  }

  /** Once an error is set nothing more happens. */
  lemma {:induction false} ImportStops(s: Imported, es: seq<Entry>, env: ImportEnv)
    requires s.err.Some?
    ensures Import(s, es, env) == s
    decreases |es|
  {
    if es != [] {
      ImportStops(s, es[..|es| - 1], env);
    }
  }

  /** Import from a state that already failed stays failed, whatever follows. */
  lemma StopsAfter(s: Imported, a: seq<Entry>, b: seq<Entry>, env: ImportEnv)
    requires Import(s, a, env).err.Some?
    ensures Import(s, a + b, env) == Import(s, a, env)
  {
    ImportAppend(s, a, b, env);
    ImportStops(Import(s, a, env), b, env);
  }

  lemma MarksSnoc(file: string, ms: seq<Mark>, i: nat)
    requires i < |ms|
    ensures Marks(file, ms[..i + 1]) == Marks(file, ms[..i]) + [Entry(file, ms[i])]
  {
  }

  lemma MarksSplit(file: string, ms: seq<Mark>, i: nat)
    requires i <= |ms|
    ensures Marks(file, ms) == Marks(file, ms[..i]) + Marks(file, ms[i..])
  {
  }

  lemma SubEntriesSnoc(labels: seq<string>, fs: seq<Folder>, j: nat, labelOf: string -> string)
    requires j < |fs|
    ensures SubEntries(labels, fs[..j + 1], labelOf)
      == SubEntries(labels, fs[..j], labelOf) + Entries(labels + [labelOf(fs[j].name)], fs[j], labelOf)
  {
    assert fs[..j + 1][..j] == fs[..j];
  }

  /** Walking subfolder j after the ones before it continues the import of the
      subfolders' entries; an error there is where that import stops. */
  lemma AfterSubfolder(start: Imported, labels: seq<string>, fs: seq<Folder>, j: nat, env: ImportEnv)
    requires j < |fs|
    ensures var lo := env.labelOf;
      var r := Import(Import(start, SubEntries(labels, fs[..j], lo), env), Entries(labels + [lo(fs[j].name)], fs[j], lo), env);
      && r == Import(start, SubEntries(labels, fs[..j + 1], lo), env)
      && (r.err.Some? ==> Import(start, SubEntries(labels, fs, lo), env) == r)
  {
    var lo := env.labelOf;
    var done := SubEntries(labels, fs[..j], lo);
    var deeper := Entries(labels + [lo(fs[j].name)], fs[j], lo);
    var later := SubEntries(labels, fs[j + 1..], lo);
    var upTo := SubEntries(labels, fs[..j + 1], lo);
    var all := SubEntries(labels, fs, lo);
    assert upTo == done + deeper by {
      SubEntriesSnoc(labels, fs, j, lo);
    }
    assert all == upTo + later by {
      SubEntriesSplit(labels, fs, j + 1, lo);
    }
    ContinueImport(start, done, deeper, later, upTo, all, env);
  }

  lemma SubEntriesSplit(labels: seq<string>, fs: seq<Folder>, k: nat, labelOf: string -> string)
    requires k <= |fs|
    ensures SubEntries(labels, fs, labelOf) == SubEntries(labels, fs[..k], labelOf) + SubEntries(labels, fs[k..], labelOf)
  {
    SplitConcat(fs, k);
    SubEntriesAppend(labels, fs[..k], fs[k..], labelOf);
  }

  lemma SplitConcat<T>(s: seq<T>, k: nat)
    requires k <= |s|
    ensures s[..k] + s[k..] == s
  {
  }

  /** Importing b after a is importing a + b; an error there is final. */
  lemma ContinueImport(start: Imported, a: seq<Entry>, b: seq<Entry>, c: seq<Entry>,
                       ab: seq<Entry>, abc: seq<Entry>, env: ImportEnv)
    requires ab == a + b && abc == ab + c
    ensures Import(Import(start, a, env), b, env) == Import(start, ab, env)
    ensures Import(start, ab, env).err.Some? ==> Import(start, abc, env) == Import(start, ab, env)
  {
    ImportAppend(start, a, b, env);
    if Import(start, ab, env).err.Some? {
      StopsAfter(start, ab, c, env);
    }
  }

  // ---------------------------------------------------------------------------
  // What the tests observe

  /** A bookmark without a valid url, met while no error is set, ends the import with
      an error. */
  lemma InvalidUrlFails(s: Imported, es: seq<Entry>, i: nat, env: ImportEnv)
    requires s.err.None? && i < |es| && !IsRequestUri(es[i].mark.url)
    ensures Import(s, es, env).err.Some?
  {
    ImportPrefixSnoc(s, es, i, env);
    SaveFails(Import(s, es[..i], env), es[i], env);
    ImportPrefixFails(s, es, i + 1, env);
  }

  lemma ImportPrefixSnoc(s: Imported, es: seq<Entry>, i: nat, env: ImportEnv)
    requires i < |es|
    ensures Import(s, es[..i + 1], env) == Save(Import(s, es[..i], env), es[i], env)
  {
    assert es[..i + 1][..i] == es[..i];
  }

  /** An error in a prefix of the entries is the error of the whole import. */
  lemma ImportPrefixFails(s: Imported, es: seq<Entry>, k: nat, env: ImportEnv)
    requires k <= |es| && Import(s, es[..k], env).err.Some?
    ensures Import(s, es, env) == Import(s, es[..k], env)
  {
    StopsAfter(s, es[..k], es[k..], env);
    assert es[..k] + es[k..] == es;
  }

  lemma SaveFails(r: Imported, e: Entry, env: ImportEnv)
    requires r.err.Some? || !IsRequestUri(e.mark.url)
    ensures Save(r, e, env).err.Some?
  {
  }

  /** The bookmark of the error test: a title and no url. Whatever the environment, the
      walk reports an error. */
  lemma MissingUrlIsAnError(s: Imported, env: ImportEnv)
    requires s.err.None?
    ensures Import(s, Entries([], Folder("", [Mark("invalid labels bookmark", "")], []), env.labelOf), env).err.Some?
  {
    var m := Mark("invalid labels bookmark", "");
    var f := Folder("", [m], []);
    FolderEntries([], f, m, [], env.labelOf);
    InvalidUrlFails(s, Entries([], f, env.labelOf), 0, env);
  }

  /** The decision never refuses a bookmark. */
  ghost predicate NeverRefuses(env: ImportEnv) {
    forall lines, b :: !env.admit(lines, b).Refuse?
  }

  /** When the decision never refuses, the import fails exactly when some bookmark has
      no valid url. */
  lemma {:induction false} FailsIffInvalidUrl(s: Imported, es: seq<Entry>, env: ImportEnv)
    requires s.err.None? && NeverRefuses(env)
    ensures Import(s, es, env).err.Some? <==> exists i :: 0 <= i < |es| && !IsRequestUri(es[i].mark.url)
    decreases |es|
  {
    if es != [] {
      var init, last := es[..|es| - 1], es[|es| - 1];
      FailsIffInvalidUrl(s, init, env);
      if exists i :: 0 <= i < |es| && !IsRequestUri(es[i].mark.url) {
        var i :| 0 <= i < |es| && !IsRequestUri(es[i].mark.url);
        InvalidUrlFails(s, es, i, env);
      } else {
        forall i | 0 <= i < |init|
          ensures IsRequestUri(init[i].mark.url)
        {
          assert init[i] == es[i];
        }
        assert !exists i :: 0 <= i < |init| && !IsRequestUri(init[i].mark.url);
        assert IsRequestUri(es[|es| - 1].mark.url);
        var r := Import(s, init, env);
        assert Import(s, es, env) == Save(r, last, env);
        SaveSucceeds(r, last, env);
      }
    }
  }

  lemma SaveSucceeds(r: Imported, e: Entry, env: ImportEnv)
    requires r.err.None? && IsRequestUri(e.mark.url) && NeverRefuses(env)
    ensures Save(r, e, env).err.None?
  {
    var b := SaveOfValid(r, e, env);
    assert !env.admit(FileLines(r.files, e.file), b).Refuse?;
  }

  /** A bookmark with a valid url, met while no error is set, is built by NewBookmark and
      then placed. */
  lemma SaveOfValid(r: Imported, e: Entry, env: ImportEnv) returns (b: Bookmark)
    requires r.err.None? && IsRequestUri(e.mark.url)
    ensures NewBookmark(e.mark.url, [WithTitle(e.mark.title)], env.gen(r.issued), env.page) == Ok(b)
    ensures Save(r, e, env) == Place(r, e.file, String(b), env.admit(FileLines(r.files, e.file), b))
  {
    b := NewBookmark(e.mark.url, [WithTitle(e.mark.title)], env.gen(r.issued), env.page).value;
  }

  /** One bookmark changes at most its own label file, and only by adding lines. */
  lemma SaveTouchesOnlyItsFile(r: Imported, e: Entry, env: ImportEnv)
    ensures var r' := Save(r, e, env);
      && (forall f :: f != e.file ==> (f in r'.files <==> f in r.files) && FileLines(r'.files, f) == FileLines(r.files, f))
      && FileLines(r.files, e.file) <= FileLines(r'.files, e.file)
  {
    if r.err.None? && IsRequestUri(e.mark.url) {
      var b := SaveOfValid(r, e, env);
      PlaceTouchesOnlyItsFile(r, e.file, String(b), env.admit(FileLines(r.files, e.file), b));
    }
  }

  lemma PlaceTouchesOnlyItsFile(r: Imported, file: string, line: string, a: Admission)
    ensures var r' := Place(r, file, line, a);
      && (forall f :: f != file ==> (f in r'.files <==> f in r.files) && FileLines(r'.files, f) == FileLines(r.files, f))
      && FileLines(r.files, file) <= FileLines(r'.files, file)
  {
  }

  /** Every label file the import creates is the file of one of the entries. */
  lemma {:induction false} NoStrayFiles(s: Imported, es: seq<Entry>, env: ImportEnv)
    ensures forall f :: f in Import(s, es, env).files && f !in s.files ==>
      exists i :: 0 <= i < |es| && es[i].file == f
    decreases |es|
  {
    if es != [] {
      var init, last := es[..|es| - 1], es[|es| - 1];
      var r := Import(s, init, env);
      assert Import(s, es, env) == Save(r, last, env);
      NoStrayFiles(s, init, env);
      SaveTouchesOnlyItsFile(r, last, env);
      forall f | f in Save(r, last, env).files && f !in s.files
        ensures exists i :: 0 <= i < |es| && es[i].file == f
      {
        if f != last.file {
          assert f in r.files;
          var i :| 0 <= i < |init| && init[i].file == f;
          assert es[i] == init[i];
        } else {
          assert es[|es| - 1].file == f;
        }
      }
    }
  }

  lemma PrefixTrans(a: seq<string>, b: seq<string>, c: seq<string>)
    requires a <= b && b <= c
    ensures a <= c
  {
    assert a == b[..|a|] && b == c[..|b|];
  }

  /** Label files only grow: what a file held before the import starts it afterwards. */
  lemma {:induction false} AppendOnly(s: Imported, es: seq<Entry>, env: ImportEnv)
    ensures forall f :: FileLines(s.files, f) <= FileLines(Import(s, es, env).files, f)
    decreases |es|
  {
    if es != [] {
      var init, last := es[..|es| - 1], es[|es| - 1];
      var r := Import(s, init, env);
      assert Import(s, es, env) == Save(r, last, env);
      AppendOnly(s, init, env);
      SaveTouchesOnlyItsFile(r, last, env);
      forall f ensures FileLines(s.files, f) <= FileLines(Save(r, last, env).files, f) {
        PrefixTrans(FileLines(s.files, f), FileLines(r.files, f), FileLines(Save(r, last, env).files, f));
      }
    }
  }

  /** A tree without bookmarks leaves the directory as it was. */
  lemma EmptyTreeCreatesNothing(s: Imported, labels: seq<string>, f: Folder, env: ImportEnv)
    requires NoMarks(f)
    ensures Import(s, Entries(labels, f, env.labelOf), env) == s
  {
    NoMarksNoEntries(labels, f, env.labelOf);
  }

  /** Every label a folder tree can produce: the folder's own and, one level deeper, its
      subfolders'. */
  function Labels(labels: seq<string>, f: Folder, labelOf: string -> string): set<string>
    decreases f, 1
  {
    {LabelName(labels)} + SubLabels(labels, f.subfolders, labelOf)
  }

  function SubLabels(labels: seq<string>, fs: seq<Folder>, labelOf: string -> string): set<string>
    decreases fs, 0
  {
    if fs == [] then {}
    else
      var last := fs[|fs| - 1];
      SubLabels(labels, fs[..|fs| - 1], labelOf) + Labels(labels + [labelOf(last.name)], last, labelOf)
  }

  lemma {:induction false} EntryFiles(labels: seq<string>, f: Folder, labelOf: string -> string)
    ensures forall e :: e in Entries(labels, f, labelOf) ==> e.file in Labels(labels, f, labelOf)
    decreases f, 1
  {
    SubEntryFiles(labels, f.subfolders, labelOf);
  }

  lemma {:induction false} SubEntryFiles(labels: seq<string>, fs: seq<Folder>, labelOf: string -> string)
    ensures forall e :: e in SubEntries(labels, fs, labelOf) ==> e.file in SubLabels(labels, fs, labelOf)
    decreases fs, 0
  {
    if fs != [] {
      var last := fs[|fs| - 1];
      SubEntryFiles(labels, fs[..|fs| - 1], labelOf);
      EntryFiles(labels + [labelOf(last.name)], last, labelOf);
    }
  }

  /** The walk creates no file but the labels of the tree's folders. */
  lemma OnlyFolderLabels(s: Imported, labels: seq<string>, f: Folder, env: ImportEnv)
    ensures forall k :: k in Import(s, Entries(labels, f, env.labelOf), env).files && k !in s.files ==>
      k in Labels(labels, f, env.labelOf)
  {
    var es := Entries(labels, f, env.labelOf);
    NoStrayFiles(s, es, env);
    EntryFiles(labels, f, env.labelOf);
    forall k | k in Import(s, es, env).files && k !in s.files
      ensures k in Labels(labels, f, env.labelOf)
    {
      var i :| 0 <= i < |es| && es[i].file == k;
      assert es[i] in es;
    }
  }

  /** The shape of the test document: top-level bookmarks in "root", a folder's in its label,
      a nested folder's in the two labels joined with ".". */
  lemma NestedFolderFiles(m0: Mark, m1: Mark, m2: Mark, top: string, outer: string, inner: string, labelOf: string -> string)
    requires labelOf(outer) == "gan" && labelOf(inner) == "research-papers"
    ensures Entries([], Folder(top, [m0], [Folder(outer, [m1], [Folder(inner, [m2], [])])]), labelOf)
      == [Entry("root", m0), Entry("gan", m1), Entry("gan.research-papers", m2)]
  {
    NestedShape(m0, m1, m2, top, outer, inner, labelOf, "gan", "research-papers");
    TwoLabels("gan", "research-papers", "gan.research-papers");
  }

  /** Three levels of folders with one bookmark each go to the labels [], [a] and [a, b]. */
  lemma NestedShape(m0: Mark, m1: Mark, m2: Mark, top: string, outer: string, inner: string,
                    labelOf: string -> string, a: string, b: string)
    requires labelOf(outer) == a && labelOf(inner) == b
    ensures Entries([], Folder(top, [m0], [Folder(outer, [m1], [Folder(inner, [m2], [])])]), labelOf)
      == [Entry(LabelName([]), m0), Entry(LabelName([a]), m1), Entry(LabelName([a, b]), m2)]
  {
    var deep := Folder(inner, [m2], []);
    var mid := Folder(outer, [m1], [deep]);
    var root := Folder(top, [m0], [mid]);
    assert [a] + [b] == [a, b];
    assert [] + [a] == [a];
    FolderEntries([a, b], deep, m2, [], labelOf);
    FolderEntries([a], mid, m1, [deep], labelOf);
    FolderEntries([], root, m0, [mid], labelOf);
  }

  /** Two label levels name the file "a.b". */
  lemma TwoLabels(a: string, b: string, ab: string)
    requires ab == a + StdLabelSeparator + b
    ensures LabelName([a, b]) == ab
  {
    NestedLabel([a], b);
    assert [a] + [b] == [a, b];
  }

  /** A folder with one bookmark and at most one subfolder. */
  lemma FolderEntries(labels: seq<string>, f: Folder, m: Mark, subs: seq<Folder>, labelOf: string -> string)
    requires f.bookmarks == [m] && f.subfolders == subs && |subs| <= 1
    ensures Entries(labels, f, labelOf) == [Entry(LabelName(labels), m)]
      + (if subs == [] then [] else Entries(labels + [labelOf(subs[0].name)], subs[0], labelOf))
  {
    assert Marks(LabelName(labels), [m]) == [Entry(LabelName(labels), m)];
    if subs != [] {
      assert subs[..|subs| - 1] == [];
      assert SubEntries(labels, subs, labelOf)
        == SubEntries(labels, [], labelOf) + Entries(labels + [labelOf(subs[0].name)], subs[0], labelOf);
    }
  }

  // ---------------------------------------------------------------------------
  // Document order

  /** The decision keeps every bookmark. */
  ghost predicate KeepsAll(env: ImportEnv) {
    forall lines, b :: env.admit(lines, b) == Keep
  }

  /** The bookmarks among the entries that go to one file, in order. */
  function MarksFor(es: seq<Entry>, file: string): (ms: seq<Mark>)
    ensures |ms| <= |es|
  {
    if es == [] then []
    else
      var last := es[|es| - 1];
      MarksFor(es[..|es| - 1], file) + (if last.file == file then [last.mark] else [])
  }

  /** The title NewBookmark gives an imported bookmark: the trimmed title, or the fetched
      one when that is empty. */
  function ImportedTitle(m: Mark, page: string -> Option<string>): string {
    var given := if m.title != "" then TrimSpace(m.title) else "";
    if given != "" then given else FetchTitle(m.url, page)
  }

  /** How each stored line begins: the quoted title, a space, the quoted url, a space. */
  function Head(m: Mark, page: string -> Option<string>): string {
    Quote(ImportedTitle(m, page)) + " " + Quote(m.url) + " "
  }

  predicate StartsWith(line: string, p: string) {
    |p| <= |line| && line[..|p|] == p
  }

  /** `after` is `before` followed by one line per bookmark of `ms`, each starting with
      that bookmark's head. */
  predicate Extends(before: seq<string>, after: seq<string>, ms: seq<Mark>, page: string -> Option<string>) {
    && |after| == |before| + |ms|
    && after[..|before|] == before
    && forall k :: 0 <= k < |ms| ==> StartsWith(after[|before| + k], Head(ms[k], page))
  }

  lemma ExtendsSnoc(before: seq<string>, after: seq<string>, ms: seq<Mark>, line: string, m: Mark, page: string -> Option<string>)
    requires Extends(before, after, ms, page) && StartsWith(line, Head(m, page))
    ensures Extends(before, after + [line], ms + [m], page)
  {
    var after', ms' := after + [line], ms + [m];
    assert after'[..|before|] == after[..|before|];
    forall k | 0 <= k < |ms'|
      ensures StartsWith(after'[|before| + k], Head(ms'[k], page))
    {
      if k < |ms| {
        assert after'[|before| + k] == after[|before| + k];
      }
    }
  }

  /** NewBookmark(url, WithTitle(title)) on a valid url keeps the url and takes the
      imported title. */
  lemma BuiltFromMark(m: Mark, id: Uuid, page: string -> Option<string>)
    requires IsRequestUri(m.url)
    ensures var b := NewBookmark(m.url, [WithTitle(m.title)], id, page).value;
      b.url == m.url && b.title == ImportedTitle(m, page)
  {
    LastTitleOfOne([WithTitle(m.title)], m.title);
  }

  lemma LastTitleOfOne(opts: seq<Opt>, t: string)
    requires opts == [WithTitle(t)]
    ensures LastTitle(opts) == if t != "" then Some(t) else None
  {
    assert opts[|opts| - 1] == WithTitle(t);
    assert opts[..|opts| - 1] == [];
  }

  /** The line written for such a bookmark starts with the mark's head. */
  lemma StoredLineHead(m: Mark, b: Bookmark, page: string -> Option<string>)
    requires b.url == m.url && b.title == ImportedTitle(m, page)
    ensures StartsWith(String(b), Head(m, page))
  {
    StringStartsWithTitleAndUrl(b);
  }

  /** When every bookmark is kept and every url is valid, nothing fails, and each label
      file gets, after its old lines, one line per bookmark of that label in document
      order, each starting with the quoted title and url. */
  lemma {:induction false} LinesInDocumentOrder(s: Imported, es: seq<Entry>, env: ImportEnv)
    requires s.err.None? && KeepsAll(env)
    requires forall i :: 0 <= i < |es| ==> IsRequestUri(es[i].mark.url)
    ensures var r := Import(s, es, env);
      && r.err.None?
      && r.issued == s.issued + |es|
      && forall f :: Extends(FileLines(s.files, f), FileLines(r.files, f), MarksFor(es, f), env.page)
    decreases |es|
  {
    if es == [] {
      forall f ensures Extends(FileLines(s.files, f), FileLines(s.files, f), [], env.page) {
        assert FileLines(s.files, f)[..|FileLines(s.files, f)|] == FileLines(s.files, f);
      }
    } else {
      var init, last := es[..|es| - 1], es[|es| - 1];
      forall i | 0 <= i < |init| ensures IsRequestUri(init[i].mark.url) {
        assert init[i] == es[i];
      }
      LinesInDocumentOrder(s, init, env);
      var r := Import(s, init, env);
      assert Import(s, es, env) == Save(r, last, env);
      var line := KeptLine(r, last, env);
      forall f ensures Extends(FileLines(s.files, f), FileLines(Save(r, last, env).files, f), MarksFor(es, f), env.page) {
        ExtendsStep(s, r, es, line, env, f);
      }
    }
  }

  /** The inductive step of LinesInDocumentOrder for one file: appending the last bookmark's
      line to its own file extends each file by the bookmarks meant for it. */
  lemma ExtendsStep(s: Imported, r: Imported, es: seq<Entry>, line: string, env: ImportEnv, f: string)
    requires es != []
    requires Extends(FileLines(s.files, f), FileLines(r.files, f), MarksFor(es[..|es| - 1], f), env.page)
    requires StartsWith(line, Head(es[|es| - 1].mark, env.page))
    ensures var last := es[|es| - 1];
      var files := r.files[last.file := FileLines(r.files, last.file) + [line]];
      Extends(FileLines(s.files, f), FileLines(files, f), MarksFor(es, f), env.page)
  {
    var init, last := es[..|es| - 1], es[|es| - 1];
    var files := r.files[last.file := FileLines(r.files, last.file) + [line]];
    MarksForSnoc(es, f);
    if f == last.file {
      assert FileLines(files, f) == FileLines(r.files, f) + [line];
      ExtendsSnoc(FileLines(s.files, f), FileLines(r.files, f), MarksFor(init, f), line, last.mark, env.page);
    } else {
      assert MarksFor(init, f) + [] == MarksFor(init, f);
      assert FileLines(files, f) == FileLines(r.files, f);
    }
  }

  lemma MarksForSnoc(es: seq<Entry>, file: string)
    requires es != []
    ensures var last := es[|es| - 1];
      MarksFor(es, file) == MarksFor(es[..|es| - 1], file) + (if last.file == file then [last.mark] else [])
  {
  }

  /** A kept bookmark with a valid url adds one line to its file, starting with its head. */
  lemma KeptLine(r: Imported, e: Entry, env: ImportEnv) returns (line: string)
    requires r.err.None? && KeepsAll(env) && IsRequestUri(e.mark.url)
    ensures StartsWith(line, Head(e.mark, env.page))
    ensures Save(r, e, env) == Imported(r.files[e.file := FileLines(r.files, e.file) + [line]], r.issued + 1, None)
  {
    var b := SaveOfValid(r, e, env);
    line := String(b);
    assert env.admit(FileLines(r.files, e.file), b) == Keep;
    BuiltFromMark(e.mark, env.gen(r.issued), env.page);
    StoredLineHead(e.mark, b, env.page);
  }

  /** A double quote inside a title is written as backslash and quote. */
  lemma QuoteInTitleEscaped(title: string, x: string, y: string)
    requires title == x + ['"'] + y && Verbatim(x) && Verbatim(y)
    ensures Quote(title) == ['"'] + x + ['\\', '"'] + y + ['"']
  {
    var q := ['"'];
    EscapeSplit(title, x, q, y);
    EscapeVerbatim(x);
    EscapeVerbatim(y);
    EscapeQuoteMark(q);
    Enclose(Quote(title), Escape(title), x, ['\\', '"'], y);
  }

  lemma Enclose(quoted: string, inner: string, a: string, b: string, c: string)
    requires quoted == ['"'] + inner + ['"'] && inner == a + b + c
    ensures quoted == ['"'] + a + b + c + ['"']
  {
  }

  lemma EscapeSplit(w: string, x: string, q: string, y: string)
    requires w == x + q + y
    ensures Escape(w) == Escape(x) + Escape(q) + Escape(y)
  {
    EscapeAppend(x + q, y);
    EscapeAppend(x, q);
  }

  lemma EscapeQuoteMark(q: string)
    requires q == ['"']
    ensures Escape(q) == ['\\', '"']
  {
    assert q[1..] == [];
  }

  // ---------------------------------------------------------------------------
  // The walk over a directory of label files

  /** The label files of the target directory and the ids drawn so far. */
  class LabelDir {
    var files: map<string, seq<string>>
    var issued: nat

    /** An empty directory. */
    constructor ()
      ensures files == map[] && issued == 0
    {
      files := map[];
      issued := 0;
    }

    /** One bookmark: build it, then keep it in its label file, skip it or refuse it. */
    method StoreEntry(e: Entry, env: ImportEnv) returns (err: Option<Error>)
      modifies this
      ensures Imported(files, issued, err) == Save(Imported(old(files), old(issued), None), e, env)
    {
      ghost var before := Imported(files, issued, None);
      var r := NewBookmark(e.mark.url, [WithTitle(e.mark.title)], env.gen(issued), env.page);
      if r.Err? {
        assert Save(before, e, env) == before.(err := Some(r.error));
        return Some(r.error);
      }
      var line, a := String(r.value), env.admit(FileLines(files, e.file), r.value);
      assert Save(before, e, env) == Place(before, e.file, line, a);
      err := PlaceLine(e.file, line, a);
    }

    /** The decision on a built bookmark, carried out on the directory. */
    method PlaceLine(file: string, line: string, a: Admission) returns (err: Option<Error>)
      modifies this
      ensures Imported(files, issued, err) == Place(Imported(old(files), old(issued), None), file, line, a)
    {
      issued := issued + 1;
      match a
      case Keep =>
        files := files[file := FileLines(files, file) + [line]];
        err := None;
      case Skip =>
        err := None;
      case Refuse(x) =>
        err := Some(x);
    }

    /** The bookmarks of one folder, in order, into one label file. */
    method StoreMarks(file: string, ms: seq<Mark>, env: ImportEnv) returns (err: Option<Error>)
      modifies this
      ensures Imported(files, issued, err) == Import(Imported(old(files), old(issued), None), Marks(file, ms), env)
    {
      ghost var start := Imported(files, issued, None);
      err := None;
      var i := 0;
      while i < |ms|
        invariant i <= |ms|
        invariant err == None
        invariant Imported(files, issued, None) == Import(start, Marks(file, ms[..i]), env)
      {
        MarksSnoc(file, ms, i);
        ImportSnoc(start, Marks(file, ms[..i]), Entry(file, ms[i]), env);
        err := StoreEntry(Entry(file, ms[i]), env);
        if err.Some? {
          MarksSplit(file, ms, i + 1);
          StopsAfter(start, Marks(file, ms[..i + 1]), Marks(file, ms[i + 1..]), env);
          return;
        }
        i := i + 1;
      }
      assert ms[..i] == ms;
    }

    /** parser.TraverseNode: the folder's own bookmarks go to the file of `labels`, then
        each subfolder is walked one label deeper; the first error ends the walk. */
    method TraverseNode(labels: seq<string>, node: Folder, env: ImportEnv) returns (err: Option<Error>)
      modifies this
      ensures Imported(files, issued, err)
        == Import(Imported(old(files), old(issued), None), Entries(labels, node, env.labelOf), env)
      decreases node, 1
    {
      ghost var start := Imported(files, issued, None);
      ghost var own := Marks(LabelName(labels), node.bookmarks);
      ghost var rest := SubEntries(labels, node.subfolders, env.labelOf);
      err := StoreMarks(LabelName(labels), node.bookmarks, env);
      if err.Some? {
        StopsAfter(start, own, rest, env);
        return;
      }
      err := TraverseSubfolders(labels, node.subfolders, env);
      ImportAppend(start, own, rest, env);
    }

    /** The subfolders in order, each one label level below `labels`. */
    method TraverseSubfolders(labels: seq<string>, fs: seq<Folder>, env: ImportEnv) returns (err: Option<Error>)
      modifies this
      ensures Imported(files, issued, err)
        == Import(Imported(old(files), old(issued), None), SubEntries(labels, fs, env.labelOf), env)
      decreases fs, 0
    {
      ghost var start := Imported(files, issued, None);
      err := None;
      var j := 0;
      while j < |fs|
        invariant j <= |fs|
        invariant err == None
        invariant Imported(files, issued, None) == Import(start, SubEntries(labels, fs[..j], env.labelOf), env)
      {
        err := TraverseNode(labels + [env.labelOf(fs[j].name)], fs[j], env);
        AfterSubfolder(start, labels, fs, j, env);
        if err.Some? {
          return;
        }
        j := j + 1;
      }
      assert fs[..j] == fs;
    }
  }
}
