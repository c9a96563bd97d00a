/** viewCmd.handle: load a label file, let the interactive view edit the list, and on a
    confirmed change rewrite the file and remove the archives of deleted bookmarks. */
module View {
  import opened Errors
  import opened Uuids
  import opened Bookmarks
  import opened LineCodec
  import opened Files

  // ---------------------------------------------------------------------------
  // bufio.ScanLines

  /** A line loses one trailing carriage return. */
  function DropCR(s: string): (r: string)
    ensures s != [] && s[|s| - 1] == '\r' ==> r == s[..|s| - 1]
    ensures !(s != [] && s[|s| - 1] == '\r') ==> r == s
  {
    if s != [] && s[|s| - 1] == '\r' then s[..|s| - 1] else s
  }

  function FirstNewline(t: string): (k: nat)
    requires '\n' in t
    ensures k < |t| && t[k] == '\n' && '\n' !in t[..k]
  {
    if t[0] == '\n' then 0
    else
      assert t == [t[0]] + t[1..];
      var k := 1 + FirstNewline(t[1..]);
      assert t[..k] == [t[0]] + t[1..][..k - 1];
      k
  }

  /** The lines a bufio.Scanner yields: split at each newline, without a final empty line
      when the text ends in a newline, each line without its trailing carriage return. */
  function Lines(t: string): (ls: seq<string>)
    decreases |t|
  {
    if t == [] then []
    else if '\n' !in t then [DropCR(t)]
    else
      var k := FirstNewline(t);
      [DropCR(t[..k])] + Lines(t[k + 1..])
  }

  /** A newline-free line that does not end in a carriage return comes back as itself. */
  lemma LinesOfLine(r: string, rest: string)
    requires '\n' !in r && (r == [] || r[|r| - 1] != '\r')
    ensures Lines(r + "\n" + rest) == [r] + Lines(rest)
  {
    var t := r + "\n" + rest;
    assert t[|r|] == '\n';
    var k := FirstNewline(t);
    assert t[..|r|] == r;
    assert k == |r|;
    assert t[..k] == r;
    assert t[k + 1..] == rest;
  }

  // ---------------------------------------------------------------------------
  // The file as handle rewrites it

  /** Texts laid end to end. */
  function Concat(ss: seq<string>): string {
    if ss == [] then [] else Concat(ss[..|ss| - 1]) + ss[|ss| - 1]
  }

  lemma {:induction false} ConcatCons(s: string, ss: seq<string>)
    ensures Concat([s] + ss) == s + Concat(ss)
    decreases |ss|
  {
    if ss == [] {
      assert [s] + ss == [s];
      assert [s][..0] == [];
    } else {
      var init := ss[..|ss| - 1];
      assert ([s] + ss)[..|ss|] == [s] + init;
      ConcatCons(s, init);
    }
  }

  /** Each line followed by its newline. */
  function Terminated(rs: seq<string>): (ts: seq<string>)
    ensures |ts| == |rs| && forall i :: 0 <= i < |rs| ==> ts[i] == rs[i] + "\n"
  {
    seq(|rs|, i requires 0 <= i < |rs| => rs[i] + "\n")
  }

  /** Newline-free lines, none ending in a carriage return, each written with its
      newline, are what the scanner reads back. */
  lemma {:induction false} LinesOfTerminated(rs: seq<string>)
    requires forall i :: 0 <= i < |rs| ==> '\n' !in rs[i] && (rs[i] == [] || rs[i][|rs[i]| - 1] != '\r')
    ensures Lines(Concat(Terminated(rs))) == rs
    decreases |rs|
  {
    if rs != [] {
      var r, rest := rs[0], rs[1..];
      var tail := Concat(Terminated(rest));
      assert Concat(Terminated(rs)) == r + "\n" + tail by {
        assert Terminated(rs) == [r + "\n"] + Terminated(rest);
        ConcatCons(r + "\n", Terminated(rest));
      }
      assert Lines(tail) == rest by {
        assert forall i :: 0 <= i < |rest| ==> rest[i] == rs[i + 1];
        LinesOfTerminated(rest);
      }
      LinesOfLine(r, tail);
      assert rs == [r] + rest;
    }
  }

  /** The line String writes for each bookmark. */
  function Written(bs: seq<Bookmark>): (ws: seq<string>)
    ensures |ws| == |bs| && forall i :: 0 <= i < |bs| ==> ws[i] == String(bs[i])
  {
    seq(|bs|, i requires 0 <= i < |bs| => String(bs[i]))
  }

  /** The text of a file holding the lines of `bs`, in order. */
  function Committed(bs: seq<Bookmark>): string {
    Concat(Written(bs))
  }

  lemma CommittedPrefix(bs: seq<Bookmark>, k: nat)
    requires k <= |bs|
    ensures Committed(bs[..k]) == Concat(Written(bs)[..k])
  {
    assert Written(bs[..k]) == Written(bs)[..k];
  }

  lemma ConcatSnoc(ss: seq<string>, i: nat)
    requires i < |ss|
    ensures Concat(ss[..i + 1]) == Concat(ss[..i]) + ss[i]
  {
    assert ss[..i + 1][..i] == ss[..i];
  }

  /** The records of `bs`, one per line. */
  function Records(bs: seq<Bookmark>): (rs: seq<string>)
    ensures |rs| == |bs| && forall i :: 0 <= i < |bs| ==> rs[i] == Record(bs[i])
  {
    seq(|bs|, i requires 0 <= i < |bs| => Record(bs[i]))
  }

  /** The rewritten file reads back as one line per bookmark, each its record. */
  lemma LinesOfCommitted(bs: seq<Bookmark>)
    ensures Lines(Committed(bs)) == Records(bs)
  {
    var rs := Records(bs);
    forall i | 0 <= i < |bs|
      ensures '\n' !in rs[i] && (rs[i] == [] || rs[i][|rs[i]| - 1] != '\r')
      ensures Written(bs)[i] == Terminated(rs)[i]
    {
      RecordHasNoNewline(bs[i]);
      RecordEnds(bs[i]);
      var w := String(bs[i]);
      assert w == w[..|w| - 1] + [w[|w| - 1]];
    }
    assert Written(bs) == Terminated(rs);
    LinesOfTerminated(rs);
  }

  // ---------------------------------------------------------------------------
  // Loading

  /** BookmarkLine as handle calls it on the k-th line: NewBookmark draws gen(k) as the
      id it would generate. */
  type Parser = (string, nat) -> Result<Bookmark>

  function LineParser(gen: nat -> Uuid, page: string -> Option<string>): Parser {
    (l: string, k: nat) => ParseLine(l, gen(k), page)
  }

  lemma LineParserApplies(gen: nat -> Uuid, page: string -> Option<string>, l: string, k: nat)
    ensures LineParser(gen, page)(l, k) == ParseLine(l, gen(k), page)
  {
  }

  predicate ParsesUpTo(lines: seq<string>, parse: Parser, k: nat, j: nat)
    requires j <= |lines|
  {
    forall m :: 0 <= m < j ==> parse(lines[m], k + m).Ok?
  }

  /** The lines parsed in order, counting from `k`; the first line that does not parse
      stops the load with its error. */
  function Load(lines: seq<string>, parse: Parser, k: nat): (r: Result<seq<Bookmark>>)
    ensures r.Ok? <==> ParsesUpTo(lines, parse, k, |lines|)
    ensures r.Ok? ==> (|r.value| == |lines| &&
      forall j :: 0 <= j < |lines| ==> Ok(r.value[j]) == parse(lines[j], k + j))
    ensures r.Err? ==> exists j :: 0 <= j < |lines| && ParsesUpTo(lines, parse, k, j) && parse(lines[j], k + j) == Err(r.error)
    decreases |lines|
  {
    if lines == [] then Ok([])
    else
      match parse(lines[0], k)
      case Err(e) =>
        assert ParsesUpTo(lines, parse, k, 0);
        Err(e)
      case Ok(b) =>
        var rest := Load(lines[1..], parse, k + 1);
        match rest
        case Err(e) =>
          ghost var j :| 0 <= j < |lines| - 1 && ParsesUpTo(lines[1..], parse, k + 1, j)
            && parse(lines[1..][j], k + 1 + j) == Err(e);
          LoadShift(lines, parse, k, j);
          assert parse(lines[j + 1], k + (j + 1)) == Err(e);
          Err(e)
        case Ok(bs) =>
          LoadShift(lines, parse, k, |lines| - 1);
          assert forall j :: 0 < j < |lines| ==> lines[j] == lines[1..][j - 1];
          Ok([b] + bs)
  }

  /** A parsing prefix of the lines after the first, counting from k + 1, extends by the
      first line. */
  lemma LoadShift(lines: seq<string>, parse: Parser, k: nat, j: nat)
    requires lines != [] && parse(lines[0], k).Ok?
    requires j < |lines| && ParsesUpTo(lines[1..], parse, k + 1, j)
    ensures ParsesUpTo(lines, parse, k, j + 1)
  {
    forall m | 0 <= m < j + 1
      ensures parse(lines[m], k + m).Ok?
    {
      if m > 0 {
        assert lines[m] == lines[1..][m - 1];
        assert parse(lines[1..][m - 1], k + 1 + (m - 1)).Ok?;
      }
    }
  }

  /** The first line that does not parse decides the error. */
  lemma LoadFirstError(lines: seq<string>, parse: Parser, k: nat, j: nat)
    requires j < |lines| && ParsesUpTo(lines, parse, k, j) && parse(lines[j], k + j).Err?
    ensures Load(lines, parse, k) == Err(parse(lines[j], k + j).error)
  {
    var r := Load(lines, parse, k);
    assert r.Err? by {
      assert !parse(lines[j], k + j).Ok?;
    }
    var i :| 0 <= i < |lines| && ParsesUpTo(lines, parse, k, i) && parse(lines[i], k + i) == Err(r.error);
    assert i == j;
    assert r == Err(parse(lines[j], k + j).error);
  }

  /** Reading back a rewritten file gives the list that was written, whatever ids the
      reader would have generated, provided every bookmark is storable. */
  lemma ReloadAfterCommit(bs: seq<Bookmark>, gen: nat -> Uuid, page: string -> Option<string>, k: nat)
    requires forall i :: 0 <= i < |bs| ==> Storable(bs[i])
    ensures Load(Lines(Committed(bs)), LineParser(gen, page), k) == Ok(bs)
  {
    LinesOfCommitted(bs);
    var rs := Records(bs);
    var parse := LineParser(gen, page);
    forall j | 0 <= j < |rs|
      ensures parse(rs[j], k + j) == Ok(bs[j])
    {
      RoundTrip(bs[j], gen(k + j), page);
      LineParserApplies(gen, page, rs[j], k + j);
    }
    assert ParsesUpTo(rs, parse, k, |rs|);
    var r := Load(rs, parse, k);
    assert r.value == bs;
  }

  // ---------------------------------------------------------------------------
  // The view's result and the archives

  /** The operations the view logs; only Delete matters to handle. */
  datatype Operation = Delete | Other
  datatype Action = Action(operation: Operation, target: string)

  /** What the interactive view hands back: whether anything changed, the final list and
      the log of actions. */
  datatype Session = Session(dirty: bool, bookmarks: seq<Bookmark>, actions: seq<Action>)

  /** What handle gets from outside: the view run on the loaded list, the answer to the
      confirmation prompt, the ids NewBookmark generates, the title fetch, and the archive
      path of a target. */
  datatype Env = Env(
    ui: seq<Bookmark> -> Result<Session>,
    confirm: bool,
    gen: nat -> Uuid,
    page: string -> Option<string>,
    archivePath: string -> string)

  /** One action of the sweep: a Delete removes its archive unless the removal fails. */
  function SweepOne(paths: set<string>, locked: set<string>, a: Action, archivePath: string -> string): set<string> {
    if a.operation == Delete && archivePath(a.target) !in locked then paths - {archivePath(a.target)} else paths
  }

  function Sweep(paths: set<string>, locked: set<string>, actions: seq<Action>, archivePath: string -> string): (r: set<string>)
    ensures r <= paths
  {
    if actions == [] then paths
    else SweepOne(Sweep(paths, locked, actions[..|actions| - 1], archivePath), locked, actions[|actions| - 1], archivePath)
  }

  predicate Deleted(actions: seq<Action>, archivePath: string -> string, p: string) {
    exists i :: 0 <= i < |actions| && actions[i].operation == Delete && archivePath(actions[i].target) == p
  }

  /** The sweep removes exactly the archives of the deleted targets that can be removed. */
  lemma {:induction false} SweepRemovesDeleted(paths: set<string>, locked: set<string>, actions: seq<Action>,
                                               archivePath: string -> string, p: string)
    ensures p in Sweep(paths, locked, actions, archivePath) <==>
      p in paths && (p in locked || !Deleted(actions, archivePath, p))
    decreases |actions|
  {
    if actions != [] {
      var init, a := actions[..|actions| - 1], actions[|actions| - 1];
      SweepRemovesDeleted(paths, locked, init, archivePath, p);
      if Deleted(actions, archivePath, p) && !Deleted(init, archivePath, p) {
        var i :| 0 <= i < |actions| && actions[i].operation == Delete && archivePath(actions[i].target) == p;
        assert i == |init|;
      }
      if Deleted(init, archivePath, p) {
        var i :| 0 <= i < |init| && init[i].operation == Delete && archivePath(init[i].target) == p;
        assert actions[i] == init[i];
      }
      if a.operation == Delete && archivePath(a.target) == p {
        assert actions[|actions| - 1] == a;
      }
    }
  }

  class ArchiveDir {
    var paths: set<string>
    /** Archives whose removal fails. */
    const locked: set<string>

    constructor (paths: set<string>, locked: set<string>)
      ensures this.paths == paths && this.locked == locked
    {
      this.paths := paths;
      this.locked := locked;
    }

    /** os.Remove: fails on a missing or a locked archive. */
    method Remove(p: string) returns (err: Option<Error>)
      modifies this
      ensures paths == if p in locked then old(paths) else old(paths) - {p}
      ensures err.None? <==> p in old(paths) && p !in locked
    {
      if p in locked || p !in paths {
        return Some(Io(IoOp.Remove));
      }
      paths := paths - {p};
      return None;
    }
  }

  // ---------------------------------------------------------------------------
  // The session

  /** The state handle leaves behind: the file's text, the archives, the error. */
  datatype End = End(content: string, paths: set<string>, err: Option<Error>)

  /** How many of `n` writes succeed before the first failing one, the handle having
      made `done` writes already. */
  function Succeeding(faults: Faults, done: nat, n: nat): (k: nat)
    ensures k <= n
    ensures forall j :: done <= j < done + k ==> !WriteFails(faults, j)
    ensures k < n ==> WriteFails(faults, done + k)
  {
    match faults.failWritesFrom
    case None =>
      assert forall j :: !WriteFails(faults, j);
      n
    case Some(from) =>
      assert forall j: nat :: WriteFails(faults, j) <==> j >= from;
      if from <= done then 0 else if from - done < n then from - done else n
  }

  /** Everything after the load. */
  function AfterLoad(loaded: seq<Bookmark>, content: string, faults: Faults, done: nat,
                     paths: set<string>, locked: set<string>, env: Env): End
  {
    match env.ui(loaded)
    case Err(e) => End(content, paths, Some(e))
    case Ok(s) =>
      if !s.dirty || !env.confirm then End(content, paths, None)
      else if faults.truncate then End(content, paths, Some(Io(IoOp.Truncate)))
      else if faults.seek then End([], paths, Some(Io(IoOp.Seek)))
      else
        var k := Succeeding(faults, done, |s.bookmarks|);
        if k < |s.bookmarks| then End(Committed(s.bookmarks[..k]), paths, Some(Io(IoOp.Write)))
        else End(Committed(s.bookmarks), Sweep(paths, locked, s.actions, env.archivePath), None)
  }

  /** The bookmarks handle loads from the handle's text. */
  function Loaded(content: string, offset: nat, faults: Faults, env: Env): Result<seq<Bookmark>> {
    Load(Lines(Readable(content, offset, faults)), LineParser(env.gen, env.page), 0)
  }

  /** handle, apart from closing the file. */
  function Reconcile(content: string, offset: nat, faults: Faults, done: nat,
                     paths: set<string>, locked: set<string>, env: Env): End
  {
    match Loaded(content, offset, faults, env)
    case Err(e) => End(content, paths, Some(e))
    case Ok(loaded) => AfterLoad(loaded, content, faults, done, paths, locked, env)
  }

  /** The file and the archives change only after the view reports a change, the user
      confirms it and the truncation succeeds. */
  lemma NothingChangesUnlessConfirmed(content: string, offset: nat, faults: Faults, done: nat,
                                      paths: set<string>, locked: set<string>, env: Env)
    ensures var r := Reconcile(content, offset, faults, done, paths, locked, env);
      var loaded := Loaded(content, offset, faults, env);
      (r.content != content || r.paths != paths) ==>
        && loaded.Ok? && env.ui(loaded.value).Ok?
        && env.ui(loaded.value).value.dirty && env.confirm && !faults.truncate
  {
  }

  /** A line that does not parse is returned before the view runs; nothing changes. */
  lemma BadLineStopsBeforeView(content: string, offset: nat, faults: Faults, done: nat,
                               paths: set<string>, locked: set<string>, env: Env, j: nat)
    requires var lines := Lines(Readable(content, offset, faults));
      j < |lines| && ParseLine(lines[j], env.gen(j), env.page).Err?
      && forall m :: 0 <= m < j ==> ParseLine(lines[m], env.gen(m), env.page).Ok?
    ensures var lines := Lines(Readable(content, offset, faults));
      Reconcile(content, offset, faults, done, paths, locked, env)
        == End(content, paths, Some(ParseLine(lines[j], env.gen(j), env.page).error))
  {
    var lines := Lines(Readable(content, offset, faults));
    var parse := LineParser(env.gen, env.page);
    assert ParsesUpTo(lines, parse, 0, j) by {
      forall m | 0 <= m < j
        ensures parse(lines[m], 0 + m).Ok?
      {
        LineParserApplies(env.gen, env.page, lines[m], 0 + m);
      }
    }
    LineParserApplies(env.gen, env.page, lines[j], 0 + j);
    LoadFirstError(lines, parse, 0, j);
  }

  /** A confirmed change with no failing operation leaves the file holding the final
      list, which reads back as that list when every bookmark is storable, and the
      archives swept. */
  lemma CommitRewritesFile(content: string, offset: nat, faults: Faults, done: nat,
                           paths: set<string>, locked: set<string>, env: Env, loaded: seq<Bookmark>, s: Session)
    requires Loaded(content, offset, faults, env) == Ok(loaded)
    requires env.ui(loaded) == Ok(s) && s.dirty && env.confirm
    requires !faults.truncate && !faults.seek && faults.failWritesFrom.None?
    ensures var r := Reconcile(content, offset, faults, done, paths, locked, env);
      && r.err.None?
      && r.content == Committed(s.bookmarks)
      && Lines(r.content) == Records(s.bookmarks)
      && r.paths == Sweep(paths, locked, s.actions, env.archivePath)
  {
    LinesOfCommitted(s.bookmarks);
  }

  /** A failed write returns at once: the file holds the lines written before it, no
      archive is removed, and a write fails exactly when one of the writes the rewrite
      needs is set to fail. */
  lemma WriteFailureKeepsPrefix(content: string, offset: nat, faults: Faults, done: nat,
                                paths: set<string>, locked: set<string>, env: Env, loaded: seq<Bookmark>, s: Session)
    requires Loaded(content, offset, faults, env) == Ok(loaded)
    requires env.ui(loaded) == Ok(s) && s.dirty && env.confirm
    requires !faults.truncate && !faults.seek
    ensures var r := Reconcile(content, offset, faults, done, paths, locked, env);
      && (r.err == Some(Io(IoOp.Write)) <==> exists j :: done <= j < done + |s.bookmarks| && WriteFails(faults, j))
      && (r.err == Some(Io(IoOp.Write)) ==>
            && r.paths == paths
            && exists k :: 0 <= k < |s.bookmarks| && r.content == Committed(s.bookmarks[..k])
                 && WriteFails(faults, done + k) && forall j :: done <= j < done + k ==> !WriteFails(faults, j))
  {
    var bs := s.bookmarks;
    var k := Succeeding(faults, done, |bs|);
    if k < |bs| {
      assert Committed(bs[..k]) == Reconcile(content, offset, faults, done, paths, locked, env).content;
    } else {
      assert forall j :: done <= j < done + |bs| ==> !WriteFails(faults, j);
    }
  }

  /** An archive disappears only when a Delete action names it. */
  lemma ArchivesRemovedOnlyByDelete(content: string, offset: nat, faults: Faults, done: nat,
                                    paths: set<string>, locked: set<string>, env: Env, p: string)
    requires p in paths
    ensures var r := Reconcile(content, offset, faults, done, paths, locked, env);
      p !in r.paths ==>
        && r.err.None? && p !in locked
        && var loaded := Loaded(content, offset, faults, env);
        && loaded.Ok? && env.ui(loaded.value).Ok?
        && Deleted(env.ui(loaded.value).value.actions, env.archivePath, p)
  {
    var r := Reconcile(content, offset, faults, done, paths, locked, env);
    if p !in r.paths {
      var loaded := Loaded(content, offset, faults, env);
      var s := env.ui(loaded.value).value;
      SweepRemovesDeleted(paths, locked, s.actions, env.archivePath, p);
    }
  }

  /** A read fault is not reported: bufio.Scanner hands over the lines read before it,
      the last one even without its newline, and handle never asks for the scanner's
      error, so the view sees the file as if it ended where the fault struck. */
  lemma ReadFaultEndsText(content: string, offset: nat, faults: Faults, env: Env, n: nat)
    requires faults.readFailsAfter == Some(n) && offset + n <= |content|
    ensures Loaded(content, offset, faults, env)
         == Loaded(content[..offset + n], offset, faults.(readFailsAfter := None), env)
  {
    var cut := content[..offset + n];
    var whole := faults.(readFailsAfter := None);
    assert Readable(content, offset, faults) == Readable(cut, offset, whole) by {
      assert content[offset..offset + n] == cut[offset..];
    }
    SameTextSameLoad(content, offset, faults, cut, offset, whole, env);
  }

  lemma SameTextSameLoad(c1: string, o1: nat, f1: Faults, c2: string, o2: nat, f2: Faults, env: Env)
    requires Readable(c1, o1, f1) == Readable(c2, o2, f2)
    ensures Loaded(c1, o1, f1, env) == Loaded(c2, o2, f2, env)
  {
  }

  /** A read that fails before delivering anything shows the view an empty list. */
  lemma ReadFaultLoadsNothing(content: string, offset: nat, faults: Faults, done: nat,
                              paths: set<string>, locked: set<string>, env: Env)
    requires faults.readFailsAfter == Some(0)
    ensures Reconcile(content, offset, faults, done, paths, locked, env)
         == AfterLoad([], content, faults, done, paths, locked, env)
  {
  }

  // ---------------------------------------------------------------------------
  // handle as the source runs it

  /** The scanner loop: parse each line, stopping at the first that does not parse.
      handle passes BookmarkLine, which Run gives as LineParser. */
  method LoadLines(lines: seq<string>, parse: Parser) returns (r: Result<seq<Bookmark>>)
    ensures r == Load(lines, parse, 0)
  {
    var bookmarks: seq<Bookmark> := [];
    var i := 0;
    while i < |lines|
      invariant 0 <= i <= |lines| && |bookmarks| == i
      invariant ParsesUpTo(lines, parse, 0, i)
      invariant forall j :: 0 <= j < i ==> parse(lines[j], 0 + j) == Ok(bookmarks[j])
    {
      var bk := parse(lines[i], i);
      if bk.Err? {
        LoadFirstError(lines, parse, 0, i);
        return Err(bk.error);
      }
      bookmarks := bookmarks + [bk.value];
      i := i + 1;
    }
    ghost var l := Load(lines, parse, 0);
    assert l.value == bookmarks;
    return Ok(bookmarks);
  }

  /** One turn of the rewrite loop: the i-th bookmark's line written at the end. */
  method WriteNext(fh: File, bs: seq<Bookmark>, i: nat) returns (err: Option<Error>)
    requires i < |bs| && fh.content == Concat(Written(bs)[..i]) && fh.offset == |fh.content|
    modifies fh
    ensures fh.writes == old(fh.writes) + 1 && fh.closed == old(fh.closed)
    ensures err == (if WriteFails(fh.faults, old(fh.writes)) then Some(Io(IoOp.Write)) else None)
    ensures err.Some? ==> fh.content == old(fh.content)
    ensures err.None? ==> fh.content == Concat(Written(bs)[..i + 1]) && fh.offset == |fh.content|
  {
    var line := String(bs[i]);
    OverwriteAtEnd(fh.content, line);
    err := fh.WriteString(line);
    ConcatSnoc(Written(bs), i);
  }

  /** Writes the final list from the start of the emptied file, stopping at the first
      failing write. */
  method Rewrite(fh: File, bs: seq<Bookmark>) returns (err: Option<Error>)
    requires fh.content == [] && fh.offset == 0
    modifies fh
    ensures var k := Succeeding(fh.faults, old(fh.writes), |bs|);
      && fh.content == Committed(bs[..k])
      && err == (if k < |bs| then Some(Io(IoOp.Write)) else None)
    ensures fh.closed == old(fh.closed)
  {
    ghost var k := Succeeding(fh.faults, fh.writes, |bs|);
    var i := 0;
    while i < |bs|
      invariant 0 <= i <= |bs| && i <= k
      invariant fh.content == Concat(Written(bs)[..i]) && fh.offset == |fh.content|
      invariant fh.writes == old(fh.writes) + i && fh.closed == old(fh.closed)
    {
      err := WriteNext(fh, bs, i);
      if err.Some? {
        assert i == k;
        CommittedPrefix(bs, i);
        return;
      }
      i := i + 1;
    }
    CommittedPrefix(bs, i);
    return None;
  }

  /** The archive sweep; a failed removal is ignored. */
  method SweepArchives(archives: ArchiveDir, actions: seq<Action>, archivePath: string -> string)
    modifies archives
    ensures archives.paths == Sweep(old(archives.paths), archives.locked, actions, archivePath)
  {
    var i := 0;
    while i < |actions|
      invariant 0 <= i <= |actions|
      invariant archives.paths == Sweep(old(archives.paths), archives.locked, actions[..i], archivePath)
    {
      assert actions[..i + 1][..i] == actions[..i];
      if actions[i].operation == Delete {
        var _ := archives.Remove(archivePath(actions[i].target));
      }
      i := i + 1;
    }
    assert actions[..i] == actions;
  }

  /** What handle does with the loaded list: show the view, and on a confirmed change
      empty the file, write the final list from the start and sweep the archives. */
  method Commit(fh: File, archives: ArchiveDir, loaded: seq<Bookmark>, env: Env) returns (err: Option<Error>)
    modifies fh, archives
    ensures var e := AfterLoad(loaded, old(fh.content), fh.faults, old(fh.writes),
                               old(archives.paths), archives.locked, env);
      fh.content == e.content && archives.paths == e.paths && err == e.err
    ensures fh.closed == old(fh.closed)
  {
    ghost var e := AfterLoad(loaded, fh.content, fh.faults, fh.writes, archives.paths, archives.locked, env);
    var state := env.ui(loaded);
    if state.Err? {
      return Some(state.error);
    }
    var view := state.value;
    if !view.dirty || !env.confirm {
      return None;
    }
    err := fh.Truncate(0);
    if err.Some? {
      return;
    }
    assert fh.content == [];
    err := fh.Rewind();
    if err.Some? {
      assert e == End([], old(archives.paths), Some(Io(IoOp.Seek)));
      return;
    }
    ghost var k := Succeeding(fh.faults, fh.writes, |view.bookmarks|);
    err := Rewrite(fh, view.bookmarks);
    if err.Some? {
      assert k < |view.bookmarks|;
      assert e == End(Committed(view.bookmarks[..k]), old(archives.paths), Some(Io(IoOp.Write)));
      return;
    }
    assert view.bookmarks[..k] == view.bookmarks;
    SweepArchives(archives, view.actions, env.archivePath);
    assert e == End(Committed(view.bookmarks), archives.paths, None);
    return None;
  }

  /** handle's body up to the deferred close. */
  method Run(fh: File, archives: ArchiveDir, env: Env) returns (err: Option<Error>)
    modifies fh, archives
    ensures var e := Reconcile(old(fh.content), old(fh.offset), fh.faults, old(fh.writes),
                              old(archives.paths), archives.locked, env);
      fh.content == e.content && archives.paths == e.paths && err == e.err
    ensures fh.closed == old(fh.closed)
  {
    var data, _ := fh.ReadAll();
    assert data == Readable(old(fh.content), old(fh.offset), fh.faults);
    var loaded := LoadLines(Lines(data), LineParser(env.gen, env.page));
    assert loaded == Loaded(old(fh.content), old(fh.offset), fh.faults, env);
    if loaded.Err? {
      return Some(loaded.error);
    }
    err := Commit(fh, archives, loaded.value, env);
  }

  /** viewCmd.handle: a failed open returns its error and touches nothing; otherwise the
      file is closed on every path and the close error joined to the result. */
  method Handle(open: Result<File>, archives: ArchiveDir, env: Env) returns (err: Option<Error>)
    modifies (if open.Ok? then {open.value} else {}), archives
    ensures open.Err? ==> err == Some(open.error) && archives.paths == old(archives.paths)
    ensures open.Ok? ==>
      var fh := open.value;
      var e := Reconcile(old(fh.content), old(fh.offset), fh.faults, old(fh.writes),
                         old(archives.paths), archives.locked, env);
      && fh.content == e.content && archives.paths == e.paths && fh.closed
      && err == Join(e.err, if fh.faults.close then Some(Io(IoOp.Close)) else None)
  {
    if open.Err? {
      return Some(open.error);
    }
    var fh := open.value;
    err := Run(fh, archives, env);
    var closeErr := fh.Close();
    err := Join(err, closeErr);
  }
}
