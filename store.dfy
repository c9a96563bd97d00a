/** Bookmark.Write: the duplicate pattern over a label file and the guarded append. */
module Store {
  import opened Errors
  import opened Text
  import opened Quoting
  import opened Bookmarks
  import opened Files

  /** `\s` in Go's regular expressions: tab, newline, form feed, carriage return, space. */
  predicate RegexSpace(c: char) {
    c == '\t' || c == '\n' || c == 12 as char || c == '\r' || c == ' '
  }

  /** Equal under the `(?i)` flag, with ASCII case folding. */
  predicate SameFold(a: string, b: string) {
    |a| == |b| && forall k :: 0 <= k < |a| ==> LowerAscii(a[k]) == LowerAscii(b[k])
  }

  /** The pattern `\s.URL.[\s|$]` matches at position i: a whitespace character, any
      character but a newline, the url in any case, any character but a newline, then a
      whitespace character, `|` or `$` (both literal inside the class). */
  predicate DupAt(c: string, url: string, i: nat) {
    && i + |url| + 4 <= |c|
    && RegexSpace(c[i])
    && c[i + 1] != '\n'
    && SameFold(c[i + 2..i + 2 + |url|], url)
    && c[i + 2 + |url|] != '\n'
    && (RegexSpace(c[i + 3 + |url|]) || c[i + 3 + |url|] == '|' || c[i + 3 + |url|] == '$')
  }

  /** exp.Match(content), searching the positions from `from` on. */
  function MatchFrom(c: string, url: string, from: nat): (r: bool)
    ensures r <==> exists i :: from <= i < |c| && DupAt(c, url, i)
    decreases |c| - from
  {
    if from >= |c| then false
    else if DupAt(c, url, from) then true
    else MatchFrom(c, url, from + 1)
  }

  /** Whether Write finds the url in the content. */
  function HasDuplicate(c: string, url: string): (r: bool)
    ensures r <==> exists i :: 0 <= i < |c| && DupAt(c, url, i)
  {
    MatchFrom(c, url, 0)
  }

  /** Bookmark.Write on a handle: rewind, read everything, refuse a duplicate, else write
      the line. After the read the offset is at the end, so the line is appended whether or
      not the handle was opened with O_APPEND. */
  method Write(b: Bookmark, rw: File) returns (err: Option<Error>)
    modifies rw
    ensures rw.faults.seek ==> err == Some(Io(IoOp.Seek)) && rw.content == old(rw.content)
    ensures !rw.faults.seek && rw.faults.readFailsAfter.Some? ==> err == Some(Io(IoOp.Read)) && rw.content == old(rw.content)
    ensures !rw.faults.seek && rw.faults.readFailsAfter.None? && HasDuplicate(old(rw.content), b.url) ==>
      err == Some(DuplicateBookmark(b.url)) && rw.content == old(rw.content)
    ensures !rw.faults.seek && rw.faults.readFailsAfter.None? && !HasDuplicate(old(rw.content), b.url) ==>
      if WriteFails(rw.faults, old(rw.writes))
      then err == Some(Io(IoOp.Write)) && rw.content == old(rw.content)
      else err == None && rw.content == old(rw.content) + String(b)
    ensures rw.closed == old(rw.closed)
  {
    err := rw.Rewind();
    if err.Some? {
      return;
    }
    var content;
    content, err := rw.ReadAll();
    if err.Some? {
      return;
    }
    if HasDuplicate(content, b.url) {
      return Some(DuplicateBookmark(b.url));
    }
    OverwriteAtEnd(rw.content, String(b));
    err := rw.WriteString(String(b));
  }

  /** The pattern finds a verbatim url written as `<space or newline>"url" `. */
  lemma DupAtQuoted(x: string, w: char, u: string, y: string)
    requires RegexSpace(w) && Verbatim(u)
    ensures DupAt(x + [w] + Quote(u) + " " + y, u, |x|)
  {
    EscapeVerbatim(u);
    DupAtEnclosed(x, w, u, ['"'] + u + ['"'], y);
  }

  lemma DupAtEnclosed(x: string, w: char, u: string, q: string, y: string)
    requires RegexSpace(w) && q == ['"'] + u + ['"']
    ensures DupAt(x + [w] + q + " " + y, u, |x|)
  {
    var c := x + [w] + q + " " + y;
    var m := [w, '"'] + u + ['"', ' '];
    assert c == x + m + y;
    assert c[|x|..|x| + |m|] == m;
    assert c[|x| + 2..|x| + 2 + |u|] == u;
  }

  /** The written line as its pieces. */
  lemma StringPieces(b: Bookmark)
    ensures String(b) == Quote(b.title) + " " + Quote(b.url) + " " + Quote(b.comment) + " " + Quote(Uuids.ToString(b.id)) + "\n"
  {
  }

  lemma RegroupUrl(c: string, q0: string, q1: string, q2: string, q3: string)
    ensures c + (q0 + " " + q1 + " " + q2 + " " + q3 + "\n") == (c + q0) + [' '] + q1 + " " + (q2 + " " + q3 + "\n")
  {
  }

  lemma RegroupComment(q0: string, q1: string, q2: string, q3: string)
    ensures q0 + " " + q1 + " " + q2 + " " + q3 + "\n" == (q0 + " " + q1) + [' '] + q2 + " " + (q3 + "\n")
  {
  }

  lemma RegroupTitle(x: string, q0: string, q1: string, q2: string, q3: string)
    ensures (x + ['\n']) + (q0 + " " + q1 + " " + q2 + " " + q3 + "\n") == x + ['\n'] + q0 + " " + (q1 + " " + q2 + " " + q3 + "\n")
  {
  }

  /** Once a bookmark is stored with a verbatim url, writing it again is refused. */
  lemma SecondWriteRejected(c: string, b: Bookmark)
    requires Verbatim(b.url)
    ensures HasDuplicate(c + String(b), b.url)
  {
    var q0, q1, q2, q3 := Quote(b.title), Quote(b.url), Quote(b.comment), Quote(Uuids.ToString(b.id));
    StringPieces(b);
    RegroupUrl(c, q0, q1, q2, q3);
    DupAtQuoted(c + q0, ' ', b.url, q2 + " " + q3 + "\n");
  }

  /** The comment column counts too: a bookmark whose comment is the url blocks the url. */
  lemma CommentCountsAsDuplicate(b: Bookmark, u: string)
    requires b.comment == u && Verbatim(u)
    ensures HasDuplicate(String(b), u)
  {
    var q0, q1, q2, q3 := Quote(b.title), Quote(b.url), Quote(b.comment), Quote(Uuids.ToString(b.id));
    StringPieces(b);
    RegroupComment(q0, q1, q2, q3);
    DupAtQuoted(q0 + " " + q1, ' ', u, q3 + "\n");
  }

  /** So does the title column of any line but the first: the newline before it is
      whitespace to the pattern. */
  lemma TitleCountsAsDuplicate(c: string, b: Bookmark)
    requires c != [] && c[|c| - 1] == '\n' && Verbatim(b.title)
    ensures HasDuplicate(c + String(b), b.title)
  {
    var q0, q1, q2, q3 := Quote(b.title), Quote(b.url), Quote(b.comment), Quote(Uuids.ToString(b.id));
    var x := c[..|c| - 1];
    var rest := q1 + " " + q2 + " " + q3 + "\n";
    assert c + String(b) == x + ['\n'] + q0 + " " + rest by {
      SplitLast(c);
      StringPieces(b);
      RegroupTitle(x, q0, q1, q2, q3);
    }
    DupAtQuoted(x, '\n', b.title, rest);
  }

  lemma SplitLast(c: string)
    requires c != []
    ensures c == c[..|c| - 1] + [c[|c| - 1]]
  {
  }

  lemma DupAtFold(c: string, u: string, v: string, i: nat)
    requires DupAt(c, u, i) && SameFold(u, v)
    ensures DupAt(c, v, i)
  {
    assert SameFold(c[i + 2..i + 2 + |u|], v);
  }

  /** The check ignores ASCII letter case in the url. */
  lemma DuplicateIgnoresCase(c: string, u: string, v: string)
    requires SameFold(u, v)
    ensures HasDuplicate(c, u) == HasDuplicate(c, v)
  {
    if HasDuplicate(c, u) {
      var i :| 0 <= i < |c| && DupAt(c, u, i);
      DupAtFold(c, u, v, i);
    }
    if HasDuplicate(c, v) {
      var i :| 0 <= i < |c| && DupAt(c, v, i);
      DupAtFold(c, v, u, i);
    }
  }
}
