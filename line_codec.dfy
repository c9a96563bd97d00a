/** BookmarkLine: the one-pass tokenizer over a stored line and the rebuilding of the
    record from its fields, with the round trip against Bookmark.String. */
module LineCodec {
  import opened Errors
  import opened Text
  import opened Uuids
  import opened Quoting
  import opened Bookmarks

  // ---------------------------------------------------------------------------
  // The tokenizer: strings.FieldsFunc driven by a callback that keeps `quoted` and
  // `prev` across calls, one call per character, left to right.

  /** The callback's two variables and FieldsFunc's fields so far (`cur` is the
      field being read, empty when FieldsFunc is between fields). */
  datatype ScanState = ScanState(quoted: bool, prev: char, parts: seq<string>, cur: string)

  /** `var quoted bool; var prev rune` start false and 0. */
  const Start := ScanState(false, 0 as char, [], [])

  /** One character: a quote not preceded by a backslash flips `quoted`; a space outside
      quotes is a separator, which closes the current field if there is one. */
  function Step(st: ScanState, c: char): ScanState {
    var quoted := if c == '"' && st.prev != '\\' then !st.quoted else st.quoted;
    if !quoted && c == ' ' then
      ScanState(quoted, c, if st.cur != [] then st.parts + [st.cur] else st.parts, [])
    else
      ScanState(quoted, c, st.parts, st.cur + [c])
  }

  function Scan(st: ScanState, s: string): ScanState
    decreases s
  {
    if s == [] then st else Scan(Step(st, s[0]), s[1..])
  }

  /** At the end of the input FieldsFunc closes the open field. */
  function Finish(st: ScanState): seq<string> {
    if st.cur != [] then st.parts + [st.cur] else st.parts
  }

  /** FieldsFunc never yields an empty field. */
  predicate NoEmptyField(ps: seq<string>) {
    forall i :: 0 <= i < |ps| ==> ps[i] != []
  }

  /** The fields of a line, as BookmarkLine's call to FieldsFunc produces them. */
  function Fields(s: string): (parts: seq<string>)
    ensures NoEmptyField(parts)
  {
    ScanNoEmptyParts(Start, s);
    Finish(Scan(Start, s))
  }

  lemma {:induction false} ScanNoEmptyParts(st: ScanState, s: string)
    requires NoEmptyField(st.parts)
    ensures NoEmptyField(Scan(st, s).parts)
    ensures !NoEmptyField(Finish(Scan(st, s))) ==> false
    decreases s
  {
    if s == [] {
      if st.cur != [] {
        assert Finish(st) == st.parts + [st.cur];
      }
    } else {
      var next := Step(st, s[0]);
      if next.parts != st.parts {
        assert next.parts == st.parts + [st.cur] && st.cur != [];
      }
      assert NoEmptyField(next.parts);
      ScanNoEmptyParts(next, s[1..]);
    }
  }

  lemma {:induction false} ScanAppend(st: ScanState, a: string, b: string)
    ensures Scan(st, a + b) == Scan(Scan(st, a), b)
    decreases a
  {
    if a == [] {
      assert a + b == b;
    } else {
      assert (a + b)[1..] == a[1..] + b;
      ScanAppend(Step(st, a[0]), a[1..], b);
    }
  }

  // --- only spaces are dropped ------------------------------------------------

  /** All fields laid end to end. */
  function Flatten(ps: seq<string>): string {
    if ps == [] then [] else Flatten(ps[..|ps| - 1]) + ps[|ps| - 1]
  }

  lemma FlattenSnoc(ps: seq<string>, x: string)
    ensures Flatten(ps + [x]) == Flatten(ps) + x
  {
    assert (ps + [x])[..|ps|] == ps;
  }

  /** Characters kept so far: the closed fields and the open one. */
  function Kept(st: ScanState): string {
    Flatten(st.parts) + st.cur
  }

  lemma {:induction false} ScanKeepsAllButSpaces(st: ScanState, s: string)
    ensures var r := Scan(st, s);
      && multiset(Kept(r)) <= multiset(Kept(st)) + multiset(s)
      && forall c :: c != ' ' ==> multiset(Kept(r))[c] == multiset(Kept(st))[c] + multiset(s)[c]
    decreases s
  {
    if s != [] {
      var c, next := s[0], Step(st, s[0]);
      assert s == [c] + s[1..];
      if !next.quoted && c == ' ' {
        if st.cur != [] {
          FlattenSnoc(st.parts, st.cur);
        }
        assert Kept(next) == Kept(st);
      } else {
        assert Kept(next) == Kept(st) + [c];
      }
      ScanKeepsAllButSpaces(next, s[1..]);
    }
  }

  /** `t` is `s` with some of its spaces deleted, the rest in order. */
  predicate DropsSpaces(t: string, s: string)
    decreases s
  {
    if s == [] then t == []
    else
      || (s[0] == ' ' && DropsSpaces(t, s[1..]))
      || (t != [] && t[0] == s[0] && DropsSpaces(t[1..], s[1..]))
  }

  /** One pass keeps what it had and adds the input with some spaces deleted. */
  lemma {:induction false} ScanDropsSpaces(st: ScanState, s: string)
    ensures var k := Kept(Scan(st, s));
      && |Kept(st)| <= |k| && k[..|Kept(st)|] == Kept(st)
      && DropsSpaces(k[|Kept(st)|..], s)
    decreases s
  {
    if s != [] {
      var c, next := s[0], Step(st, s[0]);
      if !next.quoted && c == ' ' {
        if st.cur != [] {
          FlattenSnoc(st.parts, st.cur);
        }
        assert Kept(next) == Kept(st);
      } else {
        assert Kept(next) == Kept(st) + [c];
      }
      ScanDropsSpaces(next, s[1..]);
      var k := Kept(Scan(st, s));
      assert Scan(st, s) == Scan(next, s[1..]);
      var d, d' := k[|Kept(st)|..], k[|Kept(next)|..];
      if Kept(next) == Kept(st) {
        assert d == d';
      } else {
        assert d == [c] + d';
        assert d[1..] == d';
      }
    }
  }

  /** The fields hold every character of the line except spaces, quotes included, and
      laid end to end they are the line with some spaces deleted. */
  lemma FieldsDropOnlySpaces(s: string)
    ensures multiset(Flatten(Fields(s))) <= multiset(s)
    ensures forall c :: c != ' ' ==> multiset(Flatten(Fields(s)))[c] == multiset(s)[c]
    ensures DropsSpaces(Flatten(Fields(s)), s)
  {
    var r := Scan(Start, s);
    ScanKeepsAllButSpaces(Start, s);
    ScanDropsSpaces(Start, s);
    if r.cur != [] {
      FlattenSnoc(r.parts, r.cur);
    }
    assert Flatten(Fields(s)) == Kept(r);
    assert Kept(Start) == [];
    assert Kept(r)[0..] == Kept(r);
  }

  // --- without quotes, fields are the space-separated words -------------------

  predicate NoSpaceIn(w: string) {
    forall j :: 0 <= j < |w| ==> w[j] != ' '
  }

  lemma {:induction false} ScanUnquoted(st: ScanState, s: string)
    requires !st.quoted && '"' !in s
    requires NoSpaceIn(st.cur) && forall i :: 0 <= i < |st.parts| ==> NoSpaceIn(st.parts[i])
    ensures var r := Scan(st, s);
      !r.quoted && NoSpaceIn(r.cur) && forall i :: 0 <= i < |r.parts| ==> NoSpaceIn(r.parts[i])
    decreases s
  {
    if s != [] {
      ScanUnquoted(Step(st, s[0]), s[1..]);
    }
  }

  /** On a line without quotes every space is a separator. */
  lemma UnquotedFieldsHaveNoSpaces(s: string)
    requires '"' !in s
    ensures forall i :: 0 <= i < |Fields(s)| ==> NoSpaceIn(Fields(s)[i])
  {
    ScanUnquoted(Start, s);
  }

  // --- quoted fields written by Quote are read back whole ---------------------

  /** Every quote in w is preceded by a backslash, `p` being the character before w. */
  predicate EscapedFrom(p: char, w: string)
    decreases w
  {
    w == [] || ((w[0] == '"' ==> p == '\\') && EscapedFrom(w[0], w[1..]))
  }

  function LastOr(p: char, w: string): char {
    if w == [] then p else w[|w| - 1]
  }

  lemma {:induction false} EscapedFromAppend(p: char, a: string, b: string)
    requires EscapedFrom(p, a) && EscapedFrom(LastOr(p, a), b)
    ensures EscapedFrom(p, a + b)
    decreases a
  {
    if a == [] {
      assert a + b == b;
    } else {
      assert (a + b)[1..] == a[1..] + b;
      assert LastOr(a[0], a[1..]) == LastOr(p, a);
      EscapedFromAppend(a[0], a[1..], b);
    }
  }

  lemma {:induction false} EscapeIsEscaped(p: char, s: string)
    ensures EscapedFrom(p, Escape(s))
    decreases s
  {
    if s != [] {
      var e := EscapeChar(s[0]);
      assert EscapedFrom(p, e) by {
        if |e| == 2 {
          assert e[1..][1..] == [];
        } else {
          assert e[1..] == [];
        }
      }
      EscapeIsEscaped(LastOr(p, e), s[1..]);
      EscapedFromAppend(p, e, Escape(s[1..]));
    }
  }

  /** Whether a field ends in a backslash, the one case the tokenizer misreads. */
  predicate EndsInBackslash(s: string) {
    s != [] && s[|s| - 1] == '\\'
  }

  lemma LastOfEscape(p: char, s: string)
    requires !EndsInBackslash(s) && p != '\\'
    ensures LastOr(p, Escape(s)) != '\\'
  {
    if s != [] {
      var init, c := s[..|s| - 1], s[|s| - 1];
      assert s == init + [c];
      EscapeAppend(init, [c]);
      assert Escape([c]) == EscapeChar(c);
      var e := EscapeChar(c);
      assert Escape(s) == Escape(init) + e;
      assert LastOr(p, Escape(s)) == e[|e| - 1];
    }
  }

  lemma {:induction false} ScanInsideQuotes(st: ScanState, w: string)
    requires st.quoted && EscapedFrom(st.prev, w)
    ensures Scan(st, w) == ScanState(true, LastOr(st.prev, w), st.parts, st.cur + w)
    decreases w
  {
    if w != [] {
      var next := Step(st, w[0]);
      assert next == ScanState(true, w[0], st.parts, st.cur + [w[0]]);
      ScanInsideQuotes(next, w[1..]);
      assert st.cur + [w[0]] + w[1..] == st.cur + w;
      assert LastOr(w[0], w[1..]) == LastOr(st.prev, w);
    }
  }

  /** Outside quotes and between fields, a quoted field is read as one piece, quotes kept. */
  lemma ScanQuoted(st: ScanState, s: string)
    requires !st.quoted && st.prev != '\\' && st.cur == [] && !EndsInBackslash(s)
    ensures Scan(st, Quote(s)) == ScanState(false, '"', st.parts, Quote(s))
  {
    var e := Escape(s);
    assert Quote(s) == ['"'] + e + ['"'];
    ScanAppend(st, ['"'] + e, ['"']);
    ScanAppend(st, ['"'], e);
    var open := Step(st, '"');
    assert open == ScanState(true, '"', st.parts, ['"']);
    assert Scan(st, ['"']) == open;
    EscapeIsEscaped('"', s);
    ScanInsideQuotes(open, e);
    LastOfEscape('"', s);
    var inside := ScanState(true, LastOr('"', e), st.parts, ['"'] + e);
    assert Scan(inside, ['"']) == Step(inside, '"');
  }

  /** A separating space after a quoted field closes it. */
  lemma ScanQuotedThenSpace(st: ScanState, s: string)
    requires !st.quoted && st.prev != '\\' && st.cur == [] && !EndsInBackslash(s)
    ensures Scan(st, Quote(s) + " ") == ScanState(false, ' ', st.parts + [Quote(s)], [])
  {
    ScanQuoted(st, s);
    ScanAppend(st, Quote(s), " ");
    var after := ScanState(false, '"', st.parts, Quote(s));
    assert Scan(after, " ") == Step(after, ' ');
  }

  /** After a prefix that ends between fields, a quoted field and a space close one more field. */
  lemma ScanNextQuoted(x: string, ps: seq<string>, u: string)
    requires Scan(Start, x) == ScanState(false, ' ', ps, []) && !EndsInBackslash(u)
    ensures Scan(Start, x + Quote(u)) == ScanState(false, '"', ps, Quote(u))
    ensures Scan(Start, x + Quote(u) + " ") == ScanState(false, ' ', ps + [Quote(u)], [])
  {
    var st := ScanState(false, ' ', ps, []);
    ScanAppend(Start, x, Quote(u));
    ScanQuoted(st, u);
    ScanAppend(Start, x + Quote(u), " ");
    var after := ScanState(false, '"', ps, Quote(u));
    assert Scan(after, " ") == Step(after, ' ');
  }

  lemma ScanQuotedTwo(t: string, u: string)
    requires !EndsInBackslash(t) && !EndsInBackslash(u)
    ensures Scan(Start, Quote(t) + " " + Quote(u) + " ") == ScanState(false, ' ', [Quote(t), Quote(u)], [])
  {
    var q0 := Quote(t);
    assert Scan(Start, q0 + " ") == ScanState(false, ' ', [q0], []) by {
      ScanQuotedThenSpace(Start, t);
      assert Start.parts + [q0] == [q0];
    }
    ScanNextQuoted(q0 + " ", [q0], u);
    assert [q0] + [Quote(u)] == [q0, Quote(u)];
  }

  lemma ScanQuotedThree(t: string, u: string, c: string)
    requires !EndsInBackslash(t) && !EndsInBackslash(u) && !EndsInBackslash(c)
    ensures Scan(Start, Quote(t) + " " + Quote(u) + " " + Quote(c) + " ")
         == ScanState(false, ' ', [Quote(t), Quote(u), Quote(c)], [])
  {
    ScanQuotedTwo(t, u);
    ScanNextQuoted(Quote(t) + " " + Quote(u) + " ", [Quote(t), Quote(u)], c);
    assert [Quote(t), Quote(u)] + [Quote(c)] == [Quote(t), Quote(u), Quote(c)];
  }

  lemma ScanQuotedFour(t: string, u: string, c: string, i: string)
    requires !EndsInBackslash(t) && !EndsInBackslash(u) && !EndsInBackslash(c) && !EndsInBackslash(i)
    ensures Scan(Start, Quote(t) + " " + Quote(u) + " " + Quote(c) + " " + Quote(i))
         == ScanState(false, '"', [Quote(t), Quote(u), Quote(c)], Quote(i))
  {
    ScanQuotedThree(t, u, c);
    ScanNextQuoted(Quote(t) + " " + Quote(u) + " " + Quote(c) + " ", [Quote(t), Quote(u), Quote(c)], i);
  }

  /** Four quoted fields separated by single spaces come back as those four fields. */
  lemma FieldsOfQuotedFour(t: string, u: string, c: string, i: string)
    requires !EndsInBackslash(t) && !EndsInBackslash(u) && !EndsInBackslash(c) && !EndsInBackslash(i)
    ensures Fields(Quote(t) + " " + Quote(u) + " " + Quote(c) + " " + Quote(i))
         == [Quote(t), Quote(u), Quote(c), Quote(i)]
  {
    ScanQuotedFour(t, u, c, i);
    FinishFourth(Quote(t), Quote(u), Quote(c), Quote(i));
  }

  lemma FinishFourth(q0: string, q1: string, q2: string, q3: string)
    requires q3 != []
    ensures Finish(ScanState(false, '"', [q0, q1, q2], q3)) == [q0, q1, q2, q3]
  {
  }

  /** The tokenizer splits a record written by Bookmark.String into its four quoted fields,
      provided no field ends in a backslash. */
  lemma FieldsOfRecord(b: Bookmark)
    requires !EndsInBackslash(b.title) && !EndsInBackslash(b.url) && !EndsInBackslash(b.comment)
    ensures Fields(Record(b)) == [Quote(b.title), Quote(b.url), Quote(b.comment), Quote(Uuids.ToString(b.id))]
  {
    var i := Uuids.ToString(b.id);
    assert !EndsInBackslash(i);
    FieldsOfQuotedFour(b.title, b.url, b.comment, i);
  }

  lemma RecordEnds(b: Bookmark)
    ensures |Record(b)| >= 2 && Record(b)[0] == '"' && Record(b)[|Record(b)| - 1] == '"'
  {
  }

  lemma TrimLineQuoted(r: string)
    requires |r| >= 2 && r[0] == '"' && r[|r| - 1] == '"'
    ensures TrimLine(r) == r
    ensures TrimLine(r + "\n") == r
  {
    assert !IsLineCut(r[0]) && !IsLineCut(r[|r| - 1]);
    assert TrimLeft(r, IsLineCut) == r;
    assert TrimRight(r, IsLineCut) == r;
    var l := r + "\n";
    assert l[0] == '"' && l[|l| - 1] == '\n' && l[..|l| - 1] == r;
    assert TrimLeft(l, IsLineCut) == l;
    assert TrimRight(l, IsLineCut) == TrimRight(r, IsLineCut);
  }

  /** The " \r\n" trim leaves a record alone and takes off the newline String adds. */
  lemma TrimLineOfString(b: Bookmark)
    ensures TrimLine(Record(b)) == Record(b)
    ensures TrimLine(String(b)) == Record(b)
  {
    RecordEnds(b);
    TrimLineQuoted(Record(b));
    assert String(b) == Record(b) + "\n";
  }

  // ---------------------------------------------------------------------------
  // Rebuilding the record.

  /** The options BookmarkLine hands to NewBookmark from the unquoted fields:
      comment and id are optional, tokens beyond the fourth are ignored. */
  function LineOptions(parts: seq<string>): seq<Opt>
    requires |parts| >= 2
  {
    var name := UnquoteOrEmpty(parts[0]);
    var comment := if |parts| > 2 then UnquoteOrEmpty(parts[2]) else "";
    var id := if |parts| > 3 then UnquoteOrEmpty(parts[3]) else "";
    [WithId(id), WithTitle(name), WithComment(comment)]
  }

  /** BookmarkLine as a function of the line; `newId` is what uuid.NewV7 gives NewBookmark
      and `page` stands for the title fetch NewBookmark makes when the title is empty. */
  function ParseLine(line: string, newId: Uuid, page: string -> Option<string>): (r: Result<Bookmark>)
    ensures var parts := Fields(TrimLine(line));
      && (|parts| < 2 ==> r == Err(InvalidBookmark))
      && (|parts| >= 2 ==>
            && (r.Ok? <==> IsRequestUri(UnquoteOrEmpty(parts[1])))
            && (r.Ok? ==> r.value.url == UnquoteOrEmpty(parts[1])))
  {
    var parts := Fields(TrimLine(line));
    if |parts| < 2 then Err(InvalidBookmark)
    else NewBookmark(UnquoteOrEmpty(parts[1]), LineOptions(parts), newId, page)
  }

  /** What a bookmark must satisfy for its line to read back as the same bookmark:
      a url NewBookmark accepts, a non-empty trimmed title, a trimmed comment, and no
      field ending in a backslash. */
  predicate Storable(b: Bookmark) {
    && IsRequestUri(b.url)
    && b.title != "" && TrimSpace(b.title) == b.title
    && TrimSpace(b.comment) == b.comment
    && !EndsInBackslash(b.title) && !EndsInBackslash(b.url) && !EndsInBackslash(b.comment)
  }

  /** In the options BookmarkLine builds, each kind appears once, so an empty argument
      sets nothing. */
  lemma LastOfLineOptions(id: string, t: string, c: string)
    ensures var opts := [WithId(id), WithTitle(t), WithComment(c)];
      && LastTitle(opts) == (if t == "" then None else Some(t))
      && LastId(opts) == (if id == "" then None else Some(id))
      && LastComment(opts) == (if c == "" then None else Some(c))
  {
    var opts := [WithId(id), WithTitle(t), WithComment(c)];
    var two, one, none: seq<Opt> := [WithId(id), WithTitle(t)], [WithId(id)], [];
    assert opts[..2] == two && two[..1] == one && one[..0] == none;
    assert LastTitle(one) == LastTitle(none) == None;
    assert LastTitle(opts) == LastTitle(two);
    assert LastId(two) == LastId(one);
    assert LastId(opts) == LastId(two);
    assert LastComment(two) == LastComment(one) == LastComment(none) == None;
  }

  /** What BookmarkLine builds from its fields: the first field, unquoted and trimmed, is
      the title, fetched when that is empty; the third, when there is one, the comment;
      the fourth, when there is one, the id; a missing or empty field leaves the comment
      empty and the generated id in place. */
  lemma NewBookmarkOfFields(parts: seq<string>, newId: Uuid, page: string -> Option<string>)
    requires |parts| >= 2
    ensures var r := NewBookmark(UnquoteOrEmpty(parts[1]), LineOptions(parts), newId, page);
      var name := TrimSpace(UnquoteOrEmpty(parts[0]));
      var comment := if |parts| > 2 then UnquoteOrEmpty(parts[2]) else "";
      var id := if |parts| > 3 then UnquoteOrEmpty(parts[3]) else "";
      r.Ok? ==>
        && r.value.title == (if name != "" then name else FetchTitle(r.value.url, page))
        && r.value.comment == (if comment != "" then TrimSpace(comment) else "")
        && r.value.id == (if id != "" then ParseOrNil(id) else newId)
  {
    var raw := UnquoteOrEmpty(parts[0]);
    var comment := if |parts| > 2 then UnquoteOrEmpty(parts[2]) else "";
    var id := if |parts| > 3 then UnquoteOrEmpty(parts[3]) else "";
    assert LineOptions(parts) == [WithId(id), WithTitle(raw), WithComment(comment)];
    LastOfLineOptions(id, raw, comment);
    if raw == "" {
      TrimOfEmpty(IsSpace);
    }
  }

  lemma TrimOfEmpty(cut: char -> bool)
    ensures Trim([], cut) == []
  {
    var i: nat :| TrimmedAt(Trim([], cut), [], cut, i);
  }

  /** BookmarkLine read field by field; a line with two fields has no comment and keeps
      the generated id, and so does a line with three. */
  lemma ParseLineFields(line: string, newId: Uuid, page: string -> Option<string>)
    ensures var parts := Fields(TrimLine(line));
      var r := ParseLine(line, newId, page);
      |parts| >= 2 && r.Ok? ==>
        var name := TrimSpace(UnquoteOrEmpty(parts[0]));
        var comment := if |parts| > 2 then UnquoteOrEmpty(parts[2]) else "";
        var id := if |parts| > 3 then UnquoteOrEmpty(parts[3]) else "";
        && r.value.title == (if name != "" then name else FetchTitle(r.value.url, page))
        && r.value.comment == (if comment != "" then TrimSpace(comment) else "")
        && r.value.id == (if id != "" then ParseOrNil(id) else newId)
        && (|parts| == 2 ==> r.value.comment == "" && r.value.id == newId)
        && (|parts| == 3 ==> r.value.id == newId)
  {
    var parts := Fields(TrimLine(line));
    if |parts| >= 2 {
      NewBookmarkOfFields(parts, newId, page);
    }
  }

  /** Tokens beyond the fourth are ignored. */
  lemma FieldsBeyondFourthIgnored(p: seq<string>, q: seq<string>, newId: Uuid, page: string -> Option<string>)
    requires |p| >= 4
    ensures LineOptions(p + q) == LineOptions(p)
    ensures NewBookmark(UnquoteOrEmpty((p + q)[1]), LineOptions(p + q), newId, page)
         == NewBookmark(UnquoteOrEmpty(p[1]), LineOptions(p), newId, page)
  {
    assert (p + q)[0] == p[0] && (p + q)[1] == p[1] && (p + q)[2] == p[2] && (p + q)[3] == p[3];
  }

  /** The options BookmarkLine builds from four quoted fields are those fields unquoted. */
  lemma OptionsOfQuoted(t: string, u: string, c: string, i: string)
    ensures var parts := [Quote(t), Quote(u), Quote(c), Quote(i)];
      && UnquoteOrEmpty(parts[1]) == u
      && LineOptions(parts) == [WithId(i), WithTitle(t), WithComment(c)]
  {
    UnquoteQuote(t);
    UnquoteQuote(u);
    UnquoteQuote(c);
    UnquoteQuote(i);
  }

  lemma OptionsOfRecord(b: Bookmark)
    requires !EndsInBackslash(b.title) && !EndsInBackslash(b.url) && !EndsInBackslash(b.comment)
    ensures |Fields(Record(b))| == 4
    ensures UnquoteOrEmpty(Fields(Record(b))[1]) == b.url
    ensures LineOptions(Fields(Record(b))) == [WithId(Uuids.ToString(b.id)), WithTitle(b.title), WithComment(b.comment)]
  {
    FieldsOfRecord(b);
    OptionsOfQuoted(b.title, b.url, b.comment, Uuids.ToString(b.id));
  }

  /** Reading a record back, with or without its newline, gives the same bookmark,
      whatever identifier and page the reader would have used. */
  lemma RoundTrip(b: Bookmark, newId: Uuid, page: string -> Option<string>)
    requires Storable(b)
    ensures ParseLine(String(b), newId, page) == Ok(b)
    ensures ParseLine(Record(b), newId, page) == Ok(b)
  {
    TrimLineOfString(b);
    ParseOfRecord(b, String(b), newId, page);
    ParseOfRecord(b, Record(b), newId, page);
  }

  lemma ParseOfRecord(b: Bookmark, line: string, newId: Uuid, page: string -> Option<string>)
    requires Storable(b) && TrimLine(line) == Record(b)
    ensures ParseLine(line, newId, page) == Ok(b)
  {
    var opts := [WithId(Uuids.ToString(b.id)), WithTitle(b.title), WithComment(b.comment)];
    assert ParseLine(line, newId, page) == NewBookmark(b.url, opts, newId, page) by {
      OptionsOfRecord(b);
    }
    NewBookmarkOfRecord(b, newId, page);
  }

  /** The options a stored line yields rebuild the bookmark. */
  lemma NewBookmarkOfRecord(b: Bookmark, newId: Uuid, page: string -> Option<string>)
    requires Storable(b)
    ensures NewBookmark(b.url, [WithId(Uuids.ToString(b.id)), WithTitle(b.title), WithComment(b.comment)], newId, page) == Ok(b)
  {
    var idText := Uuids.ToString(b.id);
    var opts := [WithId(idText), WithTitle(b.title), WithComment(b.comment)];
    LastOfLineOptions(idText, b.title, b.comment);
    assert idText != "";
    ParseOrNilToString(b.id);
    var r := NewBookmark(b.url, opts, newId, page);
    assert r.Ok?;
    assert r.value.title == b.title;
    assert r.value.comment == b.comment;
    assert r.value.id == b.id;
    assert r.value == b;
  }

  /** Text that Quote copies unchanged and that holds no separator. */
  predicate Plain(x: string) {
    Verbatim(x) && forall j :: 0 <= j < |x| ==> x[j] != ' '
  }

  lemma {:induction false} ScanPlainUnquoted(st: ScanState, x: string)
    requires !st.quoted && Plain(x)
    ensures Scan(st, x) == ScanState(false, LastOr(st.prev, x), st.parts, st.cur + x)
    decreases x
  {
    if x != [] {
      var next := Step(st, x[0]);
      assert next == ScanState(false, x[0], st.parts, st.cur + [x[0]]);
      assert Plain(x[1..]);
      ScanPlainUnquoted(next, x[1..]);
      assert st.cur + [x[0]] + x[1..] == st.cur + x;
      assert LastOr(x[0], x[1..]) == LastOr(st.prev, x);
    }
  }

  lemma LastOfEscapeBackslash(p: char, s: string)
    requires EndsInBackslash(s)
    ensures LastOr(p, Escape(s)) == '\\'
  {
    var init := s[..|s| - 1];
    assert s == init + ['\\'];
    EscapeAppend(init, ['\\']);
    assert Escape(['\\']) == EscapeChar('\\') == ['\\', '\\'];
  }

  /** A quoted field whose text ends in a backslash leaves the tokenizer inside quotes. */
  lemma ScanQuotedBackslash(st: ScanState, s: string)
    requires !st.quoted && st.prev != '\\' && st.cur == [] && EndsInBackslash(s)
    ensures Scan(st, Quote(s)) == ScanState(true, '"', st.parts, Quote(s))
  {
    var e := Escape(s);
    assert Quote(s) == ['"'] + e + ['"'];
    ScanAppend(st, ['"'] + e, ['"']);
    ScanAppend(st, ['"'], e);
    var open := Step(st, '"');
    assert Scan(st, ['"']) == open;
    EscapeIsEscaped('"', s);
    ScanInsideQuotes(open, e);
    LastOfEscapeBackslash('"', s);
    var inside := ScanState(true, '\\', st.parts, ['"'] + e);
    assert Scan(inside, ['"']) == Step(inside, '"');
  }

  /** Inside quotes, a space is kept and the quote after it closes the quotes. */
  lemma ScanSpaceQuote(st: ScanState)
    requires st.quoted
    ensures Scan(st, [' ', '"']) == ScanState(false, '"', st.parts, st.cur + [' ', '"'])
  {
    var s1 := ScanState(true, ' ', st.parts, st.cur + [' ']);
    assert Step(st, ' ') == s1;
    var head: string := [' ', '"'];
    assert head[1..] == ['"'];
    assert Scan(st, head) == Scan(s1, ['"']);
    assert st.cur + [' '] + ['"'] == st.cur + head;
  }

  lemma ScanOpenPlainClose(st: ScanState, x: string, w: string)
    requires st.quoted && Plain(x) && w == [' ', '"'] + x + ['"']
    ensures Scan(st, w) == ScanState(true, '"', st.parts, st.cur + w)
  {
    var head := [' ', '"'];
    assert w == head + x + ['"'];
    var open := ScanState(false, '"', st.parts, st.cur + head);
    ScanSpaceQuote(st);
    var inside := ScanState(false, LastOr('"', x), st.parts, st.cur + head + x);
    assert Scan(st, head + x) == inside by {
      ScanAppend(st, head, x);
      ScanPlainUnquoted(open, x);
    }
    assert Scan(st, head + x + ['"']) == Step(inside, '"') by {
      ScanAppend(st, head + x, ['"']);
    }
    assert LastOr('"', x) != '\\' by {
      if x != [] {
        assert x[|x| - 1] != '\\';
      }
    }
    assert st.cur + head + x + ['"'] == st.cur + w;
  }

  /** Inside quotes, a space and a plain quoted field are read as part of the same field,
      and the tokenizer ends up inside quotes again. */
  lemma ScanShiftedPlain(st: ScanState, x: string, w: string)
    requires st.quoted && Plain(x) && w == " " + Quote(x)
    ensures Scan(st, w) == ScanState(true, '"', st.parts, st.cur + w)
  {
    assert w == [' ', '"'] + x + ['"'] by {
      EscapeVerbatim(x);
    }
    ScanOpenPlainClose(st, x, w);
  }

  /** The same, continuing a line read so far as one field that is still inside quotes. */
  lemma ScanShiftedAfter(x: string, y: string)
    requires Scan(Start, x) == ScanState(true, '"', [], x) && Plain(y)
    ensures Scan(Start, x + " " + Quote(y)) == ScanState(true, '"', [], x + " " + Quote(y))
  {
    var w := " " + Quote(y);
    assert x + " " + Quote(y) == x + w;
    ScanAppend(Start, x, w);
    ScanShiftedPlain(ScanState(true, '"', [], x), y, w);
  }

  lemma PlainId(u: Uuid)
    ensures Plain(Uuids.ToString(u))
  {
  }

  lemma ScanBackslashRecord(b: Bookmark)
    requires EndsInBackslash(b.title) && Plain(b.url) && Plain(b.comment)
    ensures Scan(Start, Record(b)) == ScanState(true, '"', [], Record(b))
  {
    var q0 := Quote(b.title);
    var x1 := q0 + " " + Quote(b.url);
    var x2 := x1 + " " + Quote(b.comment);
    assert Scan(Start, q0) == ScanState(true, '"', [], q0) by {
      ScanQuotedBackslash(Start, b.title);
    }
    assert Scan(Start, x1) == ScanState(true, '"', [], x1) by {
      ScanShiftedAfter(q0, b.url);
    }
    assert Scan(Start, x2) == ScanState(true, '"', [], x2) by {
      ScanShiftedAfter(x1, b.comment);
    }
    PlainId(b.id);
    ScanShiftedAfter(x2, Uuids.ToString(b.id));
  }

  /** A title ending in a backslash swallows the whole line into one field, so the line
      no longer parses: the backslash written before the closing quote hides that quote. */
  lemma TrailingBackslashBreaksLine(b: Bookmark, newId: Uuid, page: string -> Option<string>)
    requires EndsInBackslash(b.title) && Plain(b.url) && Plain(b.comment)
    ensures Fields(Record(b)) == [Record(b)]
    ensures ParseLine(String(b), newId, page) == Err(InvalidBookmark)
  {
    ScanBackslashRecord(b);
    assert Finish(ScanState(true, '"', [], Record(b))) == [Record(b)];
    TrimLineOfString(b);
  }

  // ---------------------------------------------------------------------------
  // The scanning loop as the source runs it.

  lemma ScanSlice(line: string, i: nat, st: ScanState, next: ScanState)
    requires i < |line| && Step(st, line[i]) == next
    ensures Scan(st, line[i..]) == Scan(next, line[i + 1..])
  {
    assert line[i..][0] == line[i] && line[i..][1..] == line[i + 1..];
  }

  /** FieldsFunc with BookmarkLine's callback, scanning the characters in order. */
  method Tokenize(line: string) returns (parts: seq<string>)
    ensures parts == Fields(line)
  {
    var quoted := false;
    var prev: char := 0 as char;
    var spans: seq<string> := [];
    var start := -1;  // start of the field being read, or -1 between fields
    var i := 0;
    while i < |line|
      invariant 0 <= i <= |line| && -1 <= start < i
      invariant Scan(Start, line) ==
        Scan(ScanState(quoted, prev, spans, if start >= 0 then line[start..i] else []), line[i..])
    {
      ghost var st := ScanState(quoted, prev, spans, if start >= 0 then line[start..i] else []);
      var c := line[i];
      if c == '"' && prev != '\\' {
        quoted := !quoted;
      }
      prev := c;
      if !quoted && c == ' ' {
        if start >= 0 {
          spans := spans + [line[start..i]];
          start := -1;
        }
      } else if start < 0 {
        start := i;
      }
      ghost var next := ScanState(quoted, prev, spans, if start >= 0 then line[start..i + 1] else []);
      assert Step(st, c) == next by {
        if start >= 0 && start < i {
          assert line[start..i + 1] == line[start..i] + [c];
        }
      }
      ScanSlice(line, i, st, next);
      i := i + 1;
    }
    assert line[i..] == [];
    ghost var last := ScanState(quoted, prev, spans, if start >= 0 then line[start..] else []);
    assert Scan(Start, line) == last;
    if start >= 0 {
      spans := spans + [line[start..]];
    }
    parts := spans;
    assert parts == Finish(last);
  }

  /** model.BookmarkLine. */
  method BookmarkLine(line: string, newId: Uuid, page: string -> Option<string>) returns (r: Result<Bookmark>)
    ensures r == ParseLine(line, newId, page)
  {
    var parts := Tokenize(TrimLine(line));
    if |parts| < 2 {
      return Err(InvalidBookmark);
    }
    r := NewBookmark(UnquoteOrEmpty(parts[1]), LineOptions(parts), newId, page);
  }
}
