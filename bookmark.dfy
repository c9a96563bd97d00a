/** The bookmark record of package `model`: construction through option functions,
    its one-line text form, and the small accessors the rest of the program uses. */
module Bookmarks {
  import opened Errors
  import opened Text
  import opened Uuids
  import opened Quoting

  /** A bookmark: identifier, title, url and comment. The HTTP client the Go struct
      carries only serves the title fetch, which the model takes as a parameter. */
  datatype Bookmark = Bookmark(id: Uuid, title: string, url: string, comment: string)

  // ---------------------------------------------------------------------------
  // url.ParseRequestURI, reduced to the checks that decide acceptance before
  // the authority and path are parsed.

  /** What the library's getScheme finds at the start of a url. */
  datatype SchemeScan = NoScheme | SchemeEndsAt(colon: nat) | MissingScheme

  predicate IsAsciiLetter(c: char) {
    ('a' <= c <= 'z') || ('A' <= c <= 'Z')
  }

  /** Scans from index i for the ':' that ends a scheme. */
  function ScanScheme(s: string, i: nat): (r: SchemeScan)
    requires i <= |s|
    ensures r.SchemeEndsAt? ==> 0 < r.colon < |s| && s[r.colon] == ':'
    decreases |s| - i
  {
    if i == |s| then NoScheme
    else if IsAsciiLetter(s[i]) then ScanScheme(s, i + 1)
    else if ('0' <= s[i] <= '9') || s[i] == '+' || s[i] == '-' || s[i] == '.' then
      (if i == 0 then NoScheme else ScanScheme(s, i + 1))
    else if s[i] == ':' then (if i == 0 then MissingScheme else SchemeEndsAt(i))
    else NoScheme
  }

  /** The text before the first '?', where the query starts. */
  function BeforeQuery(s: string): (r: string)
    ensures |r| <= |s| && r == s[..|r|]
  {
    if s == [] || s[0] == '?' then [] else [s[0]] + BeforeQuery(s[1..])
  }

  predicate HasControlByte(s: string) {
    exists i :: 0 <= i < |s| && (s[i] < ' ' || s[i] == 127 as char)
  }

  /** Whether url.ParseRequestURI accepts a raw url: no control character, not empty,
      and either "*", or an absolute url with a scheme, or a path starting with '/'. */
  predicate IsRequestUri(raw: string) {
    && !HasControlByte(raw)
    && raw != ""
    && (raw == "*" ||
        match ScanScheme(raw, 0)
        case MissingScheme => false
        case SchemeEndsAt(_) => true
        case NoScheme =>
          var path := BeforeQuery(raw);
          path != [] && path[0] == '/')
  }

  // ---------------------------------------------------------------------------
  // Construction: NewBookmark and its options.

  /** The option functions WithId, WithTitle and WithComment, as values. */
  datatype Opt = WithId(id: string) | WithTitle(title: string) | WithComment(comment: string)

  /** What one option does to the record under construction: an empty argument
      leaves it alone, text is stored trimmed, an id is parsed (zero UUID on failure). */
  function Apply(b: Bookmark, o: Opt): Bookmark {
    match o
    case WithId(s) => if s != "" then b.(id := ParseOrNil(s)) else b
    case WithTitle(s) => if s != "" then b.(title := TrimSpace(s)) else b
    case WithComment(s) => if s != "" then b.(comment := TrimSpace(s)) else b
  }

  /** The options applied in order, as `for _, opt := range opts { opt(res) }`. */
  function ApplyAll(b: Bookmark, opts: seq<Opt>): Bookmark
    decreases opts
  {
    if opts == [] then b else ApplyAll(Apply(b, opts[0]), opts[1..])
  }

  /** The argument of the last WithTitle with a non-empty argument. */
  function LastTitle(opts: seq<Opt>): Option<string> {
    if opts == [] then None
    else match opts[|opts| - 1]
      case WithTitle(s) => if s != "" then Some(s) else LastTitle(opts[..|opts| - 1])
      case _ => LastTitle(opts[..|opts| - 1])
  }

  /** The argument of the last WithComment with a non-empty argument. */
  function LastComment(opts: seq<Opt>): Option<string> {
    if opts == [] then None
    else match opts[|opts| - 1]
      case WithComment(s) => if s != "" then Some(s) else LastComment(opts[..|opts| - 1])
      case _ => LastComment(opts[..|opts| - 1])
  }

  /** The argument of the last WithId with a non-empty argument. */
  function LastId(opts: seq<Opt>): Option<string> {
    if opts == [] then None
    else match opts[|opts| - 1]
      case WithId(s) => if s != "" then Some(s) else LastId(opts[..|opts| - 1])
      case _ => LastId(opts[..|opts| - 1])
  }

  lemma {:induction false} ApplyAllSnoc(b: Bookmark, opts: seq<Opt>, o: Opt)
    ensures ApplyAll(b, opts + [o]) == Apply(ApplyAll(b, opts), o)
    decreases opts
  {
    if opts == [] {
      assert opts + [o] == [o];
    } else {
      assert (opts + [o])[1..] == opts[1..] + [o];
      ApplyAllSnoc(Apply(b, opts[0]), opts[1..], o);
    }
  }

  /** How the last non-empty option of each kind determines a field, given the field's start value. */
  function TitleAfter(opts: seq<Opt>, start: string): string {
    match LastTitle(opts) case Some(t) => TrimSpace(t) case None => start
  }

  function CommentAfter(opts: seq<Opt>, start: string): string {
    match LastComment(opts) case Some(c) => TrimSpace(c) case None => start
  }

  function IdAfter(opts: seq<Opt>, start: Uuid): Uuid {
    match LastId(opts) case Some(s) => ParseOrNil(s) case None => start
  }

  /** Applying options in order is the same as letting the last non-empty one of each kind win;
      the url is never touched. */
  lemma {:induction false} ApplyAllLastWins(b: Bookmark, opts: seq<Opt>)
    ensures var r := ApplyAll(b, opts);
      && r.url == b.url
      && r.title == TitleAfter(opts, b.title)
      && r.comment == CommentAfter(opts, b.comment)
      && r.id == IdAfter(opts, b.id)
  {
    if opts != [] {
      var init, o := opts[..|opts| - 1], opts[|opts| - 1];
      assert opts == init + [o];
      ApplyAllSnoc(b, init, o);
      ApplyAllLastWins(b, init);
      var m := ApplyAll(b, init);
      match o
      case WithTitle(t) =>
        assert LastComment(opts) == LastComment(init);
        assert LastId(opts) == LastId(init);
      case WithComment(c) =>
        assert LastTitle(opts) == LastTitle(init);
        assert LastId(opts) == LastId(init);
      case WithId(i) =>
        assert LastTitle(opts) == LastTitle(init);
        assert LastComment(opts) == LastComment(init);
    }
  }

  /** fetchTitle: the page title found at the url, or the url itself when the request
      fails or the page has no <title>. `page` stands for the HTTP round trip. */
  function FetchTitle(url: string, page: string -> Option<string>): (t: string)
    ensures page(url).None? ==> t == url
  {
    match page(url)
    case Some(title) => title
    case None => url
  }

  /** NewBookmark: validates the url, starts from a fresh identifier, applies the options
      and, if the title is still empty, fetches one. */
  function NewBookmark(rawUrl: string, opts: seq<Opt>, newId: Uuid, page: string -> Option<string>)
    : (r: Result<Bookmark>)
    ensures r.Ok? <==> IsRequestUri(rawUrl)
    ensures !IsRequestUri(rawUrl) ==> r == Err(InvalidUrl(rawUrl))
    ensures r.Ok? ==>
      && r.value.url == rawUrl
      && r.value.comment == CommentAfter(opts, "")
      && r.value.id == IdAfter(opts, newId)
      && var given := TitleAfter(opts, "");
         r.value.title == (if given != "" then given else FetchTitle(rawUrl, page))
  {
    if !IsRequestUri(rawUrl) then Err(InvalidUrl(rawUrl))
    else
      var start := Bookmark(newId, "", rawUrl, "");
      var b := ApplyAll(start, opts);
      ApplyAllLastWins(start, opts);
      Ok(if b.title == "" then b.(title := FetchTitle(b.url, page)) else b)
  }

  // ---------------------------------------------------------------------------
  // The line format.

  /** The four quoted fields, space separated: title, url, comment, id. */
  function Record(b: Bookmark): string {
    Quote(b.title) + " " + Quote(b.url) + " " + Quote(b.comment) + " " + Quote(Uuids.ToString(b.id))
  }

  lemma RecordHasNoNewline(b: Bookmark)
    ensures '\n' !in Record(b)
  {
    var q0, q1, q2, q3 := Quote(b.title), Quote(b.url), Quote(b.comment), Quote(Uuids.ToString(b.id));
    QuoteHasNoNewline(b.title);
    QuoteHasNoNewline(b.url);
    QuoteHasNoNewline(b.comment);
    QuoteHasNoNewline(Uuids.ToString(b.id));
    NoNewlineAppend(q0, " ");
    NoNewlineAppend(q0 + " ", q1);
    NoNewlineAppend(q0 + " " + q1, " ");
    NoNewlineAppend(q0 + " " + q1 + " ", q2);
    NoNewlineAppend(q0 + " " + q1 + " " + q2, " ");
    NoNewlineAppend(q0 + " " + q1 + " " + q2 + " ", q3);
  }

  lemma NoNewlineAppend(a: string, b: string)
    requires '\n' !in a && '\n' !in b
    ensures '\n' !in a + b
  {
  }

  /** Bookmark.String: `%q %q %q %q\n` of title, url, comment and id. Whatever the fields
      hold, the result is exactly one newline-terminated line that opens with a quote. */
  function String(b: Bookmark): (line: string)
    ensures |line| >= 2 && line[0] == '"' && line[|line| - 1] == '\n'
    ensures '\n' !in line[..|line| - 1]
    ensures line[..|line| - 1] == Record(b)
  {
    var r := Record(b);
    RecordHasNoNewline(b);
    var line := r + "\n";
    assert line[..|r|] == r;
    line
  }

  /** The line starts with the quoted title and url, as the import tests check. */
  lemma StringStartsWithTitleAndUrl(b: Bookmark)
    ensures var p := Quote(b.title) + " " + Quote(b.url) + " ";
      |p| <= |String(b)| && String(b)[..|p|] == p
  {
    var q0, q1, q2, q3 := Quote(b.title), Quote(b.url), Quote(b.comment), Quote(Uuids.ToString(b.id));
    assert String(b) == Record(b) + "\n";
    SplitAfterUrl(q0, q1, q2, q3);
  }

  lemma SplitAfterUrl(q0: string, q1: string, q2: string, q3: string)
    ensures var p := q0 + " " + q1 + " ";
      (q0 + " " + q1 + " " + q2 + " " + q3) + "\n" == p + (q2 + " " + q3 + "\n")
      && (p + (q2 + " " + q3 + "\n"))[..|p|] == p
  {
  }

  /** Bookmark.Description: the comment, or the url when there is no comment. */
  function Description(b: Bookmark): (d: string)
    ensures b.comment != "" ==> d == b.comment
    ensures b.comment == "" ==> d == b.url
  {
    if b.comment == "" then b.url else b.comment
  }

  /** Bookmark.Update: sets the title and nothing else. */
  function Update(b: Bookmark, title: string): (r: Bookmark)
    ensures r.title == title
    ensures r.id == b.id && r.url == b.url && r.comment == b.comment
  {
    b.(title := title)
  }

  /** Every bookmark NewBookmark builds has a non-empty description. */
  lemma DescriptionOfNewBookmark(rawUrl: string, opts: seq<Opt>, newId: Uuid, page: string -> Option<string>)
    requires NewBookmark(rawUrl, opts, newId, page).Ok?
    ensures Description(NewBookmark(rawUrl, opts, newId, page).value) != ""
  {
  }
}
