# anchor bookmarks, modelled in Dafny

anchor is a command-line bookmark manager. A label is a plain text file holding one
bookmark per line: four Go-quoted fields for title, url, comment and id, separated by
spaces. This project models the core of that format and the code that reads and writes it:

- the `Bookmark` record and its constructor with options (`bookmark.dfy`);
- the line codec `String` / `BookmarkLine`, with the quote-aware tokenizer (`line_codec.dfy`);
- `Bookmark.Write`, the guarded append that refuses a duplicate url (`store.dfy`);
- the `view` command's `handle`: load a label, hand it to the interactive view, rewrite the
  file after confirmation, and remove the archives of deleted bookmarks (`view.dfy`);
- the Netscape import walk `TraverseNode`, as far as its tests pin it down (`netscape.dfy`);
- the storage kind and its parser (`storage.dfy`).

The code they rely on has its own modules:

- `Quoting`: `%q` quoting, and `strconv.Unquote` on double-quoted fields that use the escapes `%q` writes.
- `Text`: the trims, ASCII lower-casing and `strings.Join`.
- `Uuids`: the 36-character uuid form.
- `Errors`: the error values and `errors.Join`.
- `Files`: a file handle with failing operations.

All are value-level functions, except these, which keep their mutable state:

- The file handle, `Files.File`.
- The archive directory, `View.ArchiveDir`.
- The import's label directory, `Netscape.LabelDir`.

The methods that loop, as the source does, are:

- `LineCodec.Tokenize`
- `View.LoadLines`, `View.Rewrite` and `View.SweepArchives`
- `Netscape.LabelDir.StoreMarks` and `Netscape.LabelDir.TraverseSubfolders`

Each is proved equal to a specification function. The lemmas are stated about those
functions.

The source of `parser.TraverseNode` (internal/command/util/parser/netscape.go) is not part
of this model. Its model is built only from what `netscape_test.go` asserts. Every choice
the tests leave open is a parameter of the model:

- The duplicate policy, `admit`.
- The folder-name-to-label mapping, `labelOf`.
- The id generator and the title fetch.

## Model

| member | source | states |
|---|---|---|
| Bookmarks.NewBookmark | internal/model/bookmark.go:30-52 | succeeds exactly when the url is a request URI, otherwise fails with that url; a built bookmark keeps the raw url, takes the id, title and comment of the last non-empty option, starts from the generated id, and fetches a title only when no option set one |
| Bookmarks.ApplyAllLastWins | internal/model/bookmark.go:43-45 | applying options in order leaves the url alone and gives each of id, title, comment the value of the last option of its kind that is non-empty (titles and comments trimmed), or the old value |
| Bookmarks.FetchTitle | internal/model/bookmark.go:124-153 | when no page can be fetched or has no title, the title is the url |
| Bookmarks.String | internal/model/bookmark.go:155-157 | the line starts with a quote, ends with the one newline it holds, and is the four-field record followed by "\n" |
| Bookmarks.StringStartsWithTitleAndUrl | internal/model/bookmark.go:155-157 | every written line begins with the quoted title, a space, the quoted url and a space |
| Bookmarks.Update | internal/model/bookmark.go:179-181 | the title becomes the given one; id, url and comment are unchanged |
| Bookmarks.Description | internal/model/bookmark.go:187-193 | the comment when there is one, else the url |
| Bookmarks.DescriptionOfNewBookmark | internal/model/bookmark.go:187-193 | every bookmark NewBookmark builds has a non-empty description |
| LineCodec.Tokenize | internal/model/bookmark.go:91-98 | the FieldsFunc loop with its quote toggle equals the field split function `Fields` |
| LineCodec.ScanNoEmptyParts | internal/model/bookmark.go:91-98 | the split never yields an empty field |
| LineCodec.FieldsDropOnlySpaces | internal/model/bookmark.go:91-98 | laid end to end, the fields are the line with some spaces deleted and every other character kept in order |
| LineCodec.UnquotedFieldsHaveNoSpaces | internal/model/bookmark.go:91-98 | on a line without a double quote no field contains a space |
| LineCodec.ParseLine | internal/model/bookmark.go:86-118 | fewer than two fields is ErrInvalidBookmark; otherwise the line parses exactly when the unquoted second field is a request URI, and then that is the url |
| LineCodec.ParseLineFields | internal/model/bookmark.go:100-117 | a parsed line's title is its unquoted, trimmed first field, fetched when that is empty; the comment is the trimmed third field, empty when missing; the id is parsed from the fourth field, the generated one when missing or empty; so two or three fields keep the generated id and two leave the comment empty |
| LineCodec.NewBookmarkOfFields | internal/model/bookmark.go:104-117 | the same for any list of at least two fields handed to NewBookmark |
| LineCodec.FieldsBeyondFourthIgnored | internal/model/bookmark.go:104-115 | fields after the fourth change neither the options nor the bookmark built |
| LineCodec.BookmarkLine | internal/model/bookmark.go:86-118 | the method computes ParseLine |
| LineCodec.RoundTrip | internal/model/bookmark.go:86-118 | a written line, with or without its newline, parses back to the same bookmark, whatever id would have been generated, when its url is valid, no field ends in a backslash and the title and comment are trimmed and the title non-empty |
| LineCodec.ParseOfRecord | internal/model/bookmark.go:90 | surrounding spaces, carriage returns and newlines do not change what a stored record parses to |
| LineCodec.NewBookmarkOfRecord | internal/model/bookmark.go:117 | the options a stored line yields rebuild the stored bookmark exactly |
| LineCodec.FieldsOfRecord | internal/model/bookmark.go:91-98 | a stored record splits into its four quoted fields when no field ends in a backslash |
| LineCodec.TrailingBackslashBreaksLine | internal/model/bookmark.go:92 | a title ending in a backslash escapes its closing quote for the tokenizer: the whole line becomes one field and reading it back fails with ErrInvalidBookmark |
| Quoting.UnquoteQuote | internal/model/bookmark.go:104-115 | unquoting a quoted string gives the string back |
| Quoting.EscapeAppend | internal/model/bookmark.go:156 | escaping distributes over concatenation |
| Quoting.EscapeVerbatim | internal/model/bookmark.go:156 | text without quotes, backslashes or control characters is quoted as itself between quotes |
| Quoting.QuoteHasNoNewline | internal/model/bookmark.go:156 | a quoted field never contains a newline, so a record is one line |
| Quoting.UnquoteOrEmpty | internal/model/bookmark.go:104-115 | a field that does not unquote reads as the empty string, as the ignored error leaves it |
| Uuids.ParseToString | internal/model/bookmark.go:57 | parsing the printed form of an id gives the id back |
| Uuids.ParseOrNilToString | internal/model/bookmark.go:57 | WithId of a printed id restores that id |
| Uuids.UnhexHex | internal/model/bookmark.go:156 | hex decoding inverts hex encoding |
| Uuids.ToString | internal/model/bookmark.go:156 | an id prints as 36 lower-case hex digits with dashes at 8, 13, 18 and 23 |
| Store.HasDuplicate | internal/model/bookmark.go:170-171 | the pattern matches exactly when some position holds whitespace, a non-newline, the url up to ASCII letter case, a non-newline, then whitespace, `|` or `$` |
| Store.MatchFrom | internal/model/bookmark.go:170-171 | the scan from a position finds a match exactly when one exists at or after it |
| Store.Write | internal/model/bookmark.go:159-177 | a failed seek or read returns its error and changes the text in no way; a duplicate returns ErrDuplicateBookmark for the url and changes nothing; else the line is appended at the end, or the write error returned with the text unchanged |
| Store.SecondWriteRejected | internal/model/bookmark.go:170-175 | after a bookmark with a verbatim url is appended, writing that url again is refused |
| Store.CommentCountsAsDuplicate | internal/model/bookmark.go:170 | a line whose comment equals a url blocks that url too |
| Store.TitleCountsAsDuplicate | internal/model/bookmark.go:170 | the title field of any line after the first blocks a url equal to it |
| Store.DuplicateIgnoresCase | internal/model/bookmark.go:170 | the duplicate check does not distinguish ASCII letter case in the url |
| Storage.Value | internal/storage/storage.go:11-14 | Local is 0 and Git is 1 |
| Storage.Parse | internal/storage/storage.go:35-42 | the kind is Git exactly when the text is "git" up to ASCII letter case, otherwise Local |
| Storage.ParseIgnoresCase | internal/storage/storage.go:36 | two spellings equal up to ASCII case parse to the same kind |
| Storage.ParseSpellings | internal/storage/storage.go:35-42 | "git", "Git", "GIT" give Git; "", "local", "gitx" give Local |
| Text.TrimSpace | internal/model/bookmark.go:65 | the result is a slice of the input, with only white space before and after it, and neither of its ends is white space |
| Text.TrimLine | internal/model/bookmark.go:90 | the result is a slice of the input, with only spaces, carriage returns and newlines before and after it, and neither of its ends is one of those |
| Text.TrimUnique | internal/model/bookmark.go:65 | at most one string meets the trimming contract, so the contract determines the result |
| Text.TrimSpaceIdempotent | internal/model/bookmark.go:65 | trimming twice trims once |
| Text.ToLower | internal/storage/storage.go:36 | same length, each letter lower-cased |
| Errors.Join | internal/command/view.go:64-66 | nil exactly when both are nil; otherwise a new joined error holding the non-nil errors in order, even when there is only one |
| Errors.JoinIs | internal/command/view.go:65 | errors.Is finds a non-joined target in the joined error exactly when it finds it in one of the errors joined |
| Files.File.Rewind | internal/model/bookmark.go:160 | the offset goes to 0 unless the seek fails |
| Files.File.ReadAll | internal/model/bookmark.go:165 | returns the text from the offset, cut where a read fault strikes, moves the offset past what it returned, and reports the read error exactly when there is a fault |
| Files.File.Truncate | internal/command/view.go:98-101 | the text is cut to the size, or the error returned and nothing changed |
| Files.File.WriteString | internal/command/view.go:109 | a failing write changes nothing; otherwise the text is written at the offset, or at the end for an append handle |
| Files.File.Close | internal/command/view.go:65 | the handle is closed; the error reports a failing close |
| View.LoadLines | internal/command/view.go:68-77 | the scan loop equals `Load`: parses every line in order and returns the first error |
| View.Load | internal/command/view.go:68-77 | succeeds exactly when every line parses, then holds each line's bookmark at its index; on failure the error is that of a line all of whose predecessors parse |
| View.LoadFirstError | internal/command/view.go:71-74 | the error returned is that of the first line that does not parse |
| View.LinesOfTerminated | internal/command/view.go:69-70 | splitting newline-terminated lines without carriage returns or newlines gives the lines back |
| View.LinesOfCommitted | internal/command/view.go:108-113 | the rewritten file splits into the stored records of the bookmarks, in order |
| View.ReloadAfterCommit | internal/command/view.go:68-113 | reading back the rewritten file yields exactly the list the view returned, when every bookmark is storable |
| View.Sweep | internal/command/view.go:115-121 | the sweep only removes archives |
| View.SweepRemovesDeleted | internal/command/view.go:115-121 | an archive is gone after the sweep exactly when a Delete action names it and its removal does not fail |
| View.ArchiveDir.Remove | internal/command/view.go:119 | removes an existing, removable archive and reports success exactly then |
| View.SweepArchives | internal/command/view.go:115-121 | the loop leaves the archives the sweep function computes, ignoring removal errors |
| View.Rewrite | internal/command/view.go:108-113 | the file holds the lines of the bookmarks written before the first failing write, and the error is set exactly when a write failed |
| View.WriteNext | internal/command/view.go:109-112 | one write appends the next line or, failing, changes nothing and returns the error |
| View.Succeeding | internal/command/view.go:108-113 | counts the writes before the first failing one |
| View.Commit | internal/command/view.go:79-123 | after the load, the file, the archives and the error are those of the session function `AfterLoad` |
| View.Run | internal/command/view.go:68-123 | the whole of handle after opening is the session function `Reconcile` |
| View.Handle | internal/command/view.go:58-124 | an open failure is returned with nothing changed; otherwise the file and archives end as `Reconcile` says, the file is closed, and the close error is joined to handle's own |
| View.NothingChangesUnlessConfirmed | internal/command/view.go:85-101 | the file or the archives change only if the load succeeds, the view succeeds and reports a change, the user confirms, and the truncation succeeds |
| View.BadLineStopsBeforeView | internal/command/view.go:70-74 | a line that does not parse is returned before the view runs, with nothing changed |
| View.CommitRewritesFile | internal/command/view.go:98-121 | a confirmed change with no failing truncate, seek or write leaves the file holding the final list (which splits into its records) and the archives swept, whatever part of the file a read fault hid from the view |
| View.WriteFailureKeepsPrefix | internal/command/view.go:108-113 | the write error is returned exactly when one needed write fails; the file then holds the lines before it and no archive is removed |
| View.ArchivesRemovedOnlyByDelete | internal/command/view.go:115-121 | an archive disappears only after a successful commit whose actions delete it |
| View.ReadFaultEndsText | internal/command/view.go:69-77 | a read fault is never reported: the view is loaded with the lines read before it, as if the file ended where the fault struck |
| View.ReadFaultLoadsNothing | internal/command/view.go:69-77 | when the first read fails before delivering anything, the view is shown an empty list |
| Netscape.LabelName | internal/config/config.go:19-20 | the top level is "root", a single folder is its own label |
| Netscape.NestedLabel | internal/command/util/parser/netscape_test.go:93 | a nested folder's label is its parent's label, ".", and its own name |
| Netscape.Marks | internal/command/util/parser/netscape_test.go:72-128 | each bookmark of a folder becomes an entry for the folder's file, in order |
| Netscape.SubEntriesAppend | internal/command/util/parser/netscape_test.go:72-128 | the walk of subfolders concatenates their walks in order |
| Netscape.NoMarksNoEntries | internal/command/util/parser/netscape_test.go:39-66 | a tree yields no entries exactly when it holds no bookmark |
| Netscape.EmptyTreeCreatesNothing | internal/command/util/parser/netscape_test.go:39-66 | walking a tree with no bookmarks stores nothing, creates no file and returns no error |
| Netscape.MissingUrlIsAnError | internal/command/util/parser/netscape_test.go:23-37 | a top-level bookmark without a url makes the walk return an error |
| Netscape.InvalidUrlFails | internal/command/util/parser/netscape_test.go:23-37 | any bookmark whose url is not a request URI makes the walk fail |
| Netscape.FailsIffInvalidUrl | internal/command/util/parser/netscape_test.go:23-37 | with a policy that never refuses, the walk fails exactly when some url is invalid |
| Netscape.ImportStops | internal/command/util/parser/netscape_test.go:34-36 | once an error is set, the rest of the walk changes nothing |
| Netscape.ImportAppend | internal/command/util/parser/netscape_test.go:141 | importing two lists in turn is importing their concatenation |
| Netscape.NoStrayFiles | internal/command/util/parser/netscape_test.go:159-161 | every new file is the file of some entry |
| Netscape.OnlyFolderLabels | internal/command/util/parser/netscape_test.go:151-161 | every file the walk creates is named by the label of a folder of the tree |
| Netscape.AppendOnly | internal/command/util/parser/netscape_test.go:169-177 | no file loses or reorders lines it already had |
| Netscape.NestedFolderFiles | internal/command/util/parser/netscape_test.go:73-101 | a bookmark at the top, one in a folder and one in its sub-folder go to root, gan and gan.research-papers |
| Netscape.LinesInDocumentOrder | internal/command/util/parser/netscape_test.go:169-177 | keeping every bookmark and given valid urls, each file's lines are its old lines followed by, for each of its bookmarks in document order, a line starting with the quoted title and url |
| Netscape.QuoteInTitleEscaped | internal/command/util/parser/netscape_test.go:89 | a double quote in a title is written as `\"` |
| Netscape.LabelDir.StoreEntry | internal/command/util/parser/netscape_test.go:141 | one bookmark stored in the directory as `Save` says |
| Netscape.LabelDir.PlaceLine | internal/command/util/parser/netscape_test.go:141 | the policy's decision carried out on the directory as `Place` says |
| Netscape.LabelDir.StoreMarks | internal/command/util/parser/netscape_test.go:141 | the loop over a folder's bookmarks leaves the directory as `Import` of its entries |
| Netscape.LabelDir.TraverseNode | internal/command/util/parser/netscape_test.go:141 | the recursive walk leaves the directory and error that `Import` of the tree's entries gives |
| Netscape.LabelDir.TraverseSubfolders | internal/command/util/parser/netscape_test.go:141 | the walk over the subfolders in order, matching `Import` of their entries |

## Left out

- Bookmarks.FetchTitle: the HTTP request, the `<title>` regex and HTML unescaping are a parameter `page`; only "no title means the url" is stated.
- Bookmarks.NewBookmark: `uuid.NewV7` is a generator parameter; the id's time and randomness are not modelled.
- Bookmarks.IsRequestUri: a simplified `url.ParseRequestURI`, without host, port or percent-escape validation.
- Uuids.Parse: only the canonical 36-character form is accepted; braces, `urn:uuid:` and the 32-digit form are not. The partly filled value a failed parse returns is not modelled; it is Nil.
- Quoting.Quote: only the escapes `\"`, `\\` and the seven C control escapes; `\x`, `\u` and octal escapes, and non-printable Unicode, are not modelled.
- Quoting.Unquote: only double-quoted text with the escapes `%q` writes (`\"`, `\\`, `\a`, `\b`, `\f`, `\n`, `\r`, `\t`, `\v`) is decoded. Backtick raw strings, single-quoted runes, and the `\x`, `\u`, `\U` and octal escapes that `strconv.Unquote` accepts give None. Quoting.UnquoteOrEmpty then reads such a field as "", so LineCodec.ParseLine fails with an invalid url, or fetches a title, where the program would decode the field.
- Text.ToLower: ASCII letters only; Unicode case mapping is not modelled.
- Store.HasDuplicate: ASCII-only case folding. Go's `(?i)` also folds non-ASCII letters (é and É, k and the Kelvin sign, s and long s), so on such text the model's Write appends where the program reports a duplicate.
- Errors.Is: only identity and joined errors are looked through; the `%w` wrapping of ErrDuplicateBookmark is not.
- WithClient (internal/model/bookmark.go:70-76) and the http client field: only used by the title fetch.
- Bookmark pointers: the model uses values, so aliasing between two `*Bookmark` is not captured.
- View.LoadLines: bufio.Scanner's 64 KiB token limit is not modelled.
- View.Handle: `label.OpenFuzzy` is an input `Result<File>`; label lookup and the data directory are not modelled.
- The bubbletea view and the confirmation prompt are inputs (`ui`, `confirm`); only Delete among the view's operations matters, the rest are `Other`.
- `config.ArchiveFilePath` is a parameter `archivePath`.
- Files.File.WriteString: a write either fails whole or succeeds whole; partial writes are not modelled.
- Files.File.ReadAll: a read fault is one cut-off point in the text; how the data is split into separate reads is not modelled.
- Netscape.LabelDir.TraverseNode: the function's own source is not part of this model. These points are assumptions:
  - Whether a repeated bookmark is kept, skipped or refused is the parameter `admit`. Nothing is stated about the repeated YouTube entry.
  - How a folder name becomes a label is the parameter `labelOf`.
  - A folder's bookmarks are stored before its subfolders.
  - The first error stops the walk.
  - A label file exists only once a line is kept in it.
  - Failures to open or create label files are not modelled, and neither is the directory argument.
- internal/command/add.go, delete.go, root.go, commandeer.go: command wiring outside the modelled core.
- config paths and `storage.New` with the git and local storers: they touch the file system and external tools.
