# choco-music: range serving, record store and database URL

A Dafny model of the core of a small Flask media server that keeps MP3 and
MP4 files in a database table and plays them back in the browser. Three
pieces are modelled:

- **Byte-range serving** (`stream`): the `Range` header is parsed leniently
  (every `bytes=` removed, split at `-`, only the first two pieces read,
  Python `int` on each), any failure falls back to the whole content with
  200, a start at or past the end gives 416 with no body, and otherwise a
  206 carries `data[start..min(end, size-1)]` with `Content-Range`,
  `Accept-Ranges` and `Content-Length`. An end before the start gives an
  empty 206. Suffix ranges and multi-range values are not supported and fall
  back to 200.
- **The record store** (`upload`, `download`, `delete`, the `Music` table):
  a class holding a map from id to record (sanitised filename, original
  filename as title, bytes) and a fresh-id counter. Upload checks the file
  part, its name and its `os.path.splitext` extension (`.mp3`/`.mp4`, any
  case); delete checks a fixed password before it looks the id up;
  download and stream return the stored bytes, choosing `video/mp4` or
  `audio/mpeg` by one shared rule.
- **The database URL rewrite** (`get_sqlalchemy_uri`): a leading
  `postgres://` becomes `postgresql://` and everything else is returned as
  given.

The Python built-ins the handlers depend on are modelled on their own:
`str.replace`, `str.split`, `str.lower`, `str.startswith`/`endswith`,
`str(n)`, slicing (module `PyText`), `int(s)` (module `PyInt`) and
`posixpath.splitext` (module `PyPath`).

Files: `wrappers.dfy` (Option, byte), `py_text.dfy`, `py_int.dfy`,
`py_path.dfy`, `range_serving.dfy`, `range_examples.dfy` (concrete Range
values), `media_store.dfy`, `database_config.dfy`.

Upload accepts a file with empty content, and the stored filename is
whatever `secure_filename` returns, which need not keep the allowed
extension.

## Model

| member | source | states |
|---|---|---|
| PyText.Lower | src/main.py:50 | `lower()` keeps the length and lowercases each ASCII letter in place |
| PyText.LowerIdempotent | src/main.py:73 | lowering twice is lowering once |
| PyText.LowerSuffix | src/main.py:73 | lowering commutes with taking a suffix, so `lower().endswith(x)` is a suffix test on the lowered name |
| PyText.StartsWith | src/database_config.py:19 | `startswith(p)` holds exactly when the string is `p` followed by the rest |
| PyText.EndsWith | src/main.py:73 | `endswith(x)` holds exactly when the string is some text followed by `x` |
| PyText.Replace | src/main.py:81 | a count of 0 changes nothing, and a replacement no longer than the pattern never lengthens the string |
| PyText.ReplaceAllCounts | src/main.py:81 | every negative count means "replace all", so any two agree |
| PyText.ReplaceKeepsOut | src/main.py:81 | a character in neither the string nor the replacement is not in the result |
| PyText.ReplaceKeepsIn | src/main.py:81 | a character of the string that is not in the pattern survives the replace |
| PyText.ReplaceAround | src/main.py:81 | replacing all occurrences across a separator the pattern does not contain is replacing on each side of it |
| PyText.ReplaceAbsent | src/main.py:81 | `replace` leaves a string without the pattern's first character unchanged |
| PyText.ReplaceLeading | src/database_config.py:20 | a leading occurrence is the first one replaced, and the count drops by one |
| PyText.Split | src/main.py:81 | `split('-')` always gives at least one piece and no piece contains the separator |
| PyText.JoinSplit | src/main.py:81 | joining the pieces with the separator gives back the original string |
| PyText.SplitCons | src/main.py:81 | a separator-free head followed by the separator splits off as the first piece |
| PyText.SplitNone | src/main.py:81 | a string without the separator is a single piece |
| PyText.SplitJoin | src/main.py:81 | splitting the join of separator-free pieces gives the pieces back |
| PyText.Decimal | src/main.py:94 | `str(n)` is non-empty, all decimal digits, with no leading zero |
| PyText.DecimalMonotone | src/main.py:96 | a larger number needs at least as many digits |
| PyText.Slice | src/main.py:91 | `data[lo:hi]` is `data[lo..hi]` when in range, empty when `hi <= lo`, never longer than `data` |
| PyInt.DigitCount | src/main.py:82 | the number of digits never exceeds the length and equals it for a digit string |
| PyInt.TrimLeft | src/main.py:82 | `int` drops only leading ASCII whitespace (space, tab, LF, VT, FF, CR), and all of it |
| PyInt.TrimRight | src/main.py:82 | `int` drops only trailing ASCII whitespace (space, tab, LF, VT, FF, CR), and all of it |
| PyInt.StripNumeral | src/main.py:82 | whitespace stripping removes only characters `int` tolerates |
| PyInt.GroupValue | src/main.py:82 | an accepted digit group is non-empty and made of digits and underscores |
| PyInt.ParseInt | src/main.py:82-83 | `int` succeeds only on strings of digits, whitespace, signs and underscores, and a string without `-` gives a non-negative value |
| PyInt.GroupValueDecimal | src/main.py:96 | the digits of `str(n)` spell `n` |
| PyInt.SeparatorRefused | src/main.py:82 | a string holding one of U+001C to U+001F is refused, those not being whitespace to `int` |
| PyInt.ParseDigits | src/main.py:96 | a bare digit string is read as its digit group up to 4300 digits and refused beyond them |
| PyInt.ParseDecimal | src/main.py:96 | `int(str(n)) == n` for every `n` of at most 4300 digits |
| PyPath.RFind | src/main.py:50 | `rfind` gives the last index holding the character, or -1 |
| PyPath.SplitExt | src/main.py:50 | root + ext is the path; ext is empty or a dot followed by neither dot nor slash |
| PyPath.ExtensionHasName | src/main.py:50 | a non-empty extension comes from a dot after a non-dot character in the last component and runs from the last dot |
| PyPath.NameGivesExtension | src/main.py:50 | any dot after a non-dot character in the last component yields the extension from the last dot |
| RangeServing.Mimetype | src/main.py:73 | `video/mp4` exactly when the lowercased name ends in `.mp4`, `audio/mpeg` otherwise |
| RangeServing.MimetypeIgnoresCase | src/main.py:73 | the media type does not depend on the case of the name |
| RangeServing.FullContent | src/main.py:77 | the fallback answer is status 200 with the whole content, the name's media type and none of the range headers |
| RangeServing.ContentRange | src/main.py:94 | the Content-Range value starts with `bytes ` |
| RangeServing.ContentRangeReadsBack | src/main.py:94 | after `bytes `, the value splits at `/` into two fields and its first field at `-` into two bounds, which `int` reads back as first, last and size |
| RangeServing.ParseRange | src/main.py:80-85 | a parsed range has a non-negative start and a non-negative end when one is given |
| RangeServing.RangeTokens | src/main.py:81 | the value with every `bytes=` removed splits into at least one piece, none holding a `-` |
| RangeServing.ParseTokens | src/main.py:82-85 | reading the first two `-`-free pieces never yields a negative position |
| RangeServing.LastServed | src/main.py:83-90 | the clamped end is at most `size - 1`, at most the given end, and equal to one of them |
| RangeServing.Serve | src/main.py:71-97 | status is 200, 206 or 416; 200 carries the whole content; 416 has no body, no media type and none of the range headers; 206 needs non-empty content and sends `Accept-Ranges: bytes` and a Content-Length of the body length |
| RangeServing.Answer | src/main.py:84-97 | once the value is read: 200 with the whole content exactly when it did not parse, 416 with no body, no media type and none of the range headers, or 206 on non-empty content with `Accept-Ranges: bytes` and the body length as Content-Length |
| RangeServing.AnswerParsed | src/main.py:87-94 | a start at or past the size gives 416; a start inside gives 206 with body `data[start..end']` (empty when `end' < start`) and Content-Range `bytes start-end'/size` |
| RangeServing.ServeAnswers | src/main.py:75-85 | a present Range value, the empty one included, is answered as it parses |
| RangeServing.EmptyUnparsed | src/main.py:76-85 | the empty value does not parse, so it gets the same 200 as a missing header |
| RangeServing.NoRangeServesAll | src/main.py:75-77 | no Range header or an empty one gives 200 with the whole content and no range headers |
| RangeServing.UnparsedServesAll | src/main.py:80-85 | a Range value that fails to parse gives 200 with the whole content, never an error |
| RangeServing.StartPastEnd | src/main.py:87-88 | a parsed start at or past the size gives 416 with an empty body, whatever the end |
| RangeServing.EmptyContentNeverPartial | src/main.py:87-88 | empty content never yields 206 |
| RangeServing.PartialContent | src/main.py:90-96 | a start inside the content gives 206 whose body is `data[start..end']` inclusive (empty if `end' < start`), of length `end' - start + 1` otherwise, with Content-Range `bytes start-end'/size` |
| RangeServing.ContentLengthReadsBack | src/main.py:96 | for content whose size has at most 4300 digits, the Content-Length of a 206 reads back through `int` as the body length |
| RangeServing.StripUnit | src/main.py:81 | a leading `bytes=` is removed and the rest is stripped as it stands |
| RangeServing.TokensAroundDash | src/main.py:81 | the text before the first `-` is stripped on its own and is the first piece; the rest splits as it would alone |
| RangeServing.TokensNoDash | src/main.py:81 | a value without `-` is one piece, the value stripped |
| RangeServing.TokensHead | src/main.py:81 | a `-`-free text followed by nothing or by a `-` gives its stripped self as first piece |
| RangeServing.TwoTokens | src/main.py:81-83 | `bytes=<first>-<second>` followed by nothing or by further `-` pieces splits into at least two pieces, the first two being `first` and `second` each stripped |
| RangeServing.OpenTokens | src/main.py:81-83 | `bytes=<first>-` followed by nothing or by further `-` pieces gives `first` stripped and an empty second piece |
| RangeServing.EmptyHead | src/main.py:81 | an empty value, or one starting with `-`, has an empty first piece |
| RangeServing.TokensClosed | src/main.py:82-83 | two pieces read by `int` as `a` and a non-empty `b` give the range `a`-`b` |
| RangeServing.TokensOpen | src/main.py:82-83 | a piece read as `a` and an empty second piece give the open range from `a` |
| RangeServing.ParseClosedRange | src/main.py:81-83 | `bytes=a-b` in decimal of at most 4300 digits each, with any further `-` pieces, parses to exactly `a` and `b` |
| RangeServing.ParseOpenRange | src/main.py:81-83 | `bytes=a-` in decimal of at most 4300 digits, with any further `-` pieces, parses to `a` with the end left to the size |
| RangeServing.DecimalPlain | src/main.py:81-83 | a decimal number contains no `b`, `-` or `/`, so it survives the replace, the split and the Content-Range fields whole |
| RangeServing.ServeClosedRange | src/main.py:87-96 | for `a <= b < size` and a size of at most 4300 digits, `bytes=a-b` serves exactly `data[a..b]` with 206 and `bytes a-b/size` |
| RangeServing.ServeParsedClosed | src/main.py:87-96 | any value read as `a`-`b` with `a <= b < size` serves `data[a..b]` with `bytes a-b/size` |
| RangeServing.AnswerClosed | src/main.py:87-96 | the range `a`-`b` with `a <= b < size` is answered with 206, `data[a..b]` and `bytes a-b/size` |
| RangeServing.ServeOpenRange | src/main.py:83-96 | for `a < size` and a size of at most 4300 digits, `bytes=a-` serves `data[a..]` with `bytes a-(size-1)/size` |
| RangeServing.ServeParsedOpen | src/main.py:83-96 | any value read as the open range from `a < size` serves `data[a..]` with `bytes a-(size-1)/size` |
| RangeServing.AnswerOpen | src/main.py:83-96 | the open range from `a < size` is answered with 206, `data[a..]` and `bytes a-(size-1)/size` |
| RangeServing.ServeBackwardRange | src/main.py:90-94 | for `b < a < size` and a size of at most 4300 digits, `bytes=a-b` is a 206 with an empty body and `bytes a-b/size` |
| RangeServing.SuffixRangeUnparsed | src/main.py:81-85 | `bytes=-` followed by anything does not parse, so the suffix form `bytes=-n` is never honoured |
| RangeServing.MissingDashUnparsed | src/main.py:81-85 | any value without `-` does not parse |
| RangeServing.MultiRangeUnparsed | src/main.py:81-85 | `bytes=<first>-<second>...` with a comma in `second`, as in a multi-range value, does not parse, whatever the pieces hold otherwise |
| RangeServing.TokensSecondFails | src/main.py:83-85 | a non-empty second piece `int` refuses leaves the value unparsed |
| RangeExamples.ExtraTokenIgnored | src/main.py:81-83 | `bytes=0-10-20` parses to 0..10 |
| RangeExamples.NotANumber | src/main.py:82-85 | `bytes=abc-10` does not parse |
| RangeExamples.SuffixExample | src/main.py:81-85 | `bytes=-500` does not parse |
| RangeExamples.NoDashExample | src/main.py:83-85 | `bytes=5` does not parse |
| RangeExamples.MultiRangeExample | src/main.py:82-85 | `bytes=0-10,20-30` does not parse |
| RangeExamples.EmptyRangeExample | src/main.py:81-85 | `bytes=` does not parse |
| RangeExamples.RenderBackward | src/main.py:94 | the Content-Range for 10, 5 and 100 reads `bytes 10-5/100` |
| RangeExamples.RenderClosed | src/main.py:94 | the Content-Range for 200, 299 and 1000 reads `bytes 200-299/1000` |
| RangeExamples.ParseBackward | src/main.py:81-83 | `bytes=10-5` parses to 10..5 |
| RangeExamples.BackwardRangeExample | src/main.py:90-94 | on 100 bytes, `bytes=10-5` is a 206 with no body and `bytes 10-5/100` |
| RangeExamples.ParseClosed | src/main.py:81-83 | `bytes=200-299` parses to 200..299 |
| RangeExamples.ClosedRangeExample | src/main.py:90-96 | on 1000 bytes, `bytes=200-299` is a 206 of 100 bytes with `bytes 200-299/1000` |
| RangeExamples.ParseOpen | src/main.py:81-83 | `bytes=950-` parses to 950 with no end |
| RangeExamples.OpenRangeExample | src/main.py:83-94 | on 1000 bytes, `bytes=950-` is a 206 with bytes 950..999 |
| RangeExamples.ParsePastEnd | src/main.py:81-83 | `bytes=1000-1100` parses to 1000..1100 |
| RangeExamples.PastEndExample | src/main.py:87-88 | on 1000 bytes, `bytes=1000-1100` is a 416 with an empty body |
| RangeExamples.NoRangeExample | src/main.py:75-77 | with no Range header, all 1000 bytes are sent with 200 |
| MediaStore.AllowedExtension | src/main.py:47-52 | the extension is allowed exactly when it is a dot, `m` or `M`, `p` or `P`, and `3` or `4` |
| MediaStore.AllowedNameSuffix | src/main.py:47-52 | a name whose extension passes the check ends in `.mp3` or `.mp4`, ignoring case |
| MediaStore.DotFileNotAllowed | src/main.py:50-52 | a dot file such as `.mp3` has no extension and is refused |
| MediaStore.UploadCheck | src/main.py:39-52 | a file is accepted exactly when the part exists, has a non-empty name and an allowed extension; otherwise a missing part, then an empty name, then a missing name, then a wrong extension is the reason, in the handler's order |
| MediaStore.AcceptedNameSuffix | src/main.py:47-52 | an accepted file has a name, and that name ends in `.mp3` or `.mp4`, ignoring case |
| MediaStore.Download | src/main.py:99-108 | 404 exactly for an unknown id; otherwise the stored bytes unchanged, under the stored name, with the shared media type |
| MediaStore.Stream | src/main.py:68-77 | 404 exactly for an unknown id; a 200 carries the stored bytes; the media type equals download's |
| MediaStore.Store.constructor | src/main.py:29-30 | the table starts empty with the counter at 1 |
| MediaStore.Store.Upload | src/main.py:37-66 | a rejected file leaves table and counter unchanged; an accepted one adds exactly one row under the fresh id with the sanitised name, the original name as title and the bytes, and download of that id returns those bytes |
| MediaStore.Store.Delete | src/main.py:110-121 | a wrong or missing password leaves the table unchanged and wins over a missing id; with the right one a missing id is reported and otherwise only that id is removed |
| MediaStore.SameMimetype | src/main.py:101-102 | stream and download of the same record send the same media type |
| MediaStore.StreamAfterInsert | src/main.py:70-77 | streaming a just-added row without a range sends its bytes with 200 |
| MediaStore.DownloadAfterInsert | src/main.py:101-108 | downloading a just-added row sends its bytes under its stored name with the shared media type |
| MediaStore.ReadAfterRemove | src/main.py:117-119 | after removal the id is 404 for download and stream, and every other id reads as before in both |
| DatabaseConfig.SqlalchemyUri | src/database_config.py:17-21 | a missing URL stays missing; one starting with `postgres://` gets `postgresql://` in its place and keeps the rest; any other comes back unchanged |
| DatabaseConfig.RewritesScheme | src/database_config.py:19-20 | `postgres://` + rest becomes `postgresql://` + the same rest, a later `postgres://` included |
| DatabaseConfig.KeepsOtherUrls | src/database_config.py:19-21 | None and any URL not starting with `postgres://`, the empty one included, come back unchanged |
| DatabaseConfig.NeverOldScheme | src/database_config.py:19-21 | the result never starts with `postgres://` |
| DatabaseConfig.Idempotent | src/database_config.py:17-21 | applying the rewrite twice is the same as once |

## Left out

- Flask plumbing: routing, the request and response objects, `flash` messages and `redirect` (the outcome datatypes stand for the messages), template rendering and the index listing (src/main.py:32-35), and `app.run`. These are framework I/O.
- Headers and bodies the framework adds on its own: the charset on Content-Type, the default media type of the 416 response, the HTML body of a 404, and Werkzeug's Content-Length. Werkzeug sets that from the body on the 200 and on the 206 alike, so the 206 goes out with a second, equal Content-Length header added by src/main.py:96. Only what the handlers set themselves is modelled.
- `send_file`'s own conditional and range handling in `download`: it is framework behaviour, so download is modelled as sending the whole stored content.
- SQLAlchemy: sessions, commits and `create_all`. Each handler's commit is taken as atomic. Autoincrement ids are a counter starting at 1.
- The `String(255)` column limit on `filename` and `title`: whether an over-long name fails depends on the database engine, so upload does not model it.
- `uploaded_at` and the listing order: they rest on the clock and the database query.
- `secure_filename`: a foreign call, passed to `Upload` as an arbitrary function, so nothing is claimed about the stored name's extension.
- `MAX_CONTENT_LENGTH`: Flask enforces it before the handler runs.
- The environment reads of `DB_CONFIG` and `SECRET_KEY`: the database URL is the parameter of `SqlalchemyUri`.
- PyInt.ParseInt: Python's `int` also accepts non-ASCII decimal digits and non-ASCII whitespace (such as U+00A0 or U+2028); only ASCII digits and the six ASCII whitespace characters are modelled.
- PyText.Decimal: Python's `str(n)` also refuses numbers of more than 4300 digits; the model renders every `n`. The range lemmas that read a rendering back through `int` therefore ask for a size of at most 4300 digits, which any stored content meets.
- PyText.Lower: Python lowercases all of Unicode; only ASCII letters are mapped. No non-ASCII character lowercases to the letters of `.mp3` or `.mp4`.
- PyText.Replace: Python's behaviour for an empty pattern is not modelled (both calls use a fixed non-empty pattern).
- Concurrency: the handlers are sequential.
