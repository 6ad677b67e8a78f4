# Books plugin: a verified model

This project models the core of the books plugin for the Janeway publishing
platform in Dafny. The plugin keeps a catalogue of books with their
contributors, formats (downloadable files) and chapters. It records every
view and download in an append-only `BookAccess` log, and it builds metrics
reports from that log over a date range. It also stores the uploaded book
files under uuid names and serves them as attachments, and it gates the
public pages: the catalogue, the downloads and the EPUB reader. The CSV
import pages route their requests.

Modules, one per source file, plus four support modules:

- `Wrappers`: `Option` and `Result`, plus the Python exceptions the core raises (`Http404`, `FileNotFoundError`, `ValueError`, `IndexError`).
- `Seqs`: the generic filter that every Django `.filter(...)` and conditional comprehension of the core is an instance of, with its laws.
- `Text`: the standard-library string operations the core relies on. These are `str.find`/`rfind`, `str.split('.')[0]` and `[1]`, POSIX `os.path.splitext`, `int()` on a string and `str()` of an integer.
- `Calendar`: `datetime.date` with years 1 to 9999, one-day steps and the date order.
- `Logic` (logic.py): the month arithmetic, the range defaults and `book_metrics_data`.
- `Models` (models.py): the records, the pure helpers on books and contributors, `Book.metrics`, and the access recorder (`add_book_access`). The recorder is a class whose field is the event log.
- `Files` (files.py): the books folder. It is a class whose field is a map from file name to bytes, with delete, save and serve.
- `Forms` (forms.py): the three form `save` methods over mutable instances, and the contributor widget's queryset and value conversion.
- `Views` (views.py): the catalogue filter and ordering, and the download, EPUB and import gates.

Each state-changing operation is a method. Its postcondition ties the new
state to a pure function of the old state: `Record` for the access log,
`Replaced` for the folder, `FormatSaved`/`ChapterSaved` for the forms, and
`DownloadFormatLog`/`ReadEpubLog` for the views. The properties the code
promises are proved as lemmas about those functions.

Where the written code and its documented intent differ, the model follows
the code:

- `delete_book_file` unlinks without a guard. Replacing a record's file therefore fails with `FileNotFoundError` when the recorded file is gone. It is not best-effort.
- `get_start_and_end_date` computes both defaults before looking at the request parameters. So in December 9999 it fails even when both parameters are given.
- `download_format` records the download before it looks for the file. A format whose file is missing is still counted, and then answers 404.

## Model

| member | source | states |
|---|---|---|
| Seqs.Filter | models.py:147-152 | the kept elements are exactly those of the input that satisfy the condition, and no more than the input |
| Seqs.FilterSnoc | logic.py:30-56 | appending a row appends it to the filter exactly when it satisfies the condition |
| Seqs.FilterConcat | logic.py:30-56 | the filter of a concatenation is the concatenation of the filters: order and multiplicity are kept |
| Seqs.FilterKeepsAll | logic.py:30-56 | a condition every row satisfies drops nothing |
| Seqs.FilterOfFilter | models.py:147-152 | a chained `.filter()` is one filter on both conditions |
| Calendar.PrevDay | logic.py:13 | the day before a date (other than 0001-01-01) is a valid date, and the next day of it is the date again |
| Calendar.NextDay | logic.py:13 | the day after a valid date is valid, except after 9999-12-31 |
| Calendar.LeIsCalendarOrder | views.py:21-22 | the comparison key orders valid dates by year, then month, then day |
| Calendar.MonthIndexInjective | logic.py:7-9 | a month index determines its year and its month in 1..12 |
| Text.IndexOf | views.py:231 | -1 or the index of the first occurrence; no occurrence before it |
| Text.LastIndexOf | files.py:36 | -1 or the index of the last occurrence; no occurrence after it |
| Text.FirstSegment | views.py:231 | `split(c)[0]` holds no `c`, is a prefix, and is followed by `c` or the end |
| Text.SecondSegment | models.py:27 | `IndexError` exactly when there is no `c`; otherwise the piece between the first and the next `c` (or the end) |
| Text.SplitExt | files.py:24 | root + extension is the name; the extension is empty or one dot followed by neither a dot nor a slash; it is non-empty exactly when the last path component has a dot after some character other than a dot |
| Text.Extension | files.py:24 | the extension part of the split |
| Text.SplitExtAtLastDot | files.py:36 | "b.tar.gz" splits at its last dot |
| Text.SplitExtLeadingDot | files.py:36 | ".bashrc" has no extension |
| Text.SplitExtDotInDirectory | files.py:36 | a dot in a directory name ("d.d/f") starts no extension |
| Text.ParseInt | forms.py:31 | `int()` fails only with `ValueError`; it succeeds only on text holding a digit, and fails on any character that is not a digit, whitespace or a sign |
| Text.ParseDecimal | forms.py:31 | `int(str(n)) == n` for every integer |
| Text.StripPadded | forms.py:31 | stripping removes exactly the whitespace around a text whose ends are not whitespace |
| Text.ParsePaddedDecimal | forms.py:31 | `int()` ignores surrounding whitespace: `int(ws + str(n) + ws) == n` |
| Logic.FirstDay | logic.py:5-9 | a date exists exactly when the target month lies in years 1..9999; it is valid, its day is 1, and its month is `d_years` years plus `d_months` months from `dt`'s |
| Logic.FirstDayOfSameMonth | logic.py:5-9 | with zero deltas the year and month of `dt` are kept |
| Logic.FirstDayCarriesIntoNextYear | logic.py:7-9 | December plus one month is January of the next year |
| Logic.FirstDayBorrowsFromPreviousYear | logic.py:7-9 | January minus one month is December of the previous year |
| Logic.LastDay | logic.py:12-13 | fails only in December 9999; otherwise the same year and month, the month's last day, and the day after it is the first of the next month |
| Logic.StartAndEndDate | logic.py:16-21 | a given parameter is passed through; a missing one defaults to the first or last day of today's month; fails exactly in December 9999 |
| Logic.KindBetween | logic.py:34-43 | keeps exactly the events of the type whose time lies within the inclusive range, in log order (an instance of `Seqs.Filter`, so `Seqs.FilterConcat` fixes how many) |
| Logic.WithFormat | logic.py:51-56 | keeps exactly the events of the format, in order (an instance of `Seqs.Filter`) |
| Logic.FormatSet | logic.py:50 | keeps exactly the book's formats in table order (an instance of `Seqs.Filter`, so the rows of the format loop follow the table) |
| Logic.NarrowedCounts | logic.py:50-63 | one row per format; each pass filters the already narrowed views and downloads (its properties are the `NarrowedCounts*` lemmas) |
| Logic.PerFormatCounts | logic.py:50-63 | corrected: one row per format, each filtering the book's own views and downloads (pinned by `PerFormatCountsAre`) |
| Logic.BookMetricsData | logic.py:24-67 | one entry per book in input order; each holds the book's in-range view and download counts and the rows of the narrowing format loop |
| Logic.BookData | logic.py:29-65 | one book's entry: its in-range view and download counts and the narrowed format rows |
| Logic.FormatRows | logic.py:50-63 | the format loop, with `views` and `downloads` reassigned on each pass, produces the narrowed rows |
| Logic.BookCountsAreInRange | logic.py:30-47 | a book's views (downloads) are exactly its events of that type between the bounds |
| Logic.NarrowedCountsShape | logic.py:50-63 | one row per format in order; the first row counts its own format; no row exceeds the book totals |
| Logic.NarrowedCountsZero | logic.py:51-56 | once the events all carry a format none of the remaining formats has, every remaining row is 0 |
| Logic.WithFormatNone | logic.py:51-56 | filtering by a format no event carries leaves nothing |
| Logic.LaterFormatsCountZero | logic.py:50-56 | with distinct format ids, every format row after the first is 0 |
| Logic.PerFormatCountsAre | logic.py:50-63 | in the corrected loop, row k counts exactly format k's events |
| Logic.PerFormatRows | logic.py:50-63 | the corrected loop (a fresh filter per format) produces the per-format rows |
| Logic.BookDataPerFormat | logic.py:29-65 | one book's entry with the corrected per-format rows |
| Logic.BookMetricsDataPerFormat | logic.py:24-67 | one entry per book in input order, with the corrected per-format rows |
| Logic.WithFormatSnoc | logic.py:51-53 | appending an event adds one to its own format's count only |
| Logic.SumViewsStep | logic.py:50-63 | one more view adds one to the sum of the corrected rows exactly when its format is among the formats |
| Logic.HasFormatIdCons | logic.py:50 | with distinct ids, a format id is either the first format's or a later one's, never both |
| Logic.SumViewsOfNothing | logic.py:50-63 | no views give corrected rows that sum to 0 |
| Logic.PerFormatViewsAddUp | logic.py:50-63 | when every view carries one of the book's formats, the corrected per-format views add up to the book's views |
| Logic.NarrowingLosesSecondFormat | logic.py:50-56 | one view of a book's second format is reported as 0 by the written loop and as 1 by the corrected one |
| Models.CoverImagesUploadPath | models.py:25-32 | "cover_images/" + uuid, then "." and the second dot-separated piece exactly when the name has a dot |
| Models.CoverPathTakesSecondPiece | models.py:27 | "a.tar.gz" gets ".tar", the second piece, not the last |
| Models.SecondPieceOfCoverName | models.py:27 | the second dot-separated piece of "a.tar.gz" is "tar" |
| Models.FullTitle | models.py:97-105 | starts with "prefix title" when a prefix is set, else with the title; ends with ": subtitle" when a subtitle is set, else with the title; its length is the title's, plus the prefix's and one, plus the subtitle's and two, so the four cases are each fixed |
| Models.NextContributorSequence | models.py:114-119 | 1 with no contributors, else the last contributor's sequence + 1 |
| Models.NextContributorSequenceExceedsAll | models.py:114-119 | under the sequence ordering the next sequence exceeds every contributor's and is one more than some contributor's |
| Models.MaxChapterSequence | models.py:122-125 | an upper bound on the sequences that one chapter attains |
| Models.NextChapterSequence | models.py:121-127 | 0 exactly when there are no chapters; otherwise greater than every sequence and one more than some sequence |
| Models.OnixCode | models.py:130-136 | the table's code for a listed mime type, D502 for any other or none; always one of the table's codes |
| Models.OnixCodeMeaning | models.py:129-136 | D501, D503 and D504 stand for exactly gif, png and tiff; D502 for everything else |
| Models.CoverOnixCode | models.py:129-136 | `ValueError` exactly when no cover file is attached; otherwise the code of the guessed mime type |
| Models.ContributorName | models.py:182-186 | "First Last" without a middle name; with one, the first name and a space, then the middle name, then a space and the last name, nothing else |
| Models.MiddleInitial | models.py:188-190 | present exactly when the middle name is non-empty; then its first letter and "." |
| Models.CitationName | models.py:192-196 | `IndexError` exactly when the first name is empty; otherwise "Last F." |
| Models.ContributorsCitation | models.py:82-95 | as written: no contributors raise `IndexError`; one gives "Last F. " and two give "Last F. & Last G. ", each raising `IndexError` exactly when a first name is empty; three or more give `str()` of the first plus " et al. " |
| Models.ContributorsCitationIntended | models.py:82-95 | corrected: any successful citation starts with the first contributor's citation name |
| Models.ContributorsCitationInconsistent | models.py:94-95 | with three contributors named Al Wu the written code gives "Al Wu et al. " where "Wu A. et al. " is intended |
| Models.AccessChoiceKinds | models.py:256-260 | the access types are exactly "download" and "view" |
| Models.ForBook | models.py:147-149 | keeps exactly the book's events, in log order (an instance of `Seqs.Filter`, so its count, `Metrics.total`, is fixed by `Seqs.FilterConcat`) |
| Models.OfKind | models.py:151-152 | keeps exactly the events of the type, in order (an instance of `Seqs.Filter`) |
| Models.ForBookOfKind | models.py:147-152 | the chained `filter(book=...)` then `filter(type=...)` selects the same rows, in the same order, as the single filter on book and type |
| Models.ViewsAndDownloadsBound | models.py:151-157 | views + downloads never exceed the events, and equal them when every type is an access choice |
| Models.Metrics | models.py:146-158 | total is the number of the book's events; views and downloads are the numbers of its "view" and "download" events, counted by one filter on book and type; views + downloads <= total |
| Models.MetricsExact | models.py:146-158 | views + downloads == total when every event's type is an access choice |
| Models.Tracked | models.py:218-234 | the guard `user_agent and not user_agent.is_bot`: a header is present and the agent is not a bot |
| Models.Matches | models.py:237-244 | the duplicate filter's conditions: same book, same format or chapter, accessed at or after the cut-off, same type, same identifier |
| Models.RecentCount | models.py:238-244 | the duplicate count never exceeds the log |
| Models.RecentCountZero | models.py:238-246 | the duplicate count is 0 exactly when no event matches subject, type, identifier and window |
| Models.NewAccess | models.py:247-253 | the inserted row matches its own duplicate filter and carries the time and the country |
| Models.Record | models.py:217-253 | the log is unchanged or gains exactly the new row |
| Models.RecordAppendsIff | models.py:234-253 | existing events are never changed; one event is appended exactly when the agent is a non-bot and nothing matches in the last 10 seconds |
| Models.SuppressedWithinWindow | models.py:237-246 | a repeat within 10 seconds of a recorded access is not recorded |
| Models.RecordedAgainAfterWindow | models.py:237-246 | after the window the same requester is recorded again |
| Models.UntrackedNeverRecorded | models.py:218-234 | a missing User-Agent or a bot never produces an event |
| Models.AccessStore.AddFormatAccess | models.py:217-253 | the log becomes `Record` of the old log for the format |
| Models.AccessStore.AddChapterAccess | models.py:321-357 | the log becomes `Record` of the old log for the chapter |
| Files.DownloadName | files.py:36-40 | the attachment name: slugified stem followed by the extension of the stored name |
| Files.Disposition | files.py:40 | the `Content-Disposition` header around the attachment name |
| Files.StoredName | files.py:22-24 | the stored name is the uuid followed by the upload's extension |
| Files.StoredNameSplits | files.py:22-36 | splitting a stored name gives back the uuid and the upload's extension |
| Files.DispositionOfStoredFile | files.py:36-40 | the header for a stored file names slugify(uuid) + the upload's extension |
| Files.DownloadNameOfStoredFile | files.py:36-40 | a stored file is offered as slugify(uuid) + extension |
| Files.Replaced | files.py:17-29 | `FileNotFoundError` exactly when the recorded file is missing; otherwise the returned name holds the upload, the old file is gone, and every other file is untouched |
| Files.ReplacedWithoutFilenameDeletesNothing | files.py:19-20 | without a recorded filename nothing is deleted and only the new name is added |
| Files.ReplacedKeepsNamesNonEmpty | files.py:24 | a save never stores a file under the empty name |
| Files.Served | files.py:32-44 | `Http404` exactly when the file is absent; otherwise the content, its length as `Content-Length`, the guessed mime type and the attachment header |
| Files.ServedAfterReplace | files.py:17-44 | a file just saved is served with its content under slugify(uuid) + extension |
| Files.BookStorage.DeleteBookFile | files.py:12-14 | removes the file when it exists; otherwise fails and changes nothing |
| Files.BookStorage.SaveFileToDisk | files.py:17-29 | the folder and result become those of `Replaced` |
| Forms.FormatInstance.Save | forms.py:82-83 | `save()` writes the current fields and changes none of them |
| Forms.ChapterInstance.Save | forms.py:130-131 | `save()` writes the current fields and changes none of them |
| Forms.CategoryInstance.Save | forms.py:165-166 | `save()` writes the current fields and changes none of them |
| Forms.HasUpload | forms.py:125-126 | the truthiness of the file field: a file with a non-empty name |
| Forms.FormatSaved | forms.py:76-85 | the file is always replaced, and the folder becomes exactly that of `Files.Replaced`: the old file unlinked, the upload stored, every other file kept; the new stored name is the only field that changes |
| Forms.SaveFormatForm | forms.py:76-85 | instance and folder become those of `FormatSaved`; the row is persisted exactly when `commit` is set |
| Forms.ChapterSaved | forms.py:119-133 | the book changes only when one is passed; with an upload the folder becomes exactly that of `Files.Replaced` (old file unlinked, upload stored, other files kept); without one the folder and filename stay; nothing else changes |
| Forms.ChapterSavedWithoutUpload | forms.py:125-128 | without an upload the folder is untouched and the filename kept |
| Forms.SaveChapterForm | forms.py:119-133 | instance and folder become those of `ChapterSaved`; the row is persisted exactly when `commit` is set |
| Forms.SaveCategoryForm | forms.py:161-168 | the slug is set to slugify(name); the row is persisted exactly when `commit` is set |
| Forms.SelectedPks | forms.py:27 | a pk is collected exactly when some item holds a contributor with that pk |
| Forms.GetQueryset | forms.py:26-28 | exactly the contributors whose pk was collected, in table order (an instance of `Seqs.Filter`) |
| Forms.ParseAll | forms.py:31 | fails with `ValueError` exactly when some value is not an integer; otherwise the values' integers, in order |
| Forms.ParseAllCons | forms.py:31 | converting a non-empty list is converting its head, then its tail |
| Forms.ValueForTemplate | forms.py:31 | None for a missing or empty value; otherwise the converted list, or the conversion's failure |
| Forms.Decimals | forms.py:31 | one text per number, each the decimal text of its number |
| Forms.ParseAllDecimals | forms.py:31 | converting the decimal texts of numbers gives the numbers back |
| Forms.ValueForTemplateOfDecimals | forms.py:31 | the widget gets back the pks it was given as text |
| Views.Visible | views.py:20-22 | published on or before today, and not embargoed or embargoed until today at the latest |
| Views.Listed | views.py:20-30 | keeps exactly the visible books, restricted to the category when one is chosen, in table order (an instance of `Seqs.Filter`) |
| Views.Insert | views.py:23 | inserting adds exactly the one book |
| Views.InsertMembers | views.py:23 | inserting adds no book but the inserted one |
| Views.TailNewestFirst | views.py:23 | a newest-first list stays so without its head, whose key bounds the rest |
| Views.ConsNewestFirst | views.py:23 | a book at least as new as all of a newest-first list can lead it |
| Views.InsertNewestFirst | views.py:23 | inserting keeps a list newest first |
| Views.NewestFirstOrder | views.py:23 | the ordered list is newest first and a permutation of its input |
| Views.CategoryBySlug | views.py:26-29 | a category with that slug, or none exactly when there is none |
| Views.Index | views.py:17-39 | `Http404` exactly when a non-empty slug names no category; otherwise exactly the visible books (of that category), newest first |
| Views.IndexIsPermutationOfFilter | views.py:20-30 | the listed books are a permutation of the filtered rows |
| Views.EmbargoHides | views.py:21-22 | a book embargoed until a later year is not listed |
| Views.BookLookup | views.py:61 | a book with that pk (and published when required), or none exactly when there is none |
| Views.FormatLookup | views.py:62 | a format with that pk belonging to the book, or none exactly when there is none |
| Views.ChapterLookup | views.py:103-107 | a chapter with that pk belonging to the book, or none exactly when there is none |
| Views.DownloadableFormat | views.py:61-62 | a format is served exactly when the book exists and is published and the format belongs to it; otherwise `Http404` |
| Views.DownloadFormatLog | views.py:57-65 | the log only grows, by at most one "download" of this format now; it is unchanged unless the link says 'yes' and the lookups succeed |
| Views.MarkedDownloadIsRecorded | views.py:64-65 | a download marked 'yes' is recorded under the access rule |
| Views.DownloadFormat | views.py:57-68 | the log becomes `DownloadFormatLog`; the response is `Http404` or the served file, whether or not the download was marked |
| Views.DownloadableChapter | views.py:98-107 | a chapter is handed out exactly when the book exists and is published and the chapter belongs to it |
| Views.DownloadChapterLog | views.py:94-110 | the log only grows, by at most one "download" of this chapter; it is unchanged unless the link says 'yes' and the lookups succeed |
| Views.MarkedChapterDownloadIsRecorded | views.py:109-110 | a chapter download marked 'yes' past the lookups is recorded under the access rule |
| Views.DownloadChapter | views.py:94-113 | the log becomes `DownloadChapterLog`; the chapter handed to the file server is the looked-up one |
| Views.ReadableEpub | views.py:75-81 | no publication check; `Http404` unless the book and its format exist and the sniffed mime is exactly "application/epub+zip" |
| Views.ReadEpubLog | views.py:71-83 | a "view" is recorded under the access rule exactly when the page is rendered |
| Views.NonEpubNeverViewed | views.py:80-83 | a file not sniffed as EPUB is never counted as a view |
| Views.ReadEpub | views.py:71-91 | the log becomes `ReadEpubLog` and the page shows the looked-up book and format |
| Views.ImportBooksUpload | views.py:214-238 | `download=true` gives the sample CSV; a POST with files redirects with the temp name's part before its first dot (a dot-free prefix followed by a dot or the end); a POST without files shows "No file provided" |
| Views.UploadThenPreviewSameFile | views.py:231-243 | for a temp file named uuid + ".csv" the preview reads that very file |
| Views.ImportBooksPreviewAsWritten | views.py:242-257 | as written: an exception becomes the single general message, a returned error shows its `error_message`; the verify page holds exactly headers, good_rows, has_error_lines, 'error_lines:' and UUID, and no `error_lines` variable |
| Views.ImportBooksPreview | views.py:242-257 | corrected: the same error routing, and the verify page carries each result under its template name, `error_lines` included |
| Views.PreviewLosesErrorLines | views.py:256 | a clean result with error lines reaches the template without them as written, with them when corrected |

## Left out

- Disk, network and templates: file streaming (`FileWrapper`, `StreamingHttpResponse`), real reads and writes, sessions (`request.session.save()`, so the session key is an input), template rendering, the ONIX XML and redirects to URLs. They are I/O. The folder is a map, a page is the value that decides it, and a redirect is its uuid.
- The base-directory path joins in files.py: the folder is addressed by stored name only. A stored name that is absolute or holds ".." (which `os.path.join` would resolve elsewhere) is not modelled.
- The check-then-insert race in `add_book_access` between concurrent workers is a concurrency issue. The model is sequential.
- Time: `timezone.now()` is an integer of seconds passed in, and the metrics bounds are instants. Django's conversion of a date bound to midnight, and time zones, are not modelled.
- Foreign functions become parameters, since their code is not part of this model: `user_agents.parse(...).is_bot`, `get_ip_address` with the country lookup, `slugify`, `uuid4` (any uuid text), `guess_type` and `core.files.guess_mime`, `magic.from_file`, `core.files.save_file_to_temp` (its first result), `files.verify_upload`, `CSV_HEADERS` and `CSV_EXAMPLE`.
- `files.get_file_path` and `files.server_chapter_file` are not part of this model. `read_epub` takes the sniffed mime per format as a total function, so the error `magic.from_file` raises on a missing file is not modelled, and `download_chapter` returns the chapter it hands over.
- `import_books_process`, `perform_book_import`, the monthly metrics (`get_start_and_end_months`, `book_metrics_by_month`, `export_metrics_by_month`) and `get_chapter_contributor_items` are not part of this model. Neither are `Format.is_epub`, `Book.citation`, `first_contributor`, `remote_book_label` and the cover dimensions.
- In the ORM, a table is a sequence in its default ordering and a queryset is evaluated at once. `get_object_or_404` takes the first row matching all its conditions. `MultipleObjectsReturned` cannot occur on primary keys; for the category lookup by slug, slugs are taken to be unique, so the error a repeated slug would raise is not modelled (the Category model is not part of this model). The Category model is reduced to its id, name and slug.
- `Views.NewestFirstOrder`: books published on the same day come in some order the database chooses; the model fixes one.
- `ModelForm` validation and `super().save(commit=False)`: the instance arrives already filled with the cleaned data.
- `Text.ParseInt` covers ASCII whitespace and digits only. Underscores between digits and non-ASCII digits or spaces, which Python's `int()` also accepts, are not modelled. `forms.TableMultiSelect.render`'s values are taken to be strings.
- `Text.SplitExt` models the POSIX `os.path.splitext`.
- `Models.Request`: a present User-Agent header always parses to a truthy agent. Only a missing header (`parse(None)` raising `TypeError`) gives none.

## Findings

| source | as written | input that shows it | evidently intended | confidence | as-written member | corrected member |
|---|---|---|---|---|---|---|
| models.py:94-95 | with three or more contributors `contributors_citation` formats `str(contributor)` ("First Last") | three contributors "Al Wu" give "Al Wu et al. " | "Wu A. et al. ", the citation name the other branches use | not executed; high | Models.ContributorsCitation, Models.ContributorsCitationInconsistent | Models.ContributorsCitationIntended |
| logic.py:50-56 | the format loop reassigns `views` and `downloads` to their format-filtered selves, so each format is filtered on top of the previous ones | a book with formats 1 and 2 and one view of format 2: the format-2 row reports 0 views | each format counts its own events: a fresh filter per format, whose rows add up to the book's counts | not executed; high | Logic.BookMetricsData, Logic.LaterFormatsCountZero, Logic.NarrowingLosesSecondFormat | Logic.BookMetricsDataPerFormat, Logic.PerFormatViewsAddUp |
| views.py:256 | the preview context stores the error lines under the key 'error_lines:' (with a colon), which no template variable can name | a verification with no error but with error lines: the page offers no `error_lines` | the key 'error_lines', beside 'has_error_lines' | not executed; medium (the template is not part of this model) | Views.ImportBooksPreviewAsWritten, Views.PreviewLosesErrorLines | Views.ImportBooksPreview |
