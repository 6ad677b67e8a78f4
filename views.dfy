/** The public views' gates (views.py): which books the catalogue lists,
    when a download or an EPUB reading is recorded and the file handed out,
    and how the CSV import pages route a request. Templates, sessions and
    redirects to URLs are reduced to the values that decide them. */
module Views {
  import opened Wrappers
  import opened Seqs
  import opened Calendar
  import opened Text
  import opened Models
  import opened Files

  // ----- index -----

  /** The catalogue filter of `index`: published on or before today, and
      either not embargoed or with an embargo date on or before today (a null
      publication date never passes `date_published__lte`). */
  predicate Visible(b: Book, today: Date) {
    && b.datePublished.Some? && Le(b.datePublished.value, today)
    && (b.dateEmbargo.None? || Le(b.dateEmbargo.value, today))
  }

  /** The key of `order_by('-date_published')`. */
  function PublishedKey(b: Book): int {
    if b.datePublished.Some? then Ordinal(b.datePublished.value) else 0
  }

  predicate NewestFirst(bs: seq<Book>) {
    forall i, j :: 0 <= i < j < |bs| ==> PublishedKey(bs[j]) <= PublishedKey(bs[i])
  }

  /** The books `index` keeps: visible ones, and only those of the category
      when one was chosen. */
  function Listed(books: seq<Book>, today: Date, category: Option<nat>): (r: seq<Book>)
    ensures forall b :: b in r <==> b in books && Visible(b, today) && (category.Some? ==> b.category == category)
    ensures |r| <= |books|
  {
    Filter(books, (b: Book) => Visible(b, today) && (category.Some? ==> b.category == category))
  }

  /** Places `b` before the first book that is not newer than it. */
  function Insert(b: Book, bs: seq<Book>): (r: seq<Book>)
    ensures multiset(r) == multiset(bs) + multiset{b}
  {
    if bs == [] then [b]
    else if PublishedKey(bs[0]) <= PublishedKey(b) then [b] + bs
    else
      assert bs == [bs[0]] + bs[1..];
      [bs[0]] + Insert(b, bs[1..])
  }

  lemma {:induction false} InsertMembers(b: Book, bs: seq<Book>)
    ensures forall x :: x in Insert(b, bs) ==> x == b || x in bs
  {
    if bs != [] && PublishedKey(b) < PublishedKey(bs[0]) {
      InsertMembers(b, bs[1..]);
    }
  }

  /** A newest-first list stays newest first without its head, and its head
      is at least as new as every later book. */
  lemma TailNewestFirst(bs: seq<Book>)
    requires NewestFirst(bs) && bs != []
    ensures NewestFirst(bs[1..])
    ensures forall x :: x in bs[1..] ==> PublishedKey(x) <= PublishedKey(bs[0])
  {
    var tail := bs[1..];
    forall i, j | 0 <= i < j < |tail|
      ensures PublishedKey(tail[j]) <= PublishedKey(tail[i])
    {
      assert tail[i] == bs[i + 1] && tail[j] == bs[j + 1];
    }
    forall x | x in tail
      ensures PublishedKey(x) <= PublishedKey(bs[0])
    {
      var k :| 0 <= k < |tail| && tail[k] == x;
      assert bs[k + 1] == x;
    }
  }

  /** A book at least as new as every book of a newest-first list can lead it. */
  lemma ConsNewestFirst(x: Book, rest: seq<Book>)
    requires NewestFirst(rest)
    requires forall y :: y in rest ==> PublishedKey(y) <= PublishedKey(x)
    ensures NewestFirst([x] + rest)
  {
    var r := [x] + rest;
    forall i, j | 0 <= i < j < |r|
      ensures PublishedKey(r[j]) <= PublishedKey(r[i])
    {
      assert r[j] == rest[j - 1] && r[j] in rest;
      if i > 0 {
        assert r[i] == rest[i - 1];
      }
    }
  }

  lemma {:induction false} InsertNewestFirst(b: Book, bs: seq<Book>)
    requires NewestFirst(bs)
    ensures NewestFirst(Insert(b, bs))
  {
    if bs != [] && PublishedKey(b) < PublishedKey(bs[0]) {
      TailNewestFirst(bs);
      InsertNewestFirst(b, bs[1..]);
      InsertMembers(b, bs[1..]);
      ConsNewestFirst(bs[0], Insert(b, bs[1..]));
    } else if bs != [] {
      ConsNewestFirst(b, bs);
    }
  }

  /** The book list ordered newest first. The order among books published on
      the same day is whatever the database returns; this is one of them. */
  function NewestFirstOrder(bs: seq<Book>): (r: seq<Book>)
    ensures NewestFirst(r)
    ensures multiset(r) == multiset(bs)
  {
    if bs == [] then []
    else
      assert bs == [bs[0]] + bs[1..];
      var rest := NewestFirstOrder(bs[1..]);
      InsertNewestFirst(bs[0], rest);
      Insert(bs[0], rest)
  }

  /** The first category with the given slug. */
  function CategoryBySlug(categories: seq<Category>, slug: string): (r: Option<Category>)
    ensures r.None? <==> forall c :: c in categories ==> c.slug != slug
    ensures r.Some? ==> r.value in categories && r.value.slug == slug
  {
    if categories == [] then None
    else if categories[0].slug == slug then Some(categories[0])
    else CategoryBySlug(categories[1..], slug)
  }

  /** The `books` and `category` of the index page. */
  datatype IndexPage = IndexPage(books: seq<Book>, category: Option<Category>)

  /** `index(request, category_slug)`: a missing or empty slug lists every
      visible book; any other slug must name a category, or the view raises
      `Http404`. */
  function Index(books: seq<Book>, categories: seq<Category>, today: Date, categorySlug: Option<string>): (r: Result<IndexPage>)
    ensures r.Failure? <==> Truthy(categorySlug) && forall c :: c in categories ==> c.slug != categorySlug.value
    ensures r.Failure? ==> r.error == Http404
    ensures r.Success? ==> (r.value.category.Some? <==> Truthy(categorySlug))
    ensures r.Success? && r.value.category.Some? ==>
      r.value.category.value in categories && r.value.category.value.slug == categorySlug.value
    ensures r.Success? ==> NewestFirst(r.value.books)
    ensures r.Success? ==> forall b :: b in r.value.books <==>
      && b in books && Visible(b, today)
      && (r.value.category.Some? ==> b.category == Some(r.value.category.value.id))
  {
    if Truthy(categorySlug) then
      match CategoryBySlug(categories, categorySlug.value)
      case None => Failure(Http404)
      case Some(c) =>
        var listed := Listed(books, today, Some(c.id));
        var ordered := NewestFirstOrder(listed);
        assert forall b :: b in ordered <==> b in multiset(listed);
        Success(IndexPage(ordered, Some(c)))
    else
      var listed := Listed(books, today, None);
      var ordered := NewestFirstOrder(listed);
      assert forall b :: b in ordered <==> b in multiset(listed);
      Success(IndexPage(ordered, None))
  }

  /** The index page lists each visible book exactly as often as the table
      holds it: ordering only rearranges the filtered rows. */
  lemma IndexIsPermutationOfFilter(books: seq<Book>, categories: seq<Category>, today: Date, categorySlug: Option<string>)
    requires Index(books, categories, today, categorySlug).Success?
    ensures var page := Index(books, categories, today, categorySlug).value;
      multiset(page.books) == multiset(Listed(books, today, if page.category.Some? then Some(page.category.value.id) else None))
  {
  }

  /** An embargo still in the future hides a published book. */
  lemma EmbargoHides(b: Book, today: Date)
    requires b.dateEmbargo.Some? && Valid(b.dateEmbargo.value) && Valid(today)
    requires today.year < b.dateEmbargo.value.year
    ensures !Visible(b, today)
  {
    LeIsCalendarOrder(b.dateEmbargo.value, today);
  }

  // ----- object lookups -----

  /** `get_object_or_404(Book, pk=id[, date_published__isnull=False])`. */
  function BookLookup(books: seq<Book>, id: nat, published: bool): (r: Option<Book>)
    ensures r.None? <==> forall b :: b in books ==> !(b.id == id && (published ==> b.datePublished.Some?))
    ensures r.Some? ==> r.value in books && r.value.id == id && (published ==> r.value.datePublished.Some?)
  {
    if books == [] then None
    else if books[0].id == id && (published ==> books[0].datePublished.Some?) then Some(books[0])
    else BookLookup(books[1..], id, published)
  }

  /** `get_object_or_404(Format, pk=id, book=book)`. */
  function FormatLookup(formats: seq<Format>, id: nat, book: nat): (r: Option<Format>)
    ensures r.None? <==> forall f :: f in formats ==> !(f.id == id && f.book == book)
    ensures r.Some? ==> r.value in formats && r.value.id == id && r.value.book == book
  {
    if formats == [] then None
    else if formats[0].id == id && formats[0].book == book then Some(formats[0])
    else FormatLookup(formats[1..], id, book)
  }

  /** `get_object_or_404(Chapter, pk=id, book=book)`. */
  function ChapterLookup(chapters: seq<Chapter>, id: nat, book: nat): (r: Option<Chapter>)
    ensures r.None? <==> forall c :: c in chapters ==> !(c.id == id && c.book == book)
    ensures r.Some? ==> r.value in chapters && r.value.id == id && r.value.book == book
  {
    if chapters == [] then None
    else if chapters[0].id == id && chapters[0].book == book then Some(chapters[0])
    else ChapterLookup(chapters[1..], id, book)
  }

  // ----- download_format -----

  /** The format `download_format` serves: the book must exist and be
      published, and the format must belong to it. */
  function DownloadableFormat(books: seq<Book>, formats: seq<Format>, bookId: nat, formatId: nat): (r: Result<Format>)
    ensures r.Failure? ==> r.error == Http404
    ensures r.Success? <==>
      && (exists b :: b in books && b.id == bookId && b.datePublished.Some?)
      && (exists f :: f in formats && f.id == formatId && f.book == bookId)
    ensures r.Success? ==> r.value in formats && r.value.id == formatId && r.value.book == bookId
  {
    match BookLookup(books, bookId, true)
    case None => Failure(Http404)
    case Some(book) =>
      match FormatLookup(formats, formatId, book.id)
      case None => Failure(Http404)
      case Some(f) => Success(f)
  }

  /** The log after `download_format`: a "download" of the format is recorded
      only when the format is served and the link asks for it with 'yes'. */
  function DownloadFormatLog(log: seq<BookAccess>, books: seq<Book>, formats: seq<Format>, bookId: nat, formatId: nat,
                             markDownload: string, req: Request, now: int, lookups: Lookups): (r: seq<BookAccess>)
    ensures log <= r && |r| <= |log| + 1
    ensures markDownload != "yes" ==> r == log
    ensures DownloadableFormat(books, formats, bookId, formatId).Failure? ==> r == log
    ensures |r| == |log| + 1 ==>
      && r[|log|].kind == "download" && r[|log|].book == bookId && r[|log|].format == Some(formatId)
      && r[|log|].chapter == None && r[|log|].accessed == now
  {
    match DownloadableFormat(books, formats, bookId, formatId)
    case Failure(_) => log
    case Success(f) =>
      if markDownload == "yes" then Record(log, FormatOf(f.book, f.id), req, "download", now, lookups) else log
  }

  /** When the link asks for it and the view gets past its lookups, the
      download is recorded under the same rule as any access. */
  lemma MarkedDownloadIsRecorded(log: seq<BookAccess>, books: seq<Book>, formats: seq<Format>, bookId: nat, formatId: nat,
                                 req: Request, now: int, lookups: Lookups)
    requires DownloadableFormat(books, formats, bookId, formatId).Success?
    ensures DownloadFormatLog(log, books, formats, bookId, formatId, "yes", req, now, lookups)
         == Record(log, FormatOf(bookId, formatId), req, "download", now, lookups)
  {
  }

  /** `download_format(request, book_id, format_id, mark_download)`. The
      access is recorded before the file is looked up, so a format whose file
      is missing still counts a download and then answers `Http404`. */
  method DownloadFormat(store: AccessStore, storage: BookStorage, books: seq<Book>, formats: seq<Format>,
                        bookId: nat, formatId: nat, markDownload: string, req: Request, now: int, lookups: Lookups,
                        guessMime: string -> string, slugify: string -> string)
    returns (r: Result<FileResponse>)
    requires storage.Valid()
    modifies store
    ensures store.events == DownloadFormatLog(old(store.events), books, formats, bookId, formatId, markDownload, req, now, lookups)
    ensures var gate := DownloadableFormat(books, formats, bookId, formatId);
      && (gate.Failure? ==> r == Failure(Http404))
      && (gate.Success? ==> r == Served(storage.files, gate.value.filename, guessMime, slugify))
  {
    var book := BookLookup(books, bookId, true);
    if book.None? {
      return Failure(Http404);
    }
    var format := FormatLookup(formats, formatId, book.value.id);
    if format.None? {
      return Failure(Http404);
    }
    if markDownload == "yes" {
      store.AddFormatAccess(format.value, req, "download", now, lookups);
    }
    r := Served(storage.files, format.value.filename, guessMime, slugify);
  }

  // ----- download_chapter -----

  /** The chapter `download_chapter` hands to the chapter file server. */
  function DownloadableChapter(books: seq<Book>, chapters: seq<Chapter>, bookId: nat, chapterId: nat): (r: Result<Chapter>)
    ensures r.Failure? ==> r.error == Http404
    ensures r.Success? <==>
      && (exists b :: b in books && b.id == bookId && b.datePublished.Some?)
      && (exists c :: c in chapters && c.id == chapterId && c.book == bookId)
    ensures r.Success? ==> r.value in chapters && r.value.id == chapterId && r.value.book == bookId
  {
    match BookLookup(books, bookId, true)
    case None => Failure(Http404)
    case Some(book) =>
      match ChapterLookup(chapters, chapterId, book.id)
      case None => Failure(Http404)
      case Some(c) => Success(c)
  }

  /** The log after `download_chapter`. */
  function DownloadChapterLog(log: seq<BookAccess>, books: seq<Book>, chapters: seq<Chapter>, bookId: nat, chapterId: nat,
                              markDownload: string, req: Request, now: int, lookups: Lookups): (r: seq<BookAccess>)
    ensures log <= r && |r| <= |log| + 1
    ensures markDownload != "yes" ==> r == log
    ensures DownloadableChapter(books, chapters, bookId, chapterId).Failure? ==> r == log
    ensures |r| == |log| + 1 ==>
      && r[|log|].kind == "download" && r[|log|].book == bookId && r[|log|].chapter == Some(chapterId)
      && r[|log|].format == None && r[|log|].accessed == now
  {
    match DownloadableChapter(books, chapters, bookId, chapterId)
    case Failure(_) => log
    case Success(c) =>
      if markDownload == "yes" then Record(log, ChapterOf(c.book, c.id), req, "download", now, lookups) else log
  }

  /** When the link asks for it and the view gets past its lookups, the
      chapter download is recorded under the same rule as any access. */
  lemma MarkedChapterDownloadIsRecorded(log: seq<BookAccess>, books: seq<Book>, chapters: seq<Chapter>, bookId: nat, chapterId: nat,
                                        req: Request, now: int, lookups: Lookups)
    requires DownloadableChapter(books, chapters, bookId, chapterId).Success?
    ensures DownloadChapterLog(log, books, chapters, bookId, chapterId, "yes", req, now, lookups)
         == Record(log, ChapterOf(bookId, chapterId), req, "download", now, lookups)
  {
  }

  /** `download_chapter(request, book_id, chapter_id, mark_download)`: returns
      the chapter whose file the chapter file server then streams. */
  method DownloadChapter(store: AccessStore, books: seq<Book>, chapters: seq<Chapter>,
                         bookId: nat, chapterId: nat, markDownload: string, req: Request, now: int, lookups: Lookups)
    returns (r: Result<Chapter>)
    modifies store
    ensures store.events == DownloadChapterLog(old(store.events), books, chapters, bookId, chapterId, markDownload, req, now, lookups)
    ensures r == DownloadableChapter(books, chapters, bookId, chapterId)
  {
    var book := BookLookup(books, bookId, true);
    if book.None? {
      return Failure(Http404);
    }
    var chapter := ChapterLookup(chapters, chapterId, book.value.id);
    if chapter.None? {
      return Failure(Http404);
    }
    if markDownload == "yes" {
      store.AddChapterAccess(chapter.value, req, "download", now, lookups);
    }
    r := Success(chapter.value);
  }

  // ----- read_epub -----

  const EpubMime := "application/epub+zip"

  /** The book and format `read_epub` renders: no publication check, but the
      sniffed mime type of the format's file must be exactly the EPUB one. */
  function ReadableEpub(books: seq<Book>, formats: seq<Format>, bookId: nat, formatId: nat, sniff: Format -> string)
    : (r: Result<(Book, Format)>)
    ensures r.Failure? ==> r.error == Http404
    ensures r.Success? <==>
      && (exists b :: b in books && b.id == bookId)
      && (exists f :: f in formats && f.id == formatId && f.book == bookId)
      && sniff(FormatLookup(formats, formatId, bookId).value) == EpubMime
    ensures r.Success? ==>
      && r.value.0 in books && r.value.0.id == bookId
      && r.value.1 in formats && r.value.1.id == formatId && r.value.1.book == bookId
      && sniff(r.value.1) == EpubMime
  {
    match BookLookup(books, bookId, false)
    case None => Failure(Http404)
    case Some(book) =>
      match FormatLookup(formats, formatId, book.id)
      case None => Failure(Http404)
      case Some(f) => if sniff(f) == EpubMime then Success((book, f)) else Failure(Http404)
  }

  /** The log after `read_epub`: a "view" is recorded exactly when the page
      is rendered, under the usual suppression rule. */
  function ReadEpubLog(log: seq<BookAccess>, books: seq<Book>, formats: seq<Format>, bookId: nat, formatId: nat,
                       sniff: Format -> string, req: Request, now: int, lookups: Lookups): (r: seq<BookAccess>)
    ensures log <= r && |r| <= |log| + 1
    ensures ReadableEpub(books, formats, bookId, formatId, sniff).Failure? ==> r == log
    ensures ReadableEpub(books, formats, bookId, formatId, sniff).Success? ==>
      r == Record(log, FormatOf(bookId, formatId), req, "view", now, lookups)
  {
    match ReadableEpub(books, formats, bookId, formatId, sniff)
    case Failure(_) => log
    case Success(page) => Record(log, FormatOf(page.1.book, page.1.id), req, "view", now, lookups)
  }

  /** A file the sniffer does not call EPUB is never counted as a view. */
  lemma NonEpubNeverViewed(log: seq<BookAccess>, books: seq<Book>, formats: seq<Format>, bookId: nat, formatId: nat,
                           sniff: Format -> string, req: Request, now: int, lookups: Lookups)
    requires forall f :: sniff(f) != EpubMime
    ensures ReadEpubLog(log, books, formats, bookId, formatId, sniff, req, now, lookups) == log
  {
  }

  /** `read_epub(request, book_id, format_id)`; `sniff` is
      `magic.from_file(get_file_path(format), mime=True)`. */
  method ReadEpub(store: AccessStore, books: seq<Book>, formats: seq<Format>, bookId: nat, formatId: nat,
                  sniff: Format -> string, req: Request, now: int, lookups: Lookups)
    returns (r: Result<(Book, Format)>)
    modifies store
    ensures store.events == ReadEpubLog(old(store.events), books, formats, bookId, formatId, sniff, req, now, lookups)
    ensures r == ReadableEpub(books, formats, bookId, formatId, sniff)
  {
    var book := BookLookup(books, bookId, false);
    if book.None? {
      return Failure(Http404);
    }
    var format := FormatLookup(formats, formatId, book.value.id);
    if format.None? {
      return Failure(Http404);
    }
    var mime := sniff(format.value);
    if !(mime == EpubMime) {
      return Failure(Http404);
    }
    store.AddFormatAccess(format.value, req, "view", now, lookups);
    r := Success((book.value, format.value));
  }

  // ----- import_books_upload -----

  const SampleCsvDisposition := "attachment; filename=\"janeway_book_import_example.csv\""

  /** The parts of the request the upload view looks at: the `download`
      query parameter and whether POST data and uploaded files are present. */
  datatype UploadRequest = UploadRequest(download: Option<string>, post: bool, files: bool)

  datatype UploadPage =
    | SampleCsv(disposition: string)           // the example CSV as an attachment
    | RedirectToPreview(uuid: string)          // to the preview page of that upload
    | UploadForm(messages: seq<string>)        // the upload form, with any messages

  /** `import_books_upload`; `tempName` is the first element of what saving
      the upload to the temporary folder returns. */
  function ImportBooksUpload(req: UploadRequest, tempName: string): (r: UploadPage)
    ensures req.download == Some("true") <==> r.SampleCsv?
    ensures r.SampleCsv? ==> r.disposition == SampleCsvDisposition
    ensures r.RedirectToPreview? <==> req.download != Some("true") && req.post && req.files
    ensures r.RedirectToPreview? ==> '.' !in r.uuid && r.uuid <= tempName
    ensures r.RedirectToPreview? ==> r.uuid == tempName || tempName[|r.uuid|] == '.'
    ensures r.UploadForm? ==> (r.messages == ["No file provided"] <==> req.post)
    ensures r.UploadForm? ==> (r.messages == [] <==> !req.post)
  {
    if req.download == Some("true") then SampleCsv(SampleCsvDisposition)
    else if req.post && req.files then RedirectToPreview(FirstSegment(tempName, '.'))
    else if req.post && !req.files then UploadForm(["No file provided"])
    else UploadForm([])
  }

  // ----- import_books_preview -----

  /** The name of the temporary CSV the preview reads. */
  function PreviewFileName(uuid: string): string {
    uuid + ".csv"
  }

  /** A temporary file named after a uuid with the ".csv" extension is the
      file the preview page then reads. */
  lemma UploadThenPreviewSameFile(uuid: string)
    requires IsUuidText(uuid)
    ensures ImportBooksUpload(UploadRequest(None, true, true), uuid + ".csv") == RedirectToPreview(uuid)
    ensures PreviewFileName(ImportBooksUpload(UploadRequest(None, true, true), uuid + ".csv").uuid) == uuid + ".csv"
  {
    var name := uuid + ".csv";
    assert forall j :: 0 <= j < |uuid| ==> name[j] == uuid[j];
    IndexOfAt(name, '.', |uuid|);
    assert name[..|uuid|] == uuid;
  }

  /** What `verify_upload` returns for the temporary CSV. */
  datatype Verification = Verification(
    hasError: bool,
    errorMessage: seq<string>,
    hasErrorLines: bool,
    errorLines: seq<seq<string>>,
    goodLines: seq<seq<string>>)

  /** `verify_upload` either returns, or raises an exception whose `str()`
      is `text`. */
  datatype VerifyOutcome = Returned(v: Verification) | Raised(text: string)

  /** Values of the preview template's context. */
  datatype ContextValue = Flag(flag: bool) | Rows(rows: seq<seq<string>>) | Texts(texts: seq<string>) | Word(text: string)

  datatype PreviewPage =
    | ErrorPage(errorMessage: seq<string>)            // import_has_error.html
    | VerifyPage(context: map<string, ContextValue>)  // import_verify.html

  function GeneralError(text: string): string {
    "There was a general error processing the uploaded file: " + text + "."
  }

  /** `import_books_preview` as written: the error lines go into the context
      under the key 'error_lines:'. */
  function ImportBooksPreviewAsWritten(uuid: string, verify: string -> VerifyOutcome, headers: seq<string>): (r: PreviewPage)
    ensures verify(PreviewFileName(uuid)).Raised? ==>
      r == ErrorPage([GeneralError(verify(PreviewFileName(uuid)).text)])
    ensures verify(PreviewFileName(uuid)).Returned? && verify(PreviewFileName(uuid)).v.hasError ==>
      r == ErrorPage(verify(PreviewFileName(uuid)).v.errorMessage)
    ensures r.VerifyPage? <==> verify(PreviewFileName(uuid)).Returned? && !verify(PreviewFileName(uuid)).v.hasError
    ensures r.VerifyPage? ==> "error_lines" !in r.context
    ensures r.VerifyPage? ==>
      var v := verify(PreviewFileName(uuid)).v;
      && r.context.Keys == {"headers", "good_rows", "has_error_lines", "error_lines:", "UUID"}
      && r.context["good_rows"] == Rows(v.goodLines)
      && r.context["error_lines:"] == Rows(v.errorLines)
      && r.context["has_error_lines"] == Flag(v.hasErrorLines)
      && r.context["UUID"] == Word(uuid)
      && r.context["headers"] == Texts(headers)
  {
    match verify(PreviewFileName(uuid))
    case Raised(text) => ErrorPage([GeneralError(text)])
    case Returned(v) =>
      if v.hasError then ErrorPage(v.errorMessage)
      else VerifyPage(map[
        "headers" := Texts(headers),
        "good_rows" := Rows(v.goodLines),
        "has_error_lines" := Flag(v.hasErrorLines),
        "error_lines:" := Rows(v.errorLines),
        "UUID" := Word(uuid)])
  }

  /** The preview page with the key the template evidently reads. */
  function ImportBooksPreview(uuid: string, verify: string -> VerifyOutcome, headers: seq<string>): (r: PreviewPage)
    ensures verify(PreviewFileName(uuid)).Raised? ==>
      r == ErrorPage([GeneralError(verify(PreviewFileName(uuid)).text)])
    ensures verify(PreviewFileName(uuid)).Returned? && verify(PreviewFileName(uuid)).v.hasError ==>
      r == ErrorPage(verify(PreviewFileName(uuid)).v.errorMessage)
    ensures r.VerifyPage? <==> verify(PreviewFileName(uuid)).Returned? && !verify(PreviewFileName(uuid)).v.hasError
    ensures r.VerifyPage? ==>
      var v := verify(PreviewFileName(uuid)).v;
      && r.context.Keys == {"headers", "good_rows", "has_error_lines", "error_lines", "UUID"}
      && r.context["good_rows"] == Rows(v.goodLines)
      && r.context["error_lines"] == Rows(v.errorLines)
      && r.context["has_error_lines"] == Flag(v.hasErrorLines)
      && r.context["UUID"] == Word(uuid)
      && r.context["headers"] == Texts(headers)
  {
    match verify(PreviewFileName(uuid))
    case Raised(text) => ErrorPage([GeneralError(text)])
    case Returned(v) =>
      if v.hasError then ErrorPage(v.errorMessage)
      else VerifyPage(map[
        "headers" := Texts(headers),
        "good_rows" := Rows(v.goodLines),
        "has_error_lines" := Flag(v.hasErrorLines),
        "error_lines" := Rows(v.errorLines),
        "UUID" := Word(uuid)])
  }

  /** A clean verification that still reports error lines: the page as
      written offers the template no `error_lines` to show. */
  lemma PreviewLosesErrorLines()
    ensures var verify := (name: string) => Returned(Verification(false, [], true, [["bad", "row"]], []));
      && ImportBooksPreviewAsWritten("u", verify, []).VerifyPage?
      && "error_lines" !in ImportBooksPreviewAsWritten("u", verify, []).context
      && ImportBooksPreview("u", verify, []).context["error_lines"] == Rows([["bad", "row"]])
  {
  }
}
