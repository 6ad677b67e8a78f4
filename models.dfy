/** The catalogue's records (books, contributors, formats, chapters and the
    append-only `BookAccess` event log) and the logic attached to them. The
    ORM is replaced by values: a table is a sequence of rows in the model's
    default ordering, and the event store is a class whose one field is the
    sequence of rows inserted so far. */
module Models {
  import opened Wrappers
  import opened Seqs
  import opened Calendar
  import opened Text

  datatype Book = Book(
    id: nat,
    prefix: Option<string>,
    title: string,
    subtitle: Option<string>,
    datePublished: Option<Date>,
    dateEmbargo: Option<Date>,
    category: Option<nat>,
    cover: string)        // the stored cover name; "" when no file is attached

  datatype Contributor = Contributor(
    id: nat,
    book: nat,
    firstName: string,
    middleName: Option<string>,
    lastName: string,
    sequence: nat)

  datatype Format = Format(id: nat, book: nat, title: string, filename: string, sequence: nat)

  datatype Chapter = Chapter(
    id: nat,
    book: nat,
    title: string,
    number: Option<nat>,
    sequence: nat,
    filename: string)

  /** The fields of the category model that the books code reads and writes;
      the rest of that model is not part of this model. */
  datatype Category = Category(id: nat, name: string, slug: string)

  /** One row of the access log. `kind` is the `type` column. */
  datatype BookAccess = BookAccess(
    book: nat,
    chapter: Option<nat>,
    kind: string,
    format: Option<nat>,
    accessed: int,          // seconds
    country: Option<nat>,
    identifier: string)     // the requester's session key

  /** Python truthiness of a nullable character field. */
  predicate Truthy(s: Option<string>) {
    s.Some? && s.value != ""
  }

  // ----- cover_images_upload_path -----

  const CoverImagesFolder := "cover_images/"

  /** The upload path for a cover: a fresh uuid, followed by "." and the
      second dot-separated piece of the uploaded name when it has a dot
      (`os.path.join` concatenates, since a uuid does not start with '/'). */
  function CoverImagesUploadPath(filename: string, uuid: string): (path: string)
    requires IsUuidText(uuid)
    ensures CoverImagesFolder + uuid <= path
    ensures '.' !in filename ==> path == CoverImagesFolder + uuid
    ensures '.' in filename ==> path == CoverImagesFolder + uuid + "." + SecondSegment(filename, '.').value
  {
    match SecondSegment(filename, '.')
    case Success(piece) => CoverImagesFolder + uuid + "." + piece
    case Failure(_) => CoverImagesFolder + uuid
  }

  /** The piece taken is the second, not the last, and it never holds a dot. */
  lemma CoverPathTakesSecondPiece(uuid: string)
    requires IsUuidText(uuid)
    ensures CoverImagesUploadPath("a.tar.gz", uuid) == CoverImagesFolder + uuid + "." + "tar"
  {
    SecondPieceOfCoverName();
  }

  lemma SecondPieceOfCoverName()
    ensures SecondSegment("a.tar.gz", '.') == Success("tar")
  {
    var f := "a.tar.gz";
    IndexOfAt(f, '.', 1);
    var tail := f[2..];
    assert tail == "tar.gz";
    IndexOfAt(tail, '.', 3);
    assert tail[..3] == "tar";
  }

  // ----- Book -----

  /** `Book.full_title`. */
  function FullTitle(b: Book): (r: string)
    ensures Truthy(b.prefix) ==> b.prefix.value + " " + b.title <= r
    ensures !Truthy(b.prefix) ==> b.title <= r
    ensures Truthy(b.subtitle) ==>
      (|r| >= |b.subtitle.value| + 2 && r[|r| - |b.subtitle.value| - 2..] == ": " + b.subtitle.value)
    ensures !Truthy(b.subtitle) ==> |r| >= |b.title| && r[|r| - |b.title|..] == b.title
    ensures |r| == (if Truthy(b.prefix) then |b.prefix.value| + 1 else 0) + |b.title|
                   + (if Truthy(b.subtitle) then |b.subtitle.value| + 2 else 0)
    ensures !Truthy(b.prefix) && !Truthy(b.subtitle) ==> r == b.title
  {
    if Truthy(b.prefix) && Truthy(b.subtitle) then b.prefix.value + " " + b.title + ": " + b.subtitle.value
    else if Truthy(b.prefix) then b.prefix.value + " " + b.title
    else if Truthy(b.subtitle) then b.title + ": " + b.subtitle.value
    else b.title
  }

  /** `Book.get_next_contributor_sequence`: one more than the sequence of the
      last contributor of the book's contributor set (in its default ordering),
      or 1 when there is none. */
  function NextContributorSequence(contributors: seq<Contributor>): (n: nat)
    ensures contributors == [] ==> n == 1
    ensures contributors != [] ==> n == contributors[|contributors| - 1].sequence + 1
  {
    if |contributors| > 0 then contributors[|contributors| - 1].sequence + 1 else 1
  }

  predicate SortedBySequence(contributors: seq<Contributor>) {
    forall i, j :: 0 <= i < j < |contributors| ==> contributors[i].sequence <= contributors[j].sequence
  }

  /** Under the `('sequence',)` ordering the last contributor holds the largest
      sequence, so the next sequence exceeds every existing one. */
  lemma NextContributorSequenceExceedsAll(contributors: seq<Contributor>)
    requires SortedBySequence(contributors)
    ensures forall c :: c in contributors ==> c.sequence < NextContributorSequence(contributors)
    ensures contributors != [] ==> exists c :: c in contributors && NextContributorSequence(contributors) == c.sequence + 1
  {
    if contributors != [] {
      var last := |contributors| - 1;
      forall c | c in contributors
        ensures c.sequence < NextContributorSequence(contributors)
      {
        var i :| 0 <= i < |contributors| && contributors[i] == c;
        assert i == last || contributors[i].sequence <= contributors[last].sequence;
      }
      assert contributors[last] in contributors;
    }
  }

  /** The largest chapter sequence. */
  function MaxChapterSequence(chapters: seq<Chapter>): (m: nat)
    requires chapters != []
    ensures forall c :: c in chapters ==> c.sequence <= m
    ensures exists c :: c in chapters && c.sequence == m
  {
    if |chapters| == 1 then chapters[0].sequence
    else
      var rest := MaxChapterSequence(chapters[1..]);
      assert forall c :: c in chapters[1..] ==> c in chapters;
      if chapters[0].sequence >= rest then chapters[0].sequence else rest
  }

  /** `Book.get_next_chapter_sequence`: max(sequences) + 1, or 0 when the book
      has no chapters. */
  function NextChapterSequence(chapters: seq<Chapter>): (n: nat)
    ensures chapters == [] <==> n == 0
    ensures forall c :: c in chapters ==> c.sequence < n
    ensures chapters != [] ==> exists c :: c in chapters && n == c.sequence + 1
  {
    if chapters != [] then MaxChapterSequence(chapters) + 1 else 0
  }

  /** The MIME to ONIX cover-code table of `Book.cover_onix_code`. */
  const OnixCoverCodes: map<string, string> :=
    map["image/gif" := "D501", "image/jpeg" := "D502", "image/png" := "D503", "image/tiff" := "D504"]

  const DefaultOnixCoverCode := "D502"

  /** `mapping.get(mime, 'D502')`. */
  function OnixCode(mime: Option<string>): (code: string)
    ensures code in OnixCoverCodes.Values
    ensures mime.Some? && mime.value in OnixCoverCodes ==> code == OnixCoverCodes[mime.value]
    ensures (mime.None? || mime.value !in OnixCoverCodes) ==> code == DefaultOnixCoverCode
  {
    assert OnixCoverCodes["image/jpeg"] == DefaultOnixCoverCode;
    if mime.Some? && mime.value in OnixCoverCodes then OnixCoverCodes[mime.value] else DefaultOnixCoverCode
  }

  /** Each code names exactly one kind of image; D502 also stands for anything
      unrecognised. */
  lemma OnixCodeMeaning(mime: Option<string>)
    ensures OnixCode(mime) == "D501" <==> mime == Some("image/gif")
    ensures OnixCode(mime) == "D503" <==> mime == Some("image/png")
    ensures OnixCode(mime) == "D504" <==> mime == Some("image/tiff")
    ensures OnixCode(mime) == "D502" <==>
      !(mime == Some("image/gif") || mime == Some("image/png") || mime == Some("image/tiff"))
  {
  }

  /** `Book.cover_onix_code`: the MIME type is guessed from the cover's URL;
      reading `cover.url` raises `ValueError` when no file is attached. */
  function CoverOnixCode(b: Book, guessType: string -> Option<string>): (r: Result<string>)
    ensures r.Failure? <==> b.cover == ""
    ensures r.Success? ==> r.value == OnixCode(guessType(b.cover))
  {
    if b.cover == "" then Failure(ValueError) else Success(OnixCode(guessType(b.cover)))
  }

  // ----- Contributor -----

  /** `Contributor.__str__`. */
  function ContributorName(c: Contributor): (r: string)
    ensures c.firstName + " " <= r
    ensures |r| >= |c.lastName| + 1 && r[|r| - |c.lastName| - 1..] == " " + c.lastName
    ensures !Truthy(c.middleName) ==> r == c.firstName + " " + c.lastName
    ensures Truthy(c.middleName) ==>
      && |r| == |c.firstName| + |c.middleName.value| + |c.lastName| + 2
      && r[|c.firstName| + 1..|c.firstName| + 1 + |c.middleName.value|] == c.middleName.value
  {
    if !Truthy(c.middleName) then c.firstName + " " + c.lastName
    else c.firstName + " " + c.middleName.value + " " + c.lastName
  }

  /** `Contributor.middle_initial`: None when there is no middle name. */
  function MiddleInitial(c: Contributor): (r: Option<string>)
    ensures r.Some? <==> Truthy(c.middleName)
    ensures r.Some? ==> r.value == [c.middleName.value[0], '.']
  {
    if Truthy(c.middleName) then Some([c.middleName.value[0], '.']) else None
  }

  /** `Contributor.citation_name`: "Last F."; `first_name[0]` raises
      `IndexError` on an empty first name. */
  function CitationName(c: Contributor): (r: Result<string>)
    ensures r.Failure? <==> c.firstName == ""
    ensures r.Success? ==> r.value == c.lastName + " " + [c.firstName[0]] + "."
  {
    if c.firstName == "" then Failure(IndexError)
    else Success(c.lastName + " " + [c.firstName[0]] + ".")
  }

  /** `Book.contributors_citation` as written: the third branch (which is also
      taken for no contributors) formats `str(contributor)`. */
  function ContributorsCitation(cs: seq<Contributor>): (r: Result<string>)
    ensures |cs| == 0 ==> r == Failure(IndexError)
    ensures |cs| >= 3 ==> r == Success(ContributorName(cs[0]) + " et al. ")
    ensures r.Failure? ==> r.error == IndexError
    ensures |cs| == 1 ==> (r.Failure? <==> cs[0].firstName == "")
    ensures |cs| == 1 && r.Success? ==> r.value == cs[0].lastName + " " + [cs[0].firstName[0]] + ". "
    ensures |cs| == 2 ==> (r.Failure? <==> cs[0].firstName == "" || cs[1].firstName == "")
    ensures |cs| == 2 && r.Success? ==>
      r.value == cs[0].lastName + " " + [cs[0].firstName[0]] + ". & " + cs[1].lastName + " " + [cs[1].firstName[0]] + ". "
  {
    if |cs| == 1 then
      match CitationName(cs[0])
      case Success(one) => Success(one + " ")
      case Failure(e) => Failure(e)
    else if |cs| == 2 then
      match (CitationName(cs[0]), CitationName(cs[1]))
      case (Success(one), Success(two)) => Success(one + " & " + two + " ")
      case (Failure(e), _) => Failure(e)
      case (_, Failure(e)) => Failure(e)
    else if |cs| == 0 then Failure(IndexError)
    else Success(ContributorName(cs[0]) + " et al. ")
  }

  /** `Book.contributors_citation` as evidently intended: every branch leads
      with the first contributor's citation name. */
  function ContributorsCitationIntended(cs: seq<Contributor>): (r: Result<string>)
    ensures |cs| == 0 ==> r == Failure(IndexError)
    ensures |cs| > 0 && cs[0].firstName == "" ==> r == Failure(IndexError)
    ensures r.Success? ==> |cs| > 0 && CitationName(cs[0]).Success? && CitationName(cs[0]).value <= r.value
  {
    if |cs| == 0 then Failure(IndexError)
    else if |cs| == 2 then
      match (CitationName(cs[0]), CitationName(cs[1]))
      case (Success(one), Success(two)) => Success(one + " & " + two + " ")
      case (Failure(e), _) => Failure(e)
      case (_, Failure(e)) => Failure(e)
    else
      match CitationName(cs[0])
      case Success(one) => Success(if |cs| == 1 then one + " " else one + " et al. ")
      case Failure(e) => Failure(e)
  }

  /** With three contributors the written code leads with "First Last"
      instead of "Last F." as the one- and two-contributor branches do. */
  lemma ContributorsCitationInconsistent()
    ensures
      var al := Contributor(1, 1, "Al", None, "Wu", 1);
      var cs := [al, al, al];
      && ContributorsCitation(cs) == Success("Al Wu et al. ")
      && ContributorsCitationIntended(cs) == Success("Wu A. et al. ")
      && !(CitationName(al).value <= ContributorsCitation(cs).value)
  {
    var al := Contributor(1, 1, "Al", None, "Wu", 1);
    var cs := [al, al, al];
    assert cs[0] == al && |cs| == 3;
    assert ContributorName(al) == "Al Wu";
    assert "Al Wu" + " et al. " == "Al Wu et al. ";
    assert CitationName(al).value == "Wu A.";
    assert "Wu A." + " et al. " == "Wu A. et al. ";
    assert ContributorsCitation(cs).value[0] == 'A' != CitationName(al).value[0];
  }

  // ----- access_choices and Book.metrics -----

  const AccessChoices: seq<(string, string)> := [("download", "Download"), ("view", "View")]

  predicate IsAccessChoice(kind: string) {
    exists i :: 0 <= i < |AccessChoices| && AccessChoices[i].0 == kind
  }

  lemma AccessChoiceKinds(kind: string)
    ensures IsAccessChoice(kind) <==> kind == "download" || kind == "view"
  {
    if kind == "download" { assert AccessChoices[0].0 == kind; }
    if kind == "view" { assert AccessChoices[1].0 == kind; }
  }

  /** `BookAccess.objects.filter(book=book)`. */
  function ForBook(log: seq<BookAccess>, book: nat): (r: seq<BookAccess>)
    ensures |r| <= |log|
    ensures forall e {:trigger e in r} :: e in r <==> e in log && e.book == book
  {
    Filter(log, (e: BookAccess) => e.book == book)
  }

  /** `.filter(type=kind)`. */
  function OfKind(log: seq<BookAccess>, kind: string): (r: seq<BookAccess>)
    ensures |r| <= |log|
    ensures forall e {:trigger e in r} :: e in r <==> e in log && e.kind == kind
  {
    Filter(log, (e: BookAccess) => e.kind == kind)
  }

  lemma {:induction false} ViewsAndDownloadsBound(log: seq<BookAccess>)
    ensures |OfKind(log, "view")| + |OfKind(log, "download")| <= |log|
    ensures (forall e :: e in log ==> IsAccessChoice(e.kind)) ==>
      |OfKind(log, "view")| + |OfKind(log, "download")| == |log|
  {
    if |log| > 0 {
      var init := log[..|log| - 1];
      assert forall e :: e in init ==> e in log;
      ViewsAndDownloadsBound(init);
      AccessChoiceKinds(log[|log| - 1].kind);
    }
  }

  /** The book's events of one type, selected by a single filter on both
      fields: `BookAccess.objects.filter(book=book, type=kind)`. */
  function OfBookAndKind(log: seq<BookAccess>, book: nat, kind: string): seq<BookAccess> {
    Filter(log, (e: BookAccess) => e.book == book && e.kind == kind)
  }

  /** Narrowing the book's events to a type is the single filter on book and
      type: the chained querysets of `Book.metrics` select the same rows, in
      the same order. */
  lemma {:induction false} ForBookOfKind(log: seq<BookAccess>, book: nat, kind: string)
    ensures OfKind(ForBook(log, book), kind) == OfBookAndKind(log, book, kind)
    decreases |log|
  {
    if |log| > 0 {
      var init, last := log[..|log| - 1], log[|log| - 1];
      assert log == init + [last];
      ForBookOfKind(init, book, kind);
      var before := ForBook(init, book);
      assert OfBookAndKind(log, book, kind)
          == OfBookAndKind(init, book, kind) + (if last.book == book && last.kind == kind then [last] else []);
      if last.book == book {
        assert ForBook(log, book) == before + [last];
        assert (before + [last])[..|before + [last]| - 1] == before;
        assert OfKind(before + [last], kind) == OfKind(before, kind) + (if last.kind == kind then [last] else []);
      } else {
        assert ForBook(log, book) == before;
      }
    }
  }

  datatype BookMetrics = BookMetrics(total: nat, views: nat, downloads: nat)

  /** `Book.metrics`. */
  function Metrics(log: seq<BookAccess>, book: nat): (m: BookMetrics)
    ensures m.views + m.downloads <= m.total
    ensures m.total == |ForBook(log, book)|
    ensures m.views == |OfBookAndKind(log, book, "view")|
    ensures m.downloads == |OfBookAndKind(log, book, "download")|
  {
    var all := ForBook(log, book);
    ViewsAndDownloadsBound(all);
    ForBookOfKind(log, book, "view");
    ForBookOfKind(log, book, "download");
    BookMetrics(|all|, |OfKind(all, "view")|, |OfKind(all, "download")|)
  }

  /** Views and downloads add up to the total when every event's type is one
      of the `access_choices`. */
  lemma MetricsExact(log: seq<BookAccess>, book: nat)
    requires forall e :: e in log ==> IsAccessChoice(e.kind)
    ensures Metrics(log, book).views + Metrics(log, book).downloads == Metrics(log, book).total
  {
    ViewsAndDownloadsBound(ForBook(log, book));
  }

  // ----- add_book_access -----

  /** Seconds during which a repeat access is collapsed into the first. */
  const SuppressionWindow := 10

  /** The subject of an access: a format of a book, or a chapter of a book. */
  datatype Subject = FormatOf(book: nat, format: nat) | ChapterOf(book: nat, chapter: nat)

  /** What the request offers: the User-Agent header (absent => None), the
      client address and the session key used as the identifier. */
  datatype Request = Request(userAgent: Option<string>, ip: string, sessionKey: string)

  /** The external lookups: `parse_ua_string(ua).is_bot`, and
      `get_iso_country_code` followed by the `Country` lookup (None when
      either finds nothing). */
  datatype Lookups = Lookups(isBot: string -> bool, countryOf: string -> Option<nat>)

  /** `user_agent and not user_agent.is_bot`: parsing a missing header raises
      `TypeError` and leaves no agent; a parsed agent is always truthy. */
  predicate Tracked(req: Request, lookups: Lookups) {
    req.userAgent.Some? && !lookups.isBot(req.userAgent.value)
  }

  /** The duplicate filter: same book, same format or chapter, same type,
      same identifier, accessed at or after `since`. */
  predicate Matches(e: BookAccess, subject: Subject, kind: string, identifier: string, since: int) {
    && e.book == subject.book
    && (match subject
        case FormatOf(_, f) => e.format == Some(f)
        case ChapterOf(_, c) => e.chapter == Some(c))
    && e.accessed >= since
    && e.kind == kind
    && e.identifier == identifier
  }

  /** The `.count()` of the duplicate filter. */
  function RecentCount(log: seq<BookAccess>, subject: Subject, kind: string, identifier: string, since: int): (n: nat)
    ensures n <= |log|
  {
    if |log| == 0 then 0
    else
      RecentCount(log[..|log| - 1], subject, kind, identifier, since)
      + (if Matches(log[|log| - 1], subject, kind, identifier, since) then 1 else 0)
  }

  lemma {:induction false} RecentCountZero(log: seq<BookAccess>, subject: Subject, kind: string, identifier: string, since: int)
    ensures RecentCount(log, subject, kind, identifier, since) == 0 <==>
      forall i :: 0 <= i < |log| ==> !Matches(log[i], subject, kind, identifier, since)
  {
    if |log| > 0 {
      var init := log[..|log| - 1];
      RecentCountZero(init, subject, kind, identifier, since);
      assert forall i :: 0 <= i < |init| ==> init[i] == log[i];
    }
  }

  /** The row `BookAccess.objects.create` inserts for a subject. */
  function NewAccess(subject: Subject, kind: string, country: Option<nat>, identifier: string, now: int): (e: BookAccess)
    ensures Matches(e, subject, kind, identifier, now - SuppressionWindow)
    ensures e.accessed == now && e.country == country
  {
    match subject
    case FormatOf(b, f) => BookAccess(b, None, kind, Some(f), now, country, identifier)
    case ChapterOf(b, c) => BookAccess(b, Some(c), kind, None, now, country, identifier)
  }

  /** The event log after `add_book_access` at time `now`. */
  function Record(log: seq<BookAccess>, subject: Subject, req: Request, kind: string, now: int, lookups: Lookups): (r: seq<BookAccess>)
    ensures r == log || r == log + [NewAccess(subject, kind, lookups.countryOf(req.ip), req.sessionKey, now)]
  {
    if Tracked(req, lookups) && RecentCount(log, subject, kind, req.sessionKey, now - SuppressionWindow) == 0 then
      log + [NewAccess(subject, kind, lookups.countryOf(req.ip), req.sessionKey, now)]
    else log
  }

  /** An event is appended exactly when the requester is a non-bot agent and
      no event with the same key, type and identifier is at most ten seconds
      old; existing events are never changed. */
  lemma RecordAppendsIff(log: seq<BookAccess>, subject: Subject, req: Request, kind: string, now: int, lookups: Lookups)
    ensures Record(log, subject, req, kind, now, lookups)[..|log|] == log
    ensures |Record(log, subject, req, kind, now, lookups)| == |log| + 1 <==>
      && Tracked(req, lookups)
      && forall i :: 0 <= i < |log| ==> !Matches(log[i], subject, kind, req.sessionKey, now - SuppressionWindow)
  {
    RecentCountZero(log, subject, kind, req.sessionKey, now - SuppressionWindow);
  }

  /** A second access by the same requester to the same subject no more than
      ten seconds after one that was recorded is not recorded. */
  lemma SuppressedWithinWindow(log: seq<BookAccess>, subject: Subject, req: Request, kind: string, t1: int, t2: int, lookups: Lookups)
    requires |Record(log, subject, req, kind, t1, lookups)| == |log| + 1
    requires t2 <= t1 + SuppressionWindow
    ensures
      var once := Record(log, subject, req, kind, t1, lookups);
      Record(once, subject, req, kind, t2, lookups) == once
  {
    var once := Record(log, subject, req, kind, t1, lookups);
    var e := once[|log|];
    assert Matches(e, subject, kind, req.sessionKey, t2 - SuppressionWindow);
    RecentCountZero(once, subject, kind, req.sessionKey, t2 - SuppressionWindow);
  }

  /** After the window has passed the same requester is recorded again,
      provided no other event of theirs falls in the new window. */
  lemma RecordedAgainAfterWindow(log: seq<BookAccess>, subject: Subject, req: Request, kind: string, t1: int, t2: int, lookups: Lookups)
    requires |Record(log, subject, req, kind, t1, lookups)| == |log| + 1
    requires t2 > t1 + SuppressionWindow
    requires forall i :: 0 <= i < |log| ==> !Matches(log[i], subject, kind, req.sessionKey, t2 - SuppressionWindow)
    ensures
      var once := Record(log, subject, req, kind, t1, lookups);
      |Record(once, subject, req, kind, t2, lookups)| == |log| + 2
  {
    var once := Record(log, subject, req, kind, t1, lookups);
    RecordAppendsIff(log, subject, req, kind, t1, lookups);
    assert forall i :: 0 <= i < |log| ==> once[i] == log[i];
    RecordAppendsIff(once, subject, req, kind, t2, lookups);
  }

  /** Bots and requests without a User-Agent never produce an event. */
  lemma UntrackedNeverRecorded(log: seq<BookAccess>, subject: Subject, req: Request, kind: string, now: int, lookups: Lookups)
    requires !Tracked(req, lookups)
    ensures Record(log, subject, req, kind, now, lookups) == log
  {
  }

  /** The `BookAccess` table. */
  class AccessStore {
    var events: seq<BookAccess>

    constructor ()
      ensures events == []
    {
      events := [];
    }

    /** `Format.add_book_access`. */
    method AddFormatAccess(format: Format, req: Request, kind: string, now: int, lookups: Lookups)
      modifies this
      ensures events == Record(old(events), FormatOf(format.book, format.id), req, kind, now, lookups)
    {
      var agent := req.userAgent;
      var country := lookups.countryOf(req.ip);
      var identifier := req.sessionKey;
      if agent.Some? && !lookups.isBot(agent.value) {
        var timeToCheck := now - SuppressionWindow;
        var check := RecentCount(events, FormatOf(format.book, format.id), kind, identifier, timeToCheck);
        if check == 0 {
          events := events + [BookAccess(format.book, None, kind, Some(format.id), now, country, identifier)];
        }
      }
    }

    /** `Chapter.add_book_access`. */
    method AddChapterAccess(chapter: Chapter, req: Request, kind: string, now: int, lookups: Lookups)
      modifies this
      ensures events == Record(old(events), ChapterOf(chapter.book, chapter.id), req, kind, now, lookups)
    {
      var agent := req.userAgent;
      var country := lookups.countryOf(req.ip);
      var identifier := req.sessionKey;
      if agent.Some? && !lookups.isBot(agent.value) {
        var timeToCheck := now - SuppressionWindow;
        var check := RecentCount(events, ChapterOf(chapter.book, chapter.id), kind, identifier, timeToCheck);
        if check == 0 {
          events := events + [BookAccess(chapter.book, Some(chapter.id), kind, None, now, country, identifier)];
        }
      }
    }
  }
}
