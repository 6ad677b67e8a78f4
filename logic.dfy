/** Calendar arithmetic for the metrics pages and the date-range metrics
    report. */
module Logic {
  import opened Wrappers
  import opened Seqs
  import opened Calendar
  import opened Models

  // ----- get_first_day / get_last_day -----

  /** `get_first_day(dt, d_years, d_months)`: the first day of the month that
      lies `d_years` years and `d_months` months from `dt`'s month. Python's
      `divmod(m - 1, 12)` floors, which agrees with Dafny's `/` and `%` for the
      positive divisor 12; `date()` raises `ValueError` outside years 1-9999. */
  function FirstDay(dt: Date, dYears: int, dMonths: int): (r: Option<Date>)
    requires Valid(dt)
    ensures
      var target := MonthIndex(dt.year, dt.month) + 12 * dYears + dMonths;
      r.Some? <==> MonthIndex(MinYear, 1) <= target <= MonthIndex(MaxYear, 12)
    ensures r.Some? ==>
      && Valid(r.value)
      && r.value.day == 1
      && MonthIndex(r.value.year, r.value.month) == MonthIndex(dt.year, dt.month) + 12 * dYears + dMonths
  {
    var y, m := dt.year + dYears, dt.month + dMonths;
    var a, m' := (m - 1) / 12, (m - 1) % 12;
    if MinYear <= y + a <= MaxYear then Some(Date(y + a, m' + 1, 1)) else None
  }

  /** With no deltas the month and year are kept. */
  lemma FirstDayOfSameMonth(dt: Date)
    requires Valid(dt)
    ensures FirstDay(dt, 0, 0) == Some(Date(dt.year, dt.month, 1))
  {
    var r := FirstDay(dt, 0, 0).value;
    MonthIndexInjective(r.year, r.month, dt.year, dt.month);
  }

  /** December plus one month is January of the next year. */
  lemma FirstDayCarriesIntoNextYear(dt: Date)
    requires Valid(dt) && dt.month == 12 && dt.year < MaxYear
    ensures FirstDay(dt, 0, 1) == Some(Date(dt.year + 1, 1, 1))
  {
    var r := FirstDay(dt, 0, 1).value;
    MonthIndexInjective(r.year, r.month, dt.year + 1, 1);
  }

  /** January minus one month is December of the previous year. */
  lemma FirstDayBorrowsFromPreviousYear(dt: Date)
    requires Valid(dt) && dt.month == 1 && dt.year > MinYear
    ensures FirstDay(dt, 0, -1) == Some(Date(dt.year - 1, 12, 1))
  {
    var r := FirstDay(dt, 0, -1).value;
    MonthIndexInjective(r.year, r.month, dt.year - 1, 12);
  }

  /** `get_last_day(dt)`: the first day of the next month, minus one day. */
  function LastDay(dt: Date): (r: Option<Date>)
    requires Valid(dt)
    ensures r.None? <==> dt.year == MaxYear && dt.month == 12
    ensures r.Some? ==>
      && Valid(r.value)
      && r.value.year == dt.year && r.value.month == dt.month
      && r.value.day == DaysInMonth(dt.year, dt.month)
      && dt.day <= r.value.day
    ensures r.Some? ==> FirstDay(dt, 0, 1).Some? && NextDay(r.value) == FirstDay(dt, 0, 1).value
  {
    match FirstDay(dt, 0, 1)
    case None => None
    case Some(first) =>
      var last := PrevDay(first);
      assert MonthIndex(last.year, last.month) == MonthIndex(dt.year, dt.month);
      MonthIndexInjective(last.year, last.month, dt.year, dt.month);
      Some(last)
  }

  // ----- get_start_and_end_date -----

  /** A range bound: the raw `GET` parameter (a string), or a computed date. */
  datatype DateArg = Raw(text: string) | Day(date: Date)

  /** `get_start_and_end_date` with `date.today()` as `today`. Both defaults
      are evaluated before `GET.get` runs, so the call fails in December 9999
      even when both parameters are given. */
  function StartAndEndDate(today: Date, startDate: Option<string>, endDate: Option<string>): (r: Option<(DateArg, DateArg)>)
    requires Valid(today)
    ensures r.None? <==> today.year == MaxYear && today.month == 12
    ensures r.Some? && startDate.Some? ==> r.value.0 == Raw(startDate.value)
    ensures r.Some? && endDate.Some? ==> r.value.1 == Raw(endDate.value)
    ensures r.Some? && startDate.None? ==> r.value.0 == Day(Date(today.year, today.month, 1))
    ensures r.Some? && endDate.None? ==>
      r.value.1 == Day(Date(today.year, today.month, DaysInMonth(today.year, today.month)))
  {
    FirstDayOfSameMonth(today);
    var first := FirstDay(today, 0, 0).value;
    match LastDay(today)
    case None => None
    case Some(last) =>
      Some((if startDate.Some? then Raw(startDate.value) else Day(first),
            if endDate.Some? then Raw(endDate.value) else Day(last)))
  }

  // ----- book_metrics_data -----

  datatype FormatCounts = FormatCounts(format: nat, views: nat, downloads: nat)
  datatype BookCounts = BookCounts(book: nat, views: nat, downloads: nat, formats: seq<FormatCounts>)

  /** `.filter(type=kind, accessed__gte=start, accessed__lte=end)`. */
  function KindBetween(log: seq<BookAccess>, kind: string, start: int, end: int): (r: seq<BookAccess>)
    ensures |r| <= |log|
    ensures forall e {:trigger e in r} :: e in r <==> e in log && e.kind == kind && start <= e.accessed <= end
  {
    Filter(log, (e: BookAccess) => e.kind == kind && start <= e.accessed <= end)
  }

  /** `.filter(format=format)`. */
  function WithFormat(log: seq<BookAccess>, format: nat): (r: seq<BookAccess>)
    ensures |r| <= |log|
    ensures forall e {:trigger e in r} :: e in r <==> e in log && e.format == Some(format)
  {
    Filter(log, (e: BookAccess) => e.format == Some(format))
  }

  /** `book.format_set.all()`: the book's formats, in the table's ordering. */
  function FormatSet(formats: seq<Format>, book: nat): (r: seq<Format>)
    ensures |r| <= |formats|
    ensures forall f {:trigger f in r} :: f in r <==> f in formats && f.book == book
  {
    Filter(formats, (f: Format) => f.book == book)
  }

  /** The per-format rows as the format loop produces them: `views` and
      `downloads` are reassigned to their format-filtered selves, so each
      format's filter applies on top of those of the formats before it. */
  function NarrowedCounts(views: seq<BookAccess>, downloads: seq<BookAccess>, fs: seq<Format>): (rows: seq<FormatCounts>)
    ensures |rows| == |fs|
    decreases |fs|
  {
    if |fs| == 0 then []
    else
      var v, d := WithFormat(views, fs[0].id), WithFormat(downloads, fs[0].id);
      [FormatCounts(fs[0].id, |v|, |d|)] + NarrowedCounts(v, d, fs[1..])
  }

  /** What `book_metrics_data` reports for one book. */
  ghost predicate DescribesBook(entry: BookCounts, log: seq<BookAccess>, book: Book, formats: seq<Format>, start: int, end: int) {
    var accesses := ForBook(log, book.id);
    var views := KindBetween(accesses, "view", start, end);
    var downloads := KindBetween(accesses, "download", start, end);
    && entry.book == book.id
    && entry.views == |views|
    && entry.downloads == |downloads|
    && entry.formats == NarrowedCounts(views, downloads, FormatSet(formats, book.id))
  }

  /** `book_metrics_data(books, start_date, end_date)` over the event log and
      the format table, with the bounds as instants. */
  method BookMetricsData(log: seq<BookAccess>, books: seq<Book>, formats: seq<Format>, start: int, end: int)
    returns (allBookData: seq<BookCounts>)
    ensures |allBookData| == |books|
    ensures forall i :: 0 <= i < |books| ==> DescribesBook(allBookData[i], log, books[i], formats, start, end)
  {
    allBookData := [];
    var i := 0;
    while i < |books|
      invariant 0 <= i <= |books|
      invariant |allBookData| == i
      invariant forall j :: 0 <= j < i ==> DescribesBook(allBookData[j], log, books[j], formats, start, end)
    {
      var bookData := BookData(log, books[i], formats, start, end);
      allBookData := allBookData + [bookData];
      i := i + 1;
    }
  }

  /** The body of the book loop: one book's entry. */
  method BookData(log: seq<BookAccess>, book: Book, formats: seq<Format>, start: int, end: int) returns (bookData: BookCounts)
    ensures DescribesBook(bookData, log, book, formats, start, end)
  {
    var bookAccesses := ForBook(log, book.id);
    var views := KindBetween(bookAccesses, "view", start, end);
    var downloads := KindBetween(bookAccesses, "download", start, end);
    var bookViews, bookDownloads := |views|, |downloads|;
    var formatData := FormatRows(views, downloads, FormatSet(formats, book.id));
    bookData := BookCounts(book.id, bookViews, bookDownloads, formatData);
  }

  /** The format loop of `book_metrics_data`: each pass narrows `views` and
      `downloads` to the current format and appends that format's row. */
  method FormatRows(views0: seq<BookAccess>, downloads0: seq<BookAccess>, own: seq<Format>) returns (formatData: seq<FormatCounts>)
    ensures formatData == NarrowedCounts(views0, downloads0, own)
  {
    var views, downloads := views0, downloads0;
    formatData := [];
    var k := 0;
    while k < |own|
      invariant 0 <= k <= |own|
      invariant formatData + NarrowedCounts(views, downloads, own[k..]) == NarrowedCounts(views0, downloads0, own)
    {
      assert own[k..][1..] == own[k + 1..];
      views := WithFormat(views, own[k].id);
      downloads := WithFormat(downloads, own[k].id);
      var row := FormatCounts(own[k].id, |views|, |downloads|);
      assert formatData + ([row] + NarrowedCounts(views, downloads, own[k + 1..]))
          == (formatData + [row]) + NarrowedCounts(views, downloads, own[k + 1..]);
      formatData := formatData + [row];
      k := k + 1;
    }
    assert own[|own|..] == [];
  }

  /** A book's counts cover exactly its events of that type inside the range. */
  lemma BookCountsAreInRange(log: seq<BookAccess>, book: nat, start: int, end: int)
    ensures forall e :: e in KindBetween(ForBook(log, book), "view", start, end) <==>
      e in log && e.book == book && e.kind == "view" && start <= e.accessed <= end
    ensures forall e :: e in KindBetween(ForBook(log, book), "download", start, end) <==>
      e in log && e.book == book && e.kind == "download" && start <= e.accessed <= end
  {
  }

  /** One row per format, in the formats' order, the first counting that
      format's own events, and no row exceeding the book's totals. */
  lemma {:induction false} NarrowedCountsShape(views: seq<BookAccess>, downloads: seq<BookAccess>, fs: seq<Format>)
    ensures var rows := NarrowedCounts(views, downloads, fs);
      && |rows| == |fs|
      && (forall k :: 0 <= k < |fs| ==> rows[k].format == fs[k].id)
      && (forall k :: 0 <= k < |fs| ==> rows[k].views <= |views| && rows[k].downloads <= |downloads|)
      && (|fs| > 0 ==> rows[0] == FormatCounts(fs[0].id, |WithFormat(views, fs[0].id)|, |WithFormat(downloads, fs[0].id)|))
    decreases |fs|
  {
    if |fs| > 0 {
      var v, d := WithFormat(views, fs[0].id), WithFormat(downloads, fs[0].id);
      NarrowedCountsShape(v, d, fs[1..]);
    }
  }

  /** Once every remaining event carries a format that none of the remaining
      formats has, every remaining row is 0. */
  lemma {:induction false} NarrowedCountsZero(views: seq<BookAccess>, downloads: seq<BookAccess>, fs: seq<Format>, f: nat)
    requires forall e :: e in views ==> e.format == Some(f)
    requires forall e :: e in downloads ==> e.format == Some(f)
    requires forall k :: 0 <= k < |fs| ==> fs[k].id != f
    ensures forall k :: 0 <= k < |fs| ==>
      NarrowedCounts(views, downloads, fs)[k].views == 0 && NarrowedCounts(views, downloads, fs)[k].downloads == 0
    decreases |fs|
  {
    if |fs| > 0 {
      var v, d := WithFormat(views, fs[0].id), WithFormat(downloads, fs[0].id);
      WithFormatNone(views, fs[0].id);
      WithFormatNone(downloads, fs[0].id);
      NarrowedCountsShape(views, downloads, fs);
      NarrowedCountsZero(v, d, fs[1..], f);
      var rows := NarrowedCounts(views, downloads, fs);
      assert rows[1..] == NarrowedCounts(v, d, fs[1..]);
      forall k | 1 <= k < |fs|
        ensures rows[k].views == 0 && rows[k].downloads == 0
      {
        assert rows[k] == rows[1..][k - 1];
      }
    }
  }

  lemma {:induction false} WithFormatNone(s: seq<BookAccess>, g: nat)
    requires forall e :: e in s ==> e.format != Some(g)
    ensures WithFormat(s, g) == []
  {
    if |s| > 0 {
      var init := s[..|s| - 1];
      assert forall e :: e in init ==> e in s;
      assert s[|s| - 1] in s;
      WithFormatNone(init, g);
    }
  }

  /** With distinct format ids (they are primary keys), every format after the
      first gets 0, whatever was accessed. */
  lemma LaterFormatsCountZero(views: seq<BookAccess>, downloads: seq<BookAccess>, fs: seq<Format>, k: nat)
    requires 1 <= k < |fs|
    requires forall i, j :: 0 <= i < j < |fs| ==> fs[i].id != fs[j].id
    ensures NarrowedCounts(views, downloads, fs)[k].views == 0
    ensures NarrowedCounts(views, downloads, fs)[k].downloads == 0
  {
    var v, d := WithFormat(views, fs[0].id), WithFormat(downloads, fs[0].id);
    var rest := fs[1..];
    assert forall j :: 0 <= j < |rest| ==> rest[j] == fs[j + 1];
    NarrowedCountsShape(v, d, rest);
    NarrowedCountsZero(v, d, rest, fs[0].id);
    assert NarrowedCounts(views, downloads, fs)[k] == NarrowedCounts(v, d, rest)[k - 1];
  }

  // ----- the per-format breakdown as evidently intended -----

  /** The per-format rows with a fresh `views.filter(format=format)` for each
      format. */
  function PerFormatCounts(views: seq<BookAccess>, downloads: seq<BookAccess>, fs: seq<Format>): (rows: seq<FormatCounts>)
    ensures |rows| == |fs|
  {
    if |fs| == 0 then []
    else
      [FormatCounts(fs[0].id, |WithFormat(views, fs[0].id)|, |WithFormat(downloads, fs[0].id)|)]
      + PerFormatCounts(views, downloads, fs[1..])
  }

  /** Row k counts exactly the events of format k. */
  lemma {:induction false} PerFormatCountsAre(views: seq<BookAccess>, downloads: seq<BookAccess>, fs: seq<Format>)
    ensures forall k :: 0 <= k < |fs| ==>
      PerFormatCounts(views, downloads, fs)[k]
        == FormatCounts(fs[k].id, |WithFormat(views, fs[k].id)|, |WithFormat(downloads, fs[k].id)|)
  {
    if |fs| > 0 {
      PerFormatCountsAre(views, downloads, fs[1..]);
      var rows := PerFormatCounts(views, downloads, fs);
      forall k | 1 <= k < |fs|
        ensures rows[k] == FormatCounts(fs[k].id, |WithFormat(views, fs[k].id)|, |WithFormat(downloads, fs[k].id)|)
      {
        assert rows[k] == PerFormatCounts(views, downloads, fs[1..])[k - 1];
        assert fs[1..][k - 1] == fs[k];
      }
    }
  }

  ghost predicate DescribesBookPerFormat(entry: BookCounts, log: seq<BookAccess>, book: Book, formats: seq<Format>, start: int, end: int) {
    var accesses := ForBook(log, book.id);
    var views := KindBetween(accesses, "view", start, end);
    var downloads := KindBetween(accesses, "download", start, end);
    && entry.book == book.id
    && entry.views == |views|
    && entry.downloads == |downloads|
    && entry.formats == PerFormatCounts(views, downloads, FormatSet(formats, book.id))
  }

  /** One book's entry with the per-format rows. */
  method BookDataPerFormat(log: seq<BookAccess>, book: Book, formats: seq<Format>, start: int, end: int) returns (bookData: BookCounts)
    ensures DescribesBookPerFormat(bookData, log, book, formats, start, end)
  {
    var bookAccesses := ForBook(log, book.id);
    var views := KindBetween(bookAccesses, "view", start, end);
    var downloads := KindBetween(bookAccesses, "download", start, end);
    var formatData := PerFormatRows(views, downloads, FormatSet(formats, book.id));
    bookData := BookCounts(book.id, |views|, |downloads|, formatData);
  }

  /** The format loop with a fresh filter per format. */
  method PerFormatRows(views: seq<BookAccess>, downloads: seq<BookAccess>, own: seq<Format>) returns (formatData: seq<FormatCounts>)
    ensures formatData == PerFormatCounts(views, downloads, own)
  {
    formatData := [];
    var k := 0;
    while k < |own|
      invariant 0 <= k <= |own|
      invariant formatData + PerFormatCounts(views, downloads, own[k..]) == PerFormatCounts(views, downloads, own)
    {
      assert own[k..][1..] == own[k + 1..];
      var formatViews := WithFormat(views, own[k].id);
      var formatDownloads := WithFormat(downloads, own[k].id);
      var row := FormatCounts(own[k].id, |formatViews|, |formatDownloads|);
      assert formatData + ([row] + PerFormatCounts(views, downloads, own[k + 1..]))
          == (formatData + [row]) + PerFormatCounts(views, downloads, own[k + 1..]);
      formatData := formatData + [row];
      k := k + 1;
    }
    assert own[|own|..] == [];
  }

  /** `book_metrics_data` with the per-format filters not reassigned. */
  method BookMetricsDataPerFormat(log: seq<BookAccess>, books: seq<Book>, formats: seq<Format>, start: int, end: int)
    returns (allBookData: seq<BookCounts>)
    ensures |allBookData| == |books|
    ensures forall i :: 0 <= i < |books| ==> DescribesBookPerFormat(allBookData[i], log, books[i], formats, start, end)
  {
    allBookData := [];
    var i := 0;
    while i < |books|
      invariant 0 <= i <= |books|
      invariant |allBookData| == i
      invariant forall j :: 0 <= j < i ==> DescribesBookPerFormat(allBookData[j], log, books[j], formats, start, end)
    {
      var bookData := BookDataPerFormat(log, books[i], formats, start, end);
      allBookData := allBookData + [bookData];
      i := i + 1;
    }
  }

  /** The sum of the view counts of some rows. */
  function SumViews(rows: seq<FormatCounts>): nat {
    if |rows| == 0 then 0 else rows[0].views + SumViews(rows[1..])
  }

  /** Whether some format in `fs` has the given id. */
  predicate HasFormatId(fs: seq<Format>, id: nat) {
    exists k :: 0 <= k < |fs| && fs[k].id == id
  }

  lemma WithFormatSnoc(views: seq<BookAccess>, e: BookAccess, g: nat)
    ensures |WithFormat(views + [e], g)| == |WithFormat(views, g)| + (if e.format == Some(g) then 1 else 0)
  {
    assert (views + [e])[..|views + [e]| - 1] == views;
  }

  /** Adding one event adds one to the sum of the per-format counts when its
      format occurs (once) among the formats, and nothing otherwise. */
  lemma {:induction false} SumViewsStep(views: seq<BookAccess>, downloads: seq<BookAccess>, e: BookAccess, fs: seq<Format>)
    requires forall i, j :: 0 <= i < j < |fs| ==> fs[i].id != fs[j].id
    ensures SumViews(PerFormatCounts(views + [e], downloads, fs)) ==
      SumViews(PerFormatCounts(views, downloads, fs)) + (if e.format.Some? && HasFormatId(fs, e.format.value) then 1 else 0)
  {
    if |fs| > 0 {
      var rest := fs[1..];
      assert forall i, j :: 0 <= i < j < |rest| ==> rest[i].id == fs[i + 1].id && rest[j].id == fs[j + 1].id;
      SumViewsStep(views, downloads, e, rest);
      WithFormatSnoc(views, e, fs[0].id);
      if e.format.Some? {
        HasFormatIdCons(fs, e.format.value);
      }
    }
  }

  /** A format id occurs in `fs` iff it is the first one's or occurs later,
      and with distinct ids not both. */
  lemma HasFormatIdCons(fs: seq<Format>, id: nat)
    requires |fs| > 0
    requires forall i, j :: 0 <= i < j < |fs| ==> fs[i].id != fs[j].id
    ensures HasFormatId(fs, id) <==> fs[0].id == id || HasFormatId(fs[1..], id)
    ensures !(fs[0].id == id && HasFormatId(fs[1..], id))
  {
    if HasFormatId(fs, id) {
      var k :| 0 <= k < |fs| && fs[k].id == id;
      if k > 0 {
        assert fs[1..][k - 1].id == id;
      }
    }
    if HasFormatId(fs[1..], id) {
      var j :| 0 <= j < |fs[1..]| && fs[1..][j].id == id;
      assert fs[j + 1].id == id;
    }
  }

  lemma {:induction false} SumViewsOfNothing(downloads: seq<BookAccess>, fs: seq<Format>)
    ensures SumViews(PerFormatCounts([], downloads, fs)) == 0
  {
    if |fs| > 0 {
      SumViewsOfNothing(downloads, fs[1..]);
    }
  }

  /** When every view carries one of the (distinct) formats, the per-format
      view counts add up to the book's view count. */
  lemma {:induction false} PerFormatViewsAddUp(views: seq<BookAccess>, downloads: seq<BookAccess>, fs: seq<Format>)
    requires forall i, j :: 0 <= i < j < |fs| ==> fs[i].id != fs[j].id
    requires forall e :: e in views ==> e.format.Some? && HasFormatId(fs, e.format.value)
    ensures SumViews(PerFormatCounts(views, downloads, fs)) == |views|
  {
    if |views| == 0 {
      SumViewsOfNothing(downloads, fs);
    } else {
      var init := views[..|views| - 1];
      var e := views[|views| - 1];
      assert views == init + [e];
      assert forall x :: x in init ==> x in views;
      PerFormatViewsAddUp(init, downloads, fs);
      SumViewsStep(init, downloads, e, fs);
    }
  }

  /** A concrete report in which the written loop and the intended one differ:
      one view of the book's second format is reported as 0 by the written
      code and as 1 by the fresh per-format filter. */
  lemma NarrowingLosesSecondFormat()
    ensures
      var pdf := Format(1, 7, "PDF", "a.pdf", 1);
      var epub := Format(2, 7, "EPUB", "b.epub", 2);
      var views := [BookAccess(7, None, "view", Some(2), 100, None, "s")];
      && NarrowedCounts(views, [], [pdf, epub])[1].views == 0
      && PerFormatCounts(views, [], [pdf, epub])[1].views == 1
  {
    var pdf := Format(1, 7, "PDF", "a.pdf", 1);
    var epub := Format(2, 7, "EPUB", "b.epub", 2);
    var view := BookAccess(7, None, "view", Some(2), 100, None, "s");
    LaterFormatsCountZero([view], [], [pdf, epub], 1);
    PerFormatCountsAre([view], [], [pdf, epub]);
    assert WithFormat([view], 2) == WithFormat([], 2) + [view];
  }
}
