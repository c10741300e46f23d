/** Highlight extraction (`get_highlights`) and its book-information fallback
    (`_get_book_info`). The clock is the parameter `now` (seconds since the
    1970 epoch) and the `.1f` rendering of a percentage is the parameter
    `formatTenths`. */
module Extraction {
  import opened Common
  import opened Records
  import Titles

  /** Seconds from 1970-01-01 to 2001-01-01, where the stores' clock starts. */
  const APPLE_EPOCH_OFFSET: int := 978307200

  // ---------------------------------------------------------------------
  // One annotation row

  /** A stored time that is set (not NULL, not 0) is shifted to the 1970
      epoch; otherwise the current time is used. */
  function CreatedAt(stored: Option<int>, now: int): int {
    if NonZero(stored) then stored.value + APPLE_EPOCH_OFFSET else now
  }

  function HighlightText(selected: string, context: Option<string>): string {
    if Present(context) then selected + "\n\nContext: " + context.value else selected
  }

  function Marker(isUnderline: Option<int>): string {
    if NonZero(isUnderline) then "Underline" else "Highlight"
  }

  function NoteText(note: Option<string>, annotationType: Option<int>, isUnderline: Option<int>): string {
    var userNote := OrElse(note, "");
    if annotationType.None? then userNote
    else if userNote != "" then Marker(isUnderline) + "\n" + userNote
    else Marker(isUnderline)
  }

  /** The title a highlight carries: the resolved title, else a placeholder
      built from the asset id, else "Unknown Book". */
  function BookTitle(bookId: Option<string>, resolved: Option<string>): string {
    if Present(bookId) then OrElse(resolved, "Book ID: " + bookId.value) else "Unknown Book"
  }

  /** The title looked up for a row; rows without an asset id are not looked up. */
  function ResolvedTitle(library: Option<LibraryStore>, row: AnnotationRow): Option<string> {
    if Present(row.bookId) then Titles.TitleOf(library, row.bookId.value) else None
  }

  /** A row is dropped only when a filter is set and the row has a known title
      that does not contain the filter, ignoring case. */
  predicate Skipped(filter: Option<string>, resolved: Option<string>) {
    Present(filter) && Present(resolved) && !ContainsIgnoringCase(resolved.value, filter.value)
  }

  function Normalize(row: AnnotationRow, resolved: Option<string>, now: int): Highlight {
    Highlight(
      HighlightText(row.text, row.representativeText),
      CreatedAt(row.createdAt, now),
      BookTitle(row.bookId, resolved),
      None,
      Some(NoteText(row.note, row.annotationType, row.isUnderline)))
  }

  /** What one row contributes: its highlight, or nothing when it is skipped. */
  function RowHighlights(row: AnnotationRow, library: Option<LibraryStore>, filter: Option<string>, now: int)
    : seq<Highlight>
  {
    var resolved := ResolvedTitle(library, row);
    if Skipped(filter, resolved) then [] else [Normalize(row, resolved, now)]
  }

  /** The list the row loop of `get_highlights` builds. */
  function PrimaryHighlights(rows: seq<AnnotationRow>, library: Option<LibraryStore>, filter: Option<string>, now: int)
    : seq<Highlight>
  {
    Concat(rows, row => RowHighlights(row, library, filter, now))
  }

  method CollectHighlights(rows: seq<AnnotationRow>, library: Option<LibraryStore>, filter: Option<string>, now: int)
    returns (highlights: seq<Highlight>)
    ensures highlights == PrimaryHighlights(rows, library, filter, now)
  {
    highlights := [];
    for i := 0 to |rows|
      invariant highlights == PrimaryHighlights(rows[..i], library, filter, now)
    {
      assert rows[..i + 1][..i] == rows[..i];
      var row := rows[i];
      var currentTitle: Option<string> := None;
      if Present(row.bookId) {
        currentTitle := Titles.GetBookTitle(library, row.bookId.value);
      }
      if Skipped(filter, currentTitle) {
        continue;
      }
      highlights := highlights + [Normalize(row, currentTitle, now)];
    }
    assert rows[..|rows|] == rows;
  }

  // ---------------------------------------------------------------------
  // The book-information fallback

  const BOOK_INFO_QUERY: string :=
    "SELECT ZTITLE as book_title, ZAUTHOR as author, ZREADINGPROGRESS as progress, " +
    "ZLASTOPENDATE as last_opened, ZBOOKDESCRIPTION as description, ZGENRE as genre " +
    "FROM ZBKLIBRARYASSET WHERE ZTITLE IS NOT NULL"

  /** The query text and parameters: with a filter the store matches the title
      itself and no order is asked for; without one, most recently opened first. */
  function BookInfoRequest(filter: Option<string>): (string, seq<string>) {
    if Present(filter) then (BOOK_INFO_QUERY + " AND LOWER(ZTITLE) LIKE LOWER(?)", ["%" + filter.value + "%"])
    else (BOOK_INFO_QUERY + " ORDER BY ZLASTOPENDATE DESC", [])
  }

  function ProgressText(progress: Option<real>, formatTenths: real -> string): string {
    if progress.Some? then "Progress: " + formatTenths(progress.value * 100.0) + "%" else "No progress data"
  }

  function BookNote(author: Option<string>, description: Option<string>): Option<string> {
    if Present(author) || Present(description) then
      Some("Author: " + Show(author) + "\nDescription: " + Show(description))
    else None
  }

  function BookHighlight(row: BookRow, now: int, formatTenths: real -> string): Highlight {
    Highlight(
      ProgressText(row.progress, formatTenths),
      CreatedAt(row.lastOpened, now),
      row.bookTitle,
      if Present(row.genre) then row.genre else None,
      BookNote(row.author, row.description))
  }

  /** The list the row loop of `_get_book_info` builds. */
  function BookHighlights(rows: seq<BookRow>, now: int, formatTenths: real -> string): seq<Highlight> {
    if rows == [] then []
    else
      var n := |rows| - 1;
      BookHighlights(rows[..n], now, formatTenths) + [BookHighlight(rows[n], now, formatTenths)]
  }

  /** `_get_book_info(filter)`: it needs the library store, and any error of
      its query propagates. */
  function BookInfo(library: Option<LibraryStore>, filter: Option<string>, now: int, formatTenths: real -> string)
    : Result<seq<Highlight>>
  {
    if library.None? then Err(NoLibraryConnection)
    else
      var (sql, params) := BookInfoRequest(filter);
      match library.value.bookRows(sql, params)
      case Raised(e) => Err(QueryFailed(e))
      case Fetched(rows) => Ok(BookHighlights(rows, now, formatTenths))
  }

  method GetBookInfo(library: Option<LibraryStore>, filter: Option<string>, now: int, formatTenths: real -> string)
    returns (r: Result<seq<Highlight>>)
    ensures r == BookInfo(library, filter, now, formatTenths)
  {
    if library.None? {
      return Err(NoLibraryConnection);
    }
    var (sql, params) := BookInfoRequest(filter);
    var fetched := library.value.bookRows(sql, params);
    if fetched.Raised? {
      return Err(QueryFailed(fetched.error));
    }
    var rows := fetched.rows;
    var highlights := [];
    for i := 0 to |rows|
      invariant highlights == BookHighlights(rows[..i], now, formatTenths)
    {
      assert rows[..i + 1][..i] == rows[..i];
      highlights := highlights + [BookHighlight(rows[i], now, formatTenths)];
    }
    assert rows[..|rows|] == rows;
    return Ok(highlights);
  }

  // ---------------------------------------------------------------------
  // get_highlights

  /** The primary rows when they give at least one highlight; the fallback when
      the annotation query raises `OperationalError` or no highlight survives;
      any other error propagates. */
  function HighlightsOf(session: Session, filter: Option<string>, now: int, formatTenths: real -> string)
    : Result<seq<Highlight>>
  {
    match session.annotations
    case Raised(OperationalError) => BookInfo(session.library, filter, now, formatTenths)
    case Raised(OtherError) => Err(QueryFailed(OtherError))
    case Fetched(rows) =>
      var highlights := PrimaryHighlights(rows, session.library, filter, now);
      if highlights != [] then Ok(highlights) else BookInfo(session.library, filter, now, formatTenths)
  }

  method GetHighlights(session: Session, filter: Option<string>, now: int, formatTenths: real -> string)
    returns (r: Result<seq<Highlight>>)
    ensures r == HighlightsOf(session, filter, now, formatTenths)
  {
    match session.annotations {
      case Raised(OperationalError) =>
      case Raised(OtherError) =>
        return Err(QueryFailed(OtherError));
      case Fetched(rows) =>
        var highlights := CollectHighlights(rows, session.library, filter, now);
        if highlights != [] {
          return Ok(highlights);
        }
    }
    r := GetBookInfo(session.library, filter, now, formatTenths);
  }

  // ---------------------------------------------------------------------
  // Properties of one row

  /** Reads the type marker and the user's note back out of a note that
      carries a marker. Both markers are nine characters long. */
  function SplitMarkedNote(note: string): Option<(string, string)> {
    if |note| >= 9 && (note[..9] == "Underline" || note[..9] == "Highlight") && (|note| == 9 || note[9] == '\n')
    then Some((note[..9], if |note| == 9 then "" else note[10..]))
    else None
  }

  /** With an annotation type the note is the marker, then the user's note if
      there is one, and both can be read back; without a type it is the user's
      note, or "" when there is none. */
  lemma NoteRoundTrip(note: Option<string>, annotationType: Option<int>, isUnderline: Option<int>)
    ensures annotationType.None? ==> NoteText(note, annotationType, isUnderline) == OrElse(note, "")
    ensures annotationType.Some? ==>
            SplitMarkedNote(NoteText(note, annotationType, isUnderline)) == Some((Marker(isUnderline), OrElse(note, "")))
  {
    var text := NoteText(note, annotationType, isUnderline);
    var marker := Marker(isUnderline);
    if annotationType.Some? {
      assert text[..9] == marker;
      if OrElse(note, "") != "" {
        assert text[9] == '\n';
        assert text[10..] == OrElse(note, "");
      }
    }
  }

  /** The text starts with the selected text, and is longer exactly when there
      is context text. */
  lemma TextExtendsSelection(selected: string, context: Option<string>)
    ensures selected <= HighlightText(selected, context)
    ensures HighlightText(selected, context) == selected <==> !Present(context)
    ensures Present(context) ==>
            HighlightText(selected, context)[|selected|..] == "\n\nContext: " + context.value
  {
    if Present(context) {
      var text := HighlightText(selected, context);
      assert text[..|selected|] == selected;
      assert |text| > |selected|;
    }
  }

  /** The stored time is recovered from the creation time by undoing the offset;
      a NULL or zero stored time gives the current time. */
  lemma CreatedAtInverts(stored: Option<int>, now: int)
    ensures NonZero(stored) ==> CreatedAt(stored, now) - APPLE_EPOCH_OFFSET == stored.value
    ensures !NonZero(stored) ==> CreatedAt(stored, now) == now
  {
  }

  // ---------------------------------------------------------------------
  // Properties of the row loop

  predicate IsPlaceholder(title: string) {
    title == "Unknown Book" || "Book ID: " <= title
  }

  /** The loop handles each row on its own: the list for two runs of rows is
      the two lists one after the other, so the rows keep their order. */
  lemma PrimaryAppend(
    a: seq<AnnotationRow>, b: seq<AnnotationRow>, library: Option<LibraryStore>, filter: Option<string>, now: int)
    ensures PrimaryHighlights(a + b, library, filter, now) ==
            PrimaryHighlights(a, library, filter, now) + PrimaryHighlights(b, library, filter, now)
  {
    ConcatAppend(a, b, row => RowHighlights(row, library, filter, now));
  }

  /** Every highlight that survives the filter has a title that contains the
      filter, ignoring case, or has a placeholder title because its own title
      could not be resolved. */
  lemma {:induction false} FilterSound(rows: seq<AnnotationRow>, library: Option<LibraryStore>, filter: Option<string>, now: int)
    ensures forall h :: h in PrimaryHighlights(rows, library, filter, now) ==>
              !Present(filter) || ContainsIgnoringCase(h.bookTitle, filter.value) || IsPlaceholder(h.bookTitle)
  {
    if rows != [] {
      var n := |rows| - 1;
      FilterSound(rows[..n], library, filter, now);
      var resolved := ResolvedTitle(library, rows[n]);
      if !Skipped(filter, resolved) {
        var h := Normalize(rows[n], resolved, now);
        if !Present(resolved) {
          assert IsPlaceholder(h.bookTitle);
        }
      }
    }
  }

  /** Conversely, a row whose title is unresolved, or contains the filter, or
      any row when there is no filter, gives its highlight. */
  lemma RowKept(rows: seq<AnnotationRow>, i: nat, library: Option<LibraryStore>, filter: Option<string>, now: int)
    requires i < |rows|
    requires !Skipped(filter, ResolvedTitle(library, rows[i]))
    ensures Normalize(rows[i], ResolvedTitle(library, rows[i]), now) in PrimaryHighlights(rows, library, filter, now)
  {
    assert rows == rows[..i] + [rows[i]] + rows[i + 1..];
    PrimaryAppend(rows[..i] + [rows[i]], rows[i + 1..], library, filter, now);
    PrimaryAppend(rows[..i], [rows[i]], library, filter, now);
    assert [rows[i]][..0] == [];
  }

  /** Without a filter every row gives a highlight, in row order. */
  lemma {:induction false} UnfilteredIsMap(rows: seq<AnnotationRow>, library: Option<LibraryStore>, filter: Option<string>, now: int)
    requires !Present(filter)
    ensures var hs := PrimaryHighlights(rows, library, filter, now);
            |hs| == |rows| &&
            forall i :: 0 <= i < |rows| ==> hs[i] == Normalize(rows[i], ResolvedTitle(library, rows[i]), now)
  {
    if rows != [] {
      var n := |rows| - 1;
      UnfilteredIsMap(rows[..n], library, filter, now);
    }
  }

  /** Every highlight's creation time is that of one of the rows. */
  lemma {:induction false} TimesFromRows(rows: seq<AnnotationRow>, library: Option<LibraryStore>, filter: Option<string>, now: int)
    ensures forall h :: h in PrimaryHighlights(rows, library, filter, now) ==>
              exists j :: 0 <= j < |rows| && h.createdAt == CreatedAt(rows[j].createdAt, now)
  {
    if rows != [] {
      var n := |rows| - 1;
      TimesFromRows(rows[..n], library, filter, now);
      forall h | h in PrimaryHighlights(rows, library, filter, now)
        ensures exists j :: 0 <= j < |rows| && h.createdAt == CreatedAt(rows[j].createdAt, now)
      {
        if h in PrimaryHighlights(rows[..n], library, filter, now) {
          var j :| 0 <= j < n && h.createdAt == CreatedAt(rows[..n][j].createdAt, now);
          assert rows[..n][j] == rows[j];
        } else {
          assert h.createdAt == CreatedAt(rows[n].createdAt, now);
        }
      }
    }
  }

  /** Without a library store no title is ever resolved, so the filter keeps
      every row. */
  lemma {:induction false} NoLibraryKeepsAll(rows: seq<AnnotationRow>, filter: Option<string>, now: int)
    ensures PrimaryHighlights(rows, None, filter, now) == PrimaryHighlights(rows, None, None, now)
  {
    if rows != [] {
      var n := |rows| - 1;
      NoLibraryKeepsAll(rows[..n], filter, now);
      assert ResolvedTitle(None, rows[n]) == None;
    }
  }

  predicate NewestFirst(hs: seq<Highlight>) {
    forall i, j :: 0 <= i < j < |hs| ==> hs[i].createdAt >= hs[j].createdAt
  }

  /** When the store hands over the rows newest first and every row has a set
      creation time, the highlights are newest first too: the filter only
      drops rows. */
  lemma {:induction false} NewestFirstKept(rows: seq<AnnotationRow>, library: Option<LibraryStore>, filter: Option<string>, now: int)
    requires forall j :: 0 <= j < |rows| ==> NonZero(rows[j].createdAt)
    requires forall i, j :: 0 <= i < j < |rows| ==>
               NonZero(rows[i].createdAt) && NonZero(rows[j].createdAt) &&
               rows[i].createdAt.value >= rows[j].createdAt.value
    ensures NewestFirst(PrimaryHighlights(rows, library, filter, now))
  {
    if rows != [] {
      var n := |rows| - 1;
      var before := PrimaryHighlights(rows[..n], library, filter, now);
      NewestFirstKept(rows[..n], library, filter, now);
      TimesFromRows(rows[..n], library, filter, now);
      var hs := PrimaryHighlights(rows, library, filter, now);
      if |hs| > |before| {
        forall i | 0 <= i < |before|
          ensures before[i].createdAt >= hs[|before|].createdAt
        {
          assert before[i] in before;
          var j :| 0 <= j < n && before[i].createdAt == CreatedAt(rows[..n][j].createdAt, now);
          assert rows[..n][j] == rows[j];
        }
      }
    }
  }

  /** With the filter "dune", a highlight of "Dune" is kept, one of
      "Foundation" is dropped, and one whose asset id the library does not
      know is kept under its placeholder title. */
  lemma DuneExample(
    rowDune: AnnotationRow, rowFoundation: AnnotationRow, rowUnknown: AnnotationRow,
    library: Option<LibraryStore>, now: int)
    requires ResolvedTitle(library, rowDune) == Some("Dune")
    requires ResolvedTitle(library, rowFoundation) == Some("Foundation")
    requires ResolvedTitle(library, rowUnknown) == None && rowUnknown.bookId == Some("U")
    ensures var hs := PrimaryHighlights([rowDune, rowFoundation, rowUnknown], library, Some("dune"), now);
            |hs| == 2 && hs[0].bookTitle == "Dune" && hs[1].bookTitle == "Book ID: U"
  {
    var filter := Some("dune");
    assert !Skipped(filter, ResolvedTitle(library, rowDune)) && Skipped(filter, ResolvedTitle(library, rowFoundation)) by {
      ExampleFilter();
    }
    KeepDropKeep(rowDune, rowFoundation, rowUnknown, library, filter, now);
    DuneTitles(rowDune, rowUnknown, library, now);
  }

  lemma DuneTitles(rowDune: AnnotationRow, rowUnknown: AnnotationRow, library: Option<LibraryStore>, now: int)
    requires ResolvedTitle(library, rowDune) == Some("Dune")
    requires ResolvedTitle(library, rowUnknown) == None && rowUnknown.bookId == Some("U")
    ensures Normalize(rowDune, ResolvedTitle(library, rowDune), now).bookTitle == "Dune"
    ensures Normalize(rowUnknown, ResolvedTitle(library, rowUnknown), now).bookTitle == "Book ID: U"
  {
    ShownTitle(rowDune, library, now);
    ShownTitle(rowUnknown, library, now);
  }

  /** A highlight carries the resolved title when there is one, else the
      placeholder built from its asset id, else "Unknown Book". */
  lemma ShownTitle(row: AnnotationRow, library: Option<LibraryStore>, now: int)
    ensures var resolved := ResolvedTitle(library, row);
            var title := Normalize(row, resolved, now).bookTitle;
            && (Present(resolved) ==> title == resolved.value)
            && (!Present(resolved) && Present(row.bookId) ==> title == "Book ID: " + row.bookId.value)
            && (!Present(row.bookId) ==> title == "Unknown Book")
  {
  }

  /** Three rows of which the middle one is skipped give the other two highlights. */
  lemma KeepDropKeep(
    a: AnnotationRow, b: AnnotationRow, c: AnnotationRow,
    library: Option<LibraryStore>, filter: Option<string>, now: int)
    requires !Skipped(filter, ResolvedTitle(library, a))
    requires Skipped(filter, ResolvedTitle(library, b))
    requires !Skipped(filter, ResolvedTitle(library, c))
    ensures PrimaryHighlights([a, b, c], library, filter, now) ==
            [Normalize(a, ResolvedTitle(library, a), now), Normalize(c, ResolvedTitle(library, c), now)]
  {
    PrimarySingle(a, library, filter, now);
    PrimarySingle(b, library, filter, now);
    PrimarySingle(c, library, filter, now);
    PrimaryAppend([a], [b], library, filter, now);
    PrimaryAppend([a, b], [c], library, filter, now);
    assert [a] + [b] == [a, b];
    assert [a, b] + [c] == [a, b, c];
  }

  /** One row gives its highlight unless it is skipped. */
  lemma PrimarySingle(row: AnnotationRow, library: Option<LibraryStore>, filter: Option<string>, now: int)
    ensures var resolved := ResolvedTitle(library, row);
            PrimaryHighlights([row], library, filter, now) ==
              if Skipped(filter, resolved) then [] else [Normalize(row, resolved, now)]
  {
    assert [row][..0] == [];
    assert PrimaryHighlights([row], library, filter, now) == PrimaryHighlights([], library, filter, now) + RowHighlights(row, library, filter, now);
  }

  /** A library that knows the asset ids "D" and "F" only. */
  function ExampleLibrary(): Option<LibraryStore> {
    Some(LibraryStore(
      (sql, id) => if id == "D" then Fetched(Some(TitleRow(Some("Dune"))))
                   else if id == "F" then Fetched(Some(TitleRow(Some("Foundation"))))
                   else Fetched(None),
      (sql, params) => Fetched([])))
  }

  /** The example's titles, as that library resolves them. */
  lemma ExampleTitles(rowDune: AnnotationRow, rowFoundation: AnnotationRow, rowUnknown: AnnotationRow)
    requires rowDune.bookId == Some("D") && rowFoundation.bookId == Some("F") && rowUnknown.bookId == Some("U")
    ensures ResolvedTitle(ExampleLibrary(), rowDune) == Some("Dune")
    ensures ResolvedTitle(ExampleLibrary(), rowFoundation) == Some("Foundation")
    ensures ResolvedTitle(ExampleLibrary(), rowUnknown) == None
  {
    var library := ExampleLibrary();
    assert Titles.Outcomes(library.value, "D")[0] == Fetched(Some(TitleRow(Some("Dune"))));
    assert Titles.Outcomes(library.value, "F")[0] == Fetched(Some(TitleRow(Some("Foundation"))));
    assert Titles.Outcomes(library.value, "U") == [Fetched(None), Fetched(None), Fetched(None)];
    Titles.AllMoveOnGivesNone(Titles.Outcomes(library.value, "U"));
  }

  lemma ExampleFilter()
    ensures !Skipped(Some("dune"), Some("Dune"))
    ensures Skipped(Some("dune"), Some("Foundation"))
  {
    DuneMatches();
    FoundationMisses();
  }

  lemma DuneMatches()
    ensures ContainsIgnoringCase("Dune", "dune")
  {
    assert Lower("dune") == "dune";
    assert Lower("Dune") == "dune";
  }

  lemma FoundationMisses()
    ensures !ContainsIgnoringCase("Foundation", "dune")
  {
    assert Lower("dune")[3] == 'e';
    assert 'e' !in "Foundation" && 'E' !in "Foundation";
    LowerLacks("Foundation", 'e', 'E');
    NoSuchCharacter(Lower("Foundation"), Lower("dune"), 3);
  }

  /** Lower-casing cannot produce a letter that occurs in neither case. */
  lemma LowerLacks(s: string, c: char, upper: char)
    requires !IsAsciiUpper(c) && IsAsciiUpper(upper) && LowerChar(upper) == c
    requires c !in s && upper !in s
    ensures c !in Lower(s)
  {
    forall i | 0 <= i < |s| ensures Lower(s)[i] != c {
      if IsAsciiUpper(s[i]) {
        assert s[i] != upper;
      }
    }
  }

  /** A text that lacks one of the characters of another does not contain it. */
  lemma {:induction false} NoSuchCharacter(hay: string, needle: string, k: nat)
    requires k < |needle| && needle[k] !in hay
    ensures !Contains(hay, needle)
    decreases |hay|
  {
    if hay != [] {
      NoSuchCharacter(hay[1..], needle, k);
    }
  }

  // ---------------------------------------------------------------------
  // Properties of the fallback and of the decision between the two

  /** The fallback gives one highlight per book row, in row order. */
  lemma {:induction false} BookHighlightsIsMap(rows: seq<BookRow>, now: int, formatTenths: real -> string)
    ensures var hs := BookHighlights(rows, now, formatTenths);
            |hs| == |rows| && forall i :: 0 <= i < |rows| ==> hs[i] == BookHighlight(rows[i], now, formatTenths)
  {
    if rows != [] {
      BookHighlightsIsMap(rows[..|rows| - 1], now, formatTenths);
    }
  }

  /** A book highlight keeps the row's title, carries the genre only when it is
      set, has a note exactly when an author or a description is set (a missing
      one reads "None"), and says so when there is no progress. */
  lemma BookHighlightFields(row: BookRow, now: int, formatTenths: real -> string)
    ensures var h := BookHighlight(row, now, formatTenths);
            && h.bookTitle == row.bookTitle
            && (h.chapter.Some? <==> Present(row.genre))
            && (h.chapter.Some? ==> h.chapter == row.genre)
            && (h.note.Some? <==> Present(row.author) || Present(row.description))
            && (h.note.Some? ==> "Author: " <= h.note.value)
            && (row.progress.None? <==> h.text == "No progress data")
  {
    var h := BookHighlight(row, now, formatTenths);
    if row.progress.Some? {
      assert h.text[0] == 'P';
    }
  }

  /** The filter goes to the store as a `LIKE` pattern; without a filter the
      rows are ordered, most recently opened first. */
  lemma BookInfoRequestShape(filter: Option<string>)
    ensures var (sql, params) := BookInfoRequest(filter);
            && BOOK_INFO_QUERY <= sql
            && (Present(filter) ==> params == ["%" + filter.value + "%"] &&
                                    sql[|BOOK_INFO_QUERY|..] == " AND LOWER(ZTITLE) LIKE LOWER(?)")
            && (!Present(filter) ==> params == [] &&
                                     sql[|BOOK_INFO_QUERY|..] == " ORDER BY ZLASTOPENDATE DESC")
  {
  }

  /** The fallback replaces the primary list exactly when the annotation query
      raises `OperationalError` or yields no highlight; then the result is what
      `_get_book_info` alone gives. */
  lemma FallbackExactly(session: Session, filter: Option<string>, now: int, formatTenths: real -> string)
    ensures var primary := if session.annotations.Fetched?
                           then PrimaryHighlights(session.annotations.rows, session.library, filter, now) else [];
            && (session.annotations.Fetched? && primary != [] ==>
                  HighlightsOf(session, filter, now, formatTenths) == Ok(primary))
            && (session.annotations == Raised(OperationalError) || (session.annotations.Fetched? && primary == []) ==>
                  HighlightsOf(session, filter, now, formatTenths) == BookInfo(session.library, filter, now, formatTenths))
            && (session.annotations == Raised(OtherError) ==>
                  HighlightsOf(session, filter, now, formatTenths) == Err(QueryFailed(OtherError)))
  {
  }
}
