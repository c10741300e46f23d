/** Markdown rendering (`export_to_markdown`). The written file is modelled as
    the text of its `write` calls, one after the other; `formatDate` stands for
    `strftime('%Y-%m-%d %H:%M:%S')` in local time. */
module Markdown {
  import opened Common
  import opened Records
  import Extraction

  /** One `write` call on the output file. */
  datatype Write =
    | Header(title: string)
    | Quote(text: string)
    | NoteBlock(note: string)
    | ChapterLine(chapter: string)
    | DateLine(date: string)

  function WriteText(w: Write): string {
    match w
    case Header(title) => "\n## " + title + "\n\n"
    case Quote(text) => "> " + text + "\n"
    case NoteBlock(note) => "\nNote: " + note + "\n"
    case ChapterLine(chapter) => "\n- Chapter: " + chapter + "\n"
    case DateLine(date) => "- Date: " + date + "\n\n"
  }

  /** The file contents a sequence of writes leaves behind. */
  function Document(ws: seq<Write>): string {
    Concat(ws, WriteText)
  }

  /** The writes for one highlight, after its section header if any: the
      quote, the note when it is set and not empty, the chapter ("N/A" when
      there is none) and the date. */
  function RecordWrites(h: Highlight, formatDate: int -> string): seq<Write> {
    [Quote(h.text)] +
    (if Present(h.note) then [NoteBlock(h.note.value)] else []) +
    [ChapterLine(OrElse(h.chapter, "N/A")), DateLine(formatDate(h.createdAt))]
  }

  /** The current section is `None` before the first highlight, so the first
      highlight always opens one; afterwards a highlight opens a section when
      its title differs from the one before it. */
  predicate OpensSection(hs: seq<Highlight>, i: nat)
    requires i < |hs|
  {
    i == 0 || hs[i - 1].bookTitle != hs[i].bookTitle
  }

  /** The writes the loop of `export_to_markdown` makes for `hs`. */
  function Render(hs: seq<Highlight>, formatDate: int -> string): seq<Write> {
    if hs == [] then []
    else
      var n := |hs| - 1;
      Render(hs[..n], formatDate) +
        (if OpensSection(hs, n) then [Header(hs[n].bookTitle)] else []) +
        RecordWrites(hs[n], formatDate)
  }

  /** The writes the loop of `export_to_markdown` makes, with `current_book`
      as in the source. */
  method WriteMarkdown(hs: seq<Highlight>, formatDate: int -> string) returns (writes: seq<Write>)
    ensures writes == Render(hs, formatDate)
  {
    writes := [];
    var current: Option<string> := None;
    for i := 0 to |hs|
      invariant writes == Render(hs[..i], formatDate)
      invariant current == if i == 0 then None else Some(hs[i - 1].bookTitle)
    {
      RenderStep(hs, i, formatDate);
      var h := hs[i];
      ghost var before := writes;
      if current != Some(h.bookTitle) {
        current := Some(h.bookTitle);
        writes := writes + [Header(h.bookTitle)];
      }
      assert writes == before + if OpensSection(hs, i) then [Header(hs[i].bookTitle)] else [];
      writes := WriteRecord(writes, h, formatDate);
    }
    assert hs[..|hs|] == hs;
  }

  /** The writes for one highlight after the section header. */
  method WriteRecord(before: seq<Write>, h: Highlight, formatDate: int -> string) returns (writes: seq<Write>)
    ensures writes == before + RecordWrites(h, formatDate)
  {
    writes := before + [Quote(h.text)];
    if Present(h.note) {
      writes := writes + [NoteBlock(h.note.value)];
    }
    writes := writes + [ChapterLine(OrElse(h.chapter, "N/A"))];
    writes := writes + [DateLine(formatDate(h.createdAt))];
    RecordStep(before, [], h, formatDate);
    assert before + [] == before;
  }

  /** `export_to_markdown(output_path, book_title)`: the highlights are read
      before the file is opened, so a failure leaves no file behind. */
  function ExportOf(
    session: Session, filter: Option<string>, now: int,
    formatTenths: real -> string, formatDate: int -> string): Result<string>
  {
    match Extraction.HighlightsOf(session, filter, now, formatTenths)
    case Err(f) => Err(f)
    case Ok(hs) => Ok(Document(Render(hs, formatDate)))
  }

  method ExportToMarkdown(
    session: Session, filter: Option<string>, now: int,
    formatTenths: real -> string, formatDate: int -> string)
    returns (r: Result<string>)
    ensures r == ExportOf(session, filter, now, formatTenths, formatDate)
  {
    var highlights := Extraction.GetHighlights(session, filter, now, formatTenths);
    match highlights {
      case Err(f) =>
        return Err(f);
      case Ok(hs) =>
        var writes := WriteMarkdown(hs, formatDate);
        return Ok(Document(writes));
    }
  }

  // ---------------------------------------------------------------------
  // Proof steps for the writing loop

  lemma RenderStep(hs: seq<Highlight>, i: nat, formatDate: int -> string)
    requires i < |hs|
    ensures Render(hs[..i + 1], formatDate) ==
            Render(hs[..i], formatDate) +
              (if OpensSection(hs, i) then [Header(hs[i].bookTitle)] else []) +
              RecordWrites(hs[i], formatDate)
  {
    var p := hs[..i + 1];
    assert p[..i] == hs[..i];
    assert p[i] == hs[i];
    if i > 0 {
      assert p[i - 1] == hs[i - 1];
    }
  }

  /** The record's writes, one `write` call at a time. */
  lemma RecordStep(before: seq<Write>, header: seq<Write>, h: Highlight, formatDate: int -> string)
    ensures before + header + RecordWrites(h, formatDate) ==
            (before + header + [Quote(h.text)] +
             (if Present(h.note) then [NoteBlock(h.note.value)] else [])) +
            [ChapterLine(OrElse(h.chapter, "N/A"))] + [DateLine(formatDate(h.createdAt))]
  {
  }

  // ---------------------------------------------------------------------
  // Properties

  /** The file is the text of its writes in order: writing two runs of writes
      gives the two texts one after the other. */
  lemma DocumentAppend(a: seq<Write>, b: seq<Write>)
    ensures Document(a + b) == Document(a) + Document(b)
  {
    ConcatAppend(a, b, WriteText);
  }

  function QuoteText(w: Write): seq<string> {
    if w.Quote? then [w.text] else []
  }

  function HeaderTitle(w: Write): seq<string> {
    if w.Header? then [w.title] else []
  }

  /** The texts of the quote writes, in order. */
  function Quotes(ws: seq<Write>): seq<string> {
    Concat(ws, QuoteText)
  }

  /** The titles of the header writes, in order. */
  function Headers(ws: seq<Write>): seq<string> {
    Concat(ws, HeaderTitle)
  }

  lemma QuotesAppend(a: seq<Write>, b: seq<Write>)
    ensures Quotes(a + b) == Quotes(a) + Quotes(b)
  {
    ConcatAppend(a, b, QuoteText);
  }

  lemma HeadersAppend(a: seq<Write>, b: seq<Write>)
    ensures Headers(a + b) == Headers(a) + Headers(b)
  {
    ConcatAppend(a, b, HeaderTitle);
  }

  /** One highlight's own writes hold exactly its quote and no header. */
  lemma RecordWritesShape(h: Highlight, formatDate: int -> string)
    ensures Quotes(RecordWrites(h, formatDate)) == [h.text]
    ensures Headers(RecordWrites(h, formatDate)) == []
    ensures NoteBlock(OrElse(h.note, "")) in RecordWrites(h, formatDate) <==> Present(h.note)
  {
    var quote := [Quote(h.text)];
    var note: seq<Write> := if Present(h.note) then [NoteBlock(h.note.value)] else [];
    var chapter := [ChapterLine(OrElse(h.chapter, "N/A"))];
    var date := [DateLine(formatDate(h.createdAt))];
    assert RecordWrites(h, formatDate) == quote + note + chapter + date;
    QuotesAppend(quote + note + chapter, date);
    QuotesAppend(quote + note, chapter);
    QuotesAppend(quote, note);
    HeadersAppend(quote + note + chapter, date);
    HeadersAppend(quote + note, chapter);
    HeadersAppend(quote, note);
    ConcatSingle(Quote(h.text), QuoteText);
    ConcatSingle(Quote(h.text), HeaderTitle);
    ConcatSingle(chapter[0], QuoteText);
    ConcatSingle(chapter[0], HeaderTitle);
    ConcatSingle(date[0], QuoteText);
    ConcatSingle(date[0], HeaderTitle);
    if Present(h.note) {
      ConcatSingle(note[0], QuoteText);
      ConcatSingle(note[0], HeaderTitle);
    }
  }

  function Texts(hs: seq<Highlight>): seq<string> {
    seq(|hs|, i requires 0 <= i < |hs| => hs[i].text)
  }

  function Titles(hs: seq<Highlight>): seq<string> {
    seq(|hs|, i requires 0 <= i < |hs| => hs[i].bookTitle)
  }

  /** What the last highlight adds to the writes. */
  lemma RenderLast(hs: seq<Highlight>, formatDate: int -> string)
    requires hs != []
    ensures var n := |hs| - 1;
            && Quotes(Render(hs, formatDate)) == Quotes(Render(hs[..n], formatDate)) + [hs[n].text]
            && Headers(Render(hs, formatDate)) ==
               Headers(Render(hs[..n], formatDate)) + (if OpensSection(hs, n) then [hs[n].bookTitle] else [])
  {
    var n := |hs| - 1;
    var header := if OpensSection(hs, n) then [Header(hs[n].bookTitle)] else [];
    assert Render(hs, formatDate) == Render(hs[..n], formatDate) + header + RecordWrites(hs[n], formatDate);
    QuotesLast(Render(hs[..n], formatDate), header, hs[n], formatDate);
    HeadersLast(Render(hs[..n], formatDate), header, hs[n], formatDate);
  }

  lemma QuotesLast(before: seq<Write>, header: seq<Write>, h: Highlight, formatDate: int -> string)
    requires header == [] || (|header| == 1 && header[0].Header?)
    ensures Quotes(before + header + RecordWrites(h, formatDate)) == Quotes(before) + [h.text]
  {
    QuotesAppend(before + header, RecordWrites(h, formatDate));
    QuotesAppend(before, header);
    RecordWritesShape(h, formatDate);
    if header != [] {
      ConcatSingle(header[0], QuoteText);
      assert header == [header[0]];
    }
  }

  lemma HeadersLast(before: seq<Write>, header: seq<Write>, h: Highlight, formatDate: int -> string)
    requires header == [] || (|header| == 1 && header[0].Header?)
    ensures Headers(before + header + RecordWrites(h, formatDate)) ==
            Headers(before) + (if header == [] then [] else [header[0].title])
  {
    HeadersAppend(before + header, RecordWrites(h, formatDate));
    HeadersAppend(before, header);
    RecordWritesShape(h, formatDate);
    if header != [] {
      ConcatSingle(header[0], HeaderTitle);
      assert header == [header[0]];
    }
  }

  /** Every highlight is quoted exactly once, in the order given. */
  lemma {:induction false} QuotesInOrder(hs: seq<Highlight>, formatDate: int -> string)
    ensures Quotes(Render(hs, formatDate)) == Texts(hs)
  {
    if hs != [] {
      var n := |hs| - 1;
      QuotesInOrder(hs[..n], formatDate);
      RenderLast(hs, formatDate);
      assert Texts(hs) == Texts(hs[..n]) + [hs[n].text];
    }
  }

  /** `ts` with every run of equal neighbours reduced to one element. */
  function CollapseRuns(ts: seq<string>): seq<string> {
    if |ts| <= 1 then ts
    else if ts[0] == ts[1] then CollapseRuns(ts[1..])
    else [ts[0]] + CollapseRuns(ts[1..])
  }

  /** The sections are the runs of equal titles: a title that comes back after
      another one gets a second header, since the highlights are not grouped
      by book first. */
  lemma {:induction false} SectionsAreRuns(hs: seq<Highlight>, formatDate: int -> string)
    ensures Headers(Render(hs, formatDate)) == CollapseRuns(Titles(hs))
  {
    if hs != [] {
      var n := |hs| - 1;
      SectionsAreRuns(hs[..n], formatDate);
      RenderLast(hs, formatDate);
      var ts := Titles(hs[..n]);
      assert Titles(hs) == ts + [hs[n].bookTitle];
      CollapseSnoc(ts, hs[n].bookTitle);
      assert OpensSection(hs, n) <==> !(ts != [] && ts[|ts| - 1] == hs[n].bookTitle);
    }
  }

  /** Adding a title at the end adds it to the collapsed runs unless it
      repeats the last title. */
  lemma {:induction false} CollapseSnoc(ts: seq<string>, t: string)
    ensures CollapseRuns(ts + [t]) ==
            CollapseRuns(ts) + (if ts != [] && ts[|ts| - 1] == t then [] else [t])
    decreases |ts|
  {
    if |ts| >= 2 {
      assert (ts + [t])[1..] == ts[1..] + [t];
      CollapseSnoc(ts[1..], t);
    } else if |ts| == 1 {
      assert ts + [t] == [ts[0], t];
      assert [ts[0], t][1..] == [t];
    }
  }

  /** No two neighbouring headers carry the same title. */
  lemma {:induction false} CollapsedHasNoRepeats(ts: seq<string>)
    ensures var c := CollapseRuns(ts);
            forall i :: 0 <= i < |c| - 1 ==> c[i] != c[i + 1]
    ensures ts != [] ==> CollapseRuns(ts) != [] && CollapseRuns(ts)[0] == ts[0]
    ensures forall t :: t in CollapseRuns(ts) <==> t in ts
    decreases |ts|
  {
    if |ts| >= 2 {
      CollapsedHasNoRepeats(ts[1..]);
      assert ts == [ts[0]] + ts[1..];
    }
  }

  /** After the writes for `hs`, `current_book` holds the title of the last
      highlight: every later highlight of the same book goes in its section. */
  lemma {:induction false} CurrentSection(hs: seq<Highlight>, formatDate: int -> string)
    requires hs != []
    ensures Headers(Render(hs, formatDate)) != []
    ensures var h := Headers(Render(hs, formatDate)); h[|h| - 1] == hs[|hs| - 1].bookTitle
  {
    SectionsAreRuns(hs, formatDate);
    var ts := Titles(hs);
    var n := |ts| - 1;
    assert ts == ts[..n] + [ts[n]];
    CollapseSnoc(ts[..n], ts[n]);
    assert ts[..n] == Titles(hs[..n]);
    if ts[..n] != [] && ts[..n][n - 1] == ts[n] {
      CollapseLast(ts[..n]);
    }
  }

  lemma {:induction false} CollapseLast(ts: seq<string>)
    requires ts != []
    ensures CollapseRuns(ts) != [] && CollapseRuns(ts)[|CollapseRuns(ts)| - 1] == ts[|ts| - 1]
    decreases |ts|
  {
    if |ts| >= 2 {
      CollapseLast(ts[1..]);
    }
  }

  /** Highlights of A, A, B, A give the sections A, B, A. */
  lemma InterleavedExample(a: Highlight, a2: Highlight, b: Highlight, a3: Highlight, formatDate: int -> string)
    requires a.bookTitle == a2.bookTitle == a3.bookTitle != b.bookTitle
    ensures Headers(Render([a, a2, b, a3], formatDate)) == [a.bookTitle, b.bookTitle, a.bookTitle]
  {
    SectionsAreRuns([a, a2, b, a3], formatDate);
    var ts := Titles([a, a2, b, a3]);
    assert ts == [a.bookTitle, a.bookTitle, b.bookTitle, a.bookTitle];
    var t1 := [a.bookTitle, b.bookTitle, a.bookTitle];
    var t2 := [b.bookTitle, a.bookTitle];
    assert ts[1..] == t1 && t1[1..] == t2 && t2[1..] == [a.bookTitle];
    assert CollapseRuns(t2) == t2;
    assert CollapseRuns(t1) == t1;
    assert CollapseRuns(ts) == t1;
  }

  /** The export fails exactly when reading the highlights fails, with the
      same failure; and no highlight gives an empty file. */
  lemma ExportOutcome(
    session: Session, filter: Option<string>, now: int,
    formatTenths: real -> string, formatDate: int -> string)
    ensures var r := ExportOf(session, filter, now, formatTenths, formatDate);
            var hs := Extraction.HighlightsOf(session, filter, now, formatTenths);
            && (r.Err? <==> hs.Err?)
            && (r.Err? ==> r.failure == hs.failure)
            && (hs == Ok([]) ==> r == Ok(""))
            && (hs.Ok? ==> r.Ok? && |Quotes(Render(hs.value, formatDate))| == |hs.value|)
  {
    var hs := Extraction.HighlightsOf(session, filter, now, formatTenths);
    if hs.Ok? {
      QuotesInOrder(hs.value, formatDate);
    }
  }
}
