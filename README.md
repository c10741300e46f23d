# Apple Books highlight extractor, modelled in Dafny

The extractor reads highlights from two Apple Books SQLite stores and writes
them to a Markdown file:

- the annotation store holds the highlights;
- the library store holds the book titles.

The extractor does this in five steps:

1. It finds both stores under `~/Library/Containers`.
2. It reads every live annotation, newest first.
3. It turns each row into a `Highlight` record and resolves the row's book
   title through the library store. It can keep only the books whose title
   contains a filter.
4. When that gives nothing, it falls back to one record per book of the
   library.
5. It writes the records as Markdown sections, one for each run of highlights
   of one book, to a file on the Desktop. The file name comes from the title
   that was typed in.

This project models those steps and proves what they promise. There is one
module per part of `main.py`:

- `Common`: the Python semantics the code depends on, written out. These are
  truthiness of `None`, `""` and `0`; `s or default`; f-string rendering of
  `None`; `lower`, `in`, `strip` and `isalnum`. It also has `Concat`, the
  list a loop builds by appending what each element gives.
- `Records`: the `Highlight` record, the rows of the three kinds of query, and
  the stores. A store is given by what its queries yield: a row set, or a
  raised `OperationalError` or other error.
- `Locator`: `_get_database_path`. The container listing and `Path.glob` are
  inputs.
- `Titles`: `get_book_title`, with its three query shapes tried in order.
- `Extraction`: `get_highlights` and `_get_book_info`. This covers row
  normalisation, the title filter, and the fallback with its query text and
  parameters.
- `Markdown`: `export_to_markdown`. The file is the sequence of its `write`
  calls and the text they leave.
- `OutputName`: the file name `main` derives from the typed title, and the
  run of `main`.

Each loop of the source is a method with loop invariants. Each method is
proved equal to a specification function. The properties are lemmas about
those functions.

One behaviour the lemmas make explicit is easy to miss. A row whose title
cannot be resolved is never dropped by the filter. So with no library store
connected, a filtered export holds every highlight (`NoLibraryKeepsAll`).

## Model

| member | source | states |
|---|---|---|
| `Common.Lower` | main.py:44 | The result has the input's length and lower-cases each ASCII letter in place. |
| `Common.Strip` | main.py:263 | The result is the input without a leading and a trailing run of Python white space, and does not start or end with white space. |
| `Locator.GetDatabasePath` | main.py:42-70 | The two paths returned are the selection function's: the last match of the annotation patterns over the book containers, or the default annotation path, and the last library match or none. |
| `Locator.ScanPatterns` | main.py:54-63 | Assigning every match of every pattern in turn leaves the last match of one container, or the previous value when nothing matches. |
| `Locator.BookContainersMembers` | main.py:42-45 | An entry is searched exactly when it is a directory whose lower-cased name contains "book", "bk" or "annotation". |
| `Locator.BookContainersAppend` | main.py:42-45 | Selecting containers from two listings one after the other gives the two selections one after the other, in listing order. |
| `Locator.MatchOrigin` | main.py:50-63 | A path is matched exactly when some searched container yields it for some pattern. |
| `Locator.ContainerMatchOrigin` | main.py:54-63 | A path is matched in one container exactly when one of the patterns yields it there. |
| `Locator.FoundOrigin` | main.py:50-63 | The last match comes from a searched container and a listed pattern, and there is none when no searched container matches. |
| `Locator.SelectionOrigin` | main.py:47-70 | A selected path comes from a book container. Otherwise the annotation path is the fixed default and the library path is absent when nothing matches. |
| `Locator.LastContainerWins` | main.py:50-63 | A book container listed last that matches at all supplies both paths, namely its own last matches. |
| `Locator.OtherEntriesIgnored` | main.py:42-45 | An entry that is not a book container changes neither path, wherever it stands in the listing. |
| `Titles.GetBookTitle` | main.py:83-108 | The loop over the three queries gives the title function's value: no library store gives none; a schema error or no row moves to the next query; another error ends with none; a row gives its column 0. |
| `Titles.FirstDecisiveWins` | main.py:96-103 | The first outcome that does not move on decides the title, and the later queries are never consulted. |
| `Titles.AllMoveOnGivesNone` | main.py:96-108 | When every query fails to fit the schema or yields no row, there is no title. |
| `Titles.TitleFound` | main.py:83-108 | A title is found exactly when a library store is connected and some query gives a row with a non-NULL title while every earlier query moved on. |
| `Extraction.CollectHighlights` | main.py:145-181 | The row loop builds exactly the list of the primary-highlights function: each row normalised in order, except the rows the title filter skips. |
| `Extraction.GetBookInfo` | main.py:197-230 | The fallback fails without a library store, passes its query's error on, and otherwise gives one book record per row. |
| `Extraction.GetHighlights` | main.py:143-195 | The primary highlights when there are any. The fallback when the annotation query raises `OperationalError` or no highlight survives. Any other error is passed on. |
| `Extraction.NoteRoundTrip` | main.py:158-164 | Without an annotation type the note is the user's note or "". With one, the marker "Underline" or "Highlight" and the user's note can both be read back from it. |
| `Extraction.TextExtendsSelection` | main.py:154-156 | The text starts with the selected text and is longer exactly when context text is set, which then follows after "\n\nContext: ". |
| `Extraction.CreatedAtInverts` | main.py:148-152 | A set stored time is recovered from the creation time by undoing the 978307200-second offset. A NULL or zero one gives the current time. |
| `Extraction.ShownTitle` | main.py:166-177 | A highlight carries its resolved title. Failing that it carries "Book ID: " and its asset id. Failing that it carries "Unknown Book". |
| `Extraction.PrimaryAppend` | main.py:147-181 | Each row is handled on its own: two runs of rows give their two lists one after the other. |
| `Extraction.FilterSound` | main.py:170-172 | With a filter, each kept highlight's title contains the filter ignoring case, or is a placeholder because its title could not be resolved. |
| `Extraction.RowKept` | main.py:170-181 | A row that is not skipped gives its highlight in the list. |
| `Extraction.UnfilteredIsMap` | main.py:147-181 | Without a filter every row gives exactly one highlight, at its own position. |
| `Extraction.NoLibraryKeepsAll` | main.py:166-172 | Without a library store the filter has no effect. |
| `Extraction.TimesFromRows` | main.py:148-152 | Every highlight's time is the time of one of the rows. |
| `Extraction.NewestFirstKept` | main.py:140-181 | Rows handed over newest first, all with set times, give highlights newest first. |
| `Extraction.KeepDropKeep` | main.py:170-181 | Three rows of which only the middle one is skipped give the other two highlights, in order. |
| `Extraction.DuneExample` | main.py:166-181 | With the filter "dune", "Dune" is kept, "Foundation" is dropped, and an unknown asset "U" is kept as "Book ID: U". |
| `Extraction.ExampleTitles` | main.py:90-101 | A library that knows two asset ids resolves them and gives no title for a third. |
| `Extraction.ExampleFilter` | main.py:171 | "dune" matches "Dune" ignoring case and does not match "Foundation". |
| `Extraction.BookHighlightsIsMap` | main.py:218-230 | The fallback gives one record per book row, in row order. |
| `Extraction.BookHighlightFields` | main.py:221-227 | A book record keeps the row's title and has the genre only when it is set. It has a note starting "Author: " exactly when an author or description is set. It reads "No progress data" exactly when progress is NULL. |
| `Extraction.BookInfoRequestShape` | main.py:199-216 | With a filter the query ends in a case-insensitive `LIKE` on `%filter%`. Without one it ends in `ORDER BY ZLASTOPENDATE DESC` and has no parameters. |
| `Extraction.FallbackExactly` | main.py:183-195 | The fallback replaces the primary list exactly when the annotation query raises `OperationalError` or yields no highlight. Any other error is passed on. |
| `Markdown.WriteMarkdown` | main.py:242-254 | The loop, with `current_book`, makes exactly the writes of the rendering function. |
| `Markdown.WriteRecord` | main.py:250-254 | One highlight is written as its quote, then its note when set, then its chapter or "N/A", then its date. |
| `Markdown.ExportToMarkdown` | main.py:232-254 | The export gives the document of the rendered highlights, or the failure of reading them, in which case no file is written. |
| `Markdown.DocumentAppend` | main.py:242-254 | The file is the text of its writes, in order. |
| `Markdown.RecordWritesShape` | main.py:250-254 | One highlight's writes hold exactly its own quote and no header, and a note block exactly when the note is non-empty. |
| `Markdown.QuotesInOrder` | main.py:245-250 | Every highlight is quoted exactly once, in the given order. |
| `Markdown.SectionsAreRuns` | main.py:243-248 | The section headers are the book titles with each run of equal neighbours reduced to one. |
| `Markdown.CollapsedHasNoRepeats` | main.py:246-248 | No two neighbouring headers repeat a title. The first header is the first title. The headers hold exactly the titles that occur. |
| `Markdown.CurrentSection` | main.py:246-248 | After any non-empty list the last header is the last highlight's title, which is the value `current_book` holds. |
| `Markdown.InterleavedExample` | main.py:245-248 | Highlights of books A, A, B, A give the three sections A, B, A. |
| `Markdown.ExportOutcome` | main.py:240-242 | The export fails exactly when reading the highlights fails, with the same failure. No highlight gives an empty file. Every highlight read is quoted. |
| `OutputName.SafeTitle` | main.py:266 | The sanitised title is no longer than the title and holds only ASCII letters, digits, spaces, `-` and `_`. |
| `OutputName.SafeTitleAppend` | main.py:266 | Sanitising works character by character: it distributes over concatenation. |
| `OutputName.SafeTitleMembers` | main.py:266 | A character survives exactly when it occurs in the title and is one the name keeps. |
| `OutputName.SafeTitleFixed` | main.py:266 | A title is left unchanged exactly when all of its characters are kept. |
| `OutputName.SafeTitleIdempotent` | main.py:266 | Sanitising twice is sanitising once. |
| `OutputName.DropBetweenSpaces` | main.py:266 | A dropped character between two spaces leaves both spaces. |
| `OutputName.WarAndPeace` | main.py:266 | "War & Peace" becomes "War  Peace". |
| `OutputName.FileNameShape` | main.py:265-269 | The file name starts with "book_highlights_", ends with ".md" and holds no `/`, so it names a file directly in the Desktop folder. |
| `OutputName.AllNameCollides` | main.py:265-269 | The title "all" gives the same file name as the export of every book. |
| `OutputName.Run` | main.py:256-272 | The run strips the typed line, uses it as the filter and for the file name, and exports to the Desktop path, or fails with the export's failure. |
| `OutputName.RunOutcome` | main.py:262-272 | A run exports exactly when the highlights can be read, to the path derived from the stripped title, with the document as contents. |

## Left out

- `connect` (main.py:72-81) and the check that the annotation store exists are not modelled. They are file-system I/O. A session is given directly: what the annotation query yields, and a library store or none. The `FileNotFoundError` path of `main` is therefore not modelled.
- The directory listing of `~/Library/Containers` and `Path.glob` are inputs. Their order is taken as given, and pattern matching itself is not modelled.
- `datetime.fromtimestamp`, `datetime.now` and `strftime` are not modelled. Times are whole seconds since 1970. The current time is one parameter `now`, shared by every row. Date rendering is a parameter `formatDate`. Fractional seconds of the stores' timestamps are not modelled.
- The `.1f` rendering of the reading progress is a parameter `formatTenths`, because floating-point formatting is out of scope.
- The query against `sqlite_master` (main.py:120-126) is not modelled. It only prints the table names. An error it raises would propagate and is not modelled either.
- An error raised part-way through reading the annotation rows is not modelled. A query either raises before any row or yields all of its rows.
- SQL itself is left to the store. The `WHERE`, `ORDER BY` and `LIKE` clauses act inside the store function. The query texts are kept, with their white space normalised.
- Every `print` is left out, as are the prompt of `main`, the messages of its exception handlers, and the physical writing of the file. The model returns the file's path and contents instead.
- Common.Lower: lower-cases ASCII letters only. `Common.IsAlnum` accepts ASCII letters and digits only. Python's Unicode case mapping and letter classes are not modelled.
- Extraction.NewestFirstKept: assumes every row has a set creation time. Rows without one get the current time, so the order claim does not hold for them.
- The fallback's failure for a missing library store stands for the `AttributeError` that `None.execute` raises. Which message `main` prints for each failure is not modelled.
