/** The export file name `main` derives from the title typed in, and the run of
    `main` itself. The typed line is the parameter `line`; the home directory
    is `home`. */
module OutputName {
  import opened Common
  import opened Records
  import Locator
  import Markdown

  /** The characters a title keeps in the file name. */
  predicate KeepInFileName(c: char) {
    IsAlnum(c) || c == ' ' || c == '-' || c == '_'
  }

  /** `"".join(c for c in title if c.isalnum() or c in (' ', '-', '_'))` */
  function SafeTitle(title: string): (r: string)
    ensures |r| <= |title|
    ensures forall c :: c in r ==> KeepInFileName(c)
  {
    if title == [] then []
    else (if KeepInFileName(title[0]) then [title[0]] else []) + SafeTitle(title[1..])
  }

  const ALL_BOOKS_FILE_NAME: string := "book_highlights_all.md"

  /** The file name for a stripped title: the sanitised title between a fixed
      prefix and `.md`, or the all-books name when the title is empty. */
  function FileName(title: string): string {
    if title != "" then "book_highlights_" + SafeTitle(title) + ".md" else ALL_BOOKS_FILE_NAME
  }

  /** `Path.home() / "Desktop" / name` */
  function OutputPath(home: Locator.Path, title: string): Locator.Path {
    Locator.Join(Locator.Join(home, "Desktop"), FileName(title))
  }

  /** What a run of `main` ends with: the export was written to a path with
      these contents, or it failed. */
  datatype Outcome = Exported(path: Locator.Path, content: string) | Failed(failure: Failure)

  /** The run of `main`: the typed line is stripped, the stripped title is both
      the filter and the source of the file name, and an empty title means
      every book. */
  function RunOf(
    session: Session, home: Locator.Path, line: string, now: int,
    formatTenths: real -> string, formatDate: int -> string): Outcome
  {
    var title := Strip(line);
    match Markdown.ExportOf(session, Some(title), now, formatTenths, formatDate)
    case Err(f) => Failed(f)
    case Ok(content) => Exported(OutputPath(home, title), content)
  }

  method Run(
    session: Session, home: Locator.Path, line: string, now: int,
    formatTenths: real -> string, formatDate: int -> string)
    returns (outcome: Outcome)
    ensures outcome == RunOf(session, home, line, now, formatTenths, formatDate)
  {
    var title := Strip(line);
    var outputPath: Locator.Path;
    if title != "" {
      var safeTitle := SafeTitle(title);
      outputPath := Locator.Join(Locator.Join(home, "Desktop"), "book_highlights_" + safeTitle + ".md");
    } else {
      outputPath := Locator.Join(Locator.Join(home, "Desktop"), ALL_BOOKS_FILE_NAME);
    }
    var r := Markdown.ExportToMarkdown(session, Some(title), now, formatTenths, formatDate);
    match r {
      case Err(f) =>
        outcome := Failed(f);
      case Ok(content) =>
        outcome := Exported(outputPath, content);
    }
  }

  // ---------------------------------------------------------------------
  // Properties

  lemma {:induction false} SafeTitleAppend(a: string, b: string)
    ensures SafeTitle(a + b) == SafeTitle(a) + SafeTitle(b)
  {
    if a != [] {
      assert (a + b)[0] == a[0];
      assert (a + b)[1..] == a[1..] + b;
      SafeTitleAppend(a[1..], b);
    } else {
      assert a + b == b;
    }
  }

  /** A character survives exactly when it is kept and occurs in the title. */
  lemma {:induction false} SafeTitleMembers(title: string, c: char)
    ensures c in SafeTitle(title) <==> c in title && KeepInFileName(c)
  {
    if title != [] {
      SafeTitleMembers(title[1..], c);
      assert title == [title[0]] + title[1..];
    }
  }

  /** A title is left alone exactly when every character is kept. */
  lemma {:induction false} SafeTitleFixed(title: string)
    ensures SafeTitle(title) == title <==> forall c :: c in title ==> KeepInFileName(c)
  {
    if title != [] {
      SafeTitleFixed(title[1..]);
      assert title == [title[0]] + title[1..];
      if !KeepInFileName(title[0]) {
        assert |SafeTitle(title)| < |title|;
      }
    }
  }

  /** Sanitising twice is sanitising once. */
  lemma SafeTitleIdempotent(title: string)
    ensures SafeTitle(SafeTitle(title)) == SafeTitle(title)
  {
    SafeTitleFixed(SafeTitle(title));
  }

  /** The file name always has the fixed prefix and extension and contains no
      path separator, so the export lands directly in the Desktop folder. */
  lemma FileNameShape(title: string)
    ensures var name := FileName(title);
            && "book_highlights_" <= name
            && name[|name| - 3..] == ".md"
            && '/' !in name
  {
    var name := FileName(title);
    if title != "" {
      assert '/' !in SafeTitle(title);
      assert name[|name| - 3..] == ".md";
    }
  }

  /** Sanitising removes punctuation but keeps spaces, so a removed character
      between two spaces leaves both ("War & Peace" becomes "War  Peace"). */
  lemma DropBetweenSpaces(a: string, c: char, b: string)
    requires forall ch :: ch in a ==> KeepInFileName(ch)
    requires forall ch :: ch in b ==> KeepInFileName(ch)
    requires !KeepInFileName(c)
    ensures SafeTitle(a + " " + [c] + " " + b) == a + "  " + b
  {
    SafeTitleFixed(a);
    SafeTitleFixed(b);
    assert SafeTitle(" ") == " " by {
      assert " "[1..] == [];
    }
    assert SafeTitle([c]) == [] by {
      assert [c][1..] == [];
    }
    calc {
      SafeTitle(a + " " + [c] + " " + b);
      { SafeTitleAppend(a + " " + [c] + " ", b); }
      SafeTitle(a + " " + [c] + " ") + SafeTitle(b);
      { SafeTitleAppend(a + " " + [c], " "); }
      SafeTitle(a + " " + [c]) + SafeTitle(" ") + SafeTitle(b);
      { SafeTitleAppend(a + " ", [c]); }
      SafeTitle(a + " ") + SafeTitle([c]) + SafeTitle(" ") + SafeTitle(b);
      { SafeTitleAppend(a, " "); }
      SafeTitle(a) + SafeTitle(" ") + SafeTitle([c]) + SafeTitle(" ") + SafeTitle(b);
      a + " " + [] + " " + b;
      { assert a + " " + [] == a + " "; }
      a + "  " + b;
    }
  }

  lemma WarAndPeace()
    ensures SafeTitle("War & Peace") == "War  Peace"
  {
    assert "War" + " " + ['&'] + " " + "Peace" == "War & Peace";
    DropBetweenSpaces("War", '&', "Peace");
    assert "War" + "  " + "Peace" == "War  Peace";
  }

  /** The title "all" is written to the same file as the export of every book. */
  lemma AllNameCollides()
    ensures FileName("all") == FileName("")
  {
    SafeTitleFixed("all");
  }

  /** A run exports exactly when the highlights could be read, to the path
      derived from the stripped title, with the stripped title as the filter. */
  lemma RunOutcome(
    session: Session, home: Locator.Path, line: string, now: int,
    formatTenths: real -> string, formatDate: int -> string)
    ensures var o := RunOf(session, home, line, now, formatTenths, formatDate);
            var e := Markdown.ExportOf(session, Some(Strip(line)), now, formatTenths, formatDate);
            && (o.Exported? <==> e.Ok?)
            && (o.Exported? ==> o.path == OutputPath(home, Strip(line)) && o.content == e.value)
            && (o.Failed? ==> o.failure == e.failure)
  {
  }
}
