/** Database-path selection (`_get_database_path`). The directory listing of
    `~/Library/Containers` and the recursive globbing inside a container are
    inputs: `entries` is the listing in enumeration order and `glob(c, p)` the
    paths `c.glob(p)` yields, in order. */
module Locator {
  import opened Common

  type Path = string

  /** An immediate child of `~/Library/Containers`. */
  datatype Entry = Entry(name: string, isDir: bool)

  const CONTAINER_KEYWORDS: seq<string> := ["book", "bk", "annotation"]

  const ANNOTATION_PATTERNS: seq<string> := [
    "**/BKAnnotation/*.sqlite",
    "**/AEAnnotation/*.sqlite"
  ]

  const LIBRARY_PATTERNS: seq<string> := [
    "**/com.apple.iBooksX/Data/Documents/BKLibrary/*.sqlite",
    "**/com.apple.iBooks/Data/Documents/BKLibrary/*.sqlite",
    "**/BKLibrary/*.sqlite"
  ]

  /** Relative to the home directory; used when no annotation store is found. */
  const DEFAULT_ANNOTATION_DB: string :=
    "Library/Containers/com.apple.iBooksX/Data/Documents/AEAnnotation/annotations.sqlite"

  /** `base / rel` for a relative `rel`. */
  function Join(base: Path, rel: string): Path {
    if base != [] && base[|base| - 1] == '/' then base + rel else base + "/" + rel
  }

  /** A container is searched when it is a directory whose lower-cased name
      contains one of the keywords. */
  predicate IsBookContainer(e: Entry) {
    e.isDir && exists k | k in CONTAINER_KEYWORDS :: Contains(Lower(e.name), k)
  }

  /** The containers searched, in enumeration order. */
  function BookContainers(entries: seq<Entry>): seq<Entry> {
    if entries == [] then []
    else
      var n := |entries| - 1;
      BookContainers(entries[..n]) + (if IsBookContainer(entries[n]) then [entries[n]] else [])
  }

  /** Every path the patterns match in one container: pattern order, then glob order. */
  function ContainerMatches(c: Entry, patterns: seq<string>, glob: (Entry, string) -> seq<Path>): seq<Path> {
    if patterns == [] then []
    else
      var n := |patterns| - 1;
      ContainerMatches(c, patterns[..n], glob) + glob(c, patterns[n])
  }

  /** Every path the patterns match, container after container. */
  function AllMatches(cs: seq<Entry>, patterns: seq<string>, glob: (Entry, string) -> seq<Path>): seq<Path> {
    if cs == [] then []
    else
      var n := |cs| - 1;
      AllMatches(cs[..n], patterns, glob) + ContainerMatches(cs[n], patterns, glob)
  }

  /** What a variable holding `current` holds after `m` is assigned to it
      element by element. */
  function AssignEach(current: Option<Path>, m: seq<Path>): Option<Path> {
    if m == [] then current else Some(m[|m| - 1])
  }

  /** The annotation and library store paths `_get_database_path` returns. */
  function SelectedPaths(home: Path, entries: seq<Entry>, glob: (Entry, string) -> seq<Path>): (Path, Option<Path>) {
    var cs := BookContainers(entries);
    var annotation := AssignEach(None, AllMatches(cs, ANNOTATION_PATTERNS, glob));
    var library := AssignEach(None, AllMatches(cs, LIBRARY_PATTERNS, glob));
    (if annotation.Some? then annotation.value else Join(home, DEFAULT_ANNOTATION_DB), library)
  }

  /** The two inner loops of one container: assign every match of every pattern in turn. */
  method ScanPatterns(c: Entry, patterns: seq<string>, glob: (Entry, string) -> seq<Path>, current: Option<Path>)
    returns (found: Option<Path>)
    ensures found == AssignEach(current, ContainerMatches(c, patterns, glob))
  {
    found := current;
    for i := 0 to |patterns|
      invariant found == AssignEach(current, ContainerMatches(c, patterns[..i], glob))
    {
      var paths := glob(c, patterns[i]);
      ghost var before := ContainerMatches(c, patterns[..i], glob);
      for j := 0 to |paths|
        invariant found == AssignEach(current, before + paths[..j])
      {
        found := Some(paths[j]);
        assert (before + paths[..j + 1])[|before| + j] == paths[j];
      }
      assert patterns[..i + 1][..i] == patterns[..i];
      assert paths[..|paths|] == paths;
    }
    assert patterns[..|patterns|] == patterns;
  }

  method GetDatabasePath(home: Path, entries: seq<Entry>, glob: (Entry, string) -> seq<Path>)
    returns (annotationDb: Path, libraryDb: Option<Path>)
    ensures (annotationDb, libraryDb) == SelectedPaths(home, entries, glob)
  {
    var containers := BookContainers(entries);
    var annotation: Option<Path> := None;
    libraryDb := None;
    for i := 0 to |containers|
      invariant annotation == AssignEach(None, AllMatches(containers[..i], ANNOTATION_PATTERNS, glob))
      invariant libraryDb == AssignEach(None, AllMatches(containers[..i], LIBRARY_PATTERNS, glob))
    {
      ScanStep(containers, i, ANNOTATION_PATTERNS, glob);
      ScanStep(containers, i, LIBRARY_PATTERNS, glob);
      annotation := ScanPatterns(containers[i], ANNOTATION_PATTERNS, glob, annotation);
      libraryDb := ScanPatterns(containers[i], LIBRARY_PATTERNS, glob, libraryDb);
    }
    assert containers[..|containers|] == containers;
    if annotation.None? {
      annotationDb := Join(home, DEFAULT_ANNOTATION_DB);
    } else {
      annotationDb := annotation.value;
    }
  }

  // ---------------------------------------------------------------------
  // Properties

  lemma AssignEachAppend(current: Option<Path>, a: seq<Path>, b: seq<Path>)
    ensures AssignEach(AssignEach(current, a), b) == AssignEach(current, a + b)
  {
    if b != [] {
      assert (a + b)[|a + b| - 1] == b[|b| - 1];
    }
  }

  /** The searched containers are exactly the listed entries that qualify. */
  /** Scanning one more container continues from what the earlier ones left. */
  lemma ScanStep(cs: seq<Entry>, i: nat, patterns: seq<string>, glob: (Entry, string) -> seq<Path>)
    requires i < |cs|
    ensures AssignEach(None, AllMatches(cs[..i + 1], patterns, glob)) ==
            AssignEach(AssignEach(None, AllMatches(cs[..i], patterns, glob)), ContainerMatches(cs[i], patterns, glob))
  {
    assert cs[..i + 1][..i] == cs[..i];
    AssignEachAppend(None, AllMatches(cs[..i], patterns, glob), ContainerMatches(cs[i], patterns, glob));
  }

  lemma {:induction false} BookContainersMembers(entries: seq<Entry>, e: Entry)
    ensures e in BookContainers(entries) <==> e in entries && IsBookContainer(e)
  {
    if entries != [] {
      var n := |entries| - 1;
      assert entries == entries[..n] + [entries[n]];
      BookContainersMembers(entries[..n], e);
    }
  }

  lemma {:induction false} BookContainersAppend(a: seq<Entry>, b: seq<Entry>)
    ensures BookContainers(a + b) == BookContainers(a) + BookContainers(b)
    decreases |b|
  {
    if b == [] {
      assert a + b == a;
    } else {
      var n := |b| - 1;
      var ab := a + b;
      var tail := if IsBookContainer(b[n]) then [b[n]] else [];
      assert ab[..|ab| - 1] == a + b[..n];
      assert ab[|ab| - 1] == b[n];
      assert BookContainers(ab) == BookContainers(a + b[..n]) + tail;
      assert BookContainers(b) == BookContainers(b[..n]) + tail;
      BookContainersAppend(a, b[..n]);
    }
  }

  /** A path is matched exactly when one of the given containers yields it for
      one of the patterns. */
  lemma {:induction false} MatchOrigin(cs: seq<Entry>, patterns: seq<string>, glob: (Entry, string) -> seq<Path>, p: Path)
    ensures p in AllMatches(cs, patterns, glob) <==>
            exists c, q :: c in cs && q in patterns && p in glob(c, q)
  {
    if cs != [] {
      var n := |cs| - 1;
      var init := cs[..n];
      assert cs == init + [cs[n]];
      assert AllMatches(cs, patterns, glob) == AllMatches(init, patterns, glob) + ContainerMatches(cs[n], patterns, glob);
      MatchOrigin(init, patterns, glob, p);
      ContainerMatchOrigin(cs[n], patterns, glob, p);
      if p in AllMatches(cs, patterns, glob) {
        if p in AllMatches(init, patterns, glob) {
          var c, q :| c in init && q in patterns && p in glob(c, q);
          assert c in cs;
        } else {
          var q :| q in patterns && p in glob(cs[n], q);
          assert cs[n] in cs;
        }
      }
      if exists c, q :: c in cs && q in patterns && p in glob(c, q) {
        var c, q :| c in cs && q in patterns && p in glob(c, q);
        if c != cs[n] {
          assert c in init;
        }
      }
    }
  }

  lemma {:induction false} ContainerMatchOrigin(c: Entry, patterns: seq<string>, glob: (Entry, string) -> seq<Path>, p: Path)
    ensures p in ContainerMatches(c, patterns, glob) <==> exists q :: q in patterns && p in glob(c, q)
  {
    if patterns != [] {
      var n := |patterns| - 1;
      var init := patterns[..n];
      assert patterns == init + [patterns[n]];
      ContainerMatchOrigin(c, init, glob, p);
      if p in ContainerMatches(c, patterns, glob) {
        if p in ContainerMatches(c, init, glob) {
          var q :| q in init && p in glob(c, q);
          assert q in patterns;
        } else {
          assert patterns[n] in patterns;
        }
      }
      if exists q :: q in patterns && p in glob(c, q) {
        var q :| q in patterns && p in glob(c, q);
        if q != patterns[n] {
          assert q in init;
        }
      }
    }
  }

  /** A path that was found comes from a searched container and one of the
      patterns; when no searched container matches any pattern, the annotation
      path is the fixed default and the library path stays absent. */
  lemma SelectionOrigin(home: Path, entries: seq<Entry>, glob: (Entry, string) -> seq<Path>)
    ensures var (annotationDb, libraryDb) := SelectedPaths(home, entries, glob);
            && (annotationDb == Join(home, DEFAULT_ANNOTATION_DB) ||
                exists e, q :: e in entries && IsBookContainer(e) && q in ANNOTATION_PATTERNS && annotationDb in glob(e, q))
            && (libraryDb.Some? ==>
                exists e, q :: e in entries && IsBookContainer(e) && q in LIBRARY_PATTERNS && libraryDb.value in glob(e, q))
    ensures (forall e, q :: e in entries && IsBookContainer(e) && q in ANNOTATION_PATTERNS ==> glob(e, q) == []) ==>
            SelectedPaths(home, entries, glob).0 == Join(home, DEFAULT_ANNOTATION_DB)
    ensures (forall e, q :: e in entries && IsBookContainer(e) && q in LIBRARY_PATTERNS ==> glob(e, q) == []) ==>
            SelectedPaths(home, entries, glob).1 == None
  {
    FoundOrigin(entries, ANNOTATION_PATTERNS, glob);
    FoundOrigin(entries, LIBRARY_PATTERNS, glob);
  }

  /** The last match over the searched containers comes from one of them, and
      there is none when no searched container matches any pattern. */
  lemma FoundOrigin(entries: seq<Entry>, patterns: seq<string>, glob: (Entry, string) -> seq<Path>)
    ensures var m := AllMatches(BookContainers(entries), patterns, glob);
            && (m != [] ==> exists e, q :: e in entries && IsBookContainer(e) && q in patterns && m[|m| - 1] in glob(e, q))
            && ((forall e, q :: e in entries && IsBookContainer(e) && q in patterns ==> glob(e, q) == []) ==> m == [])
  {
    var cs := BookContainers(entries);
    var m := AllMatches(cs, patterns, glob);
    if m != [] {
      MatchOrigin(cs, patterns, glob, m[|m| - 1]);
      var c, q :| c in cs && q in patterns && m[|m| - 1] in glob(c, q);
      BookContainersMembers(entries, c);
    }
  }

  /** Last match wins: a searched container enumerated after all others, with
      at least one match, supplies the path, namely its own last match. */
  lemma LastContainerWins(home: Path, entries: seq<Entry>, e: Entry, glob: (Entry, string) -> seq<Path>)
    requires IsBookContainer(e)
    ensures var m := ContainerMatches(e, ANNOTATION_PATTERNS, glob);
            m != [] ==> SelectedPaths(home, entries + [e], glob).0 == m[|m| - 1]
    ensures var m := ContainerMatches(e, LIBRARY_PATTERNS, glob);
            m != [] ==> SelectedPaths(home, entries + [e], glob).1 == Some(m[|m| - 1])
  {
    assert (entries + [e])[..|entries|] == entries;
    var cs := BookContainers(entries + [e]);
    assert cs[..|cs| - 1] == BookContainers(entries);
  }

  /** Entries that are not searched containers do not affect the selection,
      wherever they stand in the listing. */
  lemma OtherEntriesIgnored(home: Path, before: seq<Entry>, e: Entry, after: seq<Entry>, glob: (Entry, string) -> seq<Path>)
    requires !IsBookContainer(e)
    ensures SelectedPaths(home, before + [e] + after, glob) == SelectedPaths(home, before + after, glob)
  {
    BookContainersAppend(before + [e], after);
    BookContainersAppend(before, [e]);
    BookContainersAppend(before, after);
    assert [e][..0] == [];
    assert BookContainers([e]) == [];
    assert BookContainers(before + [e] + after) == BookContainers(before + after);
  }
}
