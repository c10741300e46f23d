/** Title resolution (`get_book_title`): three query shapes, one per schema
    version of the library store, tried in order until one produces a row. */
module Titles {
  import opened Common
  import opened Records

  const TITLE_QUERIES: seq<string> := [
    "SELECT ZTITLE FROM ZBKLIBRARYASSET WHERE ZASSETID = ?",
    "SELECT ZTITLE FROM ZBKLIBRARYASSET WHERE ZBKASSETID = ?",
    "SELECT ZTITLE FROM ZBKLIBRARY WHERE ZASSETID = ?"
  ]

  /** An outcome after which the next query shape is tried: the query did not
      fit the schema, or it produced no row. */
  predicate MovesOn(o: Fetch<Option<TitleRow>>) {
    o == Raised(OperationalError) || o == Fetched(None)
  }

  /** The outcomes of the title queries for one asset id, in query order. */
  function Outcomes(lib: LibraryStore, assetId: string): seq<Fetch<Option<TitleRow>>> {
    seq(|TITLE_QUERIES|, i requires 0 <= i < |TITLE_QUERIES| => lib.firstTitleRow(TITLE_QUERIES[i], assetId))
  }

  /** The loop of `get_book_title` over a list of outcomes: column 0 of the first
      row; any exception other than `OperationalError` ends the search with no title. */
  function FirstTitle(outcomes: seq<Fetch<Option<TitleRow>>>): Option<string> {
    if outcomes == [] then None
    else match outcomes[0]
      case Raised(OperationalError) => FirstTitle(outcomes[1..])
      case Raised(OtherError) => None
      case Fetched(None) => FirstTitle(outcomes[1..])
      case Fetched(Some(row)) => row.title
  }

  /** `get_book_title(asset_id)` as a function of the library store. */
  function TitleOf(library: Option<LibraryStore>, assetId: string): Option<string> {
    match library
    case None => None
    case Some(lib) => FirstTitle(Outcomes(lib, assetId))
  }

  method GetBookTitle(library: Option<LibraryStore>, assetId: string) returns (title: Option<string>)
    ensures title == TitleOf(library, assetId)
  {
    if library.None? {
      return None;
    }
    var lib := library.value;
    ghost var outcomes := Outcomes(lib, assetId);
    var i := 0;
    while i < |TITLE_QUERIES|
      invariant 0 <= i <= |TITLE_QUERIES|
      invariant FirstTitle(outcomes[i..]) == TitleOf(library, assetId)
    {
      var outcome := lib.firstTitleRow(TITLE_QUERIES[i], assetId);
      assert outcome == outcomes[i..][0];
      match outcome {
        case Raised(OperationalError) =>
        case Raised(OtherError) =>
          return None;
        case Fetched(None) =>
        case Fetched(Some(row)) =>
          return row.title;
      }
      assert outcomes[i..][1..] == outcomes[i + 1..];
      i := i + 1;
    }
    return None;
  }

  // ---------------------------------------------------------------------
  // Properties

  /** The first outcome that does not move on decides the title: a row gives
      its column 0 (which may be NULL), another exception gives none; what the
      later queries would yield is never consulted. */
  lemma {:induction false} FirstDecisiveWins(
    outcomes: seq<Fetch<Option<TitleRow>>>, k: nat, later: seq<Fetch<Option<TitleRow>>>)
    requires k < |outcomes| && !MovesOn(outcomes[k])
    requires forall j :: 0 <= j < k ==> MovesOn(outcomes[j])
    ensures FirstTitle(outcomes) ==
            (if outcomes[k].Fetched? then outcomes[k].rows.value.title else None)
    ensures FirstTitle(outcomes[..k + 1] + later) == FirstTitle(outcomes)
  {
    var changed := outcomes[..k + 1] + later;
    assert changed[0] == outcomes[0];
    if k > 0 {
      assert MovesOn(outcomes[0]);
      assert outcomes[1..][..k] + later == changed[1..];
      FirstDecisiveWins(outcomes[1..], k - 1, later);
    }
  }

  /** When every query fails to fit the schema or produces no row, there is no title. */
  lemma {:induction false} AllMoveOnGivesNone(outcomes: seq<Fetch<Option<TitleRow>>>)
    requires forall j :: 0 <= j < |outcomes| ==> MovesOn(outcomes[j])
    ensures FirstTitle(outcomes) == None
  {
    if outcomes != [] {
      assert MovesOn(outcomes[0]);
      AllMoveOnGivesNone(outcomes[1..]);
    }
  }

  /** A title is found exactly when a library store is connected and some query
      produces a row with a non-NULL title while every query before it moved on. */
  lemma TitleFound(library: Option<LibraryStore>, assetId: string, t: string)
    ensures TitleOf(library, assetId) == Some(t) <==>
            library.Some? &&
            exists k :: 0 <= k < |TITLE_QUERIES| &&
              (forall j :: 0 <= j < k ==> MovesOn(Outcomes(library.value, assetId)[j])) &&
              Outcomes(library.value, assetId)[k] == Fetched(Some(TitleRow(Some(t))))
  {
    if library.Some? {
      var os := Outcomes(library.value, assetId);
      if exists k :: 0 <= k < |os| && !MovesOn(os[k]) {
        var k :| 0 <= k < |os| && !MovesOn(os[k]) && forall j :: 0 <= j < k ==> MovesOn(os[j]) by {
          FirstNotMovingOn(os);
        }
        FirstDecisiveWins(os, k, []);
        assert TitleOf(library, assetId) == FirstTitle(os);
        if TitleOf(library, assetId) == Some(t) {
          match os[k]
          case Fetched(Some(row)) =>
            assert row == TitleRow(Some(t));
        }
        forall k' | 0 <= k' < |os| && (forall j :: 0 <= j < k' ==> MovesOn(os[j]))
          ensures k' == k || !(os[k'] == Fetched(Some(TitleRow(Some(t)))))
        {
          if k' < k {
            assert MovesOn(os[k']);
          }
        }
      } else {
        AllMoveOnGivesNone(os);
      }
    }
  }

  /** If some outcome does not move on, there is a first one. */
  lemma {:induction false} FirstNotMovingOn(os: seq<Fetch<Option<TitleRow>>>)
    requires exists k :: 0 <= k < |os| && !MovesOn(os[k])
    ensures exists k :: 0 <= k < |os| && !MovesOn(os[k]) && forall j :: 0 <= j < k ==> MovesOn(os[j])
  {
    if MovesOn(os[0]) {
      var k :| 0 <= k < |os| && !MovesOn(os[k]);
      assert !MovesOn(os[1..][k - 1]);
      FirstNotMovingOn(os[1..]);
      var k' :| 0 <= k' < |os[1..]| && !MovesOn(os[1..][k']) && forall j :: 0 <= j < k' ==> MovesOn(os[1..][j]);
      assert forall j :: 1 <= j < k' + 1 ==> MovesOn(os[j]) by {
        forall j | 1 <= j < k' + 1 ensures MovesOn(os[j]) { assert os[j] == os[1..][j - 1]; }
      }
      assert !MovesOn(os[k' + 1]);
    } else {
      assert !MovesOn(os[0]);
    }
  }
}
