/**
 * The result selection of the search endpoint, after the similarity search
 * has returned its rows: the preferred edition, the request's match count and
 * threshold, the split of the rows into names and hadiths, the edition filter
 * and the three response fields.
 */
module SearchRoute {
  import opened Text
  import opened Rerank
  import opened Validation

  /** The similarity threshold of every search request. */
  const MatchThreshold: real := 0.3

  /** `preferredEdition`: the requested edition when it is one of the listed editions. */
  function PreferredEdition(edition: string): (r: Option<string>)
    ensures r.Some? <==> edition != "" && edition in HadithEditions
    ensures r.Some? ==> r.value == edition
  {
    if |edition| > 0 && edition in HadithEditions then Some(edition) else None
  }

  /** `match_count`: twice as many rows when hadiths will be filtered by edition. */
  function MatchCount(preferred: Option<string>): (n: nat)
    ensures preferred.Some? ==> n == 20
    ensures preferred.None? ==> n == 10
  {
    if preferred.Some? then 20 else 10
  }

  /** The parameters of the `match_documents` call besides the embedding. */
  datatype MatchRequest = MatchRequest(threshold: real, count: nat)

  /** The request for an edition as sent: the fixed threshold, and the doubled count
      only when the edition is one of the listed editions. */
  function MatchRequestFor(edition: string): (r: MatchRequest)
    ensures r.threshold == 0.3
    ensures r.count == (if edition != "" && edition in HadithEditions then 20 else 10)
  {
    MatchRequest(MatchThreshold, MatchCount(PreferredEdition(edition)))
  }

  /** The row tests the endpoint filters by: `metadata.type` or `metadata.edition`. */
  datatype RowTest = KindIs(kind: string) | EditionIs(edition: string)

  predicate Passes(m: MatchRow, test: RowTest) {
    m.metadata.Some? &&
    match test
    case KindIs(kind) => m.metadata.value.kind == Some(kind)
    case EditionIs(edition) => m.metadata.value.edition == Some(edition)
  }

  /** `rows.filter(...)` for one test. */
  function Keep(rows: seq<MatchRow>, test: RowTest): (r: seq<MatchRow>)
    ensures |r| <= |rows|
    ensures forall k :: 0 <= k < |r| ==> Passes(r[k], test) && r[k] in rows
  {
    if rows == [] then []
    else
      var init := Keep(rows[..|rows| - 1], test);
      var last := rows[|rows| - 1];
      if Passes(last, test) then init + [last] else init
  }

  /** A row `hadith` may be taken from: a hadith row, of the preferred edition when
      there is one. */
  predicate Eligible(m: MatchRow, preferred: Option<string>) {
    Passes(m, KindIs("hadith")) && (preferred.Some? ==> Passes(m, EditionIs(preferred.value)))
  }

  /** `hadiths` after the optional edition filter. */
  function Candidates(matches: seq<MatchRow>, preferred: Option<string>): seq<MatchRow> {
    var hadiths := Keep(matches, KindIs("hadith"));
    if preferred.Some? then Keep(hadiths, EditionIs(preferred.value)) else hadiths
  }

  /** The response body of a successful search. */
  datatype SearchResponse = SearchResponse(name: Option<MatchRow>, hadith: Option<MatchRow>, matches: seq<MatchRow>)

  function First(rows: seq<MatchRow>): Option<MatchRow> {
    if rows == [] then None else Some(rows[0])
  }

  /** The response for the rows the search returned (`None` for a null result) and
      the preferred edition. */
  function SelectResults(returned: Option<seq<MatchRow>>, preferred: Option<string>): (r: SearchResponse)
    ensures r.matches == (if returned.Some? then returned.value else [])
    ensures r.name.Some? ==> Passes(r.name.value, KindIs("name")) && r.name.value in r.matches
    ensures r.hadith.Some? ==> r.hadith.value in r.matches
    ensures r.hadith.None? ==> r.name.None?
  {
    var matches := if returned.Some? then returned.value else [];
    var names := Keep(matches, KindIs("name"));
    var kept := Candidates(matches, preferred);
    SearchResponse(First(names), if kept != [] then First(kept) else First(names), matches)
  }

  // ---- Properties ----

  /** A row is kept exactly when it is one of the rows and passes the test. */
  lemma {:induction false} KeepMembership(rows: seq<MatchRow>, test: RowTest, m: MatchRow)
    ensures m in Keep(rows, test) <==> m in rows && Passes(m, test)
  {
    if rows != [] {
      KeepMembership(rows[..|rows| - 1], test, m);
      assert rows == rows[..|rows| - 1] + [rows[|rows| - 1]];
    }
  }

  /** Filtering keeps the returned order: the rows of `a + b` are those of `a`, then those of `b`. */
  lemma {:induction false} KeepAppend(a: seq<MatchRow>, b: seq<MatchRow>, test: RowTest)
    ensures Keep(a + b, test) == Keep(a, test) + Keep(b, test)
    decreases |b|
  {
    if b == [] {
      assert a + b == a;
    } else {
      var b' := b[..|b| - 1];
      assert (a + b)[..|a + b| - 1] == a + b';
      KeepAppend(a, b', test);
    }
  }

  /** The first kept row is the earliest row that passes the test. */
  lemma {:induction false} FirstKeptIsEarliest(rows: seq<MatchRow>, test: RowTest)
    ensures Keep(rows, test) != [] <==> exists i :: 0 <= i < |rows| && Passes(rows[i], test)
    ensures Keep(rows, test) != [] ==> exists i :: (0 <= i < |rows| && rows[i] == Keep(rows, test)[0]
      && Passes(rows[i], test) && forall j :: 0 <= j < i ==> !Passes(rows[j], test))
  {
    if rows != [] {
      var init := rows[..|rows| - 1];
      FirstKeptIsEarliest(init, test);
      if Keep(init, test) == [] && Passes(rows[|rows| - 1], test) {
        assert forall j :: 0 <= j < |init| ==> !Passes(rows[j], test) by {
          forall j | 0 <= j < |init| ensures !Passes(rows[j], test) {
            assert init[j] == rows[j];
          }
        }
      }
      if exists i :: 0 <= i < |rows| && Passes(rows[i], test) {
        var i :| 0 <= i < |rows| && Passes(rows[i], test);
        if i < |rows| - 1 {
          assert init[i] == rows[i];
        }
      }
      if Keep(init, test) != [] {
        var i :| 0 <= i < |init| && init[i] == Keep(init, test)[0]
          && Passes(init[i], test) && forall j :: 0 <= j < i ==> !Passes(init[j], test);
        assert rows[i] == init[i];
        assert forall j :: 0 <= j < i ==> rows[j] == init[j];
      }
    }
  }

  /** Appending a row appends it to the candidates exactly when it is eligible. */
  lemma CandidatesSnoc(matches: seq<MatchRow>, preferred: Option<string>)
    requires matches != []
    ensures var x := matches[|matches| - 1];
      Candidates(matches, preferred)
        == Candidates(matches[..|matches| - 1], preferred) + (if Eligible(x, preferred) then [x] else [])
  {
    var init := matches[..|matches| - 1];
    var x := matches[|matches| - 1];
    if preferred.Some? {
      var h := Keep(init, KindIs("hadith"));
      KeepAppend(h, [x], EditionIs(preferred.value));
      assert [x][..0] == [];
      if Passes(x, KindIs("hadith")) {
        assert Keep(matches, KindIs("hadith")) == h + [x];
      }
    }
  }

  /** The eligible rows in order. */
  function EligibleRows(matches: seq<MatchRow>, preferred: Option<string>): seq<MatchRow> {
    if matches == [] then []
    else
      var x := matches[|matches| - 1];
      EligibleRows(matches[..|matches| - 1], preferred) + (if Eligible(x, preferred) then [x] else [])
  }

  /** The two filters of the route keep exactly the eligible rows, in order. */
  lemma {:induction false} CandidatesAreEligibleRows(matches: seq<MatchRow>, preferred: Option<string>)
    ensures Candidates(matches, preferred) == EligibleRows(matches, preferred)
  {
    if matches != [] {
      CandidatesAreEligibleRows(matches[..|matches| - 1], preferred);
      CandidatesSnoc(matches, preferred);
    }
  }

  /** There is an eligible row exactly when some row is eligible, and the first one is
      the earliest. */
  lemma {:induction false} FirstEligibleIsEarliest(matches: seq<MatchRow>, preferred: Option<string>)
    ensures EligibleRows(matches, preferred) != [] <==>
      exists i :: 0 <= i < |matches| && Eligible(matches[i], preferred)
    ensures EligibleRows(matches, preferred) != [] ==> exists i :: (0 <= i < |matches|
      && matches[i] == EligibleRows(matches, preferred)[0] && Eligible(matches[i], preferred)
      && forall j :: 0 <= j < i ==> !Eligible(matches[j], preferred))
  {
    if matches != [] {
      var init := matches[..|matches| - 1];
      var x := matches[|matches| - 1];
      var e := EligibleRows(matches, preferred);
      var ei := EligibleRows(init, preferred);
      FirstEligibleIsEarliest(init, preferred);
      forall k | 0 <= k < |init| ensures init[k] == matches[k] {}
      if exists i :: 0 <= i < |matches| && Eligible(matches[i], preferred) {
        var i :| 0 <= i < |matches| && Eligible(matches[i], preferred);
        if i < |init| {
          assert Eligible(init[i], preferred);
        }
      }
      if ei != [] {
        var i :| 0 <= i < |init| && init[i] == ei[0]
          && Eligible(init[i], preferred) && forall j :: 0 <= j < i ==> !Eligible(init[j], preferred);
        assert e[0] == ei[0];
        assert matches[i] == e[0];
      } else if Eligible(x, preferred) {
        assert e == [x];
        assert forall j :: 0 <= j < |init| ==> !Eligible(matches[j], preferred);
      }
    }
  }

  /** The first candidate is the earliest eligible row, and there is one exactly when
      some row is eligible. */
  lemma FirstCandidateIsEarliest(matches: seq<MatchRow>, preferred: Option<string>)
    ensures Candidates(matches, preferred) != [] <==>
      exists i :: 0 <= i < |matches| && Eligible(matches[i], preferred)
    ensures Candidates(matches, preferred) != [] ==> exists i :: (0 <= i < |matches|
      && matches[i] == Candidates(matches, preferred)[0] && Eligible(matches[i], preferred)
      && forall j :: 0 <= j < i ==> !Eligible(matches[j], preferred))
  {
    CandidatesAreEligibleRows(matches, preferred);
    FirstEligibleIsEarliest(matches, preferred);
  }

  /** `name` is `names[0]`: the earliest name row, absent only when there is none.
      `hadith` is `hadiths[0] ?? names[0]`: the earliest hadith row (of the preferred
      edition, when there is one), and otherwise the name row. */
  lemma ResponseFieldsAreEarliestRows(returned: Option<seq<MatchRow>>, preferred: Option<string>)
    ensures var r := SelectResults(returned, preferred);
      && (r.name.None? <==> forall i :: 0 <= i < |r.matches| ==> !Passes(r.matches[i], KindIs("name")))
      && (r.name.Some? ==> exists i :: (0 <= i < |r.matches| && r.matches[i] == r.name.value
            && forall j :: 0 <= j < i ==> !Passes(r.matches[j], KindIs("name"))))
      && ((exists i :: 0 <= i < |r.matches| && Eligible(r.matches[i], preferred)) ==>
            exists i :: (0 <= i < |r.matches| && r.hadith == Some(r.matches[i])
              && Eligible(r.matches[i], preferred)
              && forall j :: 0 <= j < i ==> !Eligible(r.matches[j], preferred)))
      && ((forall i :: 0 <= i < |r.matches| ==> !Eligible(r.matches[i], preferred)) ==> r.hadith == r.name)
  {
    var matches := if returned.Some? then returned.value else [];
    FirstKeptIsEarliest(matches, KindIs("name"));
    FirstCandidateIsEarliest(matches, preferred);
  }
}
