/**
 * The edition listing endpoint: from the hadith rows the backend returned,
 * the listed editions that occur, in listing order and without repeats.
 * Each row is reduced to its `metadata.edition` when that is a string
 * (`None` otherwise: no metadata, no edition, or a value of another type).
 */
module HadithEditionsRoute {
  import opened Text
  import opened Validation

  /** The contents of `found` once the rows have been visited: the listed editions
      some row carries. */
  function Found(rows: seq<Option<string>>): (r: set<string>)
    ensures forall e :: e in r ==> e in HadithEditions
  {
    if rows == [] then {}
    else
      var edition := rows[|rows| - 1];
      Found(rows[..|rows| - 1]) + (if edition.Some? && edition.value in HadithEditions then {edition.value} else {})
  }

  /** `editions.filter((e) => found.has(e))`. */
  function KeepFound(editions: seq<string>, found: set<string>): (r: seq<string>)
    ensures |r| <= |editions|
  {
    if editions == [] then []
    else
      var init := KeepFound(editions[..|editions| - 1], found);
      var last := editions[|editions| - 1];
      if last in found then init + [last] else init
  }

  /** The response's `editions` for the returned rows. */
  function EditionsPresent(rows: seq<Option<string>>): seq<string> {
    KeepFound(HadithEditions, Found(rows))
  }

  /** The loop over the rows that fills `found`, then the filter of the listing. */
  method ListEditions(rows: seq<Option<string>>) returns (editions: seq<string>)
    ensures editions == EditionsPresent(rows)
  {
    var found: set<string> := {};
    var i := 0;
    while i < |rows|
      invariant 0 <= i <= |rows|
      invariant found == Found(rows[..i])
    {
      var edition := rows[i];
      assert rows[..i + 1][..i] == rows[..i];
      if edition.Some? && edition.value in HadithEditions {
        found := found + {edition.value};
      }
      i := i + 1;
    }
    assert rows[..|rows|] == rows;
    editions := KeepFound(HadithEditions, found);
  }

  // ---- Properties ----

  /** An edition is found exactly when it is listed and some row carries it. */
  lemma {:induction false} FoundMembership(rows: seq<Option<string>>, e: string)
    ensures e in Found(rows) <==> e in HadithEditions && exists k :: 0 <= k < |rows| && rows[k] == Some(e)
  {
    if rows != [] {
      var init := rows[..|rows| - 1];
      FoundMembership(init, e);
      if exists k :: 0 <= k < |rows| && rows[k] == Some(e) {
        var k :| 0 <= k < |rows| && rows[k] == Some(e);
        if k < |rows| - 1 {
          assert init[k] == Some(e);
        }
      }
    }
  }

  /** The filter keeps exactly the elements that are in the set. */
  lemma {:induction false} KeepFoundMembership(editions: seq<string>, found: set<string>, e: string)
    ensures e in KeepFound(editions, found) <==> e in editions && e in found
  {
    if editions != [] {
      var init := editions[..|editions| - 1];
      KeepFoundMembership(init, found, e);
      assert editions == init + [editions[|editions| - 1]];
    }
  }

  /** `x` occurs in `s` before `y`. */
  predicate InOrder(s: seq<string>, x: string, y: string) {
    exists p, q :: 0 <= p < q < |s| && s[p] == x && s[q] == y
  }

  /** The filter keeps the order of its input: two kept elements appear in the
      input in the same order. */
  lemma {:induction false} KeepFoundOrder(editions: seq<string>, found: set<string>)
    ensures forall i, j :: 0 <= i < j < |KeepFound(editions, found)| ==>
      InOrder(editions, KeepFound(editions, found)[i], KeepFound(editions, found)[j])
  {
    if editions != [] {
      var init := editions[..|editions| - 1];
      var r := KeepFound(editions, found);
      var r' := KeepFound(init, found);
      KeepFoundOrder(init, found);
      var last := editions[|editions| - 1];
      assert r == if last in found then r' + [last] else r';
      forall i, j | 0 <= i < j < |r|
        ensures InOrder(editions, r[i], r[j])
      {
        if j < |r'| {
          assert r[i] == r'[i] && r[j] == r'[j];
          assert InOrder(init, r[i], r[j]);
          var p, q :| 0 <= p < q < |init| && init[p] == r[i] && init[q] == r[j];
          assert editions[p] == r[i] && editions[q] == r[j];
        } else {
          assert r[i] == r'[i] && r[j] == last;
          KeepFoundMembership(init, found, r[i]);
          var p :| 0 <= p < |init| && init[p] == r[i];
          assert editions[p] == r[i] && editions[|editions| - 1] == r[j];
        }
      }
    }
  }

  /** The filter of a list without repeats has no repeats. */
  lemma {:induction false} KeepFoundNoDup(editions: seq<string>, found: set<string>)
    requires NoDup(editions)
    ensures NoDup(KeepFound(editions, found))
  {
    if editions != [] {
      var init := editions[..|editions| - 1];
      var last := editions[|editions| - 1];
      assert NoDup(init) by {
        forall i, j | 0 <= i < j < |init| ensures init[i] != init[j] {
          assert init[i] == editions[i] && init[j] == editions[j];
        }
      }
      KeepFoundNoDup(init, found);
      KeepFoundMembership(init, found, last);
    }
  }

  /** The ten editions are distinct. */
  lemma HadithEditionsNoDup()
    ensures NoDup(HadithEditions)
  {
  }

  /** The listing names exactly the listed editions that some row carries, each once,
      in listing order. */
  lemma EditionsPresentSpec(rows: seq<Option<string>>, e: string)
    ensures e in EditionsPresent(rows) <==> e in HadithEditions && exists k :: 0 <= k < |rows| && rows[k] == Some(e)
    ensures NoDup(EditionsPresent(rows))
    ensures forall i, j :: 0 <= i < j < |EditionsPresent(rows)| ==>
      InOrder(HadithEditions, EditionsPresent(rows)[i], EditionsPresent(rows)[j])
  {
    KeepFoundMembership(HadithEditions, Found(rows), e);
    FoundMembership(rows, e);
    HadithEditionsNoDup();
    KeepFoundNoDup(HadithEditions, Found(rows));
    KeepFoundOrder(HadithEditions, Found(rows));
    assert EditionsPresent(rows) == KeepFound(HadithEditions, Found(rows));
  }

  /** The rows' editions are collected as a set: more rows add to it. */
  lemma {:induction false} FoundAppend(a: seq<Option<string>>, b: seq<Option<string>>)
    ensures Found(a + b) == Found(a) + Found(b)
    decreases |b|
  {
    if b == [] {
      assert a + b == a;
    } else {
      var b' := b[..|b| - 1];
      assert (a + b)[..|a + b| - 1] == a + b';
      FoundAppend(a, b');
    }
  }

  /** The order of the rows does not matter: only which editions they carry. */
  lemma RowOrderIrrelevant(a: seq<Option<string>>, b: seq<Option<string>>)
    ensures EditionsPresent(a + b) == EditionsPresent(b + a)
  {
    FoundAppend(a, b);
    FoundAppend(b, a);
    assert Found(a + b) == Found(b + a);
  }
}
