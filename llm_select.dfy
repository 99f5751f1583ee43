/**
 * Post-processing around the language-model relevance filter: the prompt
 * snippet, the fail-open decision rules applied to the model's answer, and
 * the reordering of candidate rows by the selected ids. The model call and
 * the JSON parser are not modelled; their outcome is an input.
 */
module LlmSelect {
  import opened Text
  import opened Rerank

  /** Longest content excerpt placed in the prompt. */
  const MaxContentSnippet: nat := 220

  /** `snippet`: the trimmed text, cut to 220 characters plus an ellipsis when longer. */
  function Snippet(text: string): (r: string)
    ensures |r| <= MaxContentSnippet + 3
    ensures |Trim(text)| <= MaxContentSnippet ==> r == Trim(text)
    ensures |Trim(text)| > MaxContentSnippet ==>
      |r| == MaxContentSnippet + 3 && StartsWith(Trim(text), r[..MaxContentSnippet])
      && r[MaxContentSnippet..] == "..."
  {
    var t := Trim(text);
    if |t| <= MaxContentSnippet then t else t[..MaxContentSnippet] + "..."
  }

  /** The ids of `hadithIds` and `quranIds` the filter keeps. */
  datatype Selection = Selection(hadithIds: seq<string>, quranIds: seq<string>)

  /** One element of a parsed id array: a string, or any other JSON value. */
  datatype JsonItem = StrItem(s: string) | OtherItem

  /** A parsed `hadith_ids` / `quran_ids` field: an array, or anything else (absent included). */
  datatype IdsField = NotArray | Array(items: seq<JsonItem>)

  /** The parsed answer object, reduced to its two fields. */
  datatype Parsed = Parsed(hadithIds: IdsField, quranIds: IdsField)

  /** What the model call produced: it threw, or it completed with an optional message
      content and the outcome of parsing that content (`None` when parsing threw or the
      value has no fields to read). */
  datatype Reply = Threw | Completed(content: Option<string>, parsed: Option<Parsed>)

  /** `map((h) => h.id).filter(Boolean)`: the non-empty ids in row order. */
  function NonEmptyIds(rows: seq<MatchRow>): (r: seq<string>)
    ensures |r| <= |rows|
    ensures forall k :: 0 <= k < |r| ==> r[k] != ""
  {
    if rows == [] then []
    else
      var init := NonEmptyIds(rows[..|rows| - 1]);
      var id := rows[|rows| - 1].id;
      if id != "" then init + [id] else init
  }

  /** `filter((id) => typeof id === "string")`: the string items in order. */
  function StringItems(items: seq<JsonItem>): (r: seq<string>)
    ensures |r| <= |items|
    ensures forall k :: 0 <= k < |r| ==> StrItem(r[k]) in items
  {
    if items == [] then []
    else
      var init := StringItems(items[..|items| - 1]);
      match items[|items| - 1]
      case StrItem(s) => init + [s]
      case OtherItem => init
  }

  /** One category's ids from the answer: the string items of an array, else that
      category's fallback ids. */
  function FieldIds(field: IdsField, fallback: seq<string>): seq<string> {
    match field
    case Array(items) => StringItems(items)
    case NotArray => fallback
  }

  /** The fallback result: every non-empty id of both lists. */
  function Fallback(hadiths: seq<MatchRow>, quranVerses: seq<MatchRow>): Selection {
    Selection(NonEmptyIds(hadiths), NonEmptyIds(quranVerses))
  }

  /** `!apiKey`: the key is absent or empty. */
  predicate MissingKey(apiKey: Option<string>) {
    apiKey.None? || apiKey.value == ""
  }

  /** `selectRelevantDuas`, with the effective API key and the model's reply as inputs. */
  function SelectRelevantDuas(hadiths: seq<MatchRow>, quranVerses: seq<MatchRow>,
                              apiKey: Option<string>, skip: bool, reply: Reply): (r: Selection)
    ensures skip || MissingKey(apiKey) ==> r == Fallback(hadiths, quranVerses)
    ensures hadiths == [] && quranVerses == [] ==> r == Fallback(hadiths, quranVerses)
    ensures reply.Threw? ==> r == Fallback(hadiths, quranVerses)
    ensures r.hadithIds == [] && r.quranIds == [] ==> r == Fallback(hadiths, quranVerses)
  {
    var fallback := Fallback(hadiths, quranVerses);
    if skip || MissingKey(apiKey) then fallback
    else if |hadiths| == 0 && |quranVerses| == 0 then fallback
    else match reply
      case Threw => fallback
      case Completed(content, parsed) =>
        if content.None? || Trim(content.value) == "" then fallback
        else if parsed.None? then fallback
        else
          var h := FieldIds(parsed.value.hadithIds, fallback.hadithIds);
          var q := FieldIds(parsed.value.quranIds, fallback.quranIds);
          if |h| == 0 && |q| == 0 then fallback else Selection(h, q)
  }

  /** `new Map(rows.map((r) => [r.id, r])).get(id)`: later rows overwrite earlier ones,
      so the last row with the id is found. */
  function LastWithId(rows: seq<MatchRow>, id: string): (r: Option<MatchRow>)
    ensures r.Some? ==> r.value in rows && r.value.id == id
    ensures r.Some? ==> exists k :: (0 <= k < |rows| && rows[k] == r.value
      && forall j :: k < j < |rows| ==> rows[j].id != id)
    ensures r.None? ==> forall k :: 0 <= k < |rows| ==> rows[k].id != id
  {
    if rows == [] then None
    else if rows[|rows| - 1].id == id then Some(rows[|rows| - 1])
    else LastWithId(rows[..|rows| - 1], id)
  }

  /** `ids.map((id) => byId.get(id)).filter((x) => x != null)`. */
  function Picked(rows: seq<MatchRow>, ids: seq<string>): (r: seq<MatchRow>)
    ensures |r| <= |ids|
  {
    if ids == [] then []
    else
      var init := Picked(rows, ids[..|ids| - 1]);
      match LastWithId(rows, ids[|ids| - 1])
      case Some(row) => init + [row]
      case None => init
  }

  /** One category of `applySelectedIds`: the picked rows, or the original rows when
      none was picked. */
  function ApplyIds(rows: seq<MatchRow>, ids: seq<string>): (r: seq<MatchRow>)
    ensures forall k :: 0 <= k < |r| ==> r[k] in rows
    ensures r == [] ==> rows == []
    ensures Picked(rows, ids) != [] ==> r == Picked(rows, ids)
    ensures Picked(rows, ids) == [] ==> r == rows
  {
    var picked := Picked(rows, ids);
    PickedFromRows(rows, ids);
    if |picked| > 0 then picked else rows
  }

  /** `applySelectedIds`: each category is filtered and reordered by its own ids,
      independently of the other, and keeps its list when none of its ids is known. */
  function ApplySelectedIds(hadiths: seq<MatchRow>, quranVerses: seq<MatchRow>,
                            selected: Selection): (r: (seq<MatchRow>, seq<MatchRow>))
    ensures forall k :: 0 <= k < |r.0| ==> r.0[k] in hadiths
    ensures forall k :: 0 <= k < |r.1| ==> r.1[k] in quranVerses
    ensures Picked(hadiths, selected.hadithIds) != [] ==> r.0 == Picked(hadiths, selected.hadithIds)
    ensures Picked(hadiths, selected.hadithIds) == [] ==> r.0 == hadiths
    ensures Picked(quranVerses, selected.quranIds) != [] ==> r.1 == Picked(quranVerses, selected.quranIds)
    ensures Picked(quranVerses, selected.quranIds) == [] ==> r.1 == quranVerses
  {
    (ApplyIds(hadiths, selected.hadithIds), ApplyIds(quranVerses, selected.quranIds))
  }

  // ---- Properties ----

  /** The fallback lists exactly the non-empty ids, in row order. */
  lemma {:induction false} NonEmptyIdsMembership(rows: seq<MatchRow>, id: string)
    ensures id in NonEmptyIds(rows) <==> id != "" && exists k :: 0 <= k < |rows| && rows[k].id == id
  {
    if rows != [] {
      var init := rows[..|rows| - 1];
      NonEmptyIdsMembership(init, id);
      if id != "" && (exists k :: 0 <= k < |rows| && rows[k].id == id) {
        var k :| 0 <= k < |rows| && rows[k].id == id;
        if k < |rows| - 1 {
          assert init[k].id == id;
        }
      }
    }
  }

  /** Dropping empty ids keeps the order: appending rows appends their ids. */
  lemma {:induction false} NonEmptyIdsAppend(a: seq<MatchRow>, b: seq<MatchRow>)
    ensures NonEmptyIds(a + b) == NonEmptyIds(a) + NonEmptyIds(b)
    decreases |b|
  {
    if b != [] {
      var b' := b[..|b| - 1];
      assert (a + b)[..|a + b| - 1] == a + b';
      NonEmptyIdsAppend(a, b');
    } else {
      assert a + b == a;
    }
  }

  /** Every row `Picked` returns comes from the input rows and carries a selected id. */
  lemma {:induction false} PickedFromRows(rows: seq<MatchRow>, ids: seq<string>)
    ensures forall k :: 0 <= k < |Picked(rows, ids)| ==>
      Picked(rows, ids)[k] in rows && Picked(rows, ids)[k].id in ids
  {
    if ids != [] {
      PickedFromRows(rows, ids[..|ids| - 1]);
    }
  }

  /** Picking follows the order of the ids: the rows for `a + b` are those for `a`
      followed by those for `b`. */
  lemma {:induction false} PickedAppend(rows: seq<MatchRow>, a: seq<string>, b: seq<string>)
    ensures Picked(rows, a + b) == Picked(rows, a) + Picked(rows, b)
    decreases |b|
  {
    if b == [] {
      assert a + b == a;
    } else {
      var b' := b[..|b| - 1];
      assert (a + b)[..|a + b| - 1] == a + b';
      assert (a + b)[|a + b| - 1] == b[|b| - 1];
      PickedAppend(rows, a, b');
    }
  }

  /** A single id yields the last row with that id, or nothing when no row has it. */
  lemma PickedSingle(rows: seq<MatchRow>, id: string)
    ensures (exists k :: 0 <= k < |rows| && rows[k].id == id) ==>
      Picked(rows, [id]) == [LastWithId(rows, id).value]
    ensures (forall k :: 0 <= k < |rows| ==> rows[k].id != id) ==> Picked(rows, [id]) == []
  {
    assert [id][..0] == [];
  }

  /** When none of the selected ids is known, the category keeps its original rows. */
  lemma {:induction false} UnknownIdsKeepRows(rows: seq<MatchRow>, ids: seq<string>)
    requires forall j, k :: 0 <= j < |ids| && 0 <= k < |rows| ==> rows[k].id != ids[j]
    ensures Picked(rows, ids) == []
    ensures ApplyIds(rows, ids) == rows
  {
    if ids != [] {
      UnknownIdsKeepRows(rows, ids[..|ids| - 1]);
      assert LastWithId(rows, ids[|ids| - 1]).None?;
    }
  }

  /** A non-array field falls back to that category's full id list only; the other
      category is still read from the answer. */
  lemma NonArrayFieldFallsBackPerCategory(hadiths: seq<MatchRow>, quranVerses: seq<MatchRow>,
                                          apiKey: Option<string>, content: string,
                                          items: seq<JsonItem>)
    requires !MissingKey(apiKey) && (hadiths != [] || quranVerses != [])
    requires Trim(content) != ""
    requires NonEmptyIds(hadiths) != [] || StringItems(items) != []
    ensures SelectRelevantDuas(hadiths, quranVerses, apiKey, false,
              Completed(Some(content), Some(Parsed(NotArray, Array(items)))))
            == Selection(NonEmptyIds(hadiths), StringItems(items))
  {
  }

  /** The same rule for the other field: a non-array `quran_ids` falls back to the
      verses' ids while the hadith array is used as given. */
  lemma NonArrayQuranFieldFallsBack(hadiths: seq<MatchRow>, quranVerses: seq<MatchRow>,
                                    apiKey: Option<string>, content: string,
                                    items: seq<JsonItem>)
    requires !MissingKey(apiKey) && (hadiths != [] || quranVerses != [])
    requires Trim(content) != ""
    requires StringItems(items) != [] || NonEmptyIds(quranVerses) != []
    ensures SelectRelevantDuas(hadiths, quranVerses, apiKey, false,
              Completed(Some(content), Some(Parsed(Array(items), NotArray))))
            == Selection(StringItems(items), NonEmptyIds(quranVerses))
  {
  }

  /** Every string item is kept, and nothing else is. */
  lemma {:induction false} StringItemsMembership(items: seq<JsonItem>, s: string)
    ensures s in StringItems(items) <==> StrItem(s) in items
  {
    if items != [] {
      var init := items[..|items| - 1];
      StringItemsMembership(init, s);
      assert items == init + [items[|items| - 1]];
    }
  }

  /** The string items keep their order: the items of `a + b` are those of `a`,
      then those of `b`. */
  lemma {:induction false} StringItemsAppend(a: seq<JsonItem>, b: seq<JsonItem>)
    ensures StringItems(a + b) == StringItems(a) + StringItems(b)
    decreases |b|
  {
    if b == [] {
      assert a + b == a;
    } else {
      var b' := b[..|b| - 1];
      assert (a + b)[..|a + b| - 1] == a + b';
      assert (a + b)[|a + b| - 1] == b[|b| - 1];
      StringItemsAppend(a, b');
    }
  }

  /** An answer with at least one string id in either array is taken as given,
      empty strings and unknown ids included. */
  lemma AnswerTaken(hadiths: seq<MatchRow>, quranVerses: seq<MatchRow>, apiKey: Option<string>,
                    content: string, h: seq<JsonItem>, q: seq<JsonItem>)
    requires !MissingKey(apiKey) && (hadiths != [] || quranVerses != [])
    requires Trim(content) != ""
    requires StringItems(h) != [] || StringItems(q) != []
    ensures SelectRelevantDuas(hadiths, quranVerses, apiKey, false,
              Completed(Some(content), Some(Parsed(Array(h), Array(q)))))
            == Selection(StringItems(h), StringItems(q))
  {
  }

  /** The fail-open rule: whenever the reply gives nothing usable, the result is the
      fallback — an empty or missing content, a parse failure, or two empty arrays. */
  lemma UnusableReplyFallsBack(hadiths: seq<MatchRow>, quranVerses: seq<MatchRow>,
                               apiKey: Option<string>, skip: bool, reply: Reply)
    requires reply.Completed?
    requires reply.content.None? || Trim(reply.content.value) == "" || reply.parsed.None?
             || (reply.parsed.value.hadithIds == Array([]) && reply.parsed.value.quranIds == Array([]))
    ensures SelectRelevantDuas(hadiths, quranVerses, apiKey, skip, reply) == Fallback(hadiths, quranVerses)
  {
  }
}
