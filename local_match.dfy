/**
 * The offline fallback matcher: the query is tokenised (lower-cased, symbols
 * blanked, split on whitespace, one-letter words and stop words dropped) and
 * each divine name is scored by how many tokens occur in its searchable text;
 * the first name with the highest positive score wins.
 */
module LocalMatch {
  import opened Text

  /** `NameEntry`: one of the divine names with its meaning and topic tags. */
  datatype NameEntry = NameEntry(arabic: string, english: string, meaning: string, tags: seq<string>)

  /** `LocalMatchResult`: the chosen name as a result row. `hadith` and `quran` are
      always null, so they are not represented; `metadata` holds `type` and `tags`. */
  datatype LocalMatchResult = LocalMatchResult(id: string, content: string, kind: string, tags: seq<string>)

  const StopWords: set<string> := {
    "a", "an", "the", "i", "me", "my", "we", "our", "you", "your", "it", "its",
    "is", "am", "are", "was", "were", "be", "been", "being", "have", "has", "had",
    "do", "does", "did", "will", "would", "could", "should", "may", "might", "must",
    "can", "to", "for", "of", "in", "on", "at", "by", "with", "from", "and", "or", "but"
  }

  const IdPrefix: string := "local-"

  /** `filter((w) => w.length > 1 && !STOP_WORDS.has(w))`. */
  function KeepTerms(pieces: seq<string>): (r: seq<string>)
    ensures |r| <= |pieces|
    ensures forall k :: 0 <= k < |r| ==> |r[k]| > 1 && r[k] !in StopWords
    ensures forall k :: 0 <= k < |r| ==> r[k] in pieces
  {
    if pieces == [] then []
    else
      var init := KeepTerms(pieces[..|pieces| - 1]);
      var w := pieces[|pieces| - 1];
      if |w| > 1 && w !in StopWords then init + [w] else init
  }

  /** A character that can appear in a token: lower case, and a word character,
      an apostrophe or a hyphen. */
  predicate TokenChar(c: char) {
    !IsUpper(c) && !IsSpace(c) && IsKeptChar(c)
  }

  /** `tokenize`. */
  function Tokenize(query: string): (r: seq<string>)
    ensures forall k :: 0 <= k < |r| ==> |r[k]| > 1 && r[k] !in StopWords
    ensures forall k, i :: 0 <= k < |r| && 0 <= i < |r[k]| ==> TokenChar(r[k][i])
  {
    var scrubbed := Scrub(Lower(query));
    assert forall c :: c in scrubbed && !IsSpace(c) ==> TokenChar(c) by {
      forall c | c in scrubbed && !IsSpace(c) ensures TokenChar(c) {
        var i :| 0 <= i < |scrubbed| && scrubbed[i] == c;
        assert !IsUpper(Lower(query)[i]);
      }
    }
    var pieces := SplitAtSpaces(scrubbed);
    KeepTerms(pieces)
  }

  /** `tags.map((t) => t.toLowerCase())`: a new list with every tag lower-cased. Each
      tag keeps its length, loses its upper-case ASCII letters, and differs from the
      original only where an upper-case letter became its lower-case form. */
  function LowerAll(tags: seq<string>): (r: seq<string>)
    ensures |r| == |tags|
    ensures forall k :: 0 <= k < |r| ==> |r[k]| == |tags[k]|
    ensures forall k, i :: 0 <= k < |r| && 0 <= i < |r[k]| ==>
      && !IsUpper(r[k][i])
      && (r[k][i] == tags[k][i] || (IsUpper(tags[k][i]) && r[k][i] as int == tags[k][i] as int + 32))
  {
    seq(|tags|, k requires 0 <= k < |tags| => Lower(tags[k]))
  }

  /** The lower-cased english name, meaning and tags joined by single spaces. */
  function Searchable(name: NameEntry): string {
    Join([Lower(name.english), Lower(name.meaning)] + LowerAll(name.tags), " ")
  }

  /** How many of `terms` (repeats counted) occur in `text`. */
  function TermHits(text: string, terms: seq<string>): (n: nat)
    ensures n <= |terms|
  {
    if terms == [] then 0
    else TermHits(text, terms[..|terms| - 1]) + (if Contains(text, terms[|terms| - 1]) then 1 else 0)
  }

  /** The score of one name. */
  function EntryScore(name: NameEntry, terms: seq<string>): nat {
    TermHits(Searchable(name), terms)
  }

  /** The `(bestScore, bestIndex)` pair the scan ends with: the first name with the
      highest score, or `(0, -1)` when no name scores above 0. */
  function BestMatch(names: seq<NameEntry>, terms: seq<string>): (r: (nat, int))
    ensures -1 <= r.1 < |names|
    ensures r.1 == -1 ==> r.0 == 0 && forall k :: 0 <= k < |names| ==> EntryScore(names[k], terms) == 0
    ensures r.1 >= 0 ==>
      && r.0 > 0
      && r.0 == EntryScore(names[r.1], terms)
      && (forall k :: 0 <= k < |names| ==> EntryScore(names[k], terms) <= r.0)
      && (forall k :: 0 <= k < r.1 ==> EntryScore(names[k], terms) < r.0)
  {
    if names == [] then (0, -1)
    else
      var init := names[..|names| - 1];
      var best := BestMatch(init, terms);
      var score := EntryScore(names[|names| - 1], terms);
      assert forall k :: 0 <= k < |init| ==> init[k] == names[k];
      if score > best.0 then (score, |names| - 1) else best
  }

  /** The result row for the name at `index`. */
  function ResultFor(name: NameEntry, index: nat): (r: LocalMatchResult)
    ensures StartsWith(r.id, IdPrefix) && |r.id| > |IdPrefix|
    ensures forall i :: |IdPrefix| <= i < |r.id| ==> IsDigit(r.id[i])
    ensures DigitsValue(r.id[|IdPrefix|..]) == index
    ensures r.content == name.english + " (" + name.meaning + ") - " + name.arabic
    ensures r.kind == "name" && r.tags == name.tags
  {
    var id := IdPrefix + NatToString(index);
    assert id[|IdPrefix|..] == NatToString(index);
    assert id[..|IdPrefix|] == IdPrefix;
    NatToStringRoundTrip(index);
    LocalMatchResult(id, name.english + " (" + name.meaning + ") - " + name.arabic, "name", name.tags)
  }

  /** What `localMatch` returns. */
  function LocalMatchOf(query: string, names: seq<NameEntry>): Option<LocalMatchResult> {
    var terms := Tokenize(query);
    if |terms| == 0 then None
    else
      var best := BestMatch(names, terms);
      if best.1 < 0 || best.0 == 0 then None else Some(ResultFor(names[best.1], best.1))
  }

  /** The inner loop of `localMatch`: one name's score. */
  method CountHits(searchable: string, terms: seq<string>) returns (score: nat)
    ensures score == TermHits(searchable, terms)
  {
    score := 0;
    for j := 0 to |terms|
      invariant score == TermHits(searchable, terms[..j])
    {
      assert terms[..j + 1][..j] == terms[..j];
      if Contains(searchable, terms[j]) {
        score := score + 1;
      }
    }
    assert terms[..|terms|] == terms;
  }

  /** The outer loop of `localMatch`: a strictly greater score replaces the running best. */
  method Scan(names: seq<NameEntry>, terms: seq<string>) returns (bestScore: nat, bestIndex: int)
    ensures (bestScore, bestIndex) == BestMatch(names, terms)
  {
    bestScore := 0;
    bestIndex := -1;
    for i := 0 to |names|
      invariant (bestScore, bestIndex) == BestMatch(names[..i], terms)
    {
      var score := CountHits(Searchable(names[i]), terms);
      assert names[..i + 1][..i] == names[..i];
      if score > bestScore {
        bestScore := score;
        bestIndex := i;
      }
    }
    assert names[..|names|] == names;
  }

  /** `localMatch`. */
  method Match(query: string, names: seq<NameEntry>) returns (r: Option<LocalMatchResult>)
    ensures r == LocalMatchOf(query, names)
  {
    var terms := Tokenize(query);
    if |terms| == 0 {
      return None;
    }
    var bestScore, bestIndex := Scan(names, terms);
    if bestIndex < 0 || bestScore == 0 {
      return None;
    }
    r := Some(ResultFor(names[bestIndex], bestIndex));
  }

  // ---- Properties ----

  /** Tokens are the whitespace-separated pieces of the scrubbed, lower-cased query
      that are longer than one character and not stop words. */
  lemma {:induction false} KeepTermsMembership(pieces: seq<string>, w: string)
    ensures w in KeepTerms(pieces) <==> w in pieces && |w| > 1 && w !in StopWords
  {
    if pieces != [] {
      KeepTermsMembership(pieces[..|pieces| - 1], w);
      assert pieces == pieces[..|pieces| - 1] + [pieces[|pieces| - 1]];
    }
  }

  /** The score counts repeated tokens: hits over two term lists add up. */
  lemma {:induction false} TermHitsAppend(text: string, a: seq<string>, b: seq<string>)
    ensures TermHits(text, a + b) == TermHits(text, a) + TermHits(text, b)
    decreases |b|
  {
    if b == [] {
      assert a + b == a;
    } else {
      var b' := b[..|b| - 1];
      assert (a + b)[..|a + b| - 1] == a + b';
      TermHitsAppend(text, a, b');
    }
  }

  /** No match exactly when the query has no token or no name scores above zero. */
  lemma NoMatchIff(query: string, names: seq<NameEntry>)
    ensures LocalMatchOf(query, names).None? <==>
      (Tokenize(query) == [] || forall k :: 0 <= k < |names| ==> EntryScore(names[k], Tokenize(query)) == 0)
  {
    var terms := Tokenize(query);
    if terms != [] {
      var best := BestMatch(names, terms);
      if best.1 >= 0 {
        assert EntryScore(names[best.1], terms) > 0;
      }
    }
  }

  /** A match is the first name with the highest score, identified by its index. */
  lemma MatchIsFirstHighest(query: string, names: seq<NameEntry>)
    requires LocalMatchOf(query, names).Some?
    ensures exists i :: (0 <= i < |names|
      && LocalMatchOf(query, names).value == ResultFor(names[i], i)
      && EntryScore(names[i], Tokenize(query)) > 0
      && (forall k :: 0 <= k < |names| ==> EntryScore(names[k], Tokenize(query)) <= EntryScore(names[i], Tokenize(query)))
      && (forall k :: 0 <= k < i ==> EntryScore(names[k], Tokenize(query)) < EntryScore(names[i], Tokenize(query))))
  {
    var best := BestMatch(names, Tokenize(query));
    assert LocalMatchOf(query, names).value == ResultFor(names[best.1], best.1);
  }
}
