/**
 * Query enrichment: the search query is normalised, its words and known
 * phrases are looked up in a fixed topic table, and the distinct expansion
 * texts found are appended after the query; the whole is always prefixed
 * with a fixed du'a framing so that the embedding leans towards supplications.
 */
module QueryEnrichment {
  import opened Text

  const DuaIntentPrefix: string := "du'a supplication asking Allah for: "

  /** What separates the raw query from the appended expansions: an em dash between spaces. */
  const ExpansionSeparator: string := " \U{2014} "

  /** The topic table as (key, expansion) pairs, in declaration order, which is
      the order in which the object's entries are enumerated. It is split into
      five groups only to keep each literal small. */
  const Topics: seq<(string, string)> :=
    PatienceMarriageTopics + DistressTopics + RepentanceHealthStudyFamilyTopics
    + ProvisionGuidanceProtectionTopics + HereafterHopeWorshipTopics

  /** Topic table entries for patience and marriage. */
  const PatienceMarriageTopics: seq<(string, string)> := [
    ("patience", "patience sabr steadfastness endurance perseverance through trials hardship difficulty waiting for Allah's decree acceptance contentment"),
    ("sabr", "patience sabr steadfastness endurance perseverance through trials hardship difficulty waiting for Allah's decree"),
    ("patient", "patience sabr steadfastness endurance perseverance through trials hardship waiting"),
    ("marriage", "marriage spouse nikah wedding husband wife partner finding love righteous companion family life halal relationship"),
    ("married", "marriage spouse husband wife harmony love blessings in marriage family life"),
    ("spouse", "marriage spouse husband wife righteous partner nikah love companionship"),
    ("wedding", "marriage nikah wedding blessings spouse union couple newlywed"),
    ("husband", "marriage spouse husband love harmony patience marriage relationship"),
    ("wife", "marriage spouse wife love harmony patience marriage relationship"),
    ("nikah", "marriage nikah wedding spouse blessings righteous partner union"),
    ("finding love", "marriage finding spouse righteous partner nikah companionship loneliness single"),
    ("lonely", "loneliness companionship finding spouse marriage friendship isolation sadness"),
    ("single", "marriage finding spouse single looking for partner nikah companionship loneliness")
  ]

  /** Topic table entries for distress. */
  const DistressTopics: seq<(string, string)> := [
    ("anxiety", "anxiety worry stress overwhelmed mental health fear panic restlessness unease overthinking"),
    ("anxious", "anxiety worry stress overwhelmed mental health fear panic restlessness"),
    ("stressed", "stress anxiety pressure overwhelmed burnout difficulty hardship ease"),
    ("stress", "stress anxiety pressure overwhelmed burnout difficulty hardship ease mental health"),
    ("depressed", "depression sadness grief sorrow mental health hopelessness despair healing"),
    ("depression", "depression sadness grief sorrow mental health hopelessness despair healing emotional pain"),
    ("sad", "sadness grief sorrow depression emotional pain healing comfort relief"),
    ("sadness", "sadness grief sorrow depression emotional pain healing comfort relief loss"),
    ("grief", "grief loss death sadness mourning bereavement patience comfort healing"),
    ("worried", "worry anxiety fear stress concern trust in Allah tawakkul overthinking"),
    ("worry", "worry anxiety fear stress concern trust in Allah tawakkul overthinking"),
    ("overwhelmed", "overwhelmed stress burnout difficulty ease hardship help relief support")
  ]

  /** Topic table entries for repentance, health, study and family. */
  const RepentanceHealthStudyFamilyTopics: seq<(string, string)> := [
    ("forgiveness", "forgiveness repentance sins tawbah mercy pardon regret guilt turning back to Allah istighfar"),
    ("forgive", "forgiveness repentance sins tawbah mercy pardon regret guilt turning back to Allah"),
    ("repentance", "repentance tawbah forgiveness sins mercy turning back to Allah regret guilt"),
    ("sins", "sins forgiveness repentance tawbah mercy guilt regret purification cleansing"),
    ("health", "health healing sickness illness cure recovery body wellbeing physical ailment"),
    ("sick", "sickness illness healing cure recovery health disease pain suffering"),
    ("illness", "illness sickness healing cure recovery health disease pain suffering"),
    ("healing", "healing sickness illness cure recovery health shifa pain relief"),
    ("cure", "healing sickness illness cure recovery health shifa disease"),
    ("pain", "pain suffering healing patience endurance sickness illness relief"),
    ("exams", "exams study knowledge memory tests school university education learning recall success"),
    ("exam", "exams study knowledge memory tests school university education learning recall success"),
    ("study", "study exams knowledge memory education learning school university wisdom"),
    ("school", "school education study exams knowledge learning university wisdom success"),
    ("knowledge", "knowledge learning wisdom education understanding beneficial study"),
    ("children", "children offspring family righteous children parenting raising kids descendants"),
    ("child", "children offspring family righteous child parenting raising kids"),
    ("family", "family children spouse home harmony love blessings parenting household"),
    ("parents", "parents mother father family mercy gratitude honoring caring elderly"),
    ("mother", "mother parents family mercy gratitude honoring birr caring"),
    ("father", "father parents family mercy gratitude honoring birr caring")
  ]

  /** Topic table entries for provision, guidance, protection, anger, sleep and travel. */
  const ProvisionGuidanceProtectionTopics: seq<(string, string)> := [
    ("money", "wealth provision rizq sustenance financial barakah halal income livelihood"),
    ("wealth", "wealth provision rizq sustenance financial barakah halal income livelihood prosperity"),
    ("rizq", "provision rizq sustenance wealth income livelihood barakah financial security"),
    ("provision", "provision rizq sustenance wealth livelihood barakah financial"),
    ("debt", "debt financial burden stress money relief payment freedom"),
    ("poverty", "poverty provision rizq sustenance hardship hunger financial difficulty"),
    ("job", "career job work provision rizq livelihood success employment"),
    ("career", "career job work provision rizq livelihood success employment profession"),
    ("guidance", "guidance direction right path clarity truth hidayah straight path confusion"),
    ("lost", "lost guidance direction confusion clarity purpose meaning path"),
    ("confused", "confusion guidance clarity direction truth decisions wisdom discernment"),
    ("decisions", "decisions istikhara guidance choices direction wisdom clarity options"),
    ("istikhara", "istikhara guidance decisions choices direction seeking Allah's counsel prayer"),
    ("protection", "protection safety harm evil shield refuge danger enemies"),
    ("evil eye", "evil eye protection jealousy hasad envy harm shield refuge"),
    ("enemies", "enemies protection harm oppression safety justice refuge"),
    ("anger", "anger self-control patience calmness wrath temper management restraint"),
    ("angry", "anger self-control patience calmness wrath temper management restraint"),
    ("sleep", "sleep rest night insomnia peace protection morning evening bedtime"),
    ("morning", "morning adhkar remembrance daily start of day blessings protection routine"),
    ("evening", "evening adhkar remembrance daily end of day blessings protection routine"),
    ("travel", "travel journey safety protection destination new place moving trip"),
    ("moving", "moving new home travel relocation change new place transition")
  ]

  /** Topic table entries for death, hope, worship and gratitude. */
  const HereafterHopeWorshipTopics: seq<(string, string)> := [
    ("death", "death good ending khatima hereafter preparation afterlife grave patience"),
    ("afterlife", "hereafter afterlife paradise jannah akhirah death good ending resurrection"),
    ("success", "success achievement goals victory accomplishment blessings tawfiq help"),
    ("help", "help support assistance difficulty hardship ease Allah's aid relief"),
    ("hope", "hope optimism future ease after hardship patience trust Allah"),
    ("fear", "fear anxiety trust reliance tawakkul courage safety protection"),
    ("trust", "trust tawakkul reliance on Allah surrender patience acceptance"),
    ("ramadan", "ramadan fasting laylatul qadr forgiveness mercy blessings month of quran"),
    ("fasting", "fasting ramadan worship patience discipline hunger reward"),
    ("gratitude", "gratitude thankfulness shukr appreciation blessings contentment"),
    ("grateful", "gratitude thankfulness shukr appreciation blessings contentment")
  ]

  /** The characters a normalised query may contain. */
  predicate NormalizedChar(c: char) {
    ('a' <= c <= 'z') || IsDigit(c) || c == '_' || c == ' ' || c == '\'' || c == '-'
  }

  /** Only normalised characters, never two spaces in a row. */
  predicate SingleSpaced(c: string) {
    && (forall i :: 0 <= i < |c| ==> NormalizedChar(c[i]))
    && (forall i :: 0 <= i < |c| - 1 ==> !(c[i] == ' ' && c[i + 1] == ' '))
  }

  /** Lower-case word characters, apostrophes and hyphens, separated by single spaces. */
  predicate IsNormalized(r: string) {
    && (forall i :: 0 <= i < |r| ==> NormalizedChar(r[i]))
    && (r != [] ==> r[0] != ' ' && r[|r| - 1] != ' ')
    && (forall i :: 0 <= i < |r| - 1 ==> !(r[i] == ' ' && r[i + 1] == ' '))
  }

  /** `normalizeQuery`: lower-case, punctuation to spaces, whitespace runs to one space, trim. */
  function NormalizeQuery(query: string): (r: string)
    ensures IsNormalized(r)
  {
    var collapsed := CollapseSpaces(Scrub(Lower(query)));
    CollapsedChars(query);
    TrimNormalized(collapsed);
    Trim(collapsed)
  }

  /** After scrubbing and collapsing, only normalised characters remain, with no two
      spaces in a row. */
  lemma CollapsedChars(query: string)
    ensures SingleSpaced(CollapseSpaces(Scrub(Lower(query))))
  {
    var scrubbed := Scrub(Lower(query));
    var collapsed := CollapseSpaces(scrubbed);
    CollapseSpacesSpec(scrubbed);
    forall i | 0 <= i < |collapsed| ensures NormalizedChar(collapsed[i]) {
      if collapsed[i] != ' ' {
        var k :| 0 <= k < |scrubbed| && scrubbed[k] == collapsed[i];
        assert !IsSpace(collapsed[i]);
      }
    }
  }

  /** Trimming a string of normalised characters without double spaces normalises it. */
  lemma TrimNormalized(c: string)
    requires SingleSpaced(c)
    ensures IsNormalized(Trim(c))
  {
    var r := Trim(c);
    TrimSlice(c);
    var a := LeadLen(c);
    assert forall i :: 0 <= i < |r| ==> r[i] == c[a + i];
  }

  /** Entry `i` is a multi-word key that occurs in the normalised query. */
  predicate IsPhraseHit(table: seq<(string, string)>, normalized: string, i: int)
    requires 0 <= i < |table|
  {
    ' ' in table[i].0 && Contains(normalized, table[i].0)
  }

  /** The expansions of the multi-word keys found in the query, in table order. */
  function PhraseHits(table: seq<(string, string)>, normalized: string): seq<string> {
    if table == [] then []
    else
      var n := |table| - 1;
      PhraseHits(table[..n], normalized) + (if IsPhraseHit(table, normalized, n) then [table[n].1] else [])
  }

  /** The expansions of the words that are keys, in word order. */
  function WordHits(table: seq<(string, string)>, words: seq<string>): seq<string> {
    if words == [] then []
    else
      var n := |words| - 1;
      WordHits(table, words[..n]) + (match Lookup(table, words[n]) case Some(e) => [e] case None => [])
  }

  /** Adding to an insertion-ordered set. */
  function Insert(found: seq<string>, x: string): seq<string> {
    if x in found then found else found + [x]
  }

  function AddAll(found: seq<string>, xs: seq<string>): seq<string> {
    if xs == [] then found else Insert(AddAll(found, xs[..|xs| - 1]), xs[|xs| - 1])
  }

  lemma AddAllSnoc(found: seq<string>, xs: seq<string>, x: string)
    ensures AddAll(found, xs + [x]) == Insert(AddAll(found, xs), x)
  {
    assert (xs + [x])[..|xs|] == xs;
  }

  /** The contents of the `expansions` set once both passes are done. */
  function Expansions(table: seq<(string, string)>, normalized: string): seq<string> {
    AddAll(AddAll([], PhraseHits(table, normalized)), WordHits(table, SplitOn(normalized, ' ')))
  }

  /** What `enrichQuery` returns for `query` when the topic table is `table`. */
  function EnrichedWith(table: seq<(string, string)>, query: string): (r: string)
    ensures StartsWith(r, DuaIntentPrefix)
    ensures Contains(r, query)
  {
    var expansions := Expansions(table, NormalizeQuery(query));
    var tail := if |expansions| == 0 then "" else ExpansionSeparator + Join(expansions, " ");
    ContainsMiddle(DuaIntentPrefix, query, tail);
    DuaIntentPrefix + query + tail
  }

  /** `enrichQuery` over a given topic table: the phrase pass and the word pass fill an
      insertion-ordered set. */
  method EnrichQueryWith(table: seq<(string, string)>, query: string) returns (r: string)
    ensures r == EnrichedWith(table, query)
  {
    var normalized := NormalizeQuery(query);
    var words := SplitOn(normalized, ' ');
    var expansions: seq<string> := [];
    for i := 0 to |table|
      invariant expansions == AddAll([], PhraseHits(table[..i], normalized))
    {
      var (phrase, expansion) := table[i];
      PhraseStep(table, normalized, i);
      if ' ' in phrase && Contains(normalized, phrase) {
        expansions := Insert(expansions, expansion);
      }
    }
    assert table[..|table|] == table;
    ghost var phrases := expansions;
    for j := 0 to |words|
      invariant expansions == AddAll(phrases, WordHits(table, words[..j]))
    {
      var found := Lookup(table, words[j]);
      WordStep(table, words, phrases, j);
      if found.Some? {
        expansions := Insert(expansions, found.value);
      }
    }
    assert words[..|words|] == words;
    var tail := if |expansions| == 0 then "" else ExpansionSeparator + Join(expansions, " ");
    r := DuaIntentPrefix + query + tail;
  }

  /** One turn of the phrase pass. */
  lemma PhraseStep(table: seq<(string, string)>, normalized: string, i: nat)
    requires i < |table|
    ensures AddAll([], PhraseHits(table[..i + 1], normalized))
      == if ' ' in table[i].0 && Contains(normalized, table[i].0)
         then Insert(AddAll([], PhraseHits(table[..i], normalized)), table[i].1)
         else AddAll([], PhraseHits(table[..i], normalized))
  {
    var t := table[..i + 1];
    var before := PhraseHits(table[..i], normalized);
    assert t[..i] == table[..i] && t[i] == table[i];
    if IsPhraseHit(t, normalized, i) {
      assert PhraseHits(t, normalized) == before + [table[i].1];
      AddAllSnoc([], before, table[i].1);
    } else {
      assert PhraseHits(t, normalized) == before;
    }
  }

  /** One turn of the word pass. */
  lemma WordStep(table: seq<(string, string)>, words: seq<string>, phrases: seq<string>, j: nat)
    requires j < |words|
    ensures AddAll(phrases, WordHits(table, words[..j + 1]))
      == match Lookup(table, words[j])
         case Some(e) => Insert(AddAll(phrases, WordHits(table, words[..j])), e)
         case None => AddAll(phrases, WordHits(table, words[..j]))
  {
    var w := words[..j + 1];
    var before := WordHits(table, words[..j]);
    assert w[..j] == words[..j] && w[j] == words[j];
    match Lookup(table, words[j])
    case Some(e) =>
      assert WordHits(table, w) == before + [e];
      AddAllSnoc(phrases, before, e);
    case None =>
      assert WordHits(table, w) == before;
  }

  /** `enrichQuery`. */
  method EnrichQuery(query: string) returns (r: string)
    ensures r == EnrichedWith(Topics, query)
  {
    r := EnrichQueryWith(Topics, query);
  }

  // ---- Properties of the set-building passes ----

  /** The insertion-ordered set holds exactly what was already there plus what was added. */
  lemma {:induction false} AddAllMembership(found: seq<string>, xs: seq<string>, x: string)
    ensures x in AddAll(found, xs) <==> x in found || x in xs
  {
    if xs != [] {
      var n := |xs| - 1;
      AddAllMembership(found, xs[..n], x);
      assert xs == xs[..n] + [xs[n]];
    }
  }

  /** Adding never creates a duplicate. */
  lemma {:induction false} AddAllNoDup(found: seq<string>, xs: seq<string>)
    requires NoDup(found)
    ensures NoDup(AddAll(found, xs))
  {
    if xs != [] {
      AddAllNoDup(found, xs[..|xs| - 1]);
    }
  }

  /** Adding never reorders or drops what is already in the set. */
  lemma {:induction false} AddAllKeepsPrefix(found: seq<string>, xs: seq<string>)
    ensures |found| <= |AddAll(found, xs)|
    ensures AddAll(found, xs)[..|found|] == found
  {
    if xs != [] {
      AddAllKeepsPrefix(found, xs[..|xs| - 1]);
    }
  }

  lemma {:induction false} PhraseHitsMembership(table: seq<(string, string)>, normalized: string, x: string)
    ensures x in PhraseHits(table, normalized)
        <==> exists i :: 0 <= i < |table| && IsPhraseHit(table, normalized, i) && table[i].1 == x
  {
    if table != [] {
      var n := |table| - 1;
      var front := table[..n];
      PhraseHitsMembership(front, normalized, x);
      assert forall i :: 0 <= i < n ==> front[i] == table[i];
      assert forall i :: 0 <= i < n ==> (IsPhraseHit(front, normalized, i) <==> IsPhraseHit(table, normalized, i));
    }
  }

  lemma {:induction false} WordHitsMembership(table: seq<(string, string)>, words: seq<string>, x: string)
    ensures x in WordHits(table, words)
        <==> exists k :: 0 <= k < |words| && Lookup(table, words[k]) == Some(x)
  {
    if words != [] {
      var n := |words| - 1;
      WordHitsMembership(table, words[..n], x);
      assert forall k :: 0 <= k < n ==> words[..n][k] == words[k];
    }
  }

  /** Some multi-word key of the table occurs in the normalised query and expands to `x`. */
  predicate PhraseSupplies(table: seq<(string, string)>, normalized: string, x: string) {
    exists i :: 0 <= i < |table| && IsPhraseHit(table, normalized, i) && table[i].1 == x
  }

  /** Some word of the query is a key of the table that expands to `x`. */
  predicate WordSupplies(table: seq<(string, string)>, words: seq<string>, x: string) {
    exists k :: 0 <= k < |words| && Lookup(table, words[k]) == Some(x)
  }

  /** An expansion is emitted exactly when a multi-word key occurs anywhere in the
      normalised query, or a word of the query (split on single spaces) is a key. */
  lemma ExpansionsMembership(table: seq<(string, string)>, normalized: string, x: string)
    ensures x in Expansions(table, normalized)
        <==> (PhraseSupplies(table, normalized, x) || WordSupplies(table, SplitOn(normalized, ' '), x))
  {
    var words := SplitOn(normalized, ' ');
    AddAllMembership(AddAll([], PhraseHits(table, normalized)), WordHits(table, words), x);
    AddAllMembership([], PhraseHits(table, normalized), x);
    PhraseHitsMembership(table, normalized, x);
    WordHitsMembership(table, words, x);
  }

  /** A word of the query has no space, so it can only hit a single-word key. */
  lemma WordsHitSingleWordKeys(table: seq<(string, string)>, normalized: string, k: nat, x: string)
    requires k < |SplitOn(normalized, ' ')|
    requires Lookup(table, SplitOn(normalized, ' ')[k]) == Some(x)
    ensures exists i :: 0 <= i < |table| && ' ' !in table[i].0 && table[i].0 == SplitOn(normalized, ' ')[k] && table[i].1 == x
  {
  }

  /** Each expansion text is emitted at most once, even when several keys share it. */
  lemma ExpansionsDistinct(table: seq<(string, string)>, normalized: string)
    ensures NoDup(Expansions(table, normalized))
  {
    AddAllNoDup([], PhraseHits(table, normalized));
    AddAllNoDup(AddAll([], PhraseHits(table, normalized)), WordHits(table, SplitOn(normalized, ' ')));
  }

  /** The phrase expansions come first, in table order; the word expansions follow. */
  lemma PhraseExpansionsFirst(table: seq<(string, string)>, normalized: string)
    ensures var phrases := AddAll([], PhraseHits(table, normalized));
      |phrases| <= |Expansions(table, normalized)| && Expansions(table, normalized)[..|phrases|] == phrases
  {
    AddAllKeepsPrefix(AddAll([], PhraseHits(table, normalized)), WordHits(table, SplitOn(normalized, ' ')));
  }

  lemma {:induction false} NoPhraseHitsInEmpty(table: seq<(string, string)>)
    ensures PhraseHits(table, "") == []
  {
    if table != [] {
      NoPhraseHitsInEmpty(table[..|table| - 1]);
      var key := table[|table| - 1].0;
      if ' ' in key {
        assert !OccursAt("", key, 0);
      }
    }
  }

  /** A query that normalises to nothing (empty, blank or all punctuation) gets no
      expansion: the result is the prefix followed by the raw query, unchanged. */
  lemma BlankQueryKeepsRawQuery(table: seq<(string, string)>, query: string)
    requires KeysNonEmpty(table)
    requires NormalizeQuery(query) == ""
    ensures EnrichedWith(table, query) == DuaIntentPrefix + query
  {
    NoPhraseHitsInEmpty(table);
    assert SplitOn("", ' ') == [""];
    LookupSpec(table, "");
    assert WordHits(table, [""]) == [];
  }

  predicate KeysNonEmpty(table: seq<(string, string)>) {
    forall i :: 0 <= i < |table| ==> table[i].0 != ""
  }

  lemma KeysNonEmptyAppend(a: seq<(string, string)>, b: seq<(string, string)>)
    requires KeysNonEmpty(a) && KeysNonEmpty(b)
    ensures KeysNonEmpty(a + b)
  {
    assert forall i :: |a| <= i < |a + b| ==> (a + b)[i] == b[i - |a|];
  }

  lemma PatienceMarriageKeys()
    ensures KeysNonEmpty(PatienceMarriageTopics)
  {
  }

  lemma DistressKeys()
    ensures KeysNonEmpty(DistressTopics)
  {
  }

  lemma RepentanceHealthStudyFamilyKeys()
    ensures KeysNonEmpty(RepentanceHealthStudyFamilyTopics)
  {
  }

  lemma ProvisionGuidanceProtectionKeys()
    ensures KeysNonEmpty(ProvisionGuidanceProtectionTopics)
  {
  }

  lemma HereafterHopeWorshipKeys()
    ensures KeysNonEmpty(HereafterHopeWorshipTopics)
  {
  }

  /** No key of the topic table is empty. */
  lemma TopicKeysNonEmpty()
    ensures KeysNonEmpty(Topics)
  {
    PatienceMarriageKeys();
    DistressKeys();
    RepentanceHealthStudyFamilyKeys();
    ProvisionGuidanceProtectionKeys();
    HereafterHopeWorshipKeys();
    var g1 := PatienceMarriageTopics + DistressTopics;
    var g2 := g1 + RepentanceHealthStudyFamilyTopics;
    var g3 := g2 + ProvisionGuidanceProtectionTopics;
    KeysNonEmptyAppend(PatienceMarriageTopics, DistressTopics);
    KeysNonEmptyAppend(g1, RepentanceHealthStudyFamilyTopics);
    KeysNonEmptyAppend(g2, ProvisionGuidanceProtectionTopics);
    KeysNonEmptyAppend(g3, HereafterHopeWorshipTopics);
  }

  /** The empty query yields the bare prefix. */
  lemma EmptyQueryGivesPrefix()
    ensures EnrichedWith(Topics, "") == DuaIntentPrefix
  {
    TopicKeysNonEmpty();
    assert Lower("") == "";
    assert CollapseSpaces(Scrub("")) == "";
    BlankQueryKeepsRawQuery(Topics, "");
  }

  /** "worried" and "worry" are two keys with one expansion text, which is
      therefore emitted once for a query that has both words. */
  lemma WorriedAndWorryShareExpansion()
    ensures Lookup(Topics, "worried").Some?
    ensures Lookup(Topics, "worried") == Lookup(Topics, "worry")
  {
    WorriedAndWorryInDistress();
    NoWorryInPatienceMarriage();
    var g1 := PatienceMarriageTopics + DistressTopics;
    var g2 := g1 + RepentanceHealthStudyFamilyTopics;
    var g3 := g2 + ProvisionGuidanceProtectionTopics;
    LookupSkip(PatienceMarriageTopics, DistressTopics, "worried");
    LookupSkip(PatienceMarriageTopics, DistressTopics, "worry");
    LookupAppend(g1, RepentanceHealthStudyFamilyTopics, "worried");
    LookupAppend(g1, RepentanceHealthStudyFamilyTopics, "worry");
    LookupAppend(g2, ProvisionGuidanceProtectionTopics, "worried");
    LookupAppend(g2, ProvisionGuidanceProtectionTopics, "worry");
    LookupAppend(g3, HereafterHopeWorshipTopics, "worried");
    LookupAppend(g3, HereafterHopeWorshipTopics, "worry");
  }

  /** Within the distress group, "worried" (entry 9) and "worry" (entry 10) are the
      first entries with their keys and carry the same expansion. */
  lemma WorriedAndWorryInDistress()
    ensures Lookup(DistressTopics, "worried").Some?
    ensures Lookup(DistressTopics, "worried") == Lookup(DistressTopics, "worry")
  {
    var g := DistressTopics;
    assert g[9].0 == "worried" && g[10].0 == "worry" && g[9].1 == g[10].1;
    assert forall i :: 0 <= i < 9 ==> g[i].0 != "worried";
    assert forall i :: 0 <= i < 10 ==> g[i].0 != "worry";
    LookupFinds(g, 9);
    LookupFinds(g, 10);
  }

  /** The patience and marriage group has neither key. */
  lemma NoWorryInPatienceMarriage()
    ensures Lookup(PatienceMarriageTopics, "worried").None?
    ensures Lookup(PatienceMarriageTopics, "worry").None?
  {
    var g := PatienceMarriageTopics;
    assert forall i :: 0 <= i < |g| ==> g[i].0 != "worried" && g[i].0 != "worry";
    LookupSpec(g, "worried");
    LookupSpec(g, "worry");
  }
}
