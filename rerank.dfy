/**
 * The intent re-ranker: every candidate row keeps its id, content and
 * metadata; its similarity is clamped to [0, 1], multiplied by boosts for
 * curated rows and supplication wording and by penalties for jurisprudence
 * wording and short non-supplication fragments, and capped at 1.
 * Similarities are exact reals, not IEEE doubles.
 */
module Rerank {
  import opened Text

  /** A row's `metadata`; every field may be absent. `kind` is the row's `type`. */
  datatype Metadata = Metadata(
    kind: Option<string>,
    edition: Option<string>,
    reference: Option<string>,
    surah: Option<string>,
    context: Option<string>)

  /** `MatchRow`: a candidate returned by the similarity search. */
  datatype MatchRow = MatchRow(id: string, content: string, metadata: Option<Metadata>, similarity: Option<real>)

  const BoostMultiplier: real := 1.2
  const PenaltyMultiplier: real := 0.75
  const CuratedBoost: real := 1.1

  /** Content at most this long (after trimming) counts as short. */
  const ShortContentLimit: nat := 120

  const DuaOpenings: seq<string> := [
    "o allah",
    "our lord",
    "rabbana",
    "rabbi",
    "allahumma",
    "my lord",
    "o turner of hearts",
    "o bestower",
    "o forgiver",
    "o merciful",
    "o most merciful",
    "o ever-living",
    "o self-sustaining",
    "sufficient for me is allah",
    "there is no god but you",
    "in the name of allah"
  ]

  const SupplicationPhrases: seq<string> := [
    "grant me",
    "grant us",
    "protect us",
    "protect me",
    "forgive me",
    "forgive us",
    "guide me",
    "guide us",
    "i ask you",
    "i seek refuge",
    "pour upon us",
    "have mercy",
    "bless me",
    "bless us",
    "give us",
    "give me",
    "help me",
    "help us",
    "accept",
    "purify",
    "cleans",
    "relief",
    "ease",
    "healing",
    "shifa",
    "comfort",
    "content",
    "steadfast",
    "patience",
    "sabr"
  ]

  const JurisprudencePhrases: seq<string> := [
    "is permissible",
    "is forbidden",
    "it is not allowed",
    "the ruling",
    "waiting period",
    "he divorced",
    "she divorced",
    "inheritance",
    "obligatory",
    "recommended",
    "makruh",
    "it is lawful",
    "it is unlawful",
    "the divorce",
    "iddah",
    "dower",
    "dowry",
    "guardianship",
    "witnesses",
    "contract",
    "expiation",
    "kafaarah",
    "retaliation",
    "qisas"
  ]

  /** The lower-cased text begins with the opening or has it right after a space. */
  predicate HasOpening(lower: string, opening: string) {
    StartsWith(lower, opening) || Contains(lower, " " + opening)
  }

  /** `openings.some((o) => lower.startsWith(o) || lower.includes(" " + o))` */
  predicate HasAnyOpening(lower: string, openings: seq<string>)
    ensures HasAnyOpening(lower, openings) <==> exists i :: 0 <= i < |openings| && HasOpening(lower, openings[i])
  {
    openings != [] && (HasOpening(lower, openings[0]) || HasAnyOpening(lower, openings[1..]))
  }

  /** `phrases.some((p) => lower.includes(p))` */
  predicate ContainsAny(lower: string, phrases: seq<string>)
    ensures ContainsAny(lower, phrases) <==> exists i :: 0 <= i < |phrases| && Contains(lower, phrases[i])
  {
    phrases != [] && (Contains(lower, phrases[0]) || ContainsAny(lower, phrases[1..]))
  }

  /** `hasDuaSignal`: an invocation opening, or a petition phrase anywhere. */
  predicate HasDuaSignal(content: string) {
    var lower := Trim(Lower(content));
    HasAnyOpening(lower, DuaOpenings) || ContainsAny(lower, SupplicationPhrases)
  }

  /** `hasJurisprudenceSignal`: a legal-ruling phrase anywhere in the lower-cased text. */
  predicate HasJurisprudenceSignal(content: string) {
    ContainsAny(Lower(content), JurisprudencePhrases)
  }

  /** `isShortNarratorOnly`: short once trimmed, and no supplication signal. */
  predicate IsShortNarratorOnly(content: string) {
    var trimmed := Trim(content);
    |trimmed| <= ShortContentLimit && !HasDuaSignal(trimmed)
  }

  /** `metadata.context` is present and non-empty (a truthy string). */
  predicate IsCurated(m: MatchRow) {
    m.metadata.Some? && m.metadata.value.context.Some? && m.metadata.value.context.value != ""
  }

  function Min(a: real, b: real): real {
    if a <= b then a else b
  }

  function Max(a: real, b: real): real {
    if a >= b then a else b
  }

  /** `Math.max(0, Math.min(1, m.similarity ?? 0))`. */
  function ClampedSimilarity(m: MatchRow): (r: real)
    ensures 0.0 <= r <= 1.0
    ensures m.similarity.Some? && 0.0 <= m.similarity.value <= 1.0 ==> r == m.similarity.value
    ensures m.similarity.None? ==> r == 0.0
  {
    Max(0.0, Min(1.0, if m.similarity.Some? then m.similarity.value else 0.0))
  }

  /** The clamped similarity with each applicable factor applied in the source's order:
      curated boost, supplication boost, jurisprudence penalty, short-content penalty.
      When the supplication boost and the short-content penalty never meet, the
      combined factor lies between 0.75 * 0.75 and 1.1 * 1.2. */
  function Weighted(c: real, curated: bool, dua: bool, ruling: bool, short: bool): (r: real)
    requires 0.0 <= c
    requires !(dua && short)
    ensures PenaltyMultiplier * PenaltyMultiplier * c <= r <= CuratedBoost * BoostMultiplier * c
  {
    var x1 := if curated then c * CuratedBoost else c;
    var x2 := if dua then x1 * BoostMultiplier else x1;
    var x3 := if ruling then x2 * PenaltyMultiplier else x2;
    if short then x3 * PenaltyMultiplier else x3
  }

  /** The re-ranked similarity of one row: the weighted clamped similarity, capped at 1. */
  function Rescored(m: MatchRow): (r: real)
    ensures 0.0 <= r <= 1.0
    ensures r <= CuratedBoost * BoostMultiplier * ClampedSimilarity(m)
  {
    NeverBoostedAndShortPenalized(m.content);
    Min(1.0, Weighted(ClampedSimilarity(m), IsCurated(m), HasDuaSignal(m.content),
                      HasJurisprudenceSignal(m.content), IsShortNarratorOnly(m.content)))
  }

  /** `reRankForDuaIntent`: same rows, same order, only the similarity replaced. */
  function ReRank(matches: seq<MatchRow>): (r: seq<MatchRow>)
    ensures |r| == |matches|
    ensures forall i :: 0 <= i < |r| ==>
      && r[i].id == matches[i].id
      && r[i].content == matches[i].content
      && r[i].metadata == matches[i].metadata
      && r[i].similarity == Some(Rescored(matches[i]))
    ensures forall i :: 0 <= i < |r| ==> 0.0 <= r[i].similarity.value <= 1.0
  {
    seq(|matches|, i requires 0 <= i < |matches| => matches[i].(similarity := Some(Rescored(matches[i]))))
  }

  // ---- Properties ----

  /** A row never receives both the supplication boost and the short-content penalty:
      the penalty looks for the signal in the trimmed text, and trimming does not
      change what the signal sees. */
  lemma NeverBoostedAndShortPenalized(content: string)
    ensures !(HasDuaSignal(content) && IsShortNarratorOnly(content))
  {
    var trimmed := Trim(content);
    LowerTrimCommute(content);
    TrimIdempotent(content);
    LowerTrimCommute(trimmed);
    assert Trim(Lower(trimmed)) == Trim(Lower(content));
  }

  /** With a supplication signal and no other factor, the score is the clamped
      similarity times 1.2, capped at 1: 0.5 becomes 0.6. */
  lemma SupplicationBoost(m: MatchRow)
    requires HasDuaSignal(m.content) && !HasJurisprudenceSignal(m.content) && !IsCurated(m)
    ensures Rescored(m) == Min(1.0, ClampedSimilarity(m) * BoostMultiplier)
    ensures m.similarity == Some(0.5) ==> Rescored(m) == 0.6
  {
    NeverBoostedAndShortPenalized(m.content);
  }

  /** A ruling without any supplication wording on an uncurated row is scored
      at most 0.75 times its clamped similarity. */
  lemma RulingPenalty(m: MatchRow)
    requires HasJurisprudenceSignal(m.content) && !HasDuaSignal(m.content) && !IsCurated(m)
    ensures Rescored(m) <= PenaltyMultiplier * ClampedSimilarity(m)
  {
  }

  /** The short-content penalty only ever applies to content of at most 120 characters. */
  lemma ShortPenaltyNeedsShortContent(content: string)
    requires IsShortNarratorOnly(content)
    ensures |Trim(content)| <= ShortContentLimit
  {
  }

  /** Content whose trimmed, lower-cased form begins with an invocation opening
      carries a supplication signal, whatever follows and whatever its case. */
  lemma OpeningGivesDuaSignal(content: string, k: nat)
    requires k < |DuaOpenings|
    requires StartsWith(Trim(Lower(content)), DuaOpenings[k])
    ensures HasDuaSignal(content)
  {
    assert HasOpening(Trim(Lower(content)), DuaOpenings[k]);
  }
}
