# duaOS search core in Dafny

duaOS is a du'a (supplication) search service. A user's intention is embedded and
matched against the 99 Names of Allah, hadith and Quran verses. This project models
the deterministic logic around that search and proves properties of it:

- the query enrichment that is embedded;
- the intent re-ranker;
- the post-processing of the language-model relevance filter;
- the local Names matcher that needs no backend;
- the per-client fixed-window rate limiter;
- the request-body validation rules;
- the result selection of the search endpoint;
- the hadith edition listing;
- the corpus chunking script that turns the downloaded Quran and hadith collections
  into embedding chunks.

Modules:

- `Text` (`text.dfy`) holds the JavaScript string primitives the sources rely on:
  - `trim` with JavaScript's whitespace set;
  - ASCII `toLowerCase`;
  - `includes` and `startsWith`;
  - `split`, `join` and decimal formatting;
  - the `[^\w\s'-]` scrub and the `\s+` collapse;
  - object-literal lookup.
- `QueryEnrichment`, `Rerank`, `LlmSelect`, `LocalMatch`, `RateLimit`, `Validation`,
  `SearchRoute` and `HadithEditionsRoute` each model one source file.
- `ChunkText` models `splitLongText` of `scripts/chunk-data.ts`.
- `ChunkData` models the rest of that script.

Where the source updates state step by step, the model does too:

- the rate limiter's store is a class with a `map` field;
- the loops of `enrichQuery`, `localMatch`, the edition listing and the chunking script
  are methods with loop invariants.

Each such method is proved equal to a specification function, and the properties are
proved about that function.

External effects become inputs:

- the clock is a `now` parameter;
- request headers are optional strings;
- the backend's rows and the language model's reply are values;
- the chunking script receives its parsed files.

## Model

| member | source | states |
|---|---|---|
| Text.TrimIdempotent | src/lib/validation.ts:15 | trimming a trimmed string changes nothing |
| Text.TrimEmpty | src/lib/validation.ts:15-16 | the trim is empty exactly when every character is whitespace |
| Text.LowerTrimCommute | src/lib/rerank-dua-intent.ts:90-106 | lower-casing then trimming equals trimming then lower-casing, so the trimmed text shows the same signals |
| Text.LookupSpec | src/lib/query-enrichment.ts:217-218 | a key found in the topic table has an entry with the value found; a key not found has no entry at all |
| Text.LookupFinds | src/lib/query-enrichment.ts:217-218 | the first entry with a key supplies its value |
| Text.CollapseSpacesSpec | scripts/chunk-data.ts:142 | after replacing whitespace runs by one space, every whitespace character is a plain space, no two spaces are adjacent, every other character comes from the input, and the result is empty only for empty input |
| Text.CollapseKeepsNonSpaces | scripts/chunk-data.ts:142 | collapsing whitespace keeps every other character of the input, in order |
| Text.TrimSlice | src/lib/validation.ts:15 | the trim is one contiguous slice of the input, starting right after the leading whitespace run |
| Text.Scrub | src/lib/query-enrichment.ts:189 | the length is unchanged; a word character, whitespace, apostrophe or hyphen is kept; any other character becomes a space |
| Text.SplitOn | src/lib/rate-limit.ts:18 | splitting gives at least one piece, and no piece contains the separator |
| Text.SplitOnJoin | src/lib/rate-limit.ts:18 | joining the pieces with the separator gives the string back, and the first piece is the text before the first separator |
| Text.SplitAtSpaces | src/lib/local-match.ts:25 | splitting at whitespace gives at least one piece, and no piece contains whitespace |
| Text.SplitAtSpacesJoin | src/lib/local-match.ts:25 | the pieces are the input's words in order: joined by single spaces they give the input with each whitespace character written as a space |
| Text.NatToString | src/lib/local-match.ts:59 | the decimal rendering is a non-empty run of digits |
| Text.NatToStringRoundTrip | src/lib/local-match.ts:59 | the decimal rendering of a number reads back as that number |
| QueryEnrichment.NormalizeQuery | src/lib/query-enrichment.ts:186-192 | the normalised query holds only lower-case word characters, spaces, apostrophes and hyphens, with no space at either end and never two spaces in a row |
| QueryEnrichment.EnrichedWith | src/lib/query-enrichment.ts:194-224 | the text to embed starts with the du'a prefix and contains the raw query |
| QueryEnrichment.EnrichQueryWith | src/lib/query-enrichment.ts:202-224 | the phrase loop and the word loop fill the insertion-ordered set, and the result is the specified enrichment |
| QueryEnrichment.EnrichQuery | src/lib/query-enrichment.ts:7-224 | `enrichQuery` with the built-in topic table is the specified enrichment |
| QueryEnrichment.AddAllMembership | src/lib/query-enrichment.ts:206-218 | a value is in the set after the additions exactly when it was there before or was added |
| QueryEnrichment.AddAllNoDup | src/lib/query-enrichment.ts:206 | adding to a set without repeats keeps it without repeats |
| QueryEnrichment.AddAllKeepsPrefix | src/lib/query-enrichment.ts:206-222 | later additions never reorder what is already in the set |
| QueryEnrichment.PhraseHitsMembership | src/lib/query-enrichment.ts:209-213 | an expansion comes from the phrase pass exactly when some multi-word key with that expansion occurs as a substring of the normalised query |
| QueryEnrichment.WordHitsMembership | src/lib/query-enrichment.ts:216-220 | an expansion comes from the word pass exactly when some token of the query is a key with that expansion |
| QueryEnrichment.ExpansionsMembership | src/lib/query-enrichment.ts:208-220 | an expansion is emitted exactly when a phrase key or a single token supplies it |
| QueryEnrichment.WordsHitSingleWordKeys | src/lib/query-enrichment.ts:204-220 | a token matches only a key without spaces that equals the whole token |
| QueryEnrichment.ExpansionsDistinct | src/lib/query-enrichment.ts:206-222 | each expansion text appears once |
| QueryEnrichment.PhraseExpansionsFirst | src/lib/query-enrichment.ts:208-220 | the phrase expansions come first, in table order, before any word expansion |
| QueryEnrichment.BlankQueryKeepsRawQuery | src/lib/query-enrichment.ts:203-223 | when the query normalises to nothing, the result is the prefix followed by the raw query, whitespace included |
| QueryEnrichment.EmptyQueryGivesPrefix | src/lib/query-enrichment.ts:222-223 | the empty query gives exactly the prefix |
| QueryEnrichment.TopicKeysNonEmpty | src/lib/query-enrichment.ts:7-184 | no key of the topic table is empty |
| QueryEnrichment.WorriedAndWorryShareExpansion | src/lib/query-enrichment.ts:54-57 | "worried" and "worry" are both keys of the topic table and look up the same expansion text |
| Rerank.ClampedSimilarity | src/lib/rerank-dua-intent.ts:121 | the clamped similarity lies in [0, 1], equals a similarity already in range, and is 0 for a missing one |
| Rerank.Weighted | src/lib/rerank-dua-intent.ts:122-127 | applying the applicable factors leaves the similarity between 0.75 * 0.75 and 1.1 * 1.2 times the clamped value |
| Rerank.Rescored | src/lib/rerank-dua-intent.ts:121-129 | the new similarity lies in [0, 1] and is at most 1.32 times the clamped one |
| Rerank.ReRank | src/lib/rerank-dua-intent.ts:119-133 | same length and order; each row keeps its id, content and metadata; only the similarity changes, to the rescored value in [0, 1] |
| Rerank.HasAnyOpening | src/lib/rerank-dua-intent.ts:92 | some opening starts the text or follows a space in it |
| Rerank.ContainsAny | src/lib/rerank-dua-intent.ts:93-99 | some phrase occurs in the text |
| Rerank.NeverBoostedAndShortPenalized | src/lib/rerank-dua-intent.ts:102-127 | no row receives both the du'a boost and the short-content penalty |
| Rerank.SupplicationBoost | src/lib/rerank-dua-intent.ts:124-129 | a du'a row without a ruling signal or curation gets min(1, 1.2 * similarity); similarity 0.5 becomes 0.6 |
| Rerank.RulingPenalty | src/lib/rerank-dua-intent.ts:124-129 | a ruling row without a du'a signal or curation drops to at most 0.75 times its similarity |
| Rerank.ShortPenaltyNeedsShortContent | src/lib/rerank-dua-intent.ts:102-106 | the short-content penalty applies only to text of at most 120 characters once trimmed |
| Rerank.OpeningGivesDuaSignal | src/lib/rerank-dua-intent.ts:90-92 | text that starts with an invocation opening has the du'a signal |
| LlmSelect.Snippet | src/lib/llm-select-dua.ts:10-16 | the trimmed text when it has at most 220 characters, else its first 220 characters plus "...", so never more than 223 |
| LlmSelect.NonEmptyIds | src/lib/llm-select-dua.ts:65-68 | the fallback ids are no more than the rows and none is empty |
| LlmSelect.NonEmptyIdsMembership | src/lib/llm-select-dua.ts:65-68 | an id is in the fallback exactly when it is non-empty and some row has it |
| LlmSelect.NonEmptyIdsAppend | src/lib/llm-select-dua.ts:66-67 | the fallback keeps row order |
| LlmSelect.SelectRelevantDuas | src/lib/llm-select-dua.ts:57-116 | skip, a missing key, two empty lists or a thrown call give the fallback, and no result has both id lists empty unless it is the fallback |
| LlmSelect.UnusableReplyFallsBack | src/lib/llm-select-dua.ts:99-115 | an absent or blank reply, an unparsable one, or one with two empty id arrays gives the fallback |
| LlmSelect.NonArrayFieldFallsBackPerCategory | src/lib/llm-select-dua.ts:103-105 | a `hadith_ids` that is not an array falls back to the hadiths' ids only, while the `quran_ids` array is used as given |
| LlmSelect.NonArrayQuranFieldFallsBack | src/lib/llm-select-dua.ts:106-108 | a `quran_ids` that is not an array falls back to the verses' ids only, while the `hadith_ids` array is used as given |
| LlmSelect.AnswerTaken | src/lib/llm-select-dua.ts:103-112 | a usable answer is taken as its string items, and non-string items are dropped |
| LlmSelect.StringItems | src/lib/llm-select-dua.ts:102-108 | the ids taken from an array are its string items, never more than the items |
| LlmSelect.StringItemsMembership | src/lib/llm-select-dua.ts:102-108 | a string is taken exactly when it is a string item of the array |
| LlmSelect.StringItemsAppend | src/lib/llm-select-dua.ts:102-108 | the string items keep the array's order |
| LlmSelect.LastWithId | src/lib/llm-select-dua.ts:127-128 | the map lookup finds a row with that id and no later row has the id, so the last row wins; not found means no row has the id |
| LlmSelect.PickedFromRows | src/lib/llm-select-dua.ts:130-135 | every picked row comes from the input list and carries a selected id |
| LlmSelect.PickedAppend | src/lib/llm-select-dua.ts:130-135 | rows are picked in selected-id order |
| LlmSelect.PickedSingle | src/lib/llm-select-dua.ts:127-135 | a known id picks the last row with that id, and an unknown id picks nothing |
| LlmSelect.ApplyIds | src/lib/llm-select-dua.ts:130-140 | the rows picked for the selected ids, in id order, when any id is known; otherwise the list unchanged; every row returned comes from the list |
| LlmSelect.UnknownIdsKeepRows | src/lib/llm-select-dua.ts:138-139 | when no selected id is known, the category's list is returned unchanged |
| LlmSelect.ApplySelectedIds | src/lib/llm-select-dua.ts:122-141 | each category gets the rows picked by its own ids when any is known, else keeps its list; every row comes from its own category |
| LocalMatch.KeepTerms | src/lib/local-match.ts:26 | kept tokens are longer than one character, are not stop words and come from the split |
| LocalMatch.KeepTermsMembership | src/lib/local-match.ts:14-26 | a piece is kept exactly when it is longer than one character and not a stop word |
| LocalMatch.Tokenize | src/lib/local-match.ts:21-27 | tokens are longer than one character, are not stop words, and hold only lower-case word characters, apostrophes and hyphens |
| LocalMatch.LowerAll | src/lib/local-match.ts:41 | a new list of the tags lower-cased: same lengths, no upper-case ASCII letter left, and each other character unchanged |
| LocalMatch.TermHitsAppend | src/lib/local-match.ts:43-46 | the score counts the terms one by one, repeats included |
| LocalMatch.CountHits | src/lib/local-match.ts:43-46 | the inner loop computes the entry's score |
| LocalMatch.BestMatch | src/lib/local-match.ts:33-51 | the chosen index has the highest score, every earlier entry scores strictly less, and -1 means every entry scored 0 |
| LocalMatch.Scan | src/lib/local-match.ts:33-51 | the outer loop computes the best score and the first index that has it |
| LocalMatch.ResultFor | src/lib/local-match.ts:55-64 | the id is "local-" followed by the decimal index; the content is "english (meaning) - arabic"; the type is "name" and the tags are the entry's |
| LocalMatch.Match | src/lib/local-match.ts:29-66 | `localMatch` returns the specified result |
| LocalMatch.NoMatchIff | src/lib/local-match.ts:31-53 | there is no match exactly when there are no tokens or every entry scores 0 |
| LocalMatch.MatchIsFirstHighest | src/lib/local-match.ts:47-64 | a match is the result for the first entry with the highest positive score |
| RateLimit.CeilSeconds | src/lib/rate-limit.ts:35 | the retry delay is the smallest whole number of seconds covering the remaining milliseconds, at least 1 |
| RateLimit.Step | src/lib/rate-limit.ts:24-40 | only the client's entry may change; refusal leaves the store unchanged and gives a delay of at least one second; an admitted request lies inside its window |
| RateLimit.StepCases | src/lib/rate-limit.ts:27-39 | the four cases: new key, expired window, full window, and a count incremented by one |
| RateLimit.Store.CheckLimit | src/lib/rate-limit.ts:24-40 | the store after the call and the answer are those of `Step` |
| RateLimit.ClientIdentifier | src/lib/rate-limit.ts:16-22 | the trimmed first comma field of a non-empty forwarded header, else a non-empty real-ip header, else "unknown" |
| RateLimit.RateLimitSearch | src/lib/rate-limit.ts:42-44 | the search store is checked with the client's key and a maximum of 20 |
| RateLimit.RateLimitRefine | src/lib/rate-limit.ts:46-48 | the refine store is checked with the client's key and a maximum of 10 |
| RateLimit.RateLimitTranscribe | src/lib/rate-limit.ts:50-52 | the transcribe store is checked with the client's key and a maximum of 15 |
| RateLimit.StepKeepsCountBound | src/lib/rate-limit.ts:27-39 | with a maximum of at least one, no stored count ever exceeds the maximum |
| RateLimit.AdmittedWithinWindow | src/lib/rate-limit.ts:35-39 | inside an open window a key is admitted at most max minus its count more times |
| RateLimit.OneWindowAdmitsAtMostMax | src/lib/rate-limit.ts:6-39 | from the call that opens a window until 60 seconds later, at most max requests are admitted |
| Validation.SafeString | src/lib/validation.ts:10-16 | accepted exactly when a string of 1 to maxLen characters as sent is not blank; the value is the trim; an over-long string is rejected as too long |
| Validation.OptionalSafeString | src/lib/validation.ts:18-25 | undefined gives ""; a string of at most maxLen characters is accepted trimmed; anything else is rejected |
| Validation.OptionalString | src/lib/validation.ts:75-76 | an optional string of at most maxLen characters, kept as sent |
| Validation.OptionalIntent | src/lib/validation.ts:59 | accepted exactly when absent or one of "problem", "refine" and "goal"; the intent returned is the one the string names |
| Validation.EditionField | src/lib/validation.ts:60 | accepted exactly when absent, "" or a listed edition; absent defaults to "" |
| Validation.LlmFilterField | src/lib/validation.ts:62 | a boolean, defaulting to true |
| Validation.ParseSearchBody | src/lib/validation.ts:57-63 | accepted exactly when every field is; the query is trimmed and at most 2000 characters; the edition and intent are those sent; the defaults are "", no intent, and true |
| Validation.ParseRefineBody | src/lib/validation.ts:65-70 | accepted exactly when every field is; the input is trimmed and at most 5000 characters; each context field is the trimmed value sent, or "" when absent |
| Validation.ParseStoreDuaBody | src/lib/validation.ts:73-78 | accepted exactly when every field is; the content is trimmed and at most 5000 characters; the optional strings are kept as sent; the intent is the one sent |
| Validation.SafeStringIdempotent | src/lib/validation.ts:15 | resending an accepted value gives it back |
| Validation.LengthCheckedBeforeTrimming | src/lib/validation.ts:14-15 | padding past the limit is rejected even when the trimmed text fits |
| Validation.SearchDefaults | src/lib/validation.ts:57-63 | a body with only a valid query gets no intent, edition "" and the filter on |
| Validation.EditionAcceptedIff | src/lib/validation.ts:60 | exactly the listed editions and "" are accepted |
| SearchRoute.PreferredEdition | src/app/api/search/route.ts:39-43 | there is a preferred edition exactly when the edition is non-empty and listed |
| SearchRoute.MatchCount | src/app/api/search/route.ts:59 | 20 rows with a preferred edition, else 10 |
| SearchRoute.MatchRequestFor | src/app/api/search/route.ts:56-61 | every request uses threshold 0.3, and asks for 20 rows exactly when the edition is non-empty and listed, else 10 |
| SearchRoute.Keep | src/app/api/search/route.ts:75-85 | kept rows pass the test and come from the input |
| SearchRoute.KeepMembership | src/app/api/search/route.ts:75-85 | a row is kept exactly when it is a returned row that passes the test |
| SearchRoute.KeepAppend | src/app/api/search/route.ts:75-85 | filtering keeps the backend's order |
| SearchRoute.SelectResults | src/app/api/search/route.ts:75-91 | `matches` is returned unfiltered; `name` is a name row; `hadith` is a returned row, absent only when `name` is too |
| SearchRoute.FirstKeptIsEarliest | src/app/api/search/route.ts:88-89 | the first kept row is the earliest row that passes |
| SearchRoute.CandidatesAreEligibleRows | src/app/api/search/route.ts:78-85 | the type filter followed by the optional edition filter keeps exactly the eligible rows, in their order |
| SearchRoute.FirstCandidateIsEarliest | src/app/api/search/route.ts:78-85 | there is a hadith candidate exactly when some row is a hadith row (of the preferred edition, when there is one), and the first candidate is the earliest such row |
| SearchRoute.ResponseFieldsAreEarliestRows | src/app/api/search/route.ts:75-90 | `name` is the earliest name row, absent only without one; `hadith` is the earliest hadith row of the preferred edition (any edition without one), and the name row when no row qualifies |
| HadithEditionsRoute.Found | src/app/api/hadith-editions/route.ts:26-31 | only listed editions are collected |
| HadithEditionsRoute.KeepFound | src/app/api/hadith-editions/route.ts:33 | the filter keeps no more than the listing |
| HadithEditionsRoute.ListEditions | src/app/api/hadith-editions/route.ts:26-34 | the loop and the filter compute the specified listing |
| HadithEditionsRoute.FoundMembership | src/app/api/hadith-editions/route.ts:28-31 | an edition is collected exactly when it is listed and some row carries it |
| HadithEditionsRoute.KeepFoundMembership | src/app/api/hadith-editions/route.ts:33 | the filter keeps exactly the collected elements of the listing |
| HadithEditionsRoute.KeepFoundOrder | src/app/api/hadith-editions/route.ts:33 | the filter keeps the listing's order |
| HadithEditionsRoute.KeepFoundNoDup | src/app/api/hadith-editions/route.ts:33 | the filter of a list without repeats has none |
| HadithEditionsRoute.HadithEditionsNoDup | src/lib/validation.ts:28-39 | the ten editions are distinct |
| HadithEditionsRoute.EditionsPresentSpec | src/app/api/hadith-editions/route.ts:26-34 | the listing names exactly the listed editions some row carries, each once, in listing order |
| HadithEditionsRoute.FoundAppend | src/app/api/hadith-editions/route.ts:27-31 | the collected editions of two row lists are the union of each |
| HadithEditionsRoute.RowOrderIrrelevant | src/app/api/hadith-editions/route.ts:28-33 | the order of the rows does not change the listing |
| ChunkText.Sentences | scripts/chunk-data.ts:114 | at least one sentence: the pattern's matches, each a run of non-terminators followed by terminators, or the whole text when nothing matches |
| ChunkText.SplitLongTextSpec | scripts/chunk-data.ts:110-126 | every chunk carries the given reference and edition |
| ChunkText.PackSentences | scripts/chunk-data.ts:115-123 | the accumulating loop pushes the closed groups and leaves the last group in `acc` |
| ChunkText.SplitLongText | scripts/chunk-data.ts:110-126 | `splitLongText` returns the specified chunks |
| ChunkText.ShortTextIsOneChunk | scripts/chunk-data.ts:111-113 | a text of at most 6000 characters is one chunk holding the text as it is |
| ChunkText.MatchShape | scripts/chunk-data.ts:114 | every match is non-empty, starts with a non-terminator and ends with a terminator |
| ChunkText.PackSpec | scripts/chunk-data.ts:117-123 | the groups hold the sentences in order, each exactly once; no closed group is empty; the open group ends with the last sentence |
| ChunkText.MatchesCoverTerminatedText | scripts/chunk-data.ts:114 | a text that starts with a non-terminator and ends with a terminator is exactly the concatenation of its matches |
| ChunkText.UnterminatedTailDropped | scripts/chunk-data.ts:114 | an unterminated tail after the last terminator contributes no match |
| ChunkText.NoTerminatorOneSentence | scripts/chunk-data.ts:114 | a text without terminators is one sentence, the whole text |
| ChunkText.SentencesNonEmpty | scripts/chunk-data.ts:114 | every sentence of a non-empty text is non-empty |
| ChunkText.OversizeGroupIsOneSentence | scripts/chunk-data.ts:117-123 | a group longer than 6000 characters is a single sentence |
| ChunkText.ChunksOfContent | scripts/chunk-data.ts:119 | each closed group becomes one chunk holding its trimmed text |
| ChunkText.FlushedGroupEndsWithSentence | scripts/chunk-data.ts:118-122 | every flushed group is non-empty and ends with one of the sentences |
| ChunkText.TerminatedSentencesGiveNonBlankChunks | scripts/chunk-data.ts:118-124 | packing terminated sentences gives chunks with non-empty content and a non-blank last group |
| ChunkText.UnmatchedLongText | scripts/chunk-data.ts:114-124 | a long text with no match is one trimmed chunk, or none when it is all whitespace |
| ChunkText.MatchedLongText | scripts/chunk-data.ts:114-125 | a long text with matches gives at least one chunk, none with empty content |
| ChunkText.ChunksNonEmpty | scripts/chunk-data.ts:110-126 | a long text never gives a chunk with empty content, and a text that is not all whitespace gives at least one chunk |
| ChunkData.VerseChunks | scripts/chunk-data.ts:95-105 | no more chunks than verses |
| ChunkData.ChunkSurah | scripts/chunk-data.ts:95-105 | the verse loop pushes the specified chunks |
| ChunkData.ChunkQuran | scripts/chunk-data.ts:80-108 | `chunkQuran` returns the specified chunks |
| ChunkData.VerseChunksMembership | scripts/chunk-data.ts:95-105 | a surah's chunks are exactly the chunks of its verses with non-blank text |
| ChunkData.VerseChunkShape | scripts/chunk-data.ts:94-104 | a verse chunk has non-blank trimmed content, reference "surah:verse" and the surah's name from the table |
| ChunkData.VerseChunksSurah | scripts/chunk-data.ts:101 | every chunk of a surah carries its number |
| ChunkData.QuranChunksOrdered | scripts/chunk-data.ts:89 | surahs are visited in ascending order, so surah numbers never decrease and lie between 1 and the last surah visited |
| ChunkData.QuranChunksMembership | scripts/chunk-data.ts:89-106 | a chunk is produced exactly when it comes from one of the surahs visited |
| ChunkData.FromSurahIff | scripts/chunk-data.ts:90-105 | a surah's chunks are those of its non-blank verses, and none when the input lacks the surah |
| ChunkData.QuranChunksSpec | scripts/chunk-data.ts:80-108 | the output holds exactly one chunk per non-blank verse of surahs 1 to 114, in ascending surah order |
| ChunkData.ChunkFawazEdition | scripts/chunk-data.ts:134-152 | `chunkFawazEdition` returns the specified chunks |
| ChunkData.DigitsOf | scripts/chunk-data.ts:166 | only digits remain |
| ChunkData.DigitsOfMembership | scripts/chunk-data.ts:166 | a character remains exactly when it is a digit of the name |
| ChunkData.DigitsOfAppend | scripts/chunk-data.ts:166 | the digits remain in their order |
| ChunkData.MatchTokensDigits | scripts/chunk-data.ts:173 | every captured group is a non-empty run of digits |
| ChunkData.PatternGroups | scripts/chunk-data.ts:173 | the legacy pattern captures two groups |
| ChunkData.BookHadithAt | scripts/chunk-data.ts:173 | a match at an index captures two digit strings |
| ChunkData.FindBookHadith | scripts/chunk-data.ts:173 | a match found captures two digit strings |
| ChunkData.FirstDigits | scripts/chunk-data.ts:177 | the first `(\d+)` is a non-empty run of digits |
| ChunkData.FirstDigitsLeftmost | scripts/chunk-data.ts:177 | nothing is found exactly when there is no digit; otherwise the capture is the whole digit run that starts at the leftmost digit |
| ChunkData.FindBookHadithLeftmost | scripts/chunk-data.ts:173 | the search finds a match exactly when one exists, and the match found is the leftmost |
| ChunkData.BookHadithOfForm | scripts/chunk-data.ts:173-175 | the reference "Book N, Hadith M" is matched by the pattern with groups N and M |
| ChunkData.LegacyReferenceOfMatch | scripts/chunk-data.ts:172-175 | a reference the pattern matches is rewritten as "Book N, Hadith M" |
| ChunkData.LegacyReferenceIdempotent | scripts/chunk-data.ts:172-175 | a rewritten reference is rewritten to itself, whatever the book number |
| ChunkData.LegacyReferenceNonEmpty | scripts/chunk-data.ts:172-179 | every legacy hadith gets a non-empty reference |
| ChunkData.ChunkLegacyHadith | scripts/chunk-data.ts:169-182 | one legacy entry's chunks are the specified ones |
| ChunkData.ChunkLegacyBook | scripts/chunk-data.ts:169-183 | the loop over a book file's entries pushes the specified chunks |
| ChunkData.ChunkLegacyBukhari | scripts/chunk-data.ts:158-185 | `chunkLegacyBukhari` returns the specified chunks |
| ChunkData.ChunkAllHadith | scripts/chunk-data.ts:187-214 | `chunkAllHadith` returns the specified chunks |
| ChunkData.EditionIdOfFile | scripts/chunk-data.ts:195 | the file named after an edition id gives that id back |
| ChunkData.HasEditionAppend | scripts/chunk-data.ts:205 | a concatenation has a chunk of an edition exactly when one of its parts does |
| ChunkData.HadithTextNotBlank | scripts/chunk-data.ts:142 | a cleaned text that is not empty is not all whitespace |
| ChunkData.TextChunks | scripts/chunk-data.ts:110-126 | a non-blank text gives at least one chunk, none with empty content |
| ChunkData.FawazHadithChunksShape | scripts/chunk-data.ts:142-148 | a hadith gives chunks exactly when its cleaned text has at least ten characters; they carry the edition, a non-empty reference "label number" and non-empty content |
| ChunkData.FawazChunksWellFormed | scripts/chunk-data.ts:141-149 | every chunk of an edition file carries that edition, a non-empty reference and non-empty content |
| ChunkData.FawazHasEdition | scripts/chunk-data.ts:141-149 | an edition file yields a chunk of edition e exactly when e is its id and some hadith is kept |
| ChunkData.EditionChunksHaveEdition | scripts/chunk-data.ts:193-205 | the edition files yield a chunk of edition e exactly when some file named e has a kept hadith |
| ChunkData.LegacyFallback | scripts/chunk-data.ts:204-211 | legacy chunks are appended exactly when no edition file produced a Bukhari chunk |
| ChunkData.LegacyHadithChunksShape | scripts/chunk-data.ts:170-181 | a legacy entry gives chunks exactly when its cleaned text is not empty, and they are well formed Bukhari chunks |
| ChunkData.LegacyChunksWellFormed | scripts/chunk-data.ts:158-185 | every legacy chunk carries "eng-bukhari", a non-empty reference and non-empty content |

## Left out

- Network and service calls are not modelled:
  - the embedding, chat, transcription and translation requests;
  - the database calls of the routes;
  - the downloads of the data script.

  Their results are inputs: the returned rows, an optional parsed reply.
- The prompt text built for the language model (`buildHadithList`, `buildQuranList`,
  the user prompt) is left out. It is sent to the external call and never inspected.
- File reads and writes, directory listing, sorting and filtering, console output and
  `JSON.parse` in the chunking script are left out. The parsed files are given in the
  order the script visits them. A missing directory or `quran.json` is an empty input.
- Numbers:
  - similarities are `real`, not IEEE doubles;
  - hadith and verse numbers are integers (a fractional `hadithnumber` would print differently);
  - `parseInt` of a long digit string is an exact natural number, with no floating-point precision loss.
- String lengths count Unicode scalar values. JavaScript counts UTF-16 code units, so
  text outside the Basic Multilingual Plane measures differently against the 220, 2000,
  5000 and 6000 limits.
- `toLowerCase` is modelled on ASCII letters only. Other letters keep their case.
- Topic lookups and legacy fields:
  - properties inherited from the object prototype are not modelled, so a query word
    such as "constructor" finds no topic here (in JavaScript it finds a function), and
    an edition file named `constructor.json` gets the edition id as its label here
    (in JavaScript `BOOK_LABELS[editionId]` finds a function);
  - legacy entry fields that are not strings are not modelled.
- Validation.ParseSearchBody: reports only the first failing field, in schema order. The
  schema library reports every issue, and its messages are not modelled.
- Validation.ParseRefineBody: the same first-failing-field simplification.
- Validation.ParseStoreDuaBody: the same first-failing-field simplification.
- The route handlers' HTTP plumbing is left out: status codes, error messages, the rate
  limit wiring and environment checks.

Behaviour of the code that a reader might not expect (the model follows the code):

- The search route always asks for threshold 0.3, with no dynamic threshold or higher
  floor. It never calls the re-ranker or the language-model filter, which are modelled
  on their own.
- A query that normalises to nothing keeps its raw text after the prefix. Only the
  empty query gives the bare prefix.
- A row is curated when `metadata.context` is a non-empty string.
- `applySelectedIds` indexes rows by id in a map, so for a repeated id the last row wins.
- The `slice(0, maxLen)` in `optionalSafeString` never shortens anything: the string is
  already at most `maxLen` characters before trimming.
- Blank text in `splitLongText`:
  - a long text that is all whitespace gives no chunk;
  - text after the last sentence terminator is dropped whenever the text has at least
    one sentence.
- `num ? ... : ...` treats the captured string "0" as present.
- The legacy Bukhari files are also used when Bukhari's edition file exists but keeps
  no hadith.
