/**
 * The corpus chunking script, given its parsed inputs: one chunk per Quran
 * verse, and one or more chunks per hadith of every edition file, with the
 * legacy per-book Bukhari files used only when no edition file produced a
 * Bukhari chunk. Reading directories and files, parsing JSON and writing the
 * output are not modelled; an absent input directory or file is an empty input.
 */
module ChunkData {
  import opened Text
  import opened ChunkText

  /** `BOOK_LABELS`: the display name of each edition id. */
  const BookLabels: seq<(string, string)> := [
    ("eng-bukhari", "Sahih Bukhari"),
    ("eng-muslim", "Sahih Muslim"),
    ("eng-abudawud", "Sunan Abu Dawud"),
    ("eng-tirmidhi", "Jami At Tirmidhi"),
    ("eng-nasai", "Sunan an-Nasai"),
    ("eng-ibnmajah", "Sunan Ibn Majah"),
    ("eng-malik", "Muwatta Malik"),
    ("eng-nawawi", "Forty Hadith Nawawi"),
    ("eng-qudsi", "Forty Hadith Qudsi"),
    ("eng-dehlawi", "Forty Hadith Dehlawi")
  ]

  /** `SURAH_NAMES`: the name of surah `n` is entry `n - 1`. */
  const SurahNames: seq<string> := [
    "Al-Fatihah", "Al-Baqarah", "Aal-Imran", "An-Nisa", "Al-Maidah", "Al-An'am",
    "Al-A'raf", "Al-Anfal", "At-Tawbah", "Yunus", "Hud", "Yusuf",
    "Ar-Ra'd", "Ibrahim", "Al-Hijr", "An-Nahl", "Al-Isra", "Al-Kahf",
    "Maryam", "Ta-Ha", "Al-Anbiya", "Al-Hajj", "Al-Mu'minun", "An-Nur",
    "Al-Furqan", "Ash-Shu'ara", "An-Naml", "Al-Qasas", "Al-Ankabut", "Ar-Rum",
    "Luqman", "As-Sajda", "Al-Ahzab", "Saba", "Fatir", "Ya-Sin",
    "As-Saffat", "Sad", "Az-Zumar", "Ghafir", "Fussilat", "Ash-Shura",
    "Az-Zukhruf", "Ad-Dukhan", "Al-Jathiya", "Al-Ahqaf", "Muhammad", "Al-Fath",
    "Al-Hujurat", "Qaf", "Adh-Dhariyat", "At-Tur", "An-Najm", "Al-Qamar",
    "Ar-Rahman", "Al-Waqi'ah", "Al-Hadid", "Al-Mujadila", "Al-Hashr", "Al-Mumtahanah",
    "As-Saf", "Al-Jumu'ah", "Al-Munafiqun", "At-Taghabun", "At-Talaq", "At-Tahrim",
    "Al-Mulk", "Al-Qalam", "Al-Haqqah", "Al-Ma'arij", "Nuh", "Al-Jinn",
    "Al-Muzzammil", "Al-Muddaththir", "Al-Qiyamah", "Al-Insan", "Al-Mursalat", "An-Naba",
    "An-Nazi'at", "Abasa", "At-Takwir", "Al-Infitar", "Al-Mutaffifin", "Al-Inshiqaq",
    "Al-Buruj", "At-Tariq", "Al-A'la", "Al-Ghashiya", "Al-Fajr", "Al-Balad",
    "Ash-Shams", "Al-Layl", "Ad-Duha", "Ash-Sharh", "At-Tin", "Al-Alaq",
    "Al-Qadr", "Al-Bayyinah", "Az-Zalzalah", "Al-Adiyat", "Al-Qari'ah", "At-Takathur",
    "Al-Asr", "Al-Humazah", "Al-Fil", "Quraysh", "Al-Ma'un", "Al-Kawthar",
    "Al-Kafirun", "An-Nasr", "Al-Masad", "Al-Ikhlas", "Al-Falaq", "An-Nas"
  ]

  const SurahCount: nat := 114

  // ---- Quran ----

  /** One verse record; a missing `text` is the empty string. */
  datatype QuranVerse = QuranVerse(chapter: int, verse: int, text: string)

  datatype QuranChunk = QuranChunk(content: string, reference: string, surah: nat, verse: int, surahName: string)

  /** `SURAH_NAMES[n] ?? `Surah ${n}``. */
  function SurahName(n: nat): string {
    if 1 <= n <= |SurahNames| then SurahNames[n - 1] else "Surah " + NatToString(n)
  }

  /** The chunk of a verse of surah `surah`, whose name is `surahName`. */
  function VerseChunk(surah: nat, surahName: string, v: QuranVerse): QuranChunk {
    QuranChunk(Trim(v.text), NatToString(surah) + ":" + IntToString(v.verse), surah, v.verse, surahName)
  }

  /** The chunks of one surah's verses: one per verse whose trimmed text is not empty. */
  function VerseChunks(surah: nat, surahName: string, verses: seq<QuranVerse>): (r: seq<QuranChunk>)
    ensures |r| <= |verses|
  {
    if verses == [] then []
    else
      var v := verses[|verses| - 1];
      VerseChunks(surah, surahName, verses[..|verses| - 1])
        + (if Trim(v.text) != "" then [VerseChunk(surah, surahName, v)] else [])
  }

  /** The chunks of surahs 1 to `n`; `raw` maps the decimal surah number to its verses
      (a key whose value is not an array is not in the map). */
  function QuranChunksUpTo(raw: map<string, seq<QuranVerse>>, n: nat): seq<QuranChunk> {
    if n == 0 then [] else QuranChunksUpTo(raw, n - 1) + SurahChunks(raw, n)
  }

  /** The chunks of surah `s`: none when the input lacks it. */
  function SurahChunks(raw: map<string, seq<QuranVerse>>, s: nat): seq<QuranChunk> {
    if NatToString(s) in raw then VerseChunks(s, SurahName(s), raw[NatToString(s)]) else []
  }

  /** `chunkQuran`. */
  function QuranChunks(raw: map<string, seq<QuranVerse>>): seq<QuranChunk> {
    QuranChunksUpTo(raw, SurahCount)
  }

  /** The inner loop of `chunkQuran` over one surah's verses. */
  method ChunkSurah(surah: nat, surahName: string, verses: seq<QuranVerse>) returns (chunks: seq<QuranChunk>)
    ensures chunks == VerseChunks(surah, surahName, verses)
  {
    chunks := [];
    var i := 0;
    while i < |verses|
      invariant 0 <= i <= |verses|
      invariant chunks == VerseChunks(surah, surahName, verses[..i])
    {
      var v := verses[i];
      assert verses[..i + 1][..i] == verses[..i];
      var text := Trim(v.text);
      if text != "" {
        chunks := chunks + [QuranChunk(text, NatToString(surah) + ":" + IntToString(v.verse), surah, v.verse, surahName)];
      }
      i := i + 1;
    }
    assert verses[..|verses|] == verses;
  }

  /** `chunkQuran`: surahs 1 to 114 in order. */
  method ChunkQuran(raw: map<string, seq<QuranVerse>>) returns (chunks: seq<QuranChunk>)
    ensures chunks == QuranChunks(raw)
  {
    chunks := [];
    var surah := 1;
    while surah <= SurahCount
      invariant 1 <= surah <= SurahCount + 1
      invariant chunks == QuranChunksUpTo(raw, surah - 1)
    {
      var key := NatToString(surah);
      if key in raw {
        var surahName := SurahName(surah);
        var more := ChunkSurah(surah, surahName, raw[key]);
        chunks := chunks + more;
      }
      surah := surah + 1;
    }
  }

  // ---- Quran properties ----

  /** A surah's chunks are exactly the chunks of its verses with non-blank text, in
      verse order. */
  lemma VerseChunksMembership(surah: nat, surahName: string, verses: seq<QuranVerse>, c: QuranChunk)
    ensures c in VerseChunks(surah, surahName, verses) <==>
      exists k :: 0 <= k < |verses| && Trim(verses[k].text) != "" && c == VerseChunk(surah, surahName, verses[k])
  {
    var f := VerseChunkOf(surah, surahName);
    VerseChunksKeepSome(surah, surahName, verses);
    KeepSomeMembership(f, verses, c);
    if c in VerseChunks(surah, surahName, verses) {
      var k :| 0 <= k < |verses| && f(verses[k]) == Some(c);
      assert Trim(verses[k].text) != "" && c == VerseChunk(surah, surahName, verses[k]);
    }
    if exists k :: 0 <= k < |verses| && Trim(verses[k].text) != "" && c == VerseChunk(surah, surahName, verses[k]) {
      var k :| 0 <= k < |verses| && Trim(verses[k].text) != "" && c == VerseChunk(surah, surahName, verses[k]);
      assert f(verses[k]) == Some(c);
    }
  }

  /** The chunk of a verse, if its text is not blank. */
  function VerseChunkOf(surah: nat, surahName: string): QuranVerse -> Option<QuranChunk> {
    (v: QuranVerse) => if Trim(v.text) != "" then Some(VerseChunk(surah, surahName, v)) else None
  }

  /** The present results of `f` on the elements, in order. */
  function KeepSome<A, B>(f: A -> Option<B>, xs: seq<A>): seq<B> {
    if xs == [] then []
    else
      KeepSome(f, xs[..|xs| - 1]) + (match f(xs[|xs| - 1]) case Some(y) => [y] case None => [])
  }

  lemma {:induction false} KeepSomeMembership<A, B>(f: A -> Option<B>, xs: seq<A>, y: B)
    ensures y in KeepSome(f, xs) <==> exists k :: 0 <= k < |xs| && f(xs[k]) == Some(y)
  {
    if xs != [] {
      var n := |xs| - 1;
      var init := xs[..n];
      KeepSomeMembership(f, init, y);
      assert xs == init + [xs[n]];
      forall k | 0 <= k < n
        ensures init[k] == xs[k]
      {
      }
    }
  }

  lemma {:induction false} VerseChunksKeepSome(surah: nat, surahName: string, verses: seq<QuranVerse>)
    ensures VerseChunks(surah, surahName, verses) == KeepSome(VerseChunkOf(surah, surahName), verses)
  {
    if verses != [] {
      VerseChunksKeepSome(surah, surahName, verses[..|verses| - 1]);
    }
  }




  /** Every chunk of a verse holds the verse's text, trimmed and not empty, its
      `surah:verse` reference and the surah's name. */
  lemma VerseChunkShape(surah: nat, v: QuranVerse)
    requires 1 <= surah <= SurahCount && Trim(v.text) != ""
    ensures var c := VerseChunk(surah, SurahName(surah), v);
      && c.content != "" && !IsSpace(c.content[0]) && !IsSpace(c.content[|c.content| - 1])
      && c.reference == NatToString(surah) + ":" + IntToString(v.verse)
      && c.surahName == SurahNames[surah - 1]
  {
  }

  /** A surah's chunks all carry that surah's number. */
  lemma {:induction false} VerseChunksSurah(surah: nat, surahName: string, verses: seq<QuranVerse>)
    ensures forall k :: 0 <= k < |VerseChunks(surah, surahName, verses)| ==>
      VerseChunks(surah, surahName, verses)[k].surah == surah
  {
    if verses != [] {
      VerseChunksSurah(surah, surahName, verses[..|verses| - 1]);
    }
  }

  /** Every chunk belongs to surah `n`. */
  predicate AllOfSurah(cs: seq<QuranChunk>, n: nat) {
    forall k :: 0 <= k < |cs| ==> cs[k].surah == n
  }

  lemma SurahChunksOfSurah(raw: map<string, seq<QuranVerse>>, n: nat)
    ensures AllOfSurah(SurahChunks(raw, n), n)
  {
    if NatToString(n) in raw {
      VerseChunksSurah(n, SurahName(n), raw[NatToString(n)]);
    }
  }

  /** The chunks' surah numbers never decrease. */
  predicate SurahsAscending(cs: seq<QuranChunk>) {
    forall j, k :: 0 <= j < k < |cs| ==> cs[j].surah <= cs[k].surah
  }

  /** Every chunk's surah number lies between `lo` and `hi`. */
  predicate SurahsWithin(cs: seq<QuranChunk>, lo: nat, hi: nat) {
    forall k :: 0 <= k < |cs| ==> lo <= cs[k].surah <= hi
  }

  lemma AscendingAppend(a: seq<QuranChunk>, b: seq<QuranChunk>, n: nat)
    requires n >= 1 && SurahsAscending(a) && SurahsWithin(a, 1, n - 1)
    requires AllOfSurah(b, n)
    ensures SurahsAscending(a + b)
  {
    forall j, k | 0 <= j < k < |a + b| ensures (a + b)[j].surah <= (a + b)[k].surah {
      if k < |a| {
        assert (a + b)[j] == a[j] && (a + b)[k] == a[k];
      } else if j < |a| {
        assert (a + b)[j] == a[j] && (a + b)[k] == b[k - |a|];
      } else {
        assert (a + b)[j] == b[j - |a|] && (a + b)[k] == b[k - |a|];
      }
    }
  }

  lemma WithinAppend(a: seq<QuranChunk>, b: seq<QuranChunk>, n: nat)
    requires n >= 1 && SurahsWithin(a, 1, n - 1)
    requires AllOfSurah(b, n)
    ensures SurahsWithin(a + b, 1, n)
  {
    forall k | 0 <= k < |a + b| ensures 1 <= (a + b)[k].surah <= n {
      if k < |a| {
        assert (a + b)[k] == a[k];
      } else {
        assert (a + b)[k] == b[k - |a|];
      }
    }
  }

  /** Surahs are visited in ascending order: the chunks' surah numbers never decrease
      and lie between 1 and `n`. */
  lemma {:induction false} QuranChunksOrdered(raw: map<string, seq<QuranVerse>>, n: nat)
    ensures SurahsWithin(QuranChunksUpTo(raw, n), 1, n)
    ensures SurahsAscending(QuranChunksUpTo(raw, n))
  {
    if n > 0 {
      QuranChunksOrdered(raw, n - 1);
      var a := QuranChunksUpTo(raw, n - 1);
      var b := SurahChunks(raw, n);
      SurahChunksOfSurah(raw, n);
      assert QuranChunksUpTo(raw, n) == a + b;
      AscendingAppend(a, b, n);
      WithinAppend(a, b, n);
    }
  }

  /** `c` is a chunk of surah `s`'s verses in the input. */
  predicate FromSurah(raw: map<string, seq<QuranVerse>>, s: nat, c: QuranChunk) {
    c in SurahChunks(raw, s)
  }

  /** A chunk is produced exactly for a non-blank verse of one of the surahs 1 to `n`
      present in the input. */
  lemma QuranChunksMembership(raw: map<string, seq<QuranVerse>>, n: nat, c: QuranChunk)
    ensures c in QuranChunksUpTo(raw, n) <==> exists s :: 1 <= s <= n && FromSurah(raw, s, c)
  {
    var f := (s: nat) => SurahChunks(raw, s);
    QuranChunksUpToConcat(raw, n);
    ConcatUpToMembership(f, n, c);
    if c in QuranChunksUpTo(raw, n) {
      var s :| 1 <= s <= n && c in f(s);
      assert FromSurah(raw, s, c);
    }
    if exists s :: 1 <= s <= n && FromSurah(raw, s, c) {
      var s :| 1 <= s <= n && FromSurah(raw, s, c);
      assert c in f(s);
    }
  }

  /** The blocks `f(1)`, ..., `f(n)` one after the other. */
  function ConcatUpTo<T>(f: nat -> seq<T>, n: nat): seq<T> {
    if n == 0 then [] else ConcatUpTo(f, n - 1) + f(n)
  }

  /** An element of the concatenation is an element of one of its blocks. */
  lemma {:induction false} ConcatUpToMembership<T>(f: nat -> seq<T>, n: nat, x: T)
    ensures x in ConcatUpTo(f, n) <==> exists s :: 1 <= s <= n && x in f(s)
  {
    if n > 0 {
      ConcatUpToMembership(f, n - 1, x);
      if x in f(n) {
        assert 1 <= n <= n && x in f(n);
      }
      if exists s :: 1 <= s <= n && x in f(s) {
        var s :| 1 <= s <= n && x in f(s);
        if s < n {
          assert 1 <= s <= n - 1 && x in f(s);
        }
      }
    }
  }

  /** `chunkQuran`'s output is the concatenation of the surahs' blocks. */
  lemma {:induction false} QuranChunksUpToConcat(raw: map<string, seq<QuranVerse>>, n: nat)
    ensures QuranChunksUpTo(raw, n) == ConcatUpTo((s: nat) => SurahChunks(raw, s), n)
  {
    if n > 0 {
      QuranChunksUpToConcat(raw, n - 1);
    }
  }





  /** `c` is the chunk of a verse of surah `s` whose text is not blank. */
  predicate IsVerseChunk(raw: map<string, seq<QuranVerse>>, s: nat, c: QuranChunk) {
    NatToString(s) in raw &&
    exists k :: 0 <= k < |raw[NatToString(s)]| && Trim(raw[NatToString(s)][k].text) != ""
      && c == VerseChunk(s, SurahName(s), raw[NatToString(s)][k])
  }

  lemma FromSurahIff(raw: map<string, seq<QuranVerse>>, s: nat, c: QuranChunk)
    ensures FromSurah(raw, s, c) <==> IsVerseChunk(raw, s, c)
  {
    if NatToString(s) in raw {
      VerseChunksMembership(s, SurahName(s), raw[NatToString(s)], c);
    }
  }

  /** The script's Quran output: exactly one chunk per verse with non-blank text of
      the surahs 1 to 114 in the input, in ascending surah order. */
  lemma QuranChunksSpec(raw: map<string, seq<QuranVerse>>, c: QuranChunk)
    ensures c in QuranChunks(raw) <==> exists s :: 1 <= s <= SurahCount && IsVerseChunk(raw, s, c)
    ensures SurahsAscending(QuranChunks(raw)) && SurahsWithin(QuranChunks(raw), 1, SurahCount)
  {
    QuranChunksOrdered(raw, SurahCount);
    QuranChunksMembership(raw, SurahCount, c);
    if c in QuranChunks(raw) {
      var s :| 1 <= s <= SurahCount && FromSurah(raw, s, c);
      FromSurahIff(raw, s, c);
    }
    if exists s :: 1 <= s <= SurahCount && IsVerseChunk(raw, s, c) {
      var s :| 1 <= s <= SurahCount && IsVerseChunk(raw, s, c);
      FromSurahIff(raw, s, c);
    }
  }

  // ---- Hadith: shared helpers ----

  /** Hadith texts shorter than this are skipped in the edition files. */
  const MinHadithChars: nat := 10

  /** `(raw || "").trim().replace(/\s+/g, " ")`, a missing text being "". */
  function HadithText(raw: string): string {
    CollapseSpaces(Trim(raw))
  }

  /** `BOOK_LABELS[editionId] ?? editionId`. */
  function BookLabel(editionId: string): string {
    match Lookup(BookLabels, editionId)
    case Some(name) => name
    case None => editionId
  }

  /** `file.replace(".json", "")`: the first occurrence of `p` removed, if any. */
  function RemoveFirst(s: string, p: string): (r: string)
    decreases |s|
  {
    if |s| < |p| then s
    else if s[..|p|] == p then s[|p|..]
    else [s[0]] + RemoveFirst(s[1..], p)
  }

  /** The edition id of a file of the edition directory. */
  function EditionId(name: string): string {
    RemoveFirst(name, ".json")
  }

  /** Every chunk of the list carries the edition `e`. */
  predicate AllOfEdition(chunks: seq<HadithChunk>, e: string) {
    forall k :: 0 <= k < |chunks| ==> chunks[k].edition == e
  }

  /** `chunks.some((c) => c.edition === e)`. */
  predicate HasEdition(chunks: seq<HadithChunk>, e: string) {
    exists k :: 0 <= k < |chunks| && chunks[k].edition == e
  }

  // ---- Hadith: edition files ----

  /** One entry of an edition file's `hadiths`; a missing text is "". */
  datatype FawazHadith = FawazHadith(hadithNumber: Option<int>, text: string)

  /** One file of the edition directory: its name and its `hadiths` (`raw.hadiths ?? []`). */
  datatype EditionFile = EditionFile(name: string, hadiths: seq<FawazHadith>)

  /** `${label} ${h.hadithnumber ?? 0}`. */
  function FawazReference(bookLabel: string, h: FawazHadith): string {
    bookLabel + " " + IntToString(if h.hadithNumber.Some? then h.hadithNumber.value else 0)
  }

  /** A hadith of an edition file is kept when its cleaned text has at least ten characters. */
  predicate KeptFawaz(h: FawazHadith) {
    var text := HadithText(h.text);
    !(text == "" || |text| < MinHadithChars)
  }

  /** The chunks of one hadith of edition `editionId`. */
  function FawazHadithChunks(editionId: string, h: FawazHadith): seq<HadithChunk> {
    if KeptFawaz(h) then SplitLongTextSpec(HadithText(h.text), FawazReference(BookLabel(editionId), h), editionId)
    else []
  }

  /** `chunkFawazEdition`. */
  function FawazChunks(editionId: string, hadiths: seq<FawazHadith>): seq<HadithChunk> {
    if hadiths == [] then []
    else FawazChunks(editionId, hadiths[..|hadiths| - 1]) + FawazHadithChunks(editionId, hadiths[|hadiths| - 1])
  }

  /** `chunkFawazEdition(editionId, ...)` on the file's parsed hadiths. */
  method ChunkFawazEdition(editionId: string, hadiths: seq<FawazHadith>) returns (chunks: seq<HadithChunk>)
    ensures chunks == FawazChunks(editionId, hadiths)
  {
    var bookLabel := BookLabel(editionId);
    chunks := [];
    var i := 0;
    while i < |hadiths|
      invariant 0 <= i <= |hadiths|
      invariant chunks == FawazChunks(editionId, hadiths[..i])
    {
      var h := hadiths[i];
      assert hadiths[..i + 1][..i] == hadiths[..i];
      var text := HadithText(h.text);
      if !(text == "" || |text| < MinHadithChars) {
        var num := if h.hadithNumber.Some? then h.hadithNumber.value else 0;
        var more := SplitLongText(text, bookLabel + " " + IntToString(num), editionId);
        chunks := chunks + more;
      }
      i := i + 1;
    }
    assert hadiths[..|hadiths|] == hadiths;
  }

  /** The chunks of every edition file, in the order the files are visited. */
  function EditionChunks(files: seq<EditionFile>): seq<HadithChunk> {
    if files == [] then []
    else
      var f := files[|files| - 1];
      EditionChunks(files[..|files| - 1]) + FawazChunks(EditionId(f.name), f.hadiths)
  }

  // ---- Hadith: legacy Bukhari files ----

  /** One entry of a legacy book file; missing fields are "". */
  datatype LegacyHadith = LegacyHadith(reference: string, english: string, arabic: string)

  /** One JSON file of the legacy directory: its name and its entries. */
  datatype LegacyFile = LegacyFile(name: string, hadiths: seq<LegacyHadith>)

  /** `file.replace(/\D/g, "")`. */
  function DigitsOf(s: string): (r: string)
    ensures forall i :: 0 <= i < |r| ==> IsDigit(r[i])
  {
    if s == [] then []
    else DigitsOf(s[..|s| - 1]) + (if IsDigit(s[|s| - 1]) then [s[|s| - 1]] else [])
  }

  /** `parseInt(file.replace(/\D/g, ""), 10) || 0`: the book number of a file name. */
  function BookNumber(name: string): nat {
    DigitsValue(DigitsOf(name))
  }

  /** Every character of `s[a..b]` is a decimal digit. */
  predicate DigitsBetween(s: string, a: nat, b: nat)
    requires a <= b <= |s|
  {
    forall i :: a <= i < b ==> IsDigit(s[i])
  }

  /** Length of the run of digits of `s` that starts at index `k` (a greedy `\d+`). */
  function DigitRunFrom(s: string, k: nat): (n: nat)
    requires k <= |s|
    ensures k + n <= |s|
    ensures DigitsBetween(s, k, k + n)
    ensures k + n < |s| ==> !IsDigit(s[k + n])
    decreases |s| - k
  {
    if k < |s| && IsDigit(s[k]) then 1 + DigitRunFrom(s, k + 1) else 0
  }

  /** A non-empty string of decimal digits, as `\d+` captures. */
  predicate Digits(g: string) {
    |g| > 0 && forall k :: 0 <= k < |g| ==> IsDigit(g[k])
  }

  /** `s[i..i + |w|]` is the lower-case word `w` up to ASCII case, as `/i` compares. */
  predicate WordAt(s: string, i: nat, w: string)
    requires i <= |s|
  {
    i + |w| <= |s| && Lower(s[i..i + |w|]) == w
  }

  /** The pieces of the regular expressions the legacy references are matched against:
      a word compared up to ASCII case, `\s*`, a capturing `(\d+)` and one literal
      character. */
  datatype Token = Word(w: string) | Spaces | DigitGroup | Char(c: char)

  /** `/Book\s*(\d+)\s*,\s*Hadith\s*(\d+)/i`, in two halves. */
  const BookPattern: seq<Token> := [Word("book"), Spaces, DigitGroup]
  const HadithPattern: seq<Token> := [Spaces, Char(','), Spaces, Word("hadith"), Spaces, DigitGroup]
  const BookHadithPattern: seq<Token> := BookPattern + HadithPattern

  function GroupCount(toks: seq<Token>): nat {
    if toks == [] then 0 else (if toks[0] == DigitGroup then 1 else 0) + GroupCount(toks[1..])
  }

  /** Every captured string is a non-empty run of digits. */
  predicate AllDigits(groups: seq<string>) {
    forall k :: 0 <= k < |groups| ==> Digits(groups[k])
  }

  /** The tokens matched from index `pos` on: the captured groups when they match there.
      Each greedy `\s*` and `(\d+)` of the pattern is followed by a token that cannot
      match the character it stops at, so taking the longest run is the only way
      the whole pattern can match. */
  function MatchTokens(s: string, pos: nat, toks: seq<Token>): (r: Option<seq<string>>)
    requires pos <= |s|
    ensures r.Some? ==> |r.value| == GroupCount(toks)
    decreases |toks|
  {
    if toks == [] then Some([])
    else
      match toks[0]
      case Word(w) => if WordAt(s, pos, w) then MatchTokens(s, pos + |w|, toks[1..]) else None
      case Spaces => MatchTokens(s, pos + SpaceRunFrom(s, pos), toks[1..])
      case Char(c) => if pos < |s| && s[pos] == c then MatchTokens(s, pos + 1, toks[1..]) else None
      case DigitGroup =>
        var d := DigitRunFrom(s, pos);
        if d == 0 then None
        else
          var rest := MatchTokens(s, pos + d, toks[1..]);
          if rest.None? then None else Some([s[pos..pos + d]] + rest.value)
  }

  /** Every group the matcher captures is a non-empty run of digits. */
  lemma {:induction false} MatchTokensDigits(s: string, pos: nat, toks: seq<Token>)
    requires pos <= |s|
    ensures MatchTokens(s, pos, toks).Some? ==> AllDigits(MatchTokens(s, pos, toks).value)
    decreases |toks|
  {
    if toks != [] {
      match toks[0]
      case Word(w) =>
        if WordAt(s, pos, w) {
          MatchTokensDigits(s, pos + |w|, toks[1..]);
        }
      case Spaces => MatchTokensDigits(s, pos + SpaceRunFrom(s, pos), toks[1..]);
      case Char(c) =>
        if pos < |s| && s[pos] == c {
          MatchTokensDigits(s, pos + 1, toks[1..]);
        }
      case DigitGroup =>
        var d := DigitRunFrom(s, pos);
        if d > 0 {
          MatchTokensDigits(s, pos + d, toks[1..]);
          var r := MatchTokens(s, pos, toks);
          if r.Some? {
            var rest := MatchTokens(s, pos + d, toks[1..]).value;
            assert r.value == [s[pos..pos + d]] + rest;
            assert Digits(s[pos..pos + d]);
            assert forall k :: 1 <= k < |r.value| ==> r.value[k] == rest[k - 1];
          }
        }
    }
  }

  /** The pattern has two capturing groups. */
  lemma PatternGroups()
    ensures GroupCount(BookHadithPattern) == 2
  {
    var p := BookHadithPattern;
    assert p == [Word("book"), Spaces, DigitGroup, Spaces, Char(','), Spaces, Word("hadith"), Spaces, DigitGroup];
    assert GroupCount(p[9..]) == 0;
    assert GroupCount(p[8..]) == 1 by { assert p[8..][1..] == p[9..]; }
    assert GroupCount(p[7..]) == 1 by { assert p[7..][1..] == p[8..]; }
    assert GroupCount(p[6..]) == 1 by { assert p[6..][1..] == p[7..]; }
    assert GroupCount(p[5..]) == 1 by { assert p[5..][1..] == p[6..]; }
    assert GroupCount(p[4..]) == 1 by { assert p[4..][1..] == p[5..]; }
    assert GroupCount(p[3..]) == 1 by { assert p[3..][1..] == p[4..]; }
    assert GroupCount(p[2..]) == 2 by { assert p[2..][1..] == p[3..]; }
    assert GroupCount(p[1..]) == 2 by { assert p[1..][1..] == p[2..]; }
  }

  /** The Book/Hadith pattern tried at index `i`: the two captured numbers. */
  function BookHadithAt(s: string, i: nat): (r: Option<(string, string)>)
    requires i <= |s|
    ensures r.Some? ==> Digits(r.value.0) && Digits(r.value.1)
  {
    var m := MatchTokens(s, i, BookHadithPattern);
    PatternGroups();
    MatchTokensDigits(s, i, BookHadithPattern);
    if m.Some? then Some((m.value[0], m.value[1])) else None
  }

  /** `s.match(/Book.../i)` searching from index `i`: the leftmost match. */
  function FindBookHadith(s: string, i: nat): (r: Option<(string, string)>)
    requires i <= |s|
    ensures r.Some? ==> Digits(r.value.0) && Digits(r.value.1)
    decreases |s| - i
  {
    var m := BookHadithAt(s, i);
    if m.Some? || i == |s| then m else FindBookHadith(s, i + 1)
  }

  /** `s.match(/(\d+)/)?.[1]` searching from index `i`: the leftmost run of digits. */
  function FirstDigits(s: string, i: nat): (r: Option<string>)
    requires i <= |s|
    ensures r.Some? ==> |r.value| > 0 && forall k :: 0 <= k < |r.value| ==> IsDigit(r.value[k])
    decreases |s| - i
  {
    if i == |s| then None
    else if IsDigit(s[i]) then Some(s[i..i + DigitRunFrom(s, i)])
    else FirstDigits(s, i + 1)
  }

  /** Removing `\D` keeps exactly the digits of the name. */
  lemma {:induction false} DigitsOfMembership(s: string, c: char)
    ensures c in DigitsOf(s) <==> c in s && IsDigit(c)
  {
    if s != [] {
      var init := s[..|s| - 1];
      DigitsOfMembership(init, c);
      assert s == init + [s[|s| - 1]];
    }
  }

  /** The digits keep their order: those of `a + b` are those of `a`, then those of `b`. */
  lemma {:induction false} DigitsOfAppend(a: string, b: string)
    ensures DigitsOf(a + b) == DigitsOf(a) + DigitsOf(b)
    decreases |b|
  {
    if b == [] {
      assert a + b == a;
    } else {
      var b' := b[..|b| - 1];
      assert (a + b)[..|a + b| - 1] == a + b';
      assert (a + b)[|a + b| - 1] == b[|b| - 1];
      DigitsOfAppend(a, b');
    }
  }

  /** `(\d+)` finds the leftmost digit at or after `i` and captures the whole run of
      digits that starts there; it finds nothing exactly when there is no digit. */
  lemma {:induction false} FirstDigitsLeftmost(s: string, i: nat)
    requires i <= |s|
    ensures FirstDigits(s, i).None? <==> forall j :: i <= j < |s| ==> !IsDigit(s[j])
    ensures FirstDigits(s, i).Some? ==> exists j :: (i <= j < |s| && IsDigit(s[j])
      && (forall k :: i <= k < j ==> !IsDigit(s[k]))
      && FirstDigits(s, i).value == s[j..j + DigitRunFrom(s, j)])
    decreases |s| - i
  {
    if i < |s| && !IsDigit(s[i]) {
      FirstDigitsLeftmost(s, i + 1);
    }
  }

  /** The reference of a legacy hadith from its `reference` field and its file's book number. */
  function LegacyReference(raw: string, bookNum: nat): string {
    var s := Trim(raw);
    var bookHadith := FindBookHadith(s, 0);
    if bookHadith.Some? then "Book " + bookHadith.value.0 + ", Hadith " + bookHadith.value.1
    else
      var num := FirstDigits(s, 0);
      if num.Some? then NatToString(bookNum) + ":" + num.value
      else
        var head := s[..if |s| < 80 then |s| else 80];
        if head != "" then head else "Book " + NatToString(bookNum)
  }

  /** `(h.english || h.arabic || "")`, cleaned like every hadith text. */
  function LegacyText(h: LegacyHadith): string {
    HadithText(if h.english != "" then h.english else h.arabic)
  }

  function LegacyHadithChunks(bookNum: nat, h: LegacyHadith): seq<HadithChunk> {
    var text := LegacyText(h);
    if text == "" then [] else SplitLongTextSpec(text, LegacyReference(h.reference, bookNum), "eng-bukhari")
  }

  /** The chunks of one legacy book file. */
  function LegacyBookChunks(bookNum: nat, hadiths: seq<LegacyHadith>): seq<HadithChunk> {
    if hadiths == [] then []
    else LegacyBookChunks(bookNum, hadiths[..|hadiths| - 1]) + LegacyHadithChunks(bookNum, hadiths[|hadiths| - 1])
  }

  /** `chunkLegacyBukhari`, the JSON files given in the sorted order the script visits them. */
  function LegacyChunks(files: seq<LegacyFile>): seq<HadithChunk> {
    if files == [] then []
    else
      var f := files[|files| - 1];
      LegacyChunks(files[..|files| - 1]) + LegacyBookChunks(BookNumber(f.name), f.hadiths)
  }

  lemma LegacyBookChunksSnoc(bookNum: nat, hadiths: seq<LegacyHadith>, i: nat)
    requires i < |hadiths|
    ensures LegacyBookChunks(bookNum, hadiths[..i + 1])
      == LegacyBookChunks(bookNum, hadiths[..i]) + LegacyHadithChunks(bookNum, hadiths[i])
  {
    assert hadiths[..i + 1][..i] == hadiths[..i];
  }

  /** The body of the inner loop of `chunkLegacyBukhari`: the chunks of one entry. */
  method ChunkLegacyHadith(bookNum: nat, h: LegacyHadith) returns (more: seq<HadithChunk>)
    ensures more == LegacyHadithChunks(bookNum, h)
  {
    var text := HadithText(if h.english != "" then h.english else h.arabic);
    if text == "" {
      return [];
    }
    var reference := LegacyReference(h.reference, bookNum);
    more := SplitLongText(text, reference, "eng-bukhari");
  }

  /** The inner loop of `chunkLegacyBukhari` over one book file. */
  method ChunkLegacyBook(bookNum: nat, hadiths: seq<LegacyHadith>) returns (chunks: seq<HadithChunk>)
    ensures chunks == LegacyBookChunks(bookNum, hadiths)
  {
    chunks := [];
    var i := 0;
    while i < |hadiths|
      invariant 0 <= i <= |hadiths|
      invariant chunks == LegacyBookChunks(bookNum, hadiths[..i])
    {
      LegacyBookChunksSnoc(bookNum, hadiths, i);
      var more := ChunkLegacyHadith(bookNum, hadiths[i]);
      chunks := chunks + more;
      i := i + 1;
    }
    assert hadiths[..|hadiths|] == hadiths;
  }

  /** `chunkLegacyBukhari`. */
  method ChunkLegacyBukhari(files: seq<LegacyFile>) returns (chunks: seq<HadithChunk>)
    ensures chunks == LegacyChunks(files)
  {
    chunks := [];
    var i := 0;
    while i < |files|
      invariant 0 <= i <= |files|
      invariant chunks == LegacyChunks(files[..i])
    {
      assert files[..i + 1][..i] == files[..i];
      var bookNum := BookNumber(files[i].name);
      var more := ChunkLegacyBook(bookNum, files[i].hadiths);
      chunks := chunks + more;
      i := i + 1;
    }
    assert files[..|files|] == files;
  }

  // ---- Hadith: all editions ----

  /** `chunkAllHadith`: the edition files' chunks, then the legacy Bukhari chunks when
      no edition chunk is a Bukhari chunk. */
  function AllHadithChunks(editions: seq<EditionFile>, legacy: seq<LegacyFile>): seq<HadithChunk> {
    var chunks := EditionChunks(editions);
    if HasEdition(chunks, "eng-bukhari") then chunks else chunks + LegacyChunks(legacy)
  }

  method ChunkAllHadith(editions: seq<EditionFile>, legacy: seq<LegacyFile>) returns (chunks: seq<HadithChunk>)
    ensures chunks == AllHadithChunks(editions, legacy)
  {
    chunks := [];
    var i := 0;
    while i < |editions|
      invariant 0 <= i <= |editions|
      invariant chunks == EditionChunks(editions[..i])
    {
      assert editions[..i + 1][..i] == editions[..i];
      var more := ChunkFawazEdition(EditionId(editions[i].name), editions[i].hadiths);
      chunks := chunks + more;
      i := i + 1;
    }
    assert editions[..|editions|] == editions;
    if !HasEdition(chunks, "eng-bukhari") {
      var more := ChunkLegacyBukhari(legacy);
      chunks := chunks + more;
    }
  }

  // ---- Hadith properties: file names and references ----

  /** An edition file named after its edition id gives that id back. */
  lemma {:induction false} EditionIdOfFile(id: string)
    requires '.' !in id
    ensures EditionId(id + ".json") == id
  {
    var s := id + ".json";
    if id == [] {
      assert s[..5] == ".json";
    } else {
      assert s[..5] != ".json" by { assert s[0] == id[0]; assert s[..5][0] == s[0]; }
      assert s[1..] == id[1..] + ".json";
      EditionIdOfFile(id[1..]);
    }
  }

  /** A greedy run of digits ends exactly where the digits do. */
  lemma {:induction false} DigitRunOver(s: string, a: nat, d: nat)
    requires a + d <= |s| && DigitsBetween(s, a, a + d)
    requires a + d < |s| ==> !IsDigit(s[a + d])
    ensures DigitRunFrom(s, a) == d
    decreases d
  {
    if d > 0 {
      DigitRunOver(s, a + 1, d - 1);
    }
  }

  /** A run of whitespace of length one, followed by something else. */
  lemma OneSpace(s: string, a: nat)
    requires a + 1 < |s| && IsSpace(s[a]) && !IsSpace(s[a + 1])
    ensures SpaceRunFrom(s, a) == 1
  {
  }

  /** No match of the pattern starts at an index from `i` up to `j`. */
  predicate NoMatchBetween(s: string, i: nat, j: nat)
    requires i <= j <= |s|
  {
    forall k :: i <= k < j ==> BookHadithAt(s, k).None?
  }

  /** The leftmost match: `FindBookHadith` finds a match exactly when some index from
      `i` on has one, and then it is the match at the first such index. */
  lemma {:induction false} FindBookHadithLeftmost(s: string, i: nat)
    requires i <= |s|
    ensures FindBookHadith(s, i).Some? <==> exists j :: i <= j <= |s| && BookHadithAt(s, j).Some?
    ensures FindBookHadith(s, i).Some? ==>
      exists j :: (i <= j <= |s| && FindBookHadith(s, i) == BookHadithAt(s, j) && NoMatchBetween(s, i, j))
    decreases |s| - i
  {
    if BookHadithAt(s, i).Some? {
      assert NoMatchBetween(s, i, i);
    } else if i < |s| {
      FindBookHadithLeftmost(s, i + 1);
      if FindBookHadith(s, i).Some? {
        var j :| i + 1 <= j <= |s| && FindBookHadith(s, i + 1) == BookHadithAt(s, j) && NoMatchBetween(s, i + 1, j);
        assert NoMatchBetween(s, i, j);
      }
      if exists j :: i <= j <= |s| && BookHadithAt(s, j).Some? {
        var j :| i <= j <= |s| && BookHadithAt(s, j).Some?;
        assert j != i;
      }
    }
  }

  /** The normal form `Book <b>, Hadith <h>` that a matched reference is rewritten to. */
  function BookHadithForm(g1: string, g2: string): string {
    "Book " + g1 + ", Hadith " + g2
  }

  lemma BookHadithFormShape(g1: string, g2: string)
    requires Digits(g1) && Digits(g2)
    ensures var t := BookHadithForm(g1, g2);
      && |t| == 14 + |g1| + |g2|
      && t[..4] == "Book" && t[4] == ' ' && t[5..5 + |g1|] == g1
      && t[5 + |g1|] == ',' && t[6 + |g1|] == ' '
      && t[7 + |g1|..13 + |g1|] == "Hadith" && t[13 + |g1|] == ' '
      && t[14 + |g1|..] == g2
  {
  }

  /** The slice `s[a..b]` is a non-empty digit string. */
  lemma DigitsSlice(s: string, a: nat, b: nat)
    requires a < b <= |s| && Digits(s[a..b])
    ensures DigitsBetween(s, a, b)
  {
    forall i | a <= i < b ensures IsDigit(s[i]) {
      assert s[i] == s[a..b][i - a];
    }
  }

  lemma StepWord(s: string, pos: nat, w: string, rest: seq<Token>)
    requires pos <= |s| && WordAt(s, pos, w)
    ensures MatchTokens(s, pos, [Word(w)] + rest) == MatchTokens(s, pos + |w|, rest)
  {
    assert ([Word(w)] + rest)[1..] == rest;
  }

  lemma StepSpaces(s: string, pos: nat, rest: seq<Token>)
    requires pos <= |s|
    ensures MatchTokens(s, pos, [Spaces] + rest) == MatchTokens(s, pos + SpaceRunFrom(s, pos), rest)
  {
    assert ([Spaces] + rest)[1..] == rest;
  }

  lemma StepChar(s: string, pos: nat, c: char, rest: seq<Token>)
    requires pos < |s| && s[pos] == c
    ensures MatchTokens(s, pos, [Char(c)] + rest) == MatchTokens(s, pos + 1, rest)
  {
    assert ([Char(c)] + rest)[1..] == rest;
  }

  lemma StepGroup(s: string, pos: nat, d: nat, rest: seq<Token>)
    requires pos <= |s| && 0 < d && DigitRunFrom(s, pos) == d
    requires MatchTokens(s, pos + d, rest).Some?
    ensures MatchTokens(s, pos, [DigitGroup] + rest) == Some([s[pos..pos + d]] + MatchTokens(s, pos + d, rest).value)
  {
    assert ([DigitGroup] + rest)[1..] == rest;
  }

  lemma LastGroup(s: string, a: nat)
    requires a < |s| && Digits(s[a..])
    ensures MatchTokens(s, a, [DigitGroup]) == Some([s[a..]])
  {
    var d := |s| - a;
    var none: seq<Token> := [];
    var noGroups: seq<string> := [];
    DigitsSlice(s, a, |s|);
    DigitRunOver(s, a, d);
    assert MatchTokens(s, a + d, none) == Some(noGroups);
    StepGroup(s, a, d, none);
    assert [DigitGroup] + none == [DigitGroup];
    assert s[a..a + d] == s[a..];
    assert [s[a..a + d]] + noGroups == [s[a..]];
  }

  lemma WordBook(t: string)
    requires |t| >= 4 && t[..4] == "Book"
    ensures WordAt(t, 0, "book")
  {
    assert Lower(t[..4]) == Lower("Book");
  }

  lemma WordHadith(t: string, i: nat)
    requires i + 6 <= |t| && t[i..i + 6] == "Hadith"
    ensures WordAt(t, i, "hadith")
  {
    assert Lower(t[i..i + 6]) == Lower("Hadith");
  }

  /** `\s*,\s*Hadith\s*(\d+)` against `, Hadith <digits>` at index `c`. */
  lemma HadithTail(t: string, c: nat)
    requires c + 9 < |t|
    requires t[c] == ',' && t[c + 1] == ' ' && t[c + 2..c + 8] == "Hadith" && t[c + 8] == ' '
    requires Digits(t[c + 9..])
    ensures MatchTokens(t, c, HadithPattern) == Some([t[c + 9..]])
  {
    var p6: seq<Token> := [Word("hadith"), Spaces, DigitGroup];
    HadithWordTail(t, c + 2);
    assert t[c + 2] == t[c + 2..c + 8][0];
    CommaAt(t, c, p6, [t[c + 9..]]);
    assert [Spaces, Char(','), Spaces] + p6 == HadithPattern;
  }

  /** `\s*,\s*` against `, ` at index `c`, then the rest of the pattern. */
  lemma CommaAt(t: string, c: nat, rest: seq<Token>, g: seq<string>)
    requires c + 2 < |t| && t[c] == ',' && t[c + 1] == ' ' && !IsSpace(t[c + 2])
    requires MatchTokens(t, c + 2, rest) == Some(g)
    ensures MatchTokens(t, c, [Spaces, Char(','), Spaces] + rest) == Some(g)
  {
    var p5 := [Spaces] + rest;
    var p4 := [Char(',')] + p5;
    OneSpace(t, c + 1);
    StepSpaces(t, c + 1, rest);
    StepChar(t, c, ',', p5);
    assert SpaceRunFrom(t, c) == 0;
    StepSpaces(t, c, p4);
    assert [Spaces] + p4 == [Spaces, Char(','), Spaces] + rest;
  }


  /** `Hadith\s*(\d+)` against `Hadith <digits>` at index `a`. */
  lemma HadithWordTail(t: string, a: nat)
    requires a + 7 < |t|
    requires t[a..a + 6] == "Hadith" && t[a + 6] == ' '
    requires Digits(t[a + 7..])
    ensures MatchTokens(t, a, [Word("hadith"), Spaces, DigitGroup]) == Some([t[a + 7..]])
  {
    var p8: seq<Token> := [DigitGroup];
    var p7 := [Spaces] + p8;
    LastGroup(t, a + 7);
    OneSpace(t, a + 6);
    StepSpaces(t, a + 6, p8);
    WordHadith(t, a);
    StepWord(t, a, "hadith", p7);
    assert [Word("hadith")] + p7 == [Word("hadith"), Spaces, DigitGroup];
  }


  /** A capturing group over a maximal run of `n` digits, then the rest of the pattern. */
  lemma GroupAt(t: string, a: nat, n: nat, rest: seq<Token>, g: seq<string>)
    requires a + n <= |t| && n > 0 && Digits(t[a..a + n])
    requires a + n < |t| ==> !IsDigit(t[a + n])
    requires MatchTokens(t, a + n, rest) == Some(g)
    ensures MatchTokens(t, a, [DigitGroup] + rest) == Some([t[a..a + n]] + g)
  {
    DigitsSlice(t, a, a + n);
    DigitRunOver(t, a, n);
    StepGroup(t, a, n, rest);
  }

  /** `Book <digits>` followed by the tail of the pattern. */
  lemma BookHead(t: string, n: nat, p3: seq<Token>, g: seq<string>)
    requires 5 + n <= |t| && n > 0
    requires t[..4] == "Book" && t[4] == ' ' && Digits(t[5..5 + n])
    requires 5 + n < |t| ==> !IsDigit(t[5 + n])
    requires MatchTokens(t, 5 + n, p3) == Some(g)
    ensures MatchTokens(t, 0, BookPattern + p3) == Some([t[5..5 + n]] + g)
  {
    var p2 := [DigitGroup] + p3;
    var p1 := [Spaces] + p2;
    GroupAt(t, 5, n, p3, g);
    assert !IsSpace(t[5]) by { assert t[5] == t[5..5 + n][0]; }
    OneSpace(t, 4);
    StepSpaces(t, 4, p2);
    WordBook(t);
    StepWord(t, 0, "book", p1);
    assert [Word("book")] + p1 == BookPattern + p3;
  }

  /** The pattern matches a string of the normal form's shape at its start. */
  lemma BookHadithAtShape(t: string, n: nat, m: nat)
    requires |t| == 14 + n + m && n > 0
    requires t[..4] == "Book" && t[4] == ' ' && Digits(t[5..5 + n])
    requires t[5 + n] == ',' && t[6 + n] == ' '
    requires t[7 + n..13 + n] == "Hadith" && t[13 + n] == ' ' && Digits(t[14 + n..])
    ensures BookHadithAt(t, 0) == Some((t[5..5 + n], t[14 + n..]))
  {
    HadithTail(t, 5 + n);
    BookHead(t, n, HadithPattern, [t[14 + n..]]);
    BookHadithAtOfMatch(t, 0, [t[5..5 + n]] + [t[14 + n..]]);
  }

  lemma BookHadithAtOfMatch(s: string, i: nat, g: seq<string>)
    requires i <= |s| && |g| == 2 && MatchTokens(s, i, BookHadithPattern) == Some(g)
    ensures BookHadithAt(s, i) == Some((g[0], g[1]))
  {
  }

  /** The pattern matches the normal form at its start and captures the two numbers. */
  lemma BookHadithOfForm(g1: string, g2: string)
    requires Digits(g1) && Digits(g2)
    ensures FindBookHadith(BookHadithForm(g1, g2), 0) == Some((g1, g2))
  {
    BookHadithFormShape(g1, g2);
    BookHadithAtShape(BookHadithForm(g1, g2), |g1|, |g2|);
  }

  lemma LegacyReferenceOfMatch(raw: string, bookNum: nat)
    requires FindBookHadith(Trim(raw), 0).Some?
    ensures var m := FindBookHadith(Trim(raw), 0).value;
      LegacyReference(raw, bookNum) == BookHadithForm(m.0, m.1)
  {
  }

  /** A rewritten reference is in normal form: rewriting it again changes nothing,
      whatever the book number. */
  lemma LegacyReferenceIdempotent(raw: string, bookNum: nat, otherBook: nat)
    requires FindBookHadith(Trim(raw), 0).Some?
    ensures LegacyReference(LegacyReference(raw, bookNum), otherBook) == LegacyReference(raw, bookNum)
  {
    var m := FindBookHadith(Trim(raw), 0).value;
    LegacyReferenceOfMatch(raw, bookNum);
    var t := BookHadithForm(m.0, m.1);
    BookHadithFormShape(m.0, m.1);
    assert !IsSpace(t[|t| - 1]) by { assert t[|t| - 1] == m.1[|m.1| - 1]; }
    TrimOfTrimmed(t);
    BookHadithOfForm(m.0, m.1);
    LegacyReferenceOfMatch(t, otherBook);
  }

  /** Every legacy hadith gets a non-empty reference. */
  lemma LegacyReferenceNonEmpty(raw: string, bookNum: nat)
    ensures LegacyReference(raw, bookNum) != ""
  {
  }

  // ---- Hadith properties: chunks ----

  /** Every chunk carries the edition `e`, a non-empty reference and non-empty content. */
  predicate WellFormedChunks(chunks: seq<HadithChunk>, e: string) {
    forall k :: 0 <= k < |chunks| ==>
      chunks[k].edition == e && chunks[k].reference != "" && chunks[k].content != ""
  }

  lemma WellFormedAppend(a: seq<HadithChunk>, b: seq<HadithChunk>, e: string)
    requires WellFormedChunks(a, e) && WellFormedChunks(b, e)
    ensures WellFormedChunks(a + b, e)
  {
    forall k | 0 <= k < |a + b|
      ensures (a + b)[k].edition == e && (a + b)[k].reference != "" && (a + b)[k].content != ""
    {
      if k < |a| {
        assert (a + b)[k] == a[k];
      } else {
        assert (a + b)[k] == b[k - |a|];
      }
    }
  }

  lemma HasEditionAppend(a: seq<HadithChunk>, b: seq<HadithChunk>, e: string)
    ensures HasEdition(a + b, e) <==> HasEdition(a, e) || HasEdition(b, e)
  {
    if HasEdition(a + b, e) {
      var k :| 0 <= k < |a + b| && (a + b)[k].edition == e;
      if k < |a| {
        assert a[k] == (a + b)[k];
      } else {
        assert b[k - |a|] == (a + b)[k];
      }
    }
    if HasEdition(a, e) {
      var k :| 0 <= k < |a| && a[k].edition == e;
      assert (a + b)[k] == a[k];
    }
    if HasEdition(b, e) {
      var k :| 0 <= k < |b| && b[k].edition == e;
      assert (a + b)[|a| + k] == b[k];
    }
  }

  /** A cleaned text that is not empty starts with a non-whitespace character. */
  lemma HadithTextNotBlank(raw: string)
    requires HadithText(raw) != ""
    ensures !AllSpaces(HadithText(raw))
  {
    var r := HadithText(raw);
    CollapseSpacesSpec(Trim(raw));
    assert !IsSpace(r[0]);
  }

  /** The chunks of a text that is not blank: at least one, all with non-empty content. */
  lemma TextChunks(text: string, reference: string, edition: string)
    requires text != ""
    requires !AllSpaces(text)
    ensures SplitLongTextSpec(text, reference, edition) != []
    ensures forall k :: 0 <= k < |SplitLongTextSpec(text, reference, edition)| ==>
      SplitLongTextSpec(text, reference, edition)[k].content != ""
  {
    ChunksNonEmpty(text, reference, edition);
    if |text| <= HadithMaxChars {
      ShortTextIsOneChunk(text, reference, edition);
    }
  }

  /** One hadith of an edition file gives chunks exactly when it is kept, each with the
      edition, the edition's label and the hadith's number as reference, and non-empty
      content. */
  lemma FawazHadithChunksShape(editionId: string, h: FawazHadith)
    ensures KeptFawaz(h) <==> FawazHadithChunks(editionId, h) != []
    ensures WellFormedChunks(FawazHadithChunks(editionId, h), editionId)
    ensures AllOfEdition(FawazHadithChunks(editionId, h), editionId)
    ensures forall k :: 0 <= k < |FawazHadithChunks(editionId, h)| ==>
      FawazHadithChunks(editionId, h)[k].reference == FawazReference(BookLabel(editionId), h)
  {
    if KeptFawaz(h) {
      HadithTextNotBlank(h.text);
      TextChunks(HadithText(h.text), FawazReference(BookLabel(editionId), h), editionId);
    }
  }

  /** An edition file's chunks all carry its edition, a reference and content. */
  lemma {:induction false} FawazChunksWellFormed(editionId: string, hadiths: seq<FawazHadith>)
    ensures WellFormedChunks(FawazChunks(editionId, hadiths), editionId)
  {
    if hadiths != [] {
      FawazChunksWellFormed(editionId, hadiths[..|hadiths| - 1]);
      FawazHadithChunksShape(editionId, hadiths[|hadiths| - 1]);
      WellFormedAppend(FawazChunks(editionId, hadiths[..|hadiths| - 1]),
        FawazHadithChunks(editionId, hadiths[|hadiths| - 1]), editionId);
    }
  }

  /** Some hadith of the list is kept. */
  predicate HasKept(hadiths: seq<FawazHadith>) {
    exists i :: 0 <= i < |hadiths| && KeptFawaz(hadiths[i])
  }

  /** Appending chunks of edition `id`, present exactly when `kept` holds. */
  lemma HasEditionSnoc(a: seq<HadithChunk>, b: seq<HadithChunk>, kept: bool, id: string, e: string)
    requires AllOfEdition(b, id) && (b != [] <==> kept)
    ensures HasEdition(a + b, e) <==> HasEdition(a, e) || (e == id && kept)
  {
    HasEditionAppend(a, b, e);
    if kept && e == id {
      assert b[0].edition == e;
    }
  }

  lemma FawazChunksSnoc(editionId: string, hadiths: seq<FawazHadith>)
    requires hadiths != []
    ensures FawazChunks(editionId, hadiths)
      == FawazChunks(editionId, hadiths[..|hadiths| - 1]) + FawazHadithChunks(editionId, hadiths[|hadiths| - 1])
  {
  }

  lemma HasKeptSnoc(hadiths: seq<FawazHadith>)
    requires hadiths != []
    ensures HasKept(hadiths) <==> HasKept(hadiths[..|hadiths| - 1]) || KeptFawaz(hadiths[|hadiths| - 1])
  {
    var n := |hadiths| - 1;
    var init := hadiths[..n];
    forall i | 0 <= i < n
      ensures init[i] == hadiths[i]
    {
    }
  }


  /** An edition file yields a chunk of edition `e` exactly when `e` is its edition and
      one of its hadiths is kept. */
  lemma {:induction false} FawazHasEdition(editionId: string, hadiths: seq<FawazHadith>, e: string)
    ensures HasEdition(FawazChunks(editionId, hadiths), e) <==> e == editionId && HasKept(hadiths)
  {
    if hadiths != [] {
      var init := hadiths[..|hadiths| - 1];
      var h := hadiths[|hadiths| - 1];
      FawazHasEdition(editionId, init, e);
      FawazHadithChunksShape(editionId, h);
      FawazChunksSnoc(editionId, hadiths);
      HasKeptSnoc(hadiths);
      HasEditionSnoc(FawazChunks(editionId, init), FawazHadithChunks(editionId, h), KeptFawaz(h), editionId, e);
    }
  }

  /** Some edition file is for edition `e` and has a kept hadith. */
  predicate HasEditionFile(files: seq<EditionFile>, e: string) {
    exists j :: 0 <= j < |files| && EditionId(files[j].name) == e && HasKept(files[j].hadiths)
  }

  lemma EditionChunksSnoc(files: seq<EditionFile>)
    requires files != []
    ensures var f := files[|files| - 1];
      EditionChunks(files) == EditionChunks(files[..|files| - 1]) + FawazChunks(EditionId(f.name), f.hadiths)
  {
  }

  lemma HasEditionFileSnoc(files: seq<EditionFile>, e: string)
    requires files != []
    ensures var f := files[|files| - 1];
      HasEditionFile(files, e) <==> HasEditionFile(files[..|files| - 1], e) || (EditionId(f.name) == e && HasKept(f.hadiths))
  {
    var n := |files| - 1;
    var init := files[..n];
    forall j | 0 <= j < n
      ensures init[j] == files[j]
    {
    }
  }


  /** The edition files yield a chunk of edition `e` exactly when one of them is for `e`
      and has a kept hadith. */
  lemma {:induction false} EditionChunksHaveEdition(files: seq<EditionFile>, e: string)
    ensures HasEdition(EditionChunks(files), e) <==> HasEditionFile(files, e)
  {
    if files != [] {
      var init := files[..|files| - 1];
      var f := files[|files| - 1];
      EditionChunksHaveEdition(init, e);
      FawazHasEdition(EditionId(f.name), f.hadiths, e);
      EditionChunksSnoc(files);
      HasEditionFileSnoc(files, e);
      HasEditionAppend(EditionChunks(init), FawazChunks(EditionId(f.name), f.hadiths), e);
    }
  }

  /** The legacy Bukhari files are used exactly when no edition file is the Bukhari
      edition with a kept hadith. */
  lemma LegacyFallback(editions: seq<EditionFile>, legacy: seq<LegacyFile>)
    ensures HasEditionFile(editions, "eng-bukhari") ==> AllHadithChunks(editions, legacy) == EditionChunks(editions)
    ensures !HasEditionFile(editions, "eng-bukhari") ==>
      AllHadithChunks(editions, legacy) == EditionChunks(editions) + LegacyChunks(legacy)
  {
    EditionChunksHaveEdition(editions, "eng-bukhari");
  }

  /** One legacy entry gives chunks exactly when its text is not blank, all Bukhari
      chunks with a reference and content. */
  lemma LegacyHadithChunksShape(bookNum: nat, h: LegacyHadith)
    ensures LegacyText(h) != "" <==> LegacyHadithChunks(bookNum, h) != []
    ensures WellFormedChunks(LegacyHadithChunks(bookNum, h), "eng-bukhari")
  {
    if LegacyText(h) != "" {
      var text := LegacyText(h);
      HadithTextNotBlank(if h.english != "" then h.english else h.arabic);
      LegacyReferenceNonEmpty(h.reference, bookNum);
      TextChunks(text, LegacyReference(h.reference, bookNum), "eng-bukhari");
    }
  }

  lemma {:induction false} LegacyBookChunksWellFormed(bookNum: nat, hadiths: seq<LegacyHadith>)
    ensures WellFormedChunks(LegacyBookChunks(bookNum, hadiths), "eng-bukhari")
  {
    if hadiths != [] {
      var init := hadiths[..|hadiths| - 1];
      LegacyBookChunksWellFormed(bookNum, init);
      LegacyHadithChunksShape(bookNum, hadiths[|hadiths| - 1]);
      WellFormedAppend(LegacyBookChunks(bookNum, init), LegacyHadithChunks(bookNum, hadiths[|hadiths| - 1]), "eng-bukhari");
    }
  }

  /** Every legacy chunk is a Bukhari chunk with a reference and content. */
  lemma {:induction false} LegacyChunksWellFormed(files: seq<LegacyFile>)
    ensures WellFormedChunks(LegacyChunks(files), "eng-bukhari")
  {
    if files != [] {
      var init := files[..|files| - 1];
      var f := files[|files| - 1];
      LegacyChunksWellFormed(init);
      LegacyBookChunksWellFormed(BookNumber(f.name), f.hadiths);
      WellFormedAppend(LegacyChunks(init), LegacyBookChunks(BookNumber(f.name), f.hadiths), "eng-bukhari");
    }
  }
}
