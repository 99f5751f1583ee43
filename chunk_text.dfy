/**
 * The splitting of one long hadith text into embedding chunks: the sentence
 * split by the pattern `[^.!?]+[.!?]+` and the greedy packing of consecutive
 * sentences into chunks of at most 6000 characters.
 */
module ChunkText {
  import opened Text

  const HadithMaxChars: nat := 6000

  /** One hadith chunk: its text, its citation and its edition id. */
  datatype HadithChunk = HadithChunk(content: string, reference: string, edition: string)

  predicate IsTerminator(c: char) {
    c == '.' || c == '!' || c == '?'
  }

  /** The string ends with a terminator. */
  predicate Terminated(s: string) {
    |s| > 0 && IsTerminator(s[|s| - 1])
  }

  /** Length of the run of non-terminators of `s` that starts at index `k`. */
  function PlainRun(s: string, k: nat): (n: nat)
    requires k <= |s|
    ensures k + n <= |s|
    decreases |s| - k
  {
    if k < |s| && !IsTerminator(s[k]) then 1 + PlainRun(s, k + 1) else 0
  }

  /** Length of the run of terminators of `s` that starts at index `k`. */
  function TerminatorRun(s: string, k: nat): (n: nat)
    requires k <= |s|
    ensures k + n <= |s|
    decreases |s| - k
  {
    if k < |s| && IsTerminator(s[k]) then 1 + TerminatorRun(s, k + 1) else 0
  }

  /** A plain run ends at a terminator or at the end of the text. */
  lemma {:induction false} PlainRunEnds(s: string, k: nat)
    requires k <= |s|
    ensures PlainRun(s, k) > 0 ==> !IsTerminator(s[k + PlainRun(s, k) - 1])
    ensures k + PlainRun(s, k) < |s| ==> IsTerminator(s[k + PlainRun(s, k)])
    decreases |s| - k
  {
    if k < |s| && !IsTerminator(s[k]) {
      PlainRunEnds(s, k + 1);
    }
  }

  /** A terminator run ends at a plain character or at the end of the text. */
  lemma {:induction false} TerminatorRunEnds(s: string, k: nat)
    requires k <= |s|
    ensures TerminatorRun(s, k) > 0 ==> IsTerminator(s[k + TerminatorRun(s, k) - 1])
    ensures k + TerminatorRun(s, k) < |s| ==> !IsTerminator(s[k + TerminatorRun(s, k)])
    decreases |s| - k
  {
    if k < |s| && IsTerminator(s[k]) {
      TerminatorRunEnds(s, k + 1);
    }
  }

  /** The matches of `/[^.!?]+[.!?]+/g` in `s` from index `i` on: a terminator where a
      match would start is skipped, and a final run without a terminator is not a match. */
  function MatchesFrom(s: string, i: nat): seq<string>
    requires i <= |s|
    decreases |s| - i
  {
    if i == |s| then []
    else if IsTerminator(s[i]) then MatchesFrom(s, i + 1)
    else
      var j := i + PlainRun(s, i);
      if j == |s| then []
      else
        var k := j + TerminatorRun(s, j);
        [s[i..k]] + MatchesFrom(s, k)
  }

  /** `text.match(/[^.!?]+[.!?]+/g) ?? [text]`. */
  function Sentences(text: string): (r: seq<string>)
    ensures |r| > 0
    ensures r == [text] || AllSentences(r)
  {
    MatchShape(text, 0);
    var m := MatchesFrom(text, 0);
    if m == [] then [text] else m
  }

  /** The strings one after the other. */
  function Concat(parts: seq<string>): string {
    if parts == [] then "" else Concat(parts[..|parts| - 1]) + parts[|parts| - 1]
  }

  /** The groups one after the other. */
  function Flatten(groups: seq<seq<string>>): seq<string> {
    if groups == [] then [] else Flatten(groups[..|groups| - 1]) + groups[|groups| - 1]
  }

  /** The state of `splitLongText`'s loop after the given sentences: the groups of
      sentences already pushed as chunks and the group accumulated in `acc`. */
  function Pack(sentences: seq<string>): (seq<seq<string>>, seq<string>) {
    if sentences == [] then ([], [])
    else
      var p := Pack(sentences[..|sentences| - 1]);
      var s := sentences[|sentences| - 1];
      if |Concat(p.1)| + |s| > HadithMaxChars && |Concat(p.1)| > 0 then (p.0 + [p.1], [s])
      else (p.0, p.1 + [s])
  }

  /** The chunks for closed groups: each group's text, trimmed. */
  function ChunksOf(groups: seq<seq<string>>, reference: string, edition: string): (r: seq<HadithChunk>)
    ensures |r| == |groups|
    ensures forall g :: 0 <= g < |r| ==> r[g].reference == reference && r[g].edition == edition
  {
    if groups == [] then []
    else
      ChunksOf(groups[..|groups| - 1], reference, edition)
        + [HadithChunk(Trim(Concat(groups[|groups| - 1])), reference, edition)]
  }

  /** `splitLongText`: a text of at most 6000 characters is one chunk as it is; a longer
      one is split into sentences, packed greedily, and every closed group is trimmed and
      pushed, the last group only when it is not blank. */
  function SplitLongTextSpec(text: string, reference: string, edition: string): (r: seq<HadithChunk>)
    ensures forall k :: 0 <= k < |r| ==> r[k].reference == reference && r[k].edition == edition
  {
    if |text| <= HadithMaxChars then [HadithChunk(text, reference, edition)]
    else
      var p := Pack(Sentences(text));
      var last := Trim(Concat(p.1));
      ChunksOf(p.0, reference, edition) + (if last != "" then [HadithChunk(last, reference, edition)] else [])
  }

  /** The loop of `splitLongText` over the sentences, accumulating `acc`. */
  method PackSentences(sentences: seq<string>, reference: string, edition: string)
    returns (chunks: seq<HadithChunk>, acc: string)
    ensures chunks == ChunksOf(Pack(sentences).0, reference, edition)
    ensures acc == Concat(Pack(sentences).1)
  {
    chunks := [];
    acc := "";
    var i := 0;
    while i < |sentences|
      invariant 0 <= i <= |sentences|
      invariant chunks == ChunksOf(Pack(sentences[..i]).0, reference, edition)
      invariant acc == Concat(Pack(sentences[..i]).1)
    {
      var s := sentences[i];
      ghost var p := Pack(sentences[..i]);
      PackStep(sentences, i);
      if |acc| + |s| > HadithMaxChars && |acc| > 0 {
        ChunksOfSnoc(p.0, p.1, reference, edition);
        ConcatSnoc([], s);
        chunks := chunks + [HadithChunk(Trim(acc), reference, edition)];
        acc := "";
      } else {
        ConcatSnoc(p.1, s);
      }
      acc := acc + s;
      i := i + 1;
    }
    assert sentences[..|sentences|] == sentences;
  }

  /** One turn of the loop, as `Pack` sees it. */
  lemma PackStep(sentences: seq<string>, i: nat)
    requires i < |sentences|
    ensures var p := Pack(sentences[..i]);
      var s := sentences[i];
      Pack(sentences[..i + 1])
        == if |Concat(p.1)| + |s| > HadithMaxChars && |Concat(p.1)| > 0 then (p.0 + [p.1], [s])
           else (p.0, p.1 + [s])
  {
    assert sentences[..i + 1][..i] == sentences[..i];
  }

  lemma ChunksOfSnoc(groups: seq<seq<string>>, group: seq<string>, reference: string, edition: string)
    ensures ChunksOf(groups + [group], reference, edition)
      == ChunksOf(groups, reference, edition) + [HadithChunk(Trim(Concat(group)), reference, edition)]
  {
    assert (groups + [group])[..|groups|] == groups;
  }

  lemma ConcatSnoc(parts: seq<string>, s: string)
    ensures Concat(parts + [s]) == Concat(parts) + s
  {
    assert (parts + [s])[..|parts|] == parts;
  }

  /** `splitLongText(text, reference, edition)`. */
  method SplitLongText(text: string, reference: string, edition: string) returns (chunks: seq<HadithChunk>)
    ensures chunks == SplitLongTextSpec(text, reference, edition)
  {
    if |text| <= HadithMaxChars {
      return [HadithChunk(text, reference, edition)];
    }
    var acc;
    chunks, acc := PackSentences(Sentences(text), reference, edition);
    if Trim(acc) != "" {
      chunks := chunks + [HadithChunk(Trim(acc), reference, edition)];
    }
  }

  // ---- Properties ----

  /** A text within the limit is a single chunk holding the text unchanged. */
  lemma ShortTextIsOneChunk(text: string, reference: string, edition: string)
    requires |text| <= HadithMaxChars
    ensures SplitLongTextSpec(text, reference, edition) == [HadithChunk(text, reference, edition)]
  {
  }

  /** Appending a string appends to the concatenation. */
  lemma {:induction false} ConcatAppend(a: seq<string>, b: seq<string>)
    ensures Concat(a + b) == Concat(a) + Concat(b)
    decreases |b|
  {
    if b == [] {
      assert a + b == a;
    } else {
      var b' := b[..|b| - 1];
      assert (a + b)[..|a + b| - 1] == a + b';
      ConcatAppend(a, b');
    }
  }

  /** Where a match starts and a terminator follows, the first match runs to the end
      of the terminator run. */
  lemma MatchAt(s: string, i: nat, k: nat)
    requires i < |s| && !IsTerminator(s[i]) && i + PlainRun(s, i) < |s|
    requires k == i + PlainRun(s, i) + TerminatorRun(s, i + PlainRun(s, i))
    ensures MatchesFrom(s, i) == [s[i..k]] + MatchesFrom(s, k)
  {
  }

  /** A terminator where a match would start is skipped. */
  lemma MatchSkip(s: string, i: nat)
    requires i < |s| && IsTerminator(s[i])
    ensures MatchesFrom(s, i) == MatchesFrom(s, i + 1)
  {
  }

  /** A sentence as the pattern matches it: a plain character first, a terminator last. */
  predicate IsSentence(x: string) {
    |x| >= 2 && !IsTerminator(x[0]) && Terminated(x)
  }

  predicate AllSentences(m: seq<string>) {
    forall k :: 0 <= k < |m| ==> IsSentence(m[k])
  }

  lemma AllSentencesCons(x: string, m: seq<string>)
    requires IsSentence(x) && AllSentences(m)
    ensures AllSentences([x] + m)
  {
    assert forall k :: 1 <= k < |[x] + m| ==> ([x] + m)[k] == m[k - 1];
  }

  /** A slice from a plain character to a terminator is a sentence. */
  lemma SentenceSlice(s: string, i: nat, k: nat)
    requires i < k <= |s| && !IsTerminator(s[i]) && IsTerminator(s[k - 1])
    ensures IsSentence(s[i..k])
  {
    assert s[i..k][0] == s[i];
    assert s[i..k][k - i - 1] == s[k - 1];
  }

  /** The first match from a plain character runs from it to the last terminator of
      the run that follows. */
  lemma FirstMatchBounds(s: string, i: nat)
    requires i < |s| && !IsTerminator(s[i]) && i + PlainRun(s, i) < |s|
    ensures var k := i + PlainRun(s, i) + TerminatorRun(s, i + PlainRun(s, i));
      i < k <= |s| && IsTerminator(s[k - 1])
  {
    var j := i + PlainRun(s, i);
    PlainRunEnds(s, i);
    TerminatorRunEnds(s, j);
  }

  /** Every match is a run of plain characters followed by a run of terminators. */
  lemma {:induction false} MatchShape(s: string, i: nat)
    requires i <= |s|
    ensures AllSentences(MatchesFrom(s, i))
    decreases |s| - i
  {
    if i < |s| {
      if IsTerminator(s[i]) {
        MatchSkip(s, i);
        MatchShape(s, i + 1);
      } else if i + PlainRun(s, i) < |s| {
        var j := i + PlainRun(s, i);
        var k := j + TerminatorRun(s, j);
        MatchAt(s, i, k);
        MatchShape(s, k);
        FirstMatchBounds(s, i);
        SentenceSlice(s, i, k);
        AllSentencesCons(s[i..k], MatchesFrom(s, k));
      }
    }
  }

  lemma SliceSplit(s: string, i: nat, k: nat)
    requires i <= k <= |s|
    ensures s[i..k] + s[k..] == s[i..]
  {
  }

  lemma ConcatCons(x: string, xs: seq<string>)
    ensures Concat([x] + xs) == x + Concat(xs)
  {
    ConcatAppend([x], xs);
    assert [x][..0] == [];
  }

  /** The groups are consecutive runs of the sentences, in order and each sentence once;
      a group is closed only when it is not empty, and the open group ends with the
      latest sentence. */
  lemma PackSpec(sentences: seq<string>)
    ensures Flatten(Pack(sentences).0) + Pack(sentences).1 == sentences
    ensures ClosedGroupsNonEmpty(Pack(sentences).0)
    ensures sentences != [] ==>
      Pack(sentences).1 != [] && Pack(sentences).1[|Pack(sentences).1| - 1] == sentences[|sentences| - 1]
  {
    PackCovers(sentences);
    PackClosesNonEmpty(sentences);
    if sentences != [] {
      PackOpenGroupEnds(sentences);
    }
  }

  /** Every closed group has some text. */
  predicate ClosedGroupsNonEmpty(groups: seq<seq<string>>) {
    forall g :: 0 <= g < |groups| ==> |Concat(groups[g])| > 0
  }

  lemma FlattenSnoc(groups: seq<seq<string>>, group: seq<string>)
    ensures Flatten(groups + [group]) == Flatten(groups) + group
  {
    assert (groups + [group])[..|groups|] == groups;
  }

  /** The groups, then the open group, are the sentences. */
  lemma {:induction false} PackCovers(sentences: seq<string>)
    ensures Flatten(Pack(sentences).0) + Pack(sentences).1 == sentences
  {
    if sentences != [] {
      var init := sentences[..|sentences| - 1];
      var s := sentences[|sentences| - 1];
      PackCovers(init);
      var p := Pack(init);
      assert init + [s] == sentences;
      if |Concat(p.1)| + |s| > HadithMaxChars && |Concat(p.1)| > 0 {
        FlattenSnoc(p.0, p.1);
        assert Pack(sentences) == (p.0 + [p.1], [s]);
      } else {
        assert Pack(sentences) == (p.0, p.1 + [s]);
        assert Flatten(p.0) + (p.1 + [s]) == (Flatten(p.0) + p.1) + [s];
      }
    }
  }

  /** A group is closed only when it has some text. */
  lemma {:induction false} PackClosesNonEmpty(sentences: seq<string>)
    ensures ClosedGroupsNonEmpty(Pack(sentences).0)
  {
    if sentences != [] {
      var init := sentences[..|sentences| - 1];
      var s := sentences[|sentences| - 1];
      PackClosesNonEmpty(init);
      var p := Pack(init);
      if |Concat(p.1)| + |s| > HadithMaxChars && |Concat(p.1)| > 0 {
        assert Pack(sentences).0 == p.0 + [p.1];
        ClosedGroupsSnoc(p.0, p.1);
      }
    }
  }

  lemma ClosedGroupsSnoc(groups: seq<seq<string>>, group: seq<string>)
    requires ClosedGroupsNonEmpty(groups) && |Concat(group)| > 0
    ensures ClosedGroupsNonEmpty(groups + [group])
  {
    assert forall g :: 0 <= g < |groups| ==> (groups + [group])[g] == groups[g];
  }

  /** The open group ends with the latest sentence. */
  lemma PackOpenGroupEnds(sentences: seq<string>)
    requires sentences != []
    ensures Pack(sentences).1 != [] && Pack(sentences).1[|Pack(sentences).1| - 1] == sentences[|sentences| - 1]
  {
  }

  /** The matches of a text that runs from a non-terminator to a final terminator are
      the whole text, cut into sentences. */
  lemma {:induction false} MatchesCoverTerminatedText(s: string, i: nat)
    requires i <= |s|
    requires i < |s| ==> !IsTerminator(s[i]) && IsTerminator(s[|s| - 1])
    ensures Concat(MatchesFrom(s, i)) == s[i..]
    decreases |s| - i
  {
    if i < |s| {
      var k := FirstMatchEnd(s, i);
      MatchesCoverTerminatedText(s, k);
      SliceSplit(s, i, k);
      CoverStep(s[i..k], MatchesFrom(s, k), MatchesFrom(s, i), s[k..], s[i..]);
    }
  }

  /** In a text that ends with a terminator, the match that starts at a plain character
      ends at a plain character or at the end of the text. */
  lemma FirstMatchEnd(s: string, i: nat) returns (k: nat)
    requires i < |s| && !IsTerminator(s[i]) && IsTerminator(s[|s| - 1])
    ensures i < k <= |s|
    ensures k < |s| ==> !IsTerminator(s[k])
    ensures MatchesFrom(s, i) == [s[i..k]] + MatchesFrom(s, k)
  {
    var j := i + PlainRun(s, i);
    PlainRunEnds(s, i);
    k := j + TerminatorRun(s, j);
    FirstMatchBounds(s, i);
    TerminatorRunEnds(s, j);
    MatchAt(s, i, k);
  }

  /** A first part followed by parts that cover the rest covers the whole. */
  lemma CoverStep(x: string, rest: seq<string>, parts: seq<string>, tail: string, whole: string)
    requires parts == [x] + rest && Concat(rest) == tail && x + tail == whole
    ensures Concat(parts) == whole
  {
    ConcatCons(x, rest);
  }

  /** No character of `t` is a terminator. */
  predicate NoTerminator(t: string) {
    forall k :: 0 <= k < |t| ==> !IsTerminator(t[k])
  }

  /** Text after the last terminator is dropped: appending a tail without a terminator
      to a text that ends with one leaves its matches unchanged. */
  lemma {:induction false} UnterminatedTailDropped(s: string, t: string, i: nat)
    requires i <= |s|
    requires |s| > 0 ==> IsTerminator(s[|s| - 1])
    requires NoTerminator(t)
    ensures MatchesFrom(s + t, i) == MatchesFrom(s, i)
    decreases |s| - i
  {
    if i == |s| {
      TailHasNoMatch(s, t);
    } else if IsTerminator(s[i]) {
      SkipInBoth(s, t, i);
      UnterminatedTailDropped(s, t, i + 1);
    } else {
      var k := MatchInBoth(s, t, i);
      UnterminatedTailDropped(s, t, k);
    }
  }

  lemma TailHasNoMatch(s: string, t: string)
    requires NoTerminator(t)
    ensures MatchesFrom(s + t, |s|) == []
  {
    var u := s + t;
    forall k | |s| <= k < |u| ensures !IsTerminator(u[k]) {
      assert u[k] == t[k - |s|];
    }
    NoTerminatorNoMatch(u, |s|);
  }

  lemma SkipInBoth(s: string, t: string, i: nat)
    requires i < |s| && IsTerminator(s[i])
    ensures MatchesFrom(s + t, i) == MatchesFrom(s + t, i + 1)
    ensures MatchesFrom(s, i) == MatchesFrom(s, i + 1)
  {
    assert (s + t)[i] == s[i];
    MatchSkip(s + t, i);
    MatchSkip(s, i);
  }

  /** A match that starts inside `s` ends inside `s`, and is the same match in `s + t`. */
  lemma MatchInBoth(s: string, t: string, i: nat) returns (k: nat)
    requires i < |s| && !IsTerminator(s[i]) && IsTerminator(s[|s| - 1])
    requires NoTerminator(t)
    ensures i < k <= |s|
    ensures MatchesFrom(s + t, i) == [s[i..k]] + MatchesFrom(s + t, k)
    ensures MatchesFrom(s, i) == [s[i..k]] + MatchesFrom(s, k)
  {
    var j := i + PlainRun(s, i);
    k := j + TerminatorRun(s, j);
    RunsAgree(s, t, i);
    FirstMatchBounds(s, i);
    assert (s + t)[i] == s[i];
    MatchAt(s + t, i, k);
    MatchAt(s, i, k);
    SlicePrefix(s, t, i, k);
  }

  lemma RunsAgree(s: string, t: string, i: nat)
    requires i < |s| && IsTerminator(s[|s| - 1])
    requires NoTerminator(t)
    ensures i + PlainRun(s, i) < |s|
    ensures PlainRun(s + t, i) == PlainRun(s, i)
    ensures TerminatorRun(s + t, i + PlainRun(s, i)) == TerminatorRun(s, i + PlainRun(s, i))
  {
    PlainRunEnds(s, i);
    PlainRunPrefix(s, t, i);
    TerminatorRunPrefix(s, t, i + PlainRun(s, i));
  }

  lemma SlicePrefix(s: string, t: string, i: nat, k: nat)
    requires i <= k <= |s|
    ensures (s + t)[i..k] == s[i..k]
  {
  }

  /** A run without terminators is one run of plain characters. */
  lemma {:induction false} PlainRunToEnd(s: string, i: nat)
    requires i <= |s|
    requires forall k :: i <= k < |s| ==> !IsTerminator(s[k])
    ensures i + PlainRun(s, i) == |s|
    decreases |s| - i
  {
    if i < |s| {
      PlainRunToEnd(s, i + 1);
    }
  }

  /** No match starts in a part of the text without terminators. */
  lemma NoTerminatorNoMatch(s: string, i: nat)
    requires i <= |s|
    requires forall k :: i <= k < |s| ==> !IsTerminator(s[k])
    ensures MatchesFrom(s, i) == []
  {
    PlainRunToEnd(s, i);
  }

  lemma {:induction false} PlainRunPrefix(s: string, t: string, i: nat)
    requires i < |s| && IsTerminator(s[|s| - 1])
    ensures PlainRun(s + t, i) == PlainRun(s, i)
    decreases |s| - i
  {
    assert (s + t)[i] == s[i];
    if !IsTerminator(s[i]) {
      PlainRunPrefix(s, t, i + 1);
    }
  }

  lemma {:induction false} TerminatorRunPrefix(s: string, t: string, j: nat)
    requires j <= |s|
    requires NoTerminator(t)
    ensures TerminatorRun(s + t, j) == TerminatorRun(s, j)
    decreases |s| - j
  {
    if j < |s| {
      assert (s + t)[j] == s[j];
      if IsTerminator(s[j]) {
        TerminatorRunPrefix(s, t, j + 1);
      }
    } else if |t| > 0 {
      assert (s + t)[j] == t[0];
    }
  }

  /** A text without any terminator has no match and is kept whole as one sentence. */
  lemma NoTerminatorOneSentence(text: string)
    requires NoTerminator(text)
    ensures Sentences(text) == [text]
  {
    NoTerminatorNoMatch(text, 0);
  }

  /** Each sentence is non-empty. */
  lemma SentencesNonEmpty(text: string)
    requires |text| > 0
    ensures forall k :: 0 <= k < |Sentences(text)| ==> |Sentences(text)[k]| > 0
  {
  }

  /** A group's text exceeds the limit only when the group is a single sentence,
      provided the sentences are non-empty. */
  lemma {:induction false} OversizeGroupIsOneSentence(sentences: seq<string>)
    requires forall k :: 0 <= k < |sentences| ==> |sentences[k]| > 0
    ensures var p := Pack(sentences);
      && (forall g :: 0 <= g < |p.0| && |Concat(p.0[g])| > HadithMaxChars ==> |p.0[g]| == 1)
      && (|Concat(p.1)| > HadithMaxChars ==> |p.1| == 1)
  {
    if sentences != [] {
      var init := sentences[..|sentences| - 1];
      var s := sentences[|sentences| - 1];
      OversizeGroupIsOneSentence(init);
      var p := Pack(init);
      if !(|Concat(p.1)| + |s| > HadithMaxChars && |Concat(p.1)| > 0) {
        if p.1 != [] {
          ConcatNonEmpty(p.1);
        }
        assert (p.1 + [s])[..|p.1|] == p.1;
      }
    }
  }

  /** The concatenation is at least as long as the last part. */
  lemma ConcatNonEmpty(parts: seq<string>)
    requires parts != [] && |parts[|parts| - 1]| > 0
    ensures |Concat(parts)| > 0
  {
  }

  /** The chunk of each closed group is that group's text, trimmed. */
  lemma {:induction false} ChunksOfContent(groups: seq<seq<string>>, reference: string, edition: string, g: nat)
    requires g < |groups|
    ensures ChunksOf(groups, reference, edition)[g] == HadithChunk(Trim(Concat(groups[g])), reference, edition)
  {
    if g < |groups| - 1 {
      ChunksOfContent(groups[..|groups| - 1], reference, edition, g);
    }
  }

  /** A group whose last sentence ends with a terminator is not blank. */
  lemma GroupNotBlank(group: seq<string>)
    requires group != [] && Terminated(group[|group| - 1])
    ensures Trim(Concat(group)) != ""
  {
    var c := Concat(group);
    TrimEmpty(c);
    assert c[|c| - 1] == group[|group| - 1][|group[|group| - 1]| - 1];
  }

  /** The members of every group are members of the flattened sequence. */
  lemma {:induction false} FlattenHolds(groups: seq<seq<string>>, g: nat)
    requires g < |groups|
    ensures forall x :: x in groups[g] ==> x in Flatten(groups)
  {
    if g < |groups| - 1 {
      FlattenHolds(groups[..|groups| - 1], g);
    }
  }

  /** A closed group ends with one of the sentences. */
  lemma FlushedGroupEndsWithSentence(sentences: seq<string>, g: nat)
    requires g < |Pack(sentences).0|
    ensures Pack(sentences).0[g] != []
    ensures Pack(sentences).0[g][|Pack(sentences).0[g]| - 1] in sentences
  {
    PackSpec(sentences);
    var groups := Pack(sentences).0;
    assert Concat(groups[g]) != "";
    FlattenHolds(groups, g);
  }

  /** When every sentence ends with a terminator, no chunk is blank. */
  lemma TerminatedSentencesGiveNonBlankChunks(sentences: seq<string>, reference: string, edition: string)
    requires forall k :: 0 <= k < |sentences| ==> Terminated(sentences[k])
    ensures forall g :: 0 <= g < |Pack(sentences).0| ==> ChunksOf(Pack(sentences).0, reference, edition)[g].content != ""
    ensures sentences != [] ==> Trim(Concat(Pack(sentences).1)) != ""
  {
    PackSpec(sentences);
    var p := Pack(sentences);
    forall g | 0 <= g < |p.0|
      ensures ChunksOf(p.0, reference, edition)[g].content != ""
    {
      ChunksOfContent(p.0, reference, edition, g);
      FlushedGroupEndsWithSentence(sentences, g);
      GroupNotBlank(p.0[g]);
    }
    if sentences != [] {
      GroupNotBlank(p.1);
    }
  }

  /** A single sentence stays in the open group. */
  lemma PackSingle(s: string)
    ensures Pack([s]) == ([], [s])
  {
    assert [s][..0] == [];
    assert Pack([]) == ([], []);
    assert [] + [s] == [s];
  }

  /** A long text without a match is one chunk, the trimmed text, unless it is blank. */
  lemma UnmatchedLongText(text: string, reference: string, edition: string)
    requires |text| > HadithMaxChars && MatchesFrom(text, 0) == []
    ensures SplitLongTextSpec(text, reference, edition)
      == if AllSpaces(text) then [] else [HadithChunk(Trim(text), reference, edition)]
  {
    UnmatchedLongTextIsTrimmed(text, reference, edition);
    TrimEmpty(text);
  }

  lemma UnmatchedLongTextIsTrimmed(text: string, reference: string, edition: string)
    requires |text| > HadithMaxChars && MatchesFrom(text, 0) == []
    ensures SplitLongTextSpec(text, reference, edition)
      == if Trim(text) == "" then [] else [HadithChunk(Trim(text), reference, edition)]
  {
    assert Sentences(text) == [text];
    PackSingle(text);
    var p := Pack(Sentences(text));
    assert p == ([], [text]);
    ConcatSnoc([], text);
    assert [] + [text] == [text];
    assert Concat(p.1) == text;
    assert ChunksOf(p.0, reference, edition) == [];
  }

  /** A long text with matches gives only non-blank chunks, and at least one. */
  lemma MatchedLongText(text: string, reference: string, edition: string)
    requires |text| > HadithMaxChars && MatchesFrom(text, 0) != []
    ensures SplitLongTextSpec(text, reference, edition) != []
    ensures forall k :: 0 <= k < |SplitLongTextSpec(text, reference, edition)| ==>
      SplitLongTextSpec(text, reference, edition)[k].content != ""
  {
    MatchShape(text, 0);
    var sentences := Sentences(text);
    assert sentences == MatchesFrom(text, 0);
    TerminatedSentencesGiveNonBlankChunks(sentences, reference, edition);
    var p := Pack(sentences);
    var r := SplitLongTextSpec(text, reference, edition);
    assert r == ChunksOf(p.0, reference, edition) + [HadithChunk(Trim(Concat(p.1)), reference, edition)];
  }

  /** Every chunk of a long text is non-empty, and a text that is not blank yields at
      least one chunk. */
  lemma ChunksNonEmpty(text: string, reference: string, edition: string)
    ensures |text| > HadithMaxChars ==>
      forall k :: 0 <= k < |SplitLongTextSpec(text, reference, edition)| ==>
        SplitLongTextSpec(text, reference, edition)[k].content != ""
    ensures !AllSpaces(text) ==> SplitLongTextSpec(text, reference, edition) != []
  {
    if |text| > HadithMaxChars {
      if MatchesFrom(text, 0) == [] {
        UnmatchedLongText(text, reference, edition);
      } else {
        MatchedLongText(text, reference, edition);
      }
    }
  }
}
