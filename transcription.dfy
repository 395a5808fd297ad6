/**
 * The transcription stage (3_transcription.py) without the speech model: each
 * chunk's raw transcript is an input. Consecutive chunks share a few seconds
 * of audio, so a chunk in the same language as its predecessor usually begins
 * with words the accumulated text already ends with; `clean_overlap` finds
 * and removes that repetition. A change of language instead inserts a
 * visible marker.
 */
module Transcription {

  import opened Wrappers
  import opened Text
  import opened Tally

  /** Estimated characters of speech per second (line 69). */
  const CharsPerSecond := 25

  /** The shortest repetition that counts as an overlap (line 72). */
  const MinMatch := 30

  /** The separator written between chunks of different languages (line 208). */
  const Marker := "\n\n--- CAMBIO LINGUA ---\n\n"

  // ---------------------------------------------------------------------------
  // clean_overlap
  // ---------------------------------------------------------------------------

  /** `prev[-m:]`, Python's slice from a negated bound: for `m > 0` the last
      `m` characters (all of `prev` when it is shorter), for `m == 0` all of
      `prev`, since `-0` is `0`, and for `m < 0` everything from index `-m` on. */
  function TailWindow(prev: string, m: int): string {
    if m > 0 then (if m >= |prev| then prev else prev[|prev| - m..])
    else if m == 0 then prev
    else if -m >= |prev| then []
    else prev[-m..]
  }

  /** The window is a suffix of `prev`, of length `min(m, |prev|)` for a
      positive `m`. */
  lemma TailWindowSuffix(prev: string, m: int)
    ensures var tail := TailWindow(prev, m);
      && |tail| <= |prev| && tail == prev[|prev| - |tail|..]
      && (m > 0 ==> |tail| == if m < |prev| then m else |prev|)
      && (m == 0 ==> tail == prev)
      && (m < 0 ==> |tail| == if -m < |prev| then |prev| + m else 0)
  {
  }

  /** The length of the longest common prefix of `a` and `b` when letters are
      compared after `lower()`. */
  function CommonPrefixLen(a: string, b: string): nat
    decreases |a|
  {
    if a == [] || b == [] || !SameLetter(a[0], b[0]) then 0
    else 1 + CommonPrefixLen(a[1..], b[1..])
  }

  /** The common prefix fits both strings, all its letters agree, and the
      next letters, if any, do not. */
  lemma {:induction false} CommonPrefixLenSpec(a: string, b: string)
    ensures var n := CommonPrefixLen(a, b);
      && n <= |a| && n <= |b|
      && (forall k :: 0 <= k < n ==> SameLetter(a[k], b[k]))
      && (n < |a| && n < |b| ==> !SameLetter(a[n], b[n]))
    decreases |a|
  {
    if a != [] && b != [] && SameLetter(a[0], b[0]) {
      CommonPrefixLenSpec(a[1..], b[1..]);
      var n := CommonPrefixLen(a, b);
      assert forall k :: 1 <= k < n ==> a[k] == a[1..][k - 1] && b[k] == b[1..][k - 1];
    }
  }

  /** A length that is a common prefix and cannot be extended is the longest
      one. */
  lemma CommonPrefixLenUnique(a: string, b: string, m: nat)
    requires m <= |a| && m <= |b|
    requires forall k :: 0 <= k < m ==> SameLetter(a[k], b[k])
    requires m == |a| || m == |b| || !SameLetter(a[m], b[m])
    ensures CommonPrefixLen(a, b) == m
  {
    CommonPrefixLenSpec(a, b);
  }

  /** Nothing is shared with an empty string. */
  lemma CommonPrefixLenEmpty(a: string)
    ensures CommonPrefixLen(a, []) == 0
  {
  }

  /** `best_cut` as the search of lines 76-88 computes it from offset `i`
      on: the match length at the first offset below `|tail| - MinMatch`
      whose match reaches `MinMatch`, or 0 when there is none. */
  function CutFrom(tail: string, curr: string, i: nat): nat
    decreases |tail| - i
  {
    if i + MinMatch >= |tail| then 0
    else if CommonPrefixLen(tail[i..], curr) >= MinMatch then CommonPrefixLen(tail[i..], curr)
    else CutFrom(tail, curr, i + 1)
  }

  /** The first offset `o >= i` with `o < |tail| - MinMatch` at which `curr`
      repeats at least `MinMatch` letters of `tail`, if any. */
  ghost function FirstMatch(tail: string, curr: string, i: nat): (r: Option<nat>)
    ensures r.Some? ==>
              && i <= r.value && r.value + MinMatch < |tail|
              && CommonPrefixLen(tail[r.value..], curr) >= MinMatch
              && forall k :: i <= k < r.value ==> CommonPrefixLen(tail[k..], curr) < MinMatch
    ensures r.None? ==>
              forall k :: i <= k && k + MinMatch < |tail| ==> CommonPrefixLen(tail[k..], curr) < MinMatch
    decreases |tail| - i
  {
    if i + MinMatch >= |tail| then None
    else if CommonPrefixLen(tail[i..], curr) >= MinMatch then Some(i)
    else FirstMatch(tail, curr, i + 1)
  }

  /** The cut is the match length at the first matching offset, and 0 when
      no offset matches. */
  lemma {:induction false} CutFromFirstMatch(tail: string, curr: string, i: nat)
    ensures CutFrom(tail, curr, i) == match FirstMatch(tail, curr, i)
                                      case None => 0
                                      case Some(o) => CommonPrefixLen(tail[o..], curr)
    decreases |tail| - i
  {
    if i + MinMatch < |tail| && CommonPrefixLen(tail[i..], curr) < MinMatch {
      CutFromFirstMatch(tail, curr, i + 1);
    }
  }

  /** A cut is either 0 or a match of at least `MinMatch` letters, never
      more than `curr` holds. */
  lemma {:induction false} CutFromBound(tail: string, curr: string, i: nat)
    ensures var cut := CutFrom(tail, curr, i);
      cut <= |curr| && (cut == 0 || cut >= MinMatch)
    decreases |tail| - i
  {
    if i + MinMatch < |tail| {
      CommonPrefixLenSpec(tail[i..], curr);
      if CommonPrefixLen(tail[i..], curr) < MinMatch {
        CutFromBound(tail, curr, i + 1);
      }
    }
  }

  /** What `clean_overlap(prev, curr, overlapSecond)` returns. */
  function Stitched(prev: string, curr: string, overlapSecond: int): string {
    if prev == [] then curr
    else
      var tail := TailWindow(prev, overlapSecond * CharsPerSecond);
      CutFromBound(tail, curr, 0);
      var cut := CutFrom(tail, curr, 0);
      if cut > 0 then LStrip(curr[cut..]) else curr
  }

  /** `clean_overlap` (lines 48-98): the offset loop with its inner
      letter-matching loop and the early exit. */
  method CleanOverlap(prev: string, curr: string, overlapSecond: int) returns (cleaned: string)
    ensures cleaned == Stitched(prev, curr, overlapSecond)
  {
    if prev == [] {
      return curr;
    }
    var maxOverlapChars := overlapSecond * CharsPerSecond;
    var tail := TailWindow(prev, maxOverlapChars);
    var bestCut := 0;
    var i := 0;
    while i + MinMatch < |tail|
      invariant CutFrom(tail, curr, 0) == CutFrom(tail, curr, i)
      invariant bestCut == 0
      decreases |tail| - i
    {
      var matchLen := 0;
      while i + matchLen < |tail| && matchLen < |curr| && SameLetter(tail[i + matchLen], curr[matchLen])
        invariant i + matchLen <= |tail| && matchLen <= |curr|
        invariant forall k :: 0 <= k < matchLen ==> SameLetter(tail[i..][k], curr[k])
        decreases |curr| - matchLen
      {
        matchLen := matchLen + 1;
      }
      CommonPrefixLenUnique(tail[i..], curr, matchLen);
      if matchLen >= MinMatch {
        bestCut := matchLen;
        break;
      }
      i := i + 1;
    }
    if bestCut > 0 {
      cleaned := LStrip(curr[bestCut..]);
      return cleaned;
    }
    return curr;
  }

  // ---------------------------------------------------------------------------
  // Properties of clean_overlap
  // ---------------------------------------------------------------------------

  /** Nothing accumulated yet: the chunk is returned unchanged. */
  lemma StitchedEmptyPrev(curr: string, overlapSecond: int)
    ensures Stitched([], curr, overlapSecond) == curr
  {
  }

  /** For a positive setting the search window is the last
      `overlapSecond * 25` characters of `prev` (50 for two seconds). */
  lemma WindowOfTwoSeconds(prev: string)
    requires |prev| >= 50
    ensures TailWindow(prev, 2 * CharsPerSecond) == prev[|prev| - 50..]
  {
  }

  /** A window of at most `MinMatch` characters never yields a cut. */
  lemma ShortWindowNoCut(prev: string, curr: string, overlapSecond: int)
    requires |TailWindow(prev, overlapSecond * CharsPerSecond)| <= MinMatch
    ensures Stitched(prev, curr, overlapSecond) == curr
  {
  }

  /** An empty chunk stays empty. */
  lemma StitchedEmptyCurr(prev: string, overlapSecond: int)
    ensures Stitched(prev, [], overlapSecond) == []
  {
    CutFromBound(TailWindow(prev, overlapSecond * CharsPerSecond), [], 0);
  }

  /** Either `curr` is returned unchanged and no offset of the window
      matches, or the first offset of the window whose match reaches
      `MinMatch` decides the cut: that many letters are removed and the
      leading whitespace after them. */
  lemma StitchedCases(prev: string, curr: string, overlapSecond: int)
    requires prev != []
    ensures var tail := TailWindow(prev, overlapSecond * CharsPerSecond);
      var r := Stitched(prev, curr, overlapSecond);
      || (r == curr &&
            forall k :: 0 <= k && k + MinMatch < |tail| ==> CommonPrefixLen(tail[k..], curr) < MinMatch)
      || (exists o :: 0 <= o && o + MinMatch < |tail|
              && (forall k :: 0 <= k < o ==> CommonPrefixLen(tail[k..], curr) < MinMatch)
              && MinMatch <= CommonPrefixLen(tail[o..], curr) <= |curr|
              && r == LStrip(curr[CommonPrefixLen(tail[o..], curr)..]))
  {
    var tail := TailWindow(prev, overlapSecond * CharsPerSecond);
    CutFromFirstMatch(tail, curr, 0);
    var f := FirstMatch(tail, curr, 0);
    if f.Some? {
      var o := f.value;
      CommonPrefixLenSpec(tail[o..], curr);
      assert 0 <= o && o + MinMatch < |tail|;
    }
  }

  /** When a cut is made, the result is a suffix of `curr` at least
      `MinMatch` characters shorter, and it does not begin with whitespace. */
  lemma StitchedCutIsShorterSuffix(prev: string, curr: string, overlapSecond: int)
    requires Stitched(prev, curr, overlapSecond) != curr
    ensures var r := Stitched(prev, curr, overlapSecond);
      && |r| + MinMatch <= |curr|
      && r == curr[|curr| - |r|..]
      && (r == [] || !IsSpace(r[0]))
  {
    var tail := TailWindow(prev, overlapSecond * CharsPerSecond);
    var cut := CutFrom(tail, curr, 0);
    assert prev != [] && cut > 0;
    CutFromBound(tail, curr, 0);
    assert Stitched(prev, curr, overlapSecond) == LStrip(curr[cut..]);
    LStripAfterCut(curr, cut);
  }

  /** What is left after the cut and `lstrip()` is a suffix of `curr` that
      does not begin with whitespace. */
  lemma LStripAfterCut(curr: string, cut: nat)
    requires cut <= |curr|
    ensures var r := LStrip(curr[cut..]);
      && |r| + cut <= |curr|
      && r == curr[|curr| - |r|..]
      && (r == [] || !IsSpace(r[0]))
  {
    var s := curr[cut..];
    DropLeadingPrefix(s, Whitespace);
    var r := LStrip(s);
    assert r == s[|s| - |r|..];
    assert s[|s| - |r|..] == curr[|curr| - |r|..];
  }

  /** The search never tries the last window offset `|tail| - MinMatch`: when
      the accumulated text ends in exactly 30 letters that the next chunk
      repeats, after 20 other letters, the repetition is kept. */
  lemma LastOffsetNeverTried()
    ensures var prev := seq(20, _ => 'x') + seq(30, _ => 'a');
      var curr := seq(30, _ => 'a');
      && prev[|prev| - 30..] == curr
      && Stitched(prev, curr, 2) == curr
  {
    var prev := seq(20, _ => 'x') + seq(30, _ => 'a');
    var curr := seq(30, _ => 'a');
    assert prev[|prev| - 30..] == curr;
    var tail := TailWindow(prev, 2 * CharsPerSecond);
    assert tail == prev;
    forall k | 0 <= k && k + MinMatch < |tail|
      ensures CommonPrefixLen(tail[k..], curr) < MinMatch
    {
      assert tail[k..][0] == 'x';
      assert !SameLetter('x', 'a');
    }
    CutFromFirstMatch(tail, curr, 0);
    assert FirstMatch(tail, curr, 0).None?;
  }

  // ---------------------------------------------------------------------------
  // The assembly loop of transcribe_all
  // ---------------------------------------------------------------------------

  /** The loop state of `transcribe_all`: the text so far, the language of the
      previous chunk (`None` before the first) and the per-language counts. */
  datatype Assembly = Assembly(fullText: string, prevLang: Option<string>, stats: Counts)

  /** `{'it': 0, 'es': 0, 'en': 0, 'fr': 0}` (line 174). */
  function InitialStats(): Counts {
    map["it" := 0, "es" := 0, "en" := 0, "fr" := 0]
  }

  function Start(): Assembly {
    Assembly([], None, InitialStats())
  }

  /** `language_map.get(str(chunk), "it")`. */
  function ChunkLanguage(languageMap: map<string, string>, chunk: string): string {
    if chunk in languageMap then languageMap[chunk] else "it"
  }

  /** Same language as the previous chunk, with text already accumulated:
      the condition under which the chunk is stitched (line 202). */
  predicate Continues(a: Assembly, lang: string) {
    a.fullText != [] && a.prevLang == Some(lang)
  }

  /** A previous language, non-empty and different: the marker condition of
      line 206 (`prev_lang and prev_lang != lang`), evaluated only when the
      chunk does not continue. */
  predicate Switches(a: Assembly, lang: string) {
    a.prevLang.Some? && a.prevLang.value != [] && a.prevLang.value != lang
  }

  /** What `transcribe_chunk` returns for a Whisper output: the text with
      surrounding whitespace removed (line 131). */
  function Transcripts(raws: seq<string>): (texts: seq<string>)
    ensures |texts| == |raws|
    ensures forall i :: 0 <= i < |raws| ==> texts[i] == Strip(raws[i])
  {
    seq(|raws|, i requires 0 <= i < |raws| => Strip(raws[i]))
  }

  /** The overlap cleaner the loop applies to a chunk that continues the
      previous one: `clean_overlap` with the configured overlap. */
  type Stitcher = (string, string) -> string

  function CleanerFor(overlapSeconds: int): Stitcher {
    (prev: string, curr: string) => Stitched(prev, curr, overlapSeconds)
  }

  /** One turn of the loop (lines 179-212) for a chunk in language `lang`
      whose transcript is `text`. The properties below hold whatever the
      cleaner does; `TranscribeAll` uses `CleanerFor(OVERLAP_SECONDS)`. */
  function Step(a: Assembly, lang: string, text: string, stitch: Stitcher): Assembly {
    var text := if Continues(a, lang) then stitch(a.fullText, text) else text;
    var full := if !Continues(a, lang) && Switches(a, lang) then a.fullText + Marker else a.fullText;
    Assembly(full + text + " ", Some(lang), Bump(a.stats, lang))
  }

  /** The state after the first `n` chunks, `texts[i]` being the transcript
      of `chunks[i]`. */
  function AssembleFirst(chunks: seq<string>, languageMap: map<string, string>, texts: seq<string>,
                         stitch: Stitcher, n: nat): Assembly
    requires n <= |chunks| && |texts| == |chunks|
    decreases n
  {
    if n == 0 then Start()
    else
      Step(AssembleFirst(chunks, languageMap, texts, stitch, n - 1),
           ChunkLanguage(languageMap, chunks[n - 1]), texts[n - 1], stitch)
  }

  /** Lines 200-210: stitch a continuing chunk, or mark a change of
      language, then append the chunk's text and a space. */
  method AppendChunk(a: Assembly, lang: string, text: string, overlapSeconds: int) returns (fullText: string)
    ensures fullText == Step(a, lang, text, CleanerFor(overlapSeconds)).fullText
  {
    fullText := a.fullText;
    var text := text;
    if fullText != [] && a.prevLang == Some(lang) {
      text := CleanOverlap(fullText, text, overlapSeconds);
    } else if a.prevLang.Some? && a.prevLang.value != [] && a.prevLang.value != lang {
      fullText := fullText + Marker;
    }
    fullText := fullText + text + " ";
  }

  /** One turn of the loop (lines 179-212): look up the chunk's language,
      count it, and append its stripped transcript. */
  method TranscribeChunk(a: Assembly, chunk: string, languageMap: map<string, string>, raw: string,
                         overlapSeconds: int)
    returns (b: Assembly)
    ensures b == Step(a, ChunkLanguage(languageMap, chunk), Strip(raw), CleanerFor(overlapSeconds))
  {
    var lang := if chunk in languageMap then languageMap[chunk] else "it";
    var stats := Bump(a.stats, lang);
    var text := Strip(raw);
    var fullText := AppendChunk(a, lang, text, overlapSeconds);
    b := Assembly(fullText, Some(lang), stats);
  }

  /** The outcome of a completed run: the raw transcript and the counters. */
  datatype Transcript = Transcript(fullText: string, stats: Counts)

  /** Why `transcribe_all` stops early: no chunk files (lines 152-154, which
      exit the program), or an exception from `extract_audio` or
      `transcribe_chunk` on chunk `index` (lines 193, 198). `saved` is the
      text after the chunks before it, which the progressive save (lines
      214-216) has left on disk. */
  datatype TranscribeError = NoChunks | ChunkFailed(index: nat, saved: string)

  /** The accumulation loop of `transcribe_all` (lines 152-154, 171-216)
      over the sorted chunk paths, with `raws[i]` the Whisper output for
      `chunks[i]` and `failing` the indices whose audio extraction or
      transcription raises. */
  method TranscribeAll(chunks: seq<string>, languageMap: map<string, string>, raws: seq<string>,
                       overlapSeconds: int, failing: set<int>)
    returns (r: Result<Transcript, TranscribeError>)
    requires |raws| == |chunks|
    ensures chunks == [] <==> r == Failure(NoChunks)
    ensures chunks != [] ==>
      var texts := Transcripts(raws);
      var stitch := CleanerFor(overlapSeconds);
      var a := AssembleFirst(chunks, languageMap, texts, stitch, |chunks|);
      && (r.Success? <==> forall i :: 0 <= i < |chunks| ==> i !in failing)
      && (r.Success? ==> r.value == Transcript(a.fullText, a.stats))
      && (r.Failure? ==>
            && r.error.ChunkFailed?
            && r.error.index < |chunks| && r.error.index in failing
            && (forall i :: 0 <= i < r.error.index ==> i !in failing)
            && r.error.saved == AssembleFirst(chunks, languageMap, texts, stitch, r.error.index).fullText)
  {
    if chunks == [] {
      return Failure(NoChunks);
    }
    var a, stop := AssembleChunks(chunks, languageMap, raws, overlapSeconds, failing);
    if stop < |chunks| {
      assert stop in failing;
      return Failure(ChunkFailed(stop, a.fullText));
    }
    assert stop == |chunks|;
    return Success(Transcript(a.fullText, a.stats));
  }

  /** The loop itself: it runs until the first failing chunk, or to the end,
      and `stop` is the number of chunks it assembled. */
  method AssembleChunks(chunks: seq<string>, languageMap: map<string, string>, raws: seq<string>,
                        overlapSeconds: int, failing: set<int>)
    returns (a: Assembly, stop: nat)
    requires |raws| == |chunks|
    ensures stop <= |chunks|
    ensures forall i :: 0 <= i < stop ==> i !in failing
    ensures stop < |chunks| ==> stop in failing
    ensures a == AssembleFirst(chunks, languageMap, Transcripts(raws), CleanerFor(overlapSeconds), stop)
  {
    a := Assembly("", None, map["it" := 0, "es" := 0, "en" := 0, "fr" := 0]);
    var idx := 0;
    while idx < |chunks| && idx !in failing
      invariant idx <= |chunks|
      invariant forall i :: 0 <= i < idx ==> i !in failing
      invariant a == AssembleFirst(chunks, languageMap, Transcripts(raws), CleanerFor(overlapSeconds), idx)
    {
      a := NextChunk(a, chunks, languageMap, raws, overlapSeconds, idx);
      NoneFailingNext(failing, idx);
      idx := idx + 1;
    }
    stop := idx;
  }

  /** The loop body: chunk `n` moves the assembly of the first `n` chunks to
      that of the first `n + 1`. */
  method NextChunk(a: Assembly, chunks: seq<string>, languageMap: map<string, string>, raws: seq<string>,
                   overlapSeconds: int, n: nat)
    returns (b: Assembly)
    requires n < |chunks| && |raws| == |chunks|
    requires a == AssembleFirst(chunks, languageMap, Transcripts(raws), CleanerFor(overlapSeconds), n)
    ensures b == AssembleFirst(chunks, languageMap, Transcripts(raws), CleanerFor(overlapSeconds), n + 1)
  {
    b := TranscribeChunk(a, chunks[n], languageMap, raws[n], overlapSeconds);
    AssembleNext(chunks, languageMap, Transcripts(raws), CleanerFor(overlapSeconds), n, a);
  }

  lemma AssembleNext(chunks: seq<string>, languageMap: map<string, string>, texts: seq<string>,
                     stitch: Stitcher, n: nat, a: Assembly)
    requires n < |chunks| && |texts| == |chunks|
    requires a == AssembleFirst(chunks, languageMap, texts, stitch, n)
    ensures Step(a, ChunkLanguage(languageMap, chunks[n]), texts[n], stitch)
            == AssembleFirst(chunks, languageMap, texts, stitch, n + 1)
  {
  }

  lemma NoneFailingNext(failing: set<int>, n: nat)
    requires forall i :: 0 <= i < n ==> i !in failing
    requires n !in failing
    ensures forall i :: 0 <= i < n + 1 ==> i !in failing
  {
  }

  // ---------------------------------------------------------------------------
  // Properties of the assembly
  // ---------------------------------------------------------------------------

  /** What one chunk appends: its stitched text when it continues the
      previous chunk, the marker and its whole text when the language
      switches, its whole text otherwise. Only the first case stitches. */
  lemma StepAppends(a: Assembly, lang: string, text: string, stitch: Stitcher)
    ensures var b := Step(a, lang, text, stitch);
      && (Continues(a, lang) ==> b.fullText == a.fullText + stitch(a.fullText, text) + " ")
      && (!Continues(a, lang) && Switches(a, lang) ==> b.fullText == a.fullText + Marker + text + " ")
      && (!Continues(a, lang) && !Switches(a, lang) ==> b.fullText == a.fullText + text + " ")
      && b.prevLang == Some(lang)
      && b.stats == Bump(a.stats, lang)
  {
  }

  /** `p` is a prefix of `s`. */
  predicate IsPrefix(p: string, s: string) {
    |p| <= |s| && s[..|p|] == p
  }

  lemma PrefixTransitive(a: string, b: string, c: string)
    requires IsPrefix(a, b) && IsPrefix(b, c)
    ensures IsPrefix(a, c)
  {
    assert c[..|a|] == c[..|b|][..|a|];
  }

  /** One chunk extends the text by at least the trailing space. */
  lemma StepExtends(a: Assembly, lang: string, text: string, stitch: Stitcher)
    ensures var t := Step(a, lang, text, stitch).fullText;
      |a.fullText| < |t| && IsPrefix(a.fullText, t) && t[|t| - 1] == ' '
  {
    StepAppends(a, lang, text, stitch);
  }

  /** Each chunk extends the text of its predecessors. */
  lemma AssembleExtends(chunks: seq<string>, languageMap: map<string, string>, texts: seq<string>,
                        stitch: Stitcher, n: nat)
    requires 1 <= n <= |chunks| && |texts| == |chunks|
    ensures var before := AssembleFirst(chunks, languageMap, texts, stitch, n - 1).fullText;
      var after := AssembleFirst(chunks, languageMap, texts, stitch, n).fullText;
      |before| < |after| && IsPrefix(before, after) && after[|after| - 1] == ' '
  {
    StepExtends(AssembleFirst(chunks, languageMap, texts, stitch, n - 1),
                ChunkLanguage(languageMap, chunks[n - 1]), texts[n - 1], stitch);
  }

  /** The assembly only appends: the text after `k` chunks is a prefix of the
      text after `n >= k` chunks. */
  lemma {:induction false} AppendOnly(chunks: seq<string>, languageMap: map<string, string>, texts: seq<string>,
                                      stitch: Stitcher, k: nat, n: nat)
    requires k <= n <= |chunks| && |texts| == |chunks|
    ensures IsPrefix(AssembleFirst(chunks, languageMap, texts, stitch, k).fullText,
                     AssembleFirst(chunks, languageMap, texts, stitch, n).fullText)
    decreases n - k
  {
    var a := AssembleFirst(chunks, languageMap, texts, stitch, k).fullText;
    if k < n {
      AppendOnly(chunks, languageMap, texts, stitch, k, n - 1);
      AssembleExtends(chunks, languageMap, texts, stitch, n);
      PrefixTransitive(a, AssembleFirst(chunks, languageMap, texts, stitch, n - 1).fullText,
                       AssembleFirst(chunks, languageMap, texts, stitch, n).fullText);
    } else {
      assert a[..|a|] == a;
    }
  }

  /** After every chunk the text ends with a space. */
  lemma EndsWithSpace(chunks: seq<string>, languageMap: map<string, string>, texts: seq<string>,
                      stitch: Stitcher, n: nat)
    requires 1 <= n <= |chunks| && |texts| == |chunks|
    ensures var t := AssembleFirst(chunks, languageMap, texts, stitch, n).fullText;
      |t| >= 1 && t[|t| - 1] == ' '
  {
    AssembleExtends(chunks, languageMap, texts, stitch, n);
  }

  /** The first chunk is appended as it is (not stitched), and no marker
      comes before it. */
  lemma FirstChunkVerbatim(chunks: seq<string>, languageMap: map<string, string>, texts: seq<string>,
                           stitch: Stitcher)
    requires 1 <= |chunks| && |texts| == |chunks|
    ensures AssembleFirst(chunks, languageMap, texts, stitch, 1).fullText == texts[0] + " "
  {
    StepAppends(Start(), ChunkLanguage(languageMap, chunks[0]), texts[0], stitch);
  }

  /** After `n >= 1` chunks the previous language is that of chunk `n`; a
      chunk missing from the map counts as Italian. */
  lemma PrevLangIsLast(chunks: seq<string>, languageMap: map<string, string>, texts: seq<string>,
                       stitch: Stitcher, n: nat)
    requires 1 <= n <= |chunks| && |texts| == |chunks|
    ensures AssembleFirst(chunks, languageMap, texts, stitch, n).prevLang
            == Some(ChunkLanguage(languageMap, chunks[n - 1]))
    ensures chunks[n - 1] !in languageMap ==>
              AssembleFirst(chunks, languageMap, texts, stitch, n).prevLang == Some("it")
  {
    StepAppends(AssembleFirst(chunks, languageMap, texts, stitch, n - 1),
                ChunkLanguage(languageMap, chunks[n - 1]), texts[n - 1], stitch);
  }

  /** The languages of the first `n` chunks, in order. */
  function Languages(chunks: seq<string>, languageMap: map<string, string>, n: nat): (langs: seq<string>)
    requires n <= |chunks|
  {
    if n == 0 then [] else Languages(chunks, languageMap, n - 1) + [ChunkLanguage(languageMap, chunks[n - 1])]
  }

  /** The `i`-th language is that of chunk `i`. */
  lemma {:induction false} LanguagesAt(chunks: seq<string>, languageMap: map<string, string>, n: nat, i: nat)
    requires i < n <= |chunks|
    ensures |Languages(chunks, languageMap, n)| == n
    ensures Languages(chunks, languageMap, n)[i] == ChunkLanguage(languageMap, chunks[i])
  {
    LanguagesLength(chunks, languageMap, n - 1);
    if i < n - 1 {
      LanguagesAt(chunks, languageMap, n - 1, i);
    }
  }

  lemma {:induction false} LanguagesLength(chunks: seq<string>, languageMap: map<string, string>, n: nat)
    requires n <= |chunks|
    ensures |Languages(chunks, languageMap, n)| == n
  {
    if n > 0 {
      LanguagesLength(chunks, languageMap, n - 1);
    }
  }

  /** The counts after the first `n` chunks, which do not depend on the
      transcripts. */
  function StatsFirst(chunks: seq<string>, languageMap: map<string, string>, n: nat): Counts
    requires n <= |chunks|
  {
    if n == 0 then InitialStats()
    else Bump(StatsFirst(chunks, languageMap, n - 1), ChunkLanguage(languageMap, chunks[n - 1]))
  }

  lemma {:induction false} AssembleStats(chunks: seq<string>, languageMap: map<string, string>, texts: seq<string>,
                                         stitch: Stitcher, n: nat)
    requires n <= |chunks| && |texts| == |chunks|
    ensures AssembleFirst(chunks, languageMap, texts, stitch, n).stats == StatsFirst(chunks, languageMap, n)
  {
    if n > 0 {
      AssembleStats(chunks, languageMap, texts, stitch, n - 1);
      StepAppends(AssembleFirst(chunks, languageMap, texts, stitch, n - 1),
                  ChunkLanguage(languageMap, chunks[n - 1]), texts[n - 1], stitch);
    }
  }

  lemma TotalInitial()
    ensures Total(InitialStats()) == 0
  {
    var s := InitialStats();
    TotalRemove(s, "it");
    var s1 := s - {"it"};
    assert s1 == map["es" := 0, "en" := 0, "fr" := 0];
    TotalRemove(s1, "es");
    var s2 := s1 - {"es"};
    assert s2 == map["en" := 0, "fr" := 0];
    TotalRemove(s2, "en");
    var s3 := s2 - {"en"};
    assert s3 == map["fr" := 0];
    TotalRemove(s3, "fr");
    assert s3 - {"fr"} == map[];
  }

  /** The counts sum to the number of chunks. */
  lemma {:induction false} StatsFirstTotal(chunks: seq<string>, languageMap: map<string, string>, n: nat)
    requires n <= |chunks|
    ensures Total(StatsFirst(chunks, languageMap, n)) == n
  {
    if n == 0 {
      TotalInitial();
    } else {
      StatsFirstTotal(chunks, languageMap, n - 1);
      TotalBump(StatsFirst(chunks, languageMap, n - 1), ChunkLanguage(languageMap, chunks[n - 1]));
    }
  }

  /** Every language's count is the number of chunks in it. */
  lemma {:induction false} StatsFirstGet(chunks: seq<string>, languageMap: map<string, string>, n: nat, lang: string)
    requires n <= |chunks|
    ensures Get(StatsFirst(chunks, languageMap, n), lang) == Count(Languages(chunks, languageMap, n), lang)
  {
    if n > 0 {
      StatsFirstGet(chunks, languageMap, n - 1, lang);
      var prev := Languages(chunks, languageMap, n - 1);
      var ls := Languages(chunks, languageMap, n);
      assert ls[..|ls| - 1] == prev;
    }
  }

  /** The counts `transcribe_all` returns: per language the number of chunks
      in it, summing to the number of chunks. */
  lemma StatsCount(chunks: seq<string>, languageMap: map<string, string>, texts: seq<string>,
                   stitch: Stitcher, n: nat)
    requires n <= |chunks| && |texts| == |chunks|
    ensures var s := AssembleFirst(chunks, languageMap, texts, stitch, n).stats;
      && Total(s) == n
      && forall lang :: Get(s, lang) == Count(Languages(chunks, languageMap, n), lang)
  {
    AssembleStats(chunks, languageMap, texts, stitch, n);
    StatsFirstTotal(chunks, languageMap, n);
    forall lang {
      StatsFirstGet(chunks, languageMap, n, lang);
    }
  }
}
