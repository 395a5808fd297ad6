/**
 * The correction stage (4_correction.py) without the language model: the
 * transcript is cut into chunks of whole paragraphs, each chunk's reply is
 * cleaned of spurious headings and checked for suspicious length, and the
 * corrected chunks are joined and normalised.
 */
module Correction {

  import opened Wrappers
  import opened Text

  // ---------------------------------------------------------------------------
  // extract_text, from line 57 on
  // ---------------------------------------------------------------------------

  /** The headings a reply may start with, in the order they are tried
      (lines 58-63). */
  const Prefixes: seq<string> := ["Ecco il testo corretto:", "Trascrizione corretta:", "Testo corretto:", "Output:"]

  /** The text after trying each of `ps` once, in order: whenever the
      stripped text starts with the heading, the text becomes the stripped
      text without it; otherwise it is left as it is. */
  function DropHeadings(text: string, ps: seq<string>): string
    decreases |ps|
  {
    if ps == [] then text
    else
      var t := Strip(text);
      DropHeadings(if StartsWith(t, ps[0]) then t[|ps[0]|..] else text, ps[1..])
  }

  /** What `extract_text` returns for a reply whose text is `text`. */
  function Extracted(text: string): string {
    Strip(DropHeadings(text, Prefixes))
  }

  /** Lines 64-68: the heading loop, then a final `strip()`. */
  method ExtractText(text: string) returns (r: string)
    ensures r == Extracted(text)
  {
    var t := text;
    for i := 0 to |Prefixes|
      invariant DropHeadings(text, Prefixes) == DropHeadings(t, Prefixes[i..])
    {
      var p := Prefixes[i];
      assert Prefixes[i..][1..] == Prefixes[i + 1..];
      var stripped := Strip(t);
      if StartsWith(stripped, p) {
        t := stripped[|p|..];
      }
    }
    assert Prefixes[|Prefixes|..] == [];
    r := Strip(t);
  }

  /** The result never has whitespace at either end. */
  lemma ExtractedStripped(text: string)
    ensures IsStripped(Extracted(text))
  {
    StripIsStripped(DropHeadings(text, Prefixes));
  }

  /** Headings none of which the stripped text starts with leave it alone. */
  lemma {:induction false} DropHeadingsNone(text: string, ps: seq<string>)
    requires forall i :: 0 <= i < |ps| ==> !StartsWith(Strip(text), ps[i])
    ensures DropHeadings(text, ps) == text
    decreases |ps|
  {
    if ps != [] {
      DropHeadingsNone(text, ps[1..]);
    }
  }

  /** A reply that starts with none of the headings is only stripped. */
  lemma ExtractedNoHeading(text: string)
    requires forall i :: 0 <= i < |Prefixes| ==> !StartsWith(Strip(text), Prefixes[i])
    ensures Extracted(text) == Strip(text)
  {
    DropHeadingsNone(text, Prefixes);
  }

  /** A slice of a slice is a slice. */
  lemma SliceOfSlice(s: string, a: nat, b: nat, u: string, c: nat, d: nat)
    requires a <= b <= |s| && u == s[a..b] && c <= d <= |u|
    ensures u[c..d] == s[a + c..a + d]
  {
    assert forall i :: 0 <= i < d - c ==> u[c..d][i] == s[a + c + i];
  }

  /** A slice of a slice is a slice, at the sum of the two offsets. */
  lemma SliceCompose(s: string, a: nat, d: string, b: nat, r: string)
    requires a + |d| <= |s| && d == s[a..a + |d|]
    requires b + |r| <= |d| && r == d[b..b + |r|]
    ensures a + b + |r| <= |s| && s[a + b..a + b + |r|] == r
  {
    SliceOfSlice(s, a, a + |d|, d, b, b + |r|);
  }

  /** A slice of a suffix of a slice is a slice. */
  lemma SliceOfSuffix(s: string, a: nat, t: string, h: nat, u: string, b: nat, r: string)
    requires a + |t| <= |s| && t == s[a..a + |t|] && h <= |t| && u == t[h..]
    requires b + |r| <= |u| && r == u[b..b + |r|]
    ensures a + h + b + |r| <= |s| && s[a + h + b..a + h + b + |r|] == r
  {
    assert u == t[h..|t|];
    SliceOfSlice(t, h, |t|, u, b, b + |r|);
    SliceOfSlice(s, a, a + |t|, t, h + b, h + b + |r|);
  }

  /** Removing headings only ever cuts: the result is a contiguous part of
      the input, starting at `start`. */
  lemma {:induction false} DropHeadingsSlice(text: string, ps: seq<string>) returns (start: nat)
    ensures var r := DropHeadings(text, ps);
      start + |r| <= |text| && text[start..start + |r|] == r
    decreases |ps|
  {
    if ps == [] {
      start := 0;
    } else if StartsWith(Strip(text), ps[0]) {
      start := DropHeadingSliceTaken(text, ps);
    } else {
      start := DropHeadingsSlice(text, ps[1..]);
    }
  }

  /** The case of `DropHeadingsSlice` where the first heading is removed. */
  lemma {:induction false} DropHeadingSliceTaken(text: string, ps: seq<string>) returns (start: nat)
    requires ps != [] && StartsWith(Strip(text), ps[0])
    ensures var r := DropHeadings(text, ps);
      start + |r| <= |text| && text[start..start + |r|] == r
    decreases |ps|, 0
  {
    var t := Strip(text);
    var a := StripAt(text);
    var u := t[|ps[0]|..];
    var b := DropHeadingsSlice(u, ps[1..]);
    var r := DropHeadings(u, ps[1..]);
    DropHeadingsTake(text, ps);
    assert DropHeadings(text, ps) == r;
    SliceOfSuffix(text, a, t, |ps[0]|, u, b, r);
    start := a + |ps[0]| + b;
  }

  /** `extract_text` returns a contiguous part of the reply: stripping
      after removing any list of headings cuts the input at both ends. */
  lemma StripDropHeadingsSlice(text: string, ps: seq<string>) returns (start: nat)
    ensures var r := Strip(DropHeadings(text, ps));
      start + |r| <= |text| && text[start..start + |r|] == r
  {
    var d := DropHeadings(text, ps);
    var a := DropHeadingsSlice(text, ps);
    var b := StripAt(d);
    SliceCompose(text, a, d, b, Strip(d));
    start := a + b;
  }

  /** One heading that the stripped text does not start with is skipped. */
  lemma DropHeadingsSkip(text: string, ps: seq<string>)
    requires ps != [] && !StartsWith(Strip(text), ps[0])
    ensures DropHeadings(text, ps) == DropHeadings(text, ps[1..])
  {
  }

  /** One heading that the stripped text starts with is removed. */
  lemma DropHeadingsTake(text: string, ps: seq<string>)
    requires ps != [] && StartsWith(Strip(text), ps[0])
    ensures DropHeadings(text, ps) == DropHeadings(Strip(text)[|ps[0]|..], ps[1..])
  {
  }

  /** Headings the stripped text does not start with are skipped. */
  lemma {:induction false} DropHeadingsSkipMany(text: string, ps: seq<string>, j: nat)
    requires j <= |ps|
    requires forall i :: 0 <= i < j ==> !StartsWith(Strip(text), ps[i])
    ensures DropHeadings(text, ps) == DropHeadings(text, ps[j..])
    decreases j
  {
    if j > 0 {
      DropHeadingsSkip(text, ps);
      DropHeadingsSkipMany(text, ps[1..], j - 1);
      assert ps[1..][j - 1..] == ps[j..];
    }
  }

  /** Headings are tried once each, in list order: once the text starts with
      heading `k` (and none before it), that heading is removed and only the
      headings after it are tried on the rest. */
  lemma ExtractedAfterHeading(text: string, k: nat)
    requires k < |Prefixes| && StartsWith(Strip(text), Prefixes[k])
    requires forall i :: 0 <= i < k ==> !StartsWith(Strip(text), Prefixes[i])
    ensures Extracted(text) == Strip(DropHeadings(Strip(text)[|Prefixes[k]|..], Prefixes[k + 1..]))
  {
    DropHeadingsSkipMany(text, Prefixes, k);
    DropHeadingsTake(text, Prefixes[k..]);
    assert Prefixes[k..][1..] == Prefixes[k + 1..];
  }

  /** `"Output:"` is tried last: whatever follows it is kept, even another
      heading such as `"Testo corretto:"`. */
  lemma OutputHeadingLast(text: string)
    requires StartsWith(Strip(text), "Output:")
    ensures Extracted(text) == Strip(Strip(text)[7..])
  {
    var t := Strip(text);
    assert t[0] == 'O';
    forall i | 0 <= i < 3 ensures !StartsWith(t, Prefixes[i]) {
      assert Prefixes[i][0] != 'O';
    }
    ExtractedAfterHeading(text, 3);
    assert Prefixes[4..] == [];
  }

  /** A `"Testo corretto:"` heading followed by `"Output:"` loses both. */
  lemma CorrectedThenOutput(text: string)
    requires StartsWith(Strip(text), "Testo corretto:")
    requires StartsWith(Strip(Strip(text)[15..]), "Output:")
    ensures Extracted(text) == Strip(Strip(Strip(text)[15..])[7..])
  {
    var t := Strip(text);
    assert t[0] == 'T' && t[1] == 'e';
    assert !StartsWith(t, Prefixes[0]) by { assert Prefixes[0][0] == 'E'; }
    assert !StartsWith(t, Prefixes[1]) by { assert Prefixes[1][1] == 'r'; }
    ExtractedAfterHeading(text, 2);
    var u := t[15..];
    DropHeadingsTake(u, Prefixes[3..]);
    assert Prefixes[3..][1..] == [];
  }

  // ---------------------------------------------------------------------------
  // validate_output
  // ---------------------------------------------------------------------------

  /** `len(corrected) < len(original) * 0.6`, on exact ratios. */
  predicate TooShort(original: string, corrected: string) {
    10 * |corrected| < 6 * |original|
  }

  /** `len(corrected) > len(original) * 1.4`, on exact ratios. */
  predicate TooLong(original: string, corrected: string) {
    10 * |corrected| > 14 * |original|
  }

  /** `corrected.split("\n\n")[0]`. */
  function FirstParagraph(s: string): string {
    Split(s, "\n\n")[0]
  }

  /** `validate_output` (lines 71-93). */
  function ValidateOutput(original: string, corrected: string): string {
    if TooShort(original, corrected) then original
    else if TooLong(original, corrected) then Strip(FirstParagraph(corrected))
    else Strip(corrected)
  }

  /** A truncated-looking reply is replaced by the original, unstripped. */
  lemma ValidateTooShort(original: string, corrected: string)
    requires TooShort(original, corrected)
    ensures ValidateOutput(original, corrected) == original
  {
  }

  /** A reply of acceptable length is only stripped. */
  lemma ValidateAccepted(original: string, corrected: string)
    requires !TooShort(original, corrected) && !TooLong(original, corrected)
    ensures ValidateOutput(original, corrected) == Strip(corrected)
  {
  }

  /** An over-long reply is cut before its first blank line (`"\n\n"`) and
      stripped: the result is a part of the reply before any occurrence of
      the separator. */
  lemma ValidateTooLong(original: string, corrected: string) returns (k: nat)
    requires !TooShort(original, corrected) && TooLong(original, corrected)
    ensures k <= |corrected|
    ensures forall j :: 0 <= j < k ==> !OccursAt(corrected, "\n\n", j)
    ensures k == |corrected| || OccursAt(corrected, "\n\n", k)
    ensures ValidateOutput(original, corrected) == Strip(corrected[..k])
  {
    SplitFirst(corrected, "\n\n");
    k := |FirstParagraph(corrected)|;
  }

  /** The cut paragraph is not checked against the lower bound again: a
      reply of 8 characters for a 5-character original is cut to a single
      letter. */
  lemma ValidateNoRecheck()
    ensures ValidateOutput("abcde", "x\n\nyyyyy") == "x"
    ensures TooShort("abcde", "x")
  {
    var c := "x\n\nyyyyy";
    assert c == "x" + "\n\n" + "yyyyy";
    assert !OccursAt(c, "\n\n", 0) by { assert c[0] != '\n'; }
    ValidateCutParagraph("abcde", "x", "yyyyy");
  }

  /** A too-long reply whose first blank line follows the stripped text `a`
      is cut to exactly `a`, whatever the length of `a`. */
  lemma ValidateCutParagraph(original: string, a: string, b: string)
    requires !TooShort(original, a + "\n\n" + b) && TooLong(original, a + "\n\n" + b)
    requires forall j :: 0 <= j < |a| ==> !OccursAt(a + "\n\n" + b, "\n\n", j)
    requires IsStripped(a)
    ensures ValidateOutput(original, a + "\n\n" + b) == a
  {
    SplitAppend(a, "\n\n", b);
    StripStripped(a);
  }

  /** Unless the original is returned, the result is stripped. */
  lemma ValidateStripped(original: string, corrected: string)
    requires !TooShort(original, corrected)
    ensures IsStripped(ValidateOutput(original, corrected))
  {
    if TooLong(original, corrected) {
      StripIsStripped(FirstParagraph(corrected));
    } else {
      StripIsStripped(corrected);
    }
  }

  // ---------------------------------------------------------------------------
  // chunk_text
  // ---------------------------------------------------------------------------

  /** The text a group of paragraphs accumulates in `current`: each
      paragraph followed by `"\n\n"`. */
  function Joined(g: seq<string>): string
    decreases |g|
  {
    if g == [] then "" else Joined(g[..|g| - 1]) + g[|g| - 1] + "\n\n"
  }

  /** The packer's state: the groups already closed and the open one. */
  datatype Packing = Packing(closed: seq<seq<string>>, current: seq<string>)

  /** Lines 118-124: a paragraph joins the open group if the group's text
      stays within `maxLen`, otherwise it closes the group and opens a new
      one. */
  function PackStep(st: Packing, p: string, maxLen: int): Packing {
    if |Joined(st.current)| + |p| + 2 <= maxLen then Packing(st.closed, st.current + [p])
    else Packing(st.closed + [st.current], [p])
  }

  /** The state after the first `n` paragraphs. */
  function PackFirst(paras: seq<string>, maxLen: int, n: nat): Packing
    requires n <= |paras|
  {
    if n == 0 then Packing([], []) else PackStep(PackFirst(paras, maxLen, n - 1), paras[n - 1], maxLen)
  }

  /** All groups, the open one last. The first group may be empty. */
  function Groups(paras: seq<string>, maxLen: int): seq<seq<string>> {
    var st := PackFirst(paras, maxLen, |paras|);
    st.closed + [st.current]
  }

  /** The chunks the groups give: each group's stripped text, unless it is
      empty. */
  function Emit(groups: seq<seq<string>>): seq<string>
    decreases |groups|
  {
    if groups == [] then []
    else
      var c := Strip(Joined(groups[|groups| - 1]));
      Emit(groups[..|groups| - 1]) + (if c != [] then [c] else [])
  }

  /** What `chunk_text(text, maxLen)` returns. */
  function Chunks(text: string, maxLen: int): seq<string> {
    Emit(Groups(Split(text, "\n\n"), maxLen))
  }

  lemma EmitSnoc(groups: seq<seq<string>>, g: seq<string>)
    ensures var c := Strip(Joined(g));
      Emit(groups + [g]) == Emit(groups) + (if c != [] then [c] else [])
  {
    assert (groups + [g])[..|groups|] == groups;
  }

  lemma JoinedSingle(p: string)
    ensures Joined([p]) == p + "\n\n"
  {
    assert [p][..0] == [];
  }

  lemma JoinedSnoc(g: seq<string>, p: string)
    ensures Joined(g + [p]) == Joined(g) + p + "\n\n"
  {
    assert (g + [p])[..|g|] == g;
  }

  /** `chunk_text` (lines 96-133): split into paragraphs, then pack them. */
  method ChunkText(text: string, maxLen: int) returns (chunks: seq<string>)
    ensures chunks == Chunks(text, maxLen)
  {
    var paragraphs := Split(text, "\n\n");
    chunks := PackParagraphs(paragraphs, maxLen);
  }

  /** The packing loop of `chunk_text` (lines 113-131). */
  method PackParagraphs(paragraphs: seq<string>, maxLen: int) returns (chunks: seq<string>)
    ensures chunks == Emit(Groups(paragraphs, maxLen))
  {
    chunks := [];
    var current := "";
    for i := 0 to |paragraphs|
      invariant var st := PackFirst(paragraphs, maxLen, i);
        current == Joined(st.current) && chunks == Emit(st.closed)
    {
      var p := paragraphs[i];
      PackNext(paragraphs, maxLen, i, current, chunks);
      if |current| + |p| + 2 <= maxLen {
        current := current + p + "\n\n";
      } else {
        var c := Strip(current);
        if c != [] {
          chunks := chunks + [c];
        }
        current := p + "\n\n";
      }
    }
    var c := Strip(current);
    PackLast(paragraphs, maxLen, current, chunks);
    if c != [] {
      chunks := chunks + [c];
    }
  }

  /** One iteration of the loop of `chunk_text` keeps its text and its
      chunks in step with `PackFirst`. */
  lemma PackNext(paras: seq<string>, maxLen: int, i: nat, current: string, chunks: seq<string>)
    requires i < |paras|
    requires var st := PackFirst(paras, maxLen, i);
      current == Joined(st.current) && chunks == Emit(st.closed)
    ensures var p := paras[i];
      var st' := PackFirst(paras, maxLen, i + 1);
      var c := Strip(current);
      if |current| + |p| + 2 <= maxLen then
        current + p + "\n\n" == Joined(st'.current) && chunks == Emit(st'.closed)
      else
        p + "\n\n" == Joined(st'.current) && chunks + (if c != [] then [c] else []) == Emit(st'.closed)
  {
    var st := PackFirst(paras, maxLen, i);
    var p := paras[i];
    if |current| + |p| + 2 <= maxLen {
      JoinedSnoc(st.current, p);
    } else {
      EmitSnoc(st.closed, st.current);
      JoinedSingle(p);
    }
  }

  /** After the loop, the open group gives the last chunk. */
  lemma PackLast(paras: seq<string>, maxLen: int, current: string, chunks: seq<string>)
    requires var st := PackFirst(paras, maxLen, |paras|);
      current == Joined(st.current) && chunks == Emit(st.closed)
    ensures var c := Strip(current);
      chunks + (if c != [] then [c] else []) == Emit(Groups(paras, maxLen))
  {
    var st := PackFirst(paras, maxLen, |paras|);
    EmitSnoc(st.closed, st.current);
  }

  /** Every chunk is stripped and non-empty. */
  lemma {:induction false} EmitStripped(groups: seq<seq<string>>)
    ensures forall c :: c in Emit(groups) ==> c != [] && IsStripped(c)
    decreases |groups|
  {
    if groups != [] {
      EmitStripped(groups[..|groups| - 1]);
      StripIsStripped(Joined(groups[|groups| - 1]));
    }
  }

  lemma ChunksStripped(text: string, maxLen: int)
    ensures forall c :: c in Chunks(text, maxLen) ==> c != [] && IsStripped(c)
  {
    EmitStripped(Groups(Split(text, "\n\n"), maxLen));
  }

  /** Packing never splits or reorders paragraphs: the groups, in order,
      are the paragraphs. */
  lemma {:induction false} PackFirstFlatten(paras: seq<string>, maxLen: int, n: nat)
    requires n <= |paras|
    ensures var st := PackFirst(paras, maxLen, n);
      Flatten(st.closed) + st.current == paras[..n]
  {
    if n > 0 {
      PackFirstFlatten(paras, maxLen, n - 1);
      var st := PackFirst(paras, maxLen, n - 1);
      TakeSnoc(paras, n);
      FlattenStep(st.closed, st.current, paras[..n - 1], paras[n - 1]);
    }
  }

  /** Either way a paragraph is packed, the flattened state grows by it. */
  lemma FlattenStep(closed: seq<seq<string>>, current: seq<string>, prefix: seq<string>, p: string)
    requires Flatten(closed) + current == prefix
    ensures Flatten(closed) + (current + [p]) == prefix + [p]
    ensures Flatten(closed + [current]) + [p] == prefix + [p]
  {
    FlattenSnoc(closed, current);
  }

  lemma GroupsFlatten(paras: seq<string>, maxLen: int)
    ensures Flatten(Groups(paras, maxLen)) == paras
  {
    PackFirstFlatten(paras, maxLen, |paras|);
    var st := PackFirst(paras, maxLen, |paras|);
    FlattenSnoc(st.closed, st.current);
    assert paras[..|paras|] == paras;
  }

  /** A group of more than one paragraph has text of at most `maxLen`
      characters, so a chunk longer than `maxLen` is a single paragraph. */
  predicate Fits(g: seq<string>, maxLen: int) {
    |g| > 1 ==> |Joined(g)| <= maxLen
  }

  /** Every group of `gs` fits. */
  predicate AllFit(gs: seq<seq<string>>, maxLen: int) {
    forall k :: 0 <= k < |gs| ==> Fits(gs[k], maxLen)
  }

  lemma AllFitSnoc(gs: seq<seq<string>>, g: seq<string>, maxLen: int)
    requires AllFit(gs, maxLen) && Fits(g, maxLen)
    ensures AllFit(gs + [g], maxLen)
  {
    forall k | 0 <= k < |gs| + 1 ensures Fits((gs + [g])[k], maxLen) {
      if k < |gs| {
        assert (gs + [g])[k] == gs[k];
      }
    }
  }

  lemma {:induction false} PackFirstFits(paras: seq<string>, maxLen: int, n: nat)
    requires n <= |paras|
    ensures var st := PackFirst(paras, maxLen, n);
      Fits(st.current, maxLen) && AllFit(st.closed, maxLen)
  {
    if n > 0 {
      PackFirstFits(paras, maxLen, n - 1);
      var st := PackFirst(paras, maxLen, n - 1);
      var p := paras[n - 1];
      if |Joined(st.current)| + |p| + 2 <= maxLen {
        JoinedSnoc(st.current, p);
      } else {
        AllFitSnoc(st.closed, st.current, maxLen);
      }
    }
  }

  lemma GroupsFit(paras: seq<string>, maxLen: int)
    ensures var gs := Groups(paras, maxLen);
      forall k :: 0 <= k < |gs| ==> |gs[k]| > 1 ==> |Joined(gs[k])| <= maxLen
  {
    PackFirstFits(paras, maxLen, |paras|);
    var st := PackFirst(paras, maxLen, |paras|);
    AllFitSnoc(st.closed, st.current, maxLen);
    assert AllFit(Groups(paras, maxLen), maxLen);
  }

  /** Every emitted chunk is the stripped text of one of the groups. */
  lemma {:induction false} EmitFrom(groups: seq<seq<string>>)
    ensures forall c :: c in Emit(groups) ==>
      c != [] && exists k :: 0 <= k < |groups| && c == Strip(Joined(groups[k]))
    decreases |groups|
  {
    if groups != [] {
      var init := groups[..|groups| - 1];
      EmitFrom(init);
      forall c | c in Emit(init)
        ensures exists k :: 0 <= k < |groups| && c == Strip(Joined(groups[k]))
      {
        var k :| 0 <= k < |init| && c == Strip(Joined(init[k]));
        assert groups[k] == init[k];
      }
    }
  }

  /** The paragraph break `chunk_text` appends is whitespace and goes with
      the strip. */
  lemma StripParagraphBreak(p: string)
    ensures Strip(p + "\n\n") == Strip(p)
  {
    var s := p + "\n\n";
    assert s[|s| - 1] == '\n' && s[..|s| - 1] == p + "\n";
    assert RStrip(s) == RStrip(p + "\n");
    assert (p + "\n")[..|p|] == p;
    assert RStrip(p + "\n") == RStrip(p);
  }

  /** A chunk longer than `maxLen` is a single paragraph of the input,
      stripped: only a paragraph that fits nowhere else exceeds the bound. */
  lemma LongChunkIsParagraph(text: string, maxLen: int)
    ensures forall c :: c in Chunks(text, maxLen) && |c| > maxLen ==>
      exists p :: p in Split(text, "\n\n") && c == Strip(p)
  {
    var paras := Split(text, "\n\n");
    var gs := Groups(paras, maxLen);
    EmitFrom(gs);
    GroupsFit(paras, maxLen);
    GroupsFlatten(paras, maxLen);
    forall c | c in Chunks(text, maxLen) && |c| > maxLen
      ensures exists p :: p in paras && c == Strip(p)
    {
      var k :| 0 <= k < |gs| && c == Strip(Joined(gs[k]));
      StripIsStripped(Joined(gs[k]));
      assert |gs[k]| == 1;
      var p := gs[k][0];
      assert gs[k] == [p];
      JoinedSingle(p);
      StripParagraphBreak(p);
      FlattenMember(gs, k, p);
    }
  }

  /** Every paragraph of `g` is whitespace only. */
  predicate Blanks(g: seq<string>) {
    forall k :: 0 <= k < |g| ==> AllSpace(g[k])
  }

  /** Every group of `gs` holds whitespace-only paragraphs. */
  predicate AllBlanks(gs: seq<seq<string>>) {
    forall k :: 0 <= k < |gs| ==> Blanks(gs[k])
  }

  /** The pieces of an all-whitespace join are all whitespace. */
  lemma {:induction false} JoinAllSpace(sep: string, parts: seq<string>)
    requires AllSpace(Join(sep, parts))
    ensures Blanks(parts)
    decreases |parts|
  {
    if |parts| == 1 {
      assert Join(sep, parts) == parts[0];
    } else if |parts| > 1 {
      var j := Join(sep, parts);
      var rest := Join(sep, parts[1..]);
      assert j == parts[0] + sep + rest;
      assert AllSpace(parts[0]) by {
        forall i | 0 <= i < |parts[0]| ensures IsSpace(parts[0][i]) {
          assert parts[0][i] == j[i];
        }
      }
      assert AllSpace(rest) by {
        forall i | 0 <= i < |rest| ensures IsSpace(rest[i]) {
          assert rest[i] == j[|parts[0]| + |sep| + i];
        }
      }
      JoinAllSpace(sep, parts[1..]);
      forall k | 1 <= k < |parts| ensures AllSpace(parts[k]) {
        assert parts[k] == parts[1..][k - 1];
      }
    }
  }

  lemma {:induction false} JoinedAllSpace(g: seq<string>)
    requires Blanks(g)
    ensures AllSpace(Joined(g))
    decreases |g|
  {
    if g != [] {
      var init := g[..|g| - 1];
      assert Blanks(init) by {
        forall k | 0 <= k < |init| ensures AllSpace(init[k]) {
          assert init[k] == g[k];
        }
      }
      JoinedAllSpace(init);
      var a := Joined(init);
      var p := g[|g| - 1];
      assert AllSpace(p);
      var j := a + p + "\n\n";
      forall i | 0 <= i < |j| ensures IsSpace(j[i]) {
        if i < |a| {
          assert j[i] == a[i];
        } else if i < |a| + |p| {
          assert j[i] == p[i - |a|];
        } else {
          assert j[i] == '\n';
        }
      }
    }
  }

  /** Paragraphs that are all whitespace give groups of such paragraphs. */
  lemma {:induction false} PackFirstAllSpace(paras: seq<string>, maxLen: int, n: nat)
    requires n <= |paras| && Blanks(paras)
    ensures var st := PackFirst(paras, maxLen, n);
      Blanks(st.current) && AllBlanks(st.closed)
  {
    if n > 0 {
      PackFirstAllSpace(paras, maxLen, n - 1);
      var st := PackFirst(paras, maxLen, n - 1);
      var p := paras[n - 1];
      assert AllSpace(p);
      if |Joined(st.current)| + |p| + 2 <= maxLen {
        var g := st.current + [p];
        forall k | 0 <= k < |g| ensures AllSpace(g[k]) {
          if k < |st.current| {
            assert g[k] == st.current[k];
          }
        }
      } else {
        var gs := st.closed + [st.current];
        forall k | 0 <= k < |gs| ensures Blanks(gs[k]) {
          if k < |st.closed| {
            assert gs[k] == st.closed[k];
          }
        }
        assert Blanks([p]) by {
          forall k | 0 <= k < 1 ensures AllSpace([p][k]) {
          }
        }
      }
    }
  }

  lemma {:induction false} EmitAllSpace(groups: seq<seq<string>>)
    requires AllBlanks(groups)
    ensures Emit(groups) == []
    decreases |groups|
  {
    if groups != [] {
      var init := groups[..|groups| - 1];
      assert AllBlanks(init) by {
        forall k | 0 <= k < |init| ensures Blanks(init[k]) {
          assert init[k] == groups[k];
        }
      }
      EmitAllSpace(init);
      var g := groups[|groups| - 1];
      JoinedAllSpace(g);
      StripAllSpace(Joined(g));
    }
  }

  /** Empty or whitespace-only text gives no chunk. */
  lemma ChunksOfBlank(text: string, maxLen: int)
    requires AllSpace(text)
    ensures Chunks(text, maxLen) == []
  {
    var paras := Split(text, "\n\n");
    JoinAllSpace("\n\n", paras);
    PackFirstAllSpace(paras, maxLen, |paras|);
    var st := PackFirst(paras, maxLen, |paras|);
    var gs := Groups(paras, maxLen);
    forall k | 0 <= k < |gs| ensures Blanks(gs[k]) {
      if k < |st.closed| {
        assert gs[k] == st.closed[k];
      }
    }
    EmitAllSpace(gs);
  }

  // ---------------------------------------------------------------------------
  // correct_transcription, lines 228-264
  // ---------------------------------------------------------------------------

  /** Lines 258-264: join the blocks with a blank line, squeeze runs of
      spaces and tabs, cut runs of three or more newlines to two, strip. */
  function Normalise(blocks: seq<string>): string {
    Strip(CollapseNewlines(Squeeze(Join("\n\n", blocks), SpaceOrTab)))
  }

  /** No tab in `s`. */
  predicate NoTab(s: string) {
    forall i :: 0 <= i < |s| ==> s[i] != '\t'
  }

  lemma SliceKeepsClean(s: string, a: nat, t: string)
    requires a + |t| <= |s| && t == s[a..a + |t|]
    requires NoTab(s) && NoDoubleSpace(s) && NoTripleNewline(s)
    ensures NoTab(t) && NoDoubleSpace(t) && NoTripleNewline(t)
  {
    assert forall i :: 0 <= i < |t| ==> t[i] == s[a + i];
  }

  /** Squeezing spaces and tabs leaves no tab and no two adjacent spaces. */
  lemma SqueezeClean(s: string)
    ensures NoTab(Squeeze(s, SpaceOrTab)) && NoDoubleSpace(Squeeze(s, SpaceOrTab))
  {
    var r := Squeeze(s, SpaceOrTab);
    forall i | 0 <= i < |r| ensures r[i] != '\t' {
      assert IsBlank(r[i], SpaceOrTab) ==> r[i] == ' ';
    }
    forall i | 0 <= i < |r| - 1 ensures !(r[i] == ' ' && r[i + 1] == ' ') {
      assert !(IsBlank(r[i], SpaceOrTab) && IsBlank(r[i + 1], SpaceOrTab));
    }
  }

  /** Collapsing newline runs adds no tab and no pair of spaces. */
  lemma CollapseClean(s: string)
    requires NoTab(s) && NoDoubleSpace(s)
    ensures var r := CollapseNewlines(s);
      NoTab(r) && NoDoubleSpace(r) && NoTripleNewline(r)
  {
    var r := CollapseNewlines(s);
    CollapseNewlinesNoDoubleSpace(s);
    forall i | 0 <= i < |r| ensures r[i] != '\t' {
      assert r[i] in r;
    }
  }

  /** Stripping keeps all three and leaves no whitespace at either end. */
  lemma StripClean(s: string)
    requires NoTab(s) && NoDoubleSpace(s) && NoTripleNewline(s)
    ensures var r := Strip(s);
      NoTab(r) && NoDoubleSpace(r) && NoTripleNewline(r) && IsStripped(r)
  {
    var a := StripAt(s);
    StripIsStripped(s);
    SliceKeepsClean(s, a, Strip(s));
  }

  /** The final text has no tab, no two adjacent spaces, no run of three
      newlines, and no whitespace at either end. */
  lemma NormaliseClean(blocks: seq<string>)
    ensures var r := Normalise(blocks);
      NoTab(r) && NoDoubleSpace(r) && NoTripleNewline(r) && IsStripped(r)
  {
    var s1 := Squeeze(Join("\n\n", blocks), SpaceOrTab);
    SqueezeClean(Join("\n\n", blocks));
    CollapseClean(s1);
    StripClean(CollapseNewlines(s1));
  }

  /** What the loop of lines 234-255 keeps for one chunk: the original when
      the service failed (`None`), otherwise the validated extracted reply. */
  function Corrected(chunk: string, reply: Option<string>): string {
    match reply
    case None => chunk
    case Some(text) => ValidateOutput(chunk, Extracted(text))
  }

  /** One iteration of the loop of lines 234-255. */
  method CorrectChunk(chunk: string, reply: Option<string>) returns (corrected: string)
    ensures corrected == Corrected(chunk, reply)
  {
    match reply
    case None =>
      corrected := chunk;
    case Some(text) =>
      corrected := ExtractText(text);
      corrected := ValidateOutput(chunk, corrected);
  }

  /** `correct_transcription` (lines 201-264) with the service's health check
      as `available` and its reply for the `i`-th chunk as `replies[i]`. */
  method CorrectTranscription(text: string, available: bool, replies: seq<Option<string>>)
    returns (r: string)
    requires available ==> |replies| == |Chunks(text, 2000)|
    ensures !available ==> r == text
    ensures available ==>
              var chunks := Chunks(text, 2000);
              r == Normalise(seq(|chunks|, i requires 0 <= i < |chunks| => Corrected(chunks[i], replies[i])))
  {
    if !available {
      return text;
    }
    var chunks := ChunkText(text, 2000);
    var correctedChunks: seq<string> := [];
    for i := 0 to |chunks|
      invariant |correctedChunks| == i
      invariant forall k :: 0 <= k < i ==> correctedChunks[k] == Corrected(chunks[k], replies[k])
    {
      var corrected := CorrectChunk(chunks[i], replies[i]);
      correctedChunks := correctedChunks + [corrected];
    }
    assert correctedChunks == seq(|chunks|, i requires 0 <= i < |chunks| => Corrected(chunks[i], replies[i]));
    var finalText := Join("\n\n", correctedChunks);
    finalText := Squeeze(finalText, SpaceOrTab);
    finalText := CollapseNewlines(finalText);
    r := Strip(finalText);
  }
}
