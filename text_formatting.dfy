/**
 * The formatting stage (text_formatting.py): a paragraph-preserving greedy
 * wrap that never breaks a word, and the integer statistics printed about the
 * result. The soft clean-up that runs before the wrap is module TextCleaning.
 */
module TextFormatting {

  import opened Wrappers
  import opened Text

  // ---------------------------------------------------------------------------
  // textwrap.fill with break_long_words=False: the greedy word wrap
  // ---------------------------------------------------------------------------

  /** The wrapper's state: the lines already finished and the open line,
      each a sequence of words. */
  datatype Layout = Layout(done: seq<seq<string>>, line: seq<string>)

  /** One word of the greedy wrap: it goes on the open line if the line,
      one space and the word fit in `width`; otherwise the open line is
      finished and the word opens the next one. A word is always put on an
      empty line, however long. */
  function FillStep(st: Layout, w: string, width: int): Layout {
    if st.line == [] then Layout(st.done, [w])
    else if |Unwords(st.line)| + 1 + |w| <= width then Layout(st.done, st.line + [w])
    else Layout(st.done + [st.line], [w])
  }

  /** The state after the first `n` words. */
  function LayoutFirst(ws: seq<string>, width: int, n: nat): Layout
    requires n <= |ws|
  {
    if n == 0 then Layout([], []) else FillStep(LayoutFirst(ws, width, n - 1), ws[n - 1], width)
  }

  /** The lines of the wrap, as words. */
  function Lines(ws: seq<string>, width: int): seq<seq<string>> {
    var st := LayoutFirst(ws, width, |ws|);
    if st.line == [] then st.done else st.done + [st.line]
  }

  /** Each line's text: its words joined by single spaces. */
  function Texts(ls: seq<seq<string>>): (ts: seq<string>)
    ensures |ts| == |ls|
    ensures forall k :: 0 <= k < |ls| ==> ts[k] == Unwords(ls[k])
  {
    seq(|ls|, k requires 0 <= k < |ls| => Unwords(ls[k]))
  }

  /** `textwrap.fill` of a text whose words are `ws`. */
  function FillText(ws: seq<string>, width: int): string {
    Join("\n", Texts(Lines(ws, width)))
  }

  lemma UnwordsSnoc(line: seq<string>, w: string)
    requires line != []
    ensures Unwords(line + [w]) == Unwords(line) + " " + w
  {
    JoinSnoc(" ", line, w);
  }

  lemma TextsSnoc(ls: seq<seq<string>>, l: seq<string>)
    ensures Texts(ls + [l]) == Texts(ls) + [Unwords(l)]
  {
  }

  /** One iteration of the fill loop keeps its line texts in step with
      `LayoutFirst`. */
  lemma FillNext(ws: seq<string>, width: int, i: nat, lines: seq<string>, cur: string)
    requires i < |ws| && ws[i] != []
    requires var st := LayoutFirst(ws, width, i);
      lines == Texts(st.done) && cur == Unwords(st.line) && (cur == [] <==> st.line == [])
    ensures var w := ws[i];
      var st' := LayoutFirst(ws, width, i + 1);
      && st'.line != []
      && (cur == [] ==> lines == Texts(st'.done) && w == Unwords(st'.line))
      && (cur != [] && |cur| + 1 + |w| <= width ==>
            lines == Texts(st'.done) && cur + " " + w == Unwords(st'.line))
      && (cur != [] && |cur| + 1 + |w| > width ==>
            lines + [cur] == Texts(st'.done) && w == Unwords(st'.line))
  {
    var st := LayoutFirst(ws, width, i);
    var w := ws[i];
    assert Unwords([w]) == w;
    if cur != [] {
      if |cur| + 1 + |w| <= width {
        UnwordsSnoc(st.line, w);
      } else {
        TextsSnoc(st.done, st.line);
      }
    }
  }

  /** `textwrap.fill(paragraph, width, break_long_words=False, ...)`; a width
      below one is the `ValueError` the library raises. */
  method Fill(paragraph: string, width: int) returns (r: Option<string>)
    ensures width < 1 ==> r == None
    ensures width >= 1 ==> r == Some(FillText(Words(paragraph), width))
  {
    if width < 1 {
      return None;
    }
    var ws := Words(paragraph);
    var lines: seq<string> := [];
    var cur := "";
    for i := 0 to |ws|
      invariant var st := LayoutFirst(ws, width, i);
        lines == Texts(st.done) && cur == Unwords(st.line) && (cur == [] <==> st.line == [])
    {
      var w := ws[i];
      assert ws[i] in ws;
      FillNext(ws, width, i, lines, cur);
      if cur == [] {
        cur := w;
      } else if |cur| + 1 + |w| <= width {
        cur := cur + " " + w;
      } else {
        lines := lines + [cur];
        cur := w;
      }
    }
    ghost var st := LayoutFirst(ws, width, |ws|);
    if cur != [] {
      TextsSnoc(st.done, st.line);
      lines := lines + [cur];
    }
    r := Some(Join("\n", lines));
  }

  // ---------------------------------------------------------------------------
  // What the greedy wrap guarantees
  // ---------------------------------------------------------------------------

  /** A line holds a single word or fits in `width`. */
  predicate LineFits(l: seq<string>, width: int) {
    |l| == 1 || |Unwords(l)| <= width
  }

  /** Every line is non-empty and fits. */
  predicate AllFit(ls: seq<seq<string>>, width: int) {
    forall k :: 0 <= k < |ls| ==> ls[k] != [] && LineFits(ls[k], width)
  }

  /** No line could have taken the first word of the next one. */
  predicate Greedy(ls: seq<seq<string>>, width: int) {
    forall k :: 0 <= k < |ls| - 1 && ls[k + 1] != [] ==> |Unwords(ls[k])| + 1 + |ls[k + 1][0]| > width
  }

  lemma AllFitSnoc(ls: seq<seq<string>>, l: seq<string>, width: int)
    requires AllFit(ls, width) && l != [] && LineFits(l, width)
    ensures AllFit(ls + [l], width)
  {
    forall k | 0 <= k < |ls| + 1 ensures (ls + [l])[k] != [] && LineFits((ls + [l])[k], width) {
      if k < |ls| {
        assert (ls + [l])[k] == ls[k];
      }
    }
  }

  /** The lines, in order, are the words; each line fits unless it is a
      single word; each line is as long as the greedy rule allows. */
  lemma {:induction false} LayoutFirstInvariant(ws: seq<string>, width: int, n: nat)
    requires n <= |ws|
    ensures var st := LayoutFirst(ws, width, n);
      && Flatten(st.done) + st.line == ws[..n]
      && (n > 0 <==> st.line != [])
      && AllFit(st.done, width)
      && (st.line != [] ==> LineFits(st.line, width) && Greedy(st.done + [st.line], width))
  {
    if n > 0 {
      LayoutFirstInvariant(ws, width, n - 1);
      var st := LayoutFirst(ws, width, n - 1);
      var w := ws[n - 1];
      assert ws[..n] == ws[..n - 1] + [w];
      assert Unwords([w]) == w;
      if st.line == [] {
        assert st.done + [[w]] == [[w]];
      } else if |Unwords(st.line)| + 1 + |w| <= width {
        UnwordsSnoc(st.line, w);
        GreedyExtend(st.done, st.line, w, width);
      } else {
        FlattenSnoc(st.done, st.line);
        AllFitSnoc(st.done, st.line, width);
        GreedyClose(st.done, st.line, w, width);
      }
    }
  }

  lemma GreedyExtend(done: seq<seq<string>>, line: seq<string>, w: string, width: int)
    requires line != [] && Greedy(done + [line], width)
    ensures Greedy(done + [line + [w]], width)
  {
    var a := done + [line];
    var b := done + [line + [w]];
    forall k | 0 <= k < |b| - 1 && b[k + 1] != [] ensures |Unwords(b[k])| + 1 + |b[k + 1][0]| > width {
      assert b[k] == a[k];
      if k + 1 < |done| {
        assert b[k + 1] == a[k + 1];
      } else {
        assert b[k + 1][0] == a[k + 1][0];
      }
    }
  }

  lemma GreedyClose(done: seq<seq<string>>, line: seq<string>, w: string, width: int)
    requires line != [] && Greedy(done + [line], width)
    requires |Unwords(line)| + 1 + |w| > width
    ensures Greedy(done + [line] + [[w]], width)
  {
    var a := done + [line];
    var b := a + [[w]];
    forall k | 0 <= k < |b| - 1 && b[k + 1] != [] ensures |Unwords(b[k])| + 1 + |b[k + 1][0]| > width {
      if k + 1 < |a| {
        assert b[k] == a[k] && b[k + 1] == a[k + 1];
      }
    }
  }

  /** The lines of the wrap: in order they are the words; none is empty;
      each fits in `width` unless it is a single word; and no line could
      have taken the first word of the next (the greedy rule). */
  lemma LinesProperties(ws: seq<string>, width: int)
    ensures var ls := Lines(ws, width);
      Flatten(ls) == ws && AllFit(ls, width) && Greedy(ls, width)
  {
    LayoutFirstInvariant(ws, width, |ws|);
    var st := LayoutFirst(ws, width, |ws|);
    assert ws[..|ws|] == ws;
    if st.line != [] {
      FlattenSnoc(st.done, st.line);
      AllFitSnoc(st.done, st.line, width);
    }
  }

  // ---------------------------------------------------------------------------
  // The shape of a wrapped paragraph
  // ---------------------------------------------------------------------------

  /** A line of wrapped text: non-empty, no newline in it, no whitespace at
      either end. */
  predicate LineText(t: string) {
    t != [] && !IsSpace(t[0]) && !IsSpace(t[|t| - 1]) && forall i :: 0 <= i < |t| ==> t[i] != '\n'
  }

  /** Words joined by single spaces make a line of text. */
  lemma {:induction false} UnwordsLine(l: seq<string>)
    requires l != [] && forall w :: w in l ==> IsWord(w)
    ensures LineText(Unwords(l))
    decreases |l|
  {
    var w := l[0];
    assert w in l;
    if |l| > 1 {
      forall v | v in l[1..] ensures IsWord(v) {
        assert v in l;
      }
      UnwordsLine(l[1..]);
      var rest := Unwords(l[1..]);
      var t := w + " " + rest;
      assert Unwords(l) == t;
      forall i | 0 <= i < |t| ensures t[i] != '\n' {
        if i < |w| {
          assert t[i] == w[i];
        } else if i > |w| {
          assert t[i] == rest[i - |w| - 1];
        }
      }
      assert t[|t| - 1] == rest[|rest| - 1];
    } else {
      assert Unwords(l) == w;
    }
  }

  /** No two newlines in a row. */
  predicate NoBlankLine(s: string) {
    forall i :: 0 <= i < |s| - 1 ==> !(s[i] == '\n' && s[i + 1] == '\n')
  }

  /** Lines joined by single newlines: a stripped text with no blank line,
      which splits back into the lines. */
  lemma {:induction false} JoinLines(ts: seq<string>)
    requires ts != [] && forall k :: 0 <= k < |ts| ==> LineText(ts[k])
    ensures var s := Join("\n", ts);
      s != [] && IsStripped(s) && NoBlankLine(s) && s[0] == ts[0][0]
    decreases |ts|
  {
    var t := ts[0];
    assert LineText(t);
    if |ts| > 1 {
      forall k | 0 <= k < |ts| - 1 ensures LineText(ts[1..][k]) {
        assert ts[1..][k] == ts[k + 1];
      }
      JoinLines(ts[1..]);
      var rest := Join("\n", ts[1..]);
      var s := t + "\n" + rest;
      assert Join("\n", ts) == s;
      assert s[|s| - 1] == rest[|rest| - 1];
      forall i | 0 <= i < |s| - 1 ensures !(s[i] == '\n' && s[i + 1] == '\n') {
        if i < |t| {
          assert s[i] == t[i];
        } else if i == |t| {
          assert s[i + 1] == rest[0];
        } else {
          assert s[i] == rest[i - |t| - 1] && s[i + 1] == rest[i - |t|];
        }
      }
    } else {
      assert Join("\n", ts) == t;
    }
  }

  /** The lines of a non-empty list of words are lines of text. */
  lemma TextsAreLines(ws: seq<string>, width: int)
    requires forall w :: w in ws ==> IsWord(w)
    ensures var ts := Texts(Lines(ws, width));
      (ts == [] <==> ws == []) && forall k :: 0 <= k < |ts| ==> LineText(ts[k])
  {
    LinesProperties(ws, width);
    var ls := Lines(ws, width);
    forall k | 0 <= k < |ls| ensures LineText(Unwords(ls[k])) {
      forall w | w in ls[k] ensures IsWord(w) {
        FlattenMember(ls, k, w);
      }
      UnwordsLine(ls[k]);
    }
    if ls == [] {
      assert Flatten(ls) == [];
    } else {
      assert Flatten(ls) == ls[0] + Flatten(ls[1..]);
    }
  }

  /** The text of a wrap keeps exactly the words, in order. */
  lemma FillWords(ws: seq<string>, width: int)
    requires forall w :: w in ws ==> IsWord(w)
    ensures Words(FillText(ws, width)) == ws
  {
    LinesProperties(ws, width);
    var ls := Lines(ws, width);
    var ts := Texts(ls);
    WordsJoin("\n", ts);
    var f := seq(|ts|, k requires 0 <= k < |ts| => Words(ts[k]));
    forall k | 0 <= k < |ts| ensures f[k] == ls[k] {
      forall w | w in ls[k] ensures IsWord(w) {
        FlattenMember(ls, k, w);
      }
      WordsUnwords(ls[k]);
    }
    assert f == ls;
  }

  /** A wrapped paragraph: non-empty when there are words, stripped, no
      blank line, each of its lines a line of text that holds a single word
      or fits in `width`. */
  lemma FillShape(ws: seq<string>, width: int)
    requires ws != [] && forall w :: w in ws ==> IsWord(w)
    ensures var s := FillText(ws, width);
      && s != [] && IsStripped(s) && NoBlankLine(s)
      && Split(s, "\n") == Texts(Lines(ws, width))
  {
    TextsAreLines(ws, width);
    var ts := Texts(Lines(ws, width));
    JoinLines(ts);
    forall k | 0 <= k < |ts| ensures Separable(ts[k], "\n") {
      var t := ts[k];
      assert LineText(t);
      forall j | 0 <= j < |t| ensures !OccursAt(t + "\n", "\n", j) {
        assert (t + "\n")[j] == t[j];
      }
    }
    SplitJoin("\n", ts);
  }

  // ---------------------------------------------------------------------------
  // smart_wrap
  // ---------------------------------------------------------------------------

  /** Line 40: the paragraph stripped, each run of whitespace made one
      space. */
  function Collapsed(p: string): string {
    Squeeze(Strip(p), Whitespace)
  }

  /** Lines 38-56: each paragraph's words wrapped, the paragraphs the
      clean-up leaves empty dropped. */
  function WrapAll(paras: seq<string>, width: int): seq<string>
    decreases |paras|
  {
    if paras == [] then []
    else
      var c := Collapsed(paras[|paras| - 1]);
      WrapAll(paras[..|paras| - 1], width) + (if c == [] then [] else [FillText(Words(c), width)])
  }

  /** What `smart_wrap(text, width)` returns; `None` is the `ValueError` of
      `textwrap.fill`, raised when a width below one meets a paragraph. */
  function SmartWrapped(text: string, width: int): Option<string> {
    var ps := WrapAll(Split(text, "\n\n"), width);
    if width < 1 && ps != [] then None else Some(Join("\n\n", ps))
  }

  lemma WrapAllSnoc(paras: seq<string>, i: nat, width: int)
    requires i < |paras|
    ensures var c := Collapsed(paras[i]);
      WrapAll(paras[..i + 1], width) == WrapAll(paras[..i], width) + (if c == [] then [] else [FillText(Words(c), width)])
  {
    assert paras[..i + 1][..i] == paras[..i];
  }

  lemma {:induction false} WrapAllGrows(paras: seq<string>, n: nat, width: int)
    requires n <= |paras|
    ensures |WrapAll(paras[..n], width)| <= |WrapAll(paras, width)|
    decreases |paras| - n
  {
    if n < |paras| {
      WrapAllSnoc(paras, n, width);
      WrapAllGrows(paras, n + 1, width);
    } else {
      assert paras[..n] == paras;
    }
  }

  /** A width below one fails on the first paragraph with words. */
  lemma SmartWrappedFails(text: string, width: int, i: nat)
    requires width < 1
    requires var paras := Split(text, "\n\n");
      i < |paras| && Collapsed(paras[i]) != []
    ensures SmartWrapped(text, width) == None
  {
    WrapAllHasParagraph(Split(text, "\n\n"), width, i);
  }

  /** A paragraph with words gives a wrapped paragraph. */
  lemma WrapAllHasParagraph(paras: seq<string>, width: int, i: nat)
    requires i < |paras| && Collapsed(paras[i]) != []
    ensures WrapAll(paras, width) != []
  {
    WrapAllSnoc(paras, i, width);
    WrapAllGrows(paras, i + 1, width);
  }

  /** `smart_wrap` (lines 27-59): split into paragraphs, wrap them, join
      them with blank lines. */
  method SmartWrap(text: string, width: int) returns (r: Option<string>)
    ensures r == SmartWrapped(text, width)
  {
    var paragraphs := Split(text, "\n\n");
    var wrapped := WrapParagraphs(paragraphs, width);
    if wrapped.None? {
      return None;
    }
    r := Some(Join("\n\n", wrapped.value));
  }

  /** The paragraph loop of `smart_wrap` (lines 38-56); `None` when
      `textwrap.fill` raises for a width below one. */
  method WrapParagraphs(paragraphs: seq<string>, width: int) returns (r: Option<seq<string>>)
    ensures var ps := WrapAll(paragraphs, width);
      r == if width < 1 && ps != [] then None else Some(ps)
  {
    var wrapped: seq<string> := [];
    for i := 0 to |paragraphs|
      invariant wrapped == WrapAll(paragraphs[..i], width)
      invariant width < 1 ==> wrapped == []
    {
      WrapAllSnoc(paragraphs, i, width);
      var paragraph := Collapsed(paragraphs[i]);
      if paragraph != [] {
        var filled := Fill(paragraph, width);
        if filled.None? {
          WrapAllHasParagraph(paragraphs, width, i);
          return None;
        }
        wrapped := wrapped + [filled.value];
      }
    }
    assert paragraphs[..|paragraphs|] == paragraphs;
    r := Some(wrapped);
  }

  /** A paragraph left by the clean-up has words. */
  lemma CollapsedWords(p: string)
    ensures Words(Collapsed(p)) == Words(p)
    ensures Collapsed(p) != [] ==> Words(p) != []
    ensures Collapsed(p) == [] ==> Words(p) == []
  {
    WordsSqueeze(Strip(p));
    WordsStrip(p);
    var t := Strip(p);
    StripIsStripped(p);
    if Collapsed(p) != [] {
      WordsNonEmpty(Collapsed(p));
    } else {
      assert Words([]) == NonEmpty([""]);
    }
  }

  /** A wrapped paragraph of `smart_wrap`: non-empty, stripped, no blank
      line inside. */
  predicate Block(b: string) {
    b != [] && IsStripped(b) && NoBlankLine(b)
  }

  /** A line of the output: empty (between paragraphs), or words joined by
      single spaces that fit in `width` unless there is only one. */
  predicate GoodLine(l: string, width: int) {
    l == [] || (Unwords(Words(l)) == l && (|Words(l)| == 1 || |l| <= width))
  }

  predicate AllGood(ls: seq<string>, width: int) {
    forall k :: 0 <= k < |ls| ==> GoodLine(ls[k], width)
  }

  /** Wrapping `b` again gives `b`. */
  predicate Fixed(b: string, width: int) {
    Collapsed(b) != [] && FillText(Words(Collapsed(b)), width) == b
  }

  /** What every element of `WrapAll` is. */
  predicate WrappedBlock(b: string, width: int) {
    Block(b) && AllGood(Split(b, "\n"), width) && Fixed(b, width)
  }

  /** The wrap of a paragraph with words is a block of good lines that
      wraps to itself. */
  lemma FilledBlock(ws: seq<string>, width: int)
    requires ws != [] && forall w :: w in ws ==> IsWord(w)
    ensures WrappedBlock(FillText(ws, width), width)
  {
    var b := FillText(ws, width);
    FillShape(ws, width);
    FillWords(ws, width);
    LinesProperties(ws, width);
    var ls := Lines(ws, width);
    var ts := Texts(ls);
    forall k | 0 <= k < |ts| ensures GoodLine(ts[k], width) {
      forall w | w in ls[k] ensures IsWord(w) {
        FlattenMember(ls, k, w);
      }
      WordsUnwords(ls[k]);
    }
    StripStripped(b);
    CollapsedWords(b);
  }

  /** Every wrapped paragraph is a block of good lines that wraps to
      itself. */
  lemma {:induction false} WrapAllBlock(paras: seq<string>, width: int, k: nat)
    requires k < |WrapAll(paras, width)|
    ensures WrappedBlock(WrapAll(paras, width)[k], width)
    decreases |paras|
  {
    var init := paras[..|paras| - 1];
    var p := paras[|paras| - 1];
    var c := Collapsed(p);
    if k < |WrapAll(init, width)| {
      WrapAllBlock(init, width, k);
      assert WrapAll(paras, width)[k] == WrapAll(init, width)[k];
    } else {
      CollapsedWords(p);
      FilledBlock(Words(c), width);
    }
  }

  lemma BlockSeparable(b: string)
    requires Block(b)
    ensures Separable(b, "\n\n")
  {
    forall j | 0 <= j < |b| ensures !OccursAt(b + "\n\n", "\n\n", j) {
      if j + 1 < |b| {
        assert (b + "\n\n")[j] == b[j] && (b + "\n\n")[j + 1] == b[j + 1];
      } else {
        assert (b + "\n\n")[j] == b[j];
      }
    }
  }

  /** The output is the non-empty wrapped paragraphs joined by exactly
      `"\n\n"`: splitting it there gives them back, and none of them is
      empty, has whitespace at an end, or holds a blank line. */
  lemma SmartWrapParagraphs(text: string, width: int)
    requires width >= 1
    ensures var ps := WrapAll(Split(text, "\n\n"), width);
      && SmartWrapped(text, width) == Some(Join("\n\n", ps))
      && (forall k :: 0 <= k < |ps| ==> Block(ps[k]))
      && (ps != [] ==> Split(Join("\n\n", ps), "\n\n") == ps)
  {
    var ps := WrapAll(Split(text, "\n\n"), width);
    forall k | 0 <= k < |ps| ensures Block(ps[k]) {
      WrapAllBlock(Split(text, "\n\n"), width, k);
    }
    if ps != [] {
      forall k | 0 <= k < |ps| ensures Separable(ps[k], "\n\n") {
        BlockSeparable(ps[k]);
      }
      SplitJoin("\n\n", ps);
    }
  }

  /** The words of each string, in order. */
  function AllWords(xs: seq<string>): seq<string> {
    Flatten(seq(|xs|, k requires 0 <= k < |xs| => Words(xs[k])))
  }

  lemma AllWordsSnoc(xs: seq<string>, x: string)
    ensures AllWords(xs + [x]) == AllWords(xs) + Words(x)
  {
    var f := seq(|xs|, k requires 0 <= k < |xs| => Words(xs[k]));
    var g := seq(|xs + [x]|, k requires 0 <= k < |xs + [x]| => Words((xs + [x])[k]));
    assert g == f + [Words(x)];
    FlattenSnoc(f, Words(x));
  }

  /** A paragraph without words is dropped. */
  lemma WrapAllDrop(init: seq<string>, p: string, width: int)
    requires Collapsed(p) == []
    ensures WrapAll(init + [p], width) == WrapAll(init, width) && Words(p) == []
  {
    assert (init + [p])[..|init|] == init;
    CollapsedWords(p);
  }

  /** A paragraph with words is wrapped, keeping them. */
  lemma WrapAllKeep(init: seq<string>, p: string, width: int)
    requires Collapsed(p) != []
    ensures var x := FillText(Words(Collapsed(p)), width);
      WrapAll(init + [p], width) == WrapAll(init, width) + [x] && Words(x) == Words(p)
  {
    assert (init + [p])[..|init|] == init;
    CollapsedWords(p);
    FillWords(Words(Collapsed(p)), width);
  }

  /** One more paragraph adds its words, wrapped or dropped. */
  lemma WrapAllWordsStep(init: seq<string>, p: string, width: int)
    ensures AllWords(WrapAll(init + [p], width)) == AllWords(WrapAll(init, width)) + Words(p)
  {
    if Collapsed(p) == [] {
      WrapAllDrop(init, p, width);
    } else {
      WrapAllKeep(init, p, width);
      AllWordsSnoc(WrapAll(init, width), FillText(Words(Collapsed(p)), width));
    }
  }

  /** Wrapping keeps the words of every paragraph and drops only
      paragraphs without words. */
  lemma {:induction false} WrapAllWords(paras: seq<string>, width: int)
    ensures AllWords(WrapAll(paras, width)) == AllWords(paras)
    decreases |paras|
  {
    if paras != [] {
      var init := paras[..|paras| - 1];
      var p := paras[|paras| - 1];
      WrapAllWords(init, width);
      LastSplit(paras);
      AllWordsSnoc(init, p);
      WrapAllWordsStep(init, p, width);
    }
  }

  /** `smart_wrap` keeps the words of the text, in order. */
  lemma SmartWrapWords(text: string, width: int)
    requires SmartWrapped(text, width).Some?
    ensures Words(SmartWrapped(text, width).value) == Words(text)
  {
    var paras := Split(text, "\n\n");
    var ps := WrapAll(paras, width);
    WordsJoin("\n\n", ps);
    WordsJoin("\n\n", paras);
    WrapAllWords(paras, width);
  }

  lemma AllGoodAppend(a: seq<string>, b: seq<string>, width: int)
    requires AllGood(a, width) && AllGood(b, width)
    ensures AllGood(a + b, width)
  {
    forall k | 0 <= k < |a + b| ensures GoodLine((a + b)[k], width) {
      if k < |a| {
        assert (a + b)[k] == a[k];
      } else {
        assert (a + b)[k] == b[k - |a|];
      }
    }
  }

  /** Blocks of good lines joined by blank lines give good lines. */
  lemma {:induction false} JoinBlocksLines(ps: seq<string>, width: int)
    requires forall k :: 0 <= k < |ps| ==> AllGood(Split(ps[k], "\n"), width)
    ensures AllGood(Split(Join("\n\n", ps), "\n"), width)
    decreases |ps|
  {
    if ps == [] {
      assert Split("", "\n") == [""];
    } else if |ps| == 1 {
      assert AllGood(Split(ps[0], "\n"), width);
    } else {
      var rest := Join("\n\n", ps[1..]);
      forall k | 0 <= k < |ps| - 1 ensures AllGood(Split(ps[1..][k], "\n"), width) {
        assert ps[1..][k] == ps[k + 1];
      }
      JoinBlocksLines(ps[1..], width);
      assert AllGood(Split(ps[0], "\n"), width);
      JoinTwoBlocksLines(ps[0], rest, width);
    }
  }

  /** Two texts of good lines joined by a blank line give good lines. */
  lemma JoinTwoBlocksLines(p: string, rest: string, width: int)
    requires AllGood(Split(p, "\n"), width) && AllGood(Split(rest, "\n"), width)
    ensures AllGood(Split(p + "\n\n" + rest, "\n"), width)
  {
    assert p + "\n\n" + rest == p + ['\n'] + ([] + ['\n'] + rest);
    SplitCharConcat(p, '\n', [] + ['\n'] + rest);
    SplitCharConcat([], '\n', rest);
    assert Split([], "\n") == [""];
    AllGoodAppend([""], Split(rest, "\n"), width);
    AllGoodAppend(Split(p, "\n"), [""] + Split(rest, "\n"), width);
  }

  /** Every line of the output is empty (between paragraphs) or whole words
      joined by single spaces, at most `width` long unless it is a single
      word. */
  lemma SmartWrapLines(text: string, width: int)
    requires SmartWrapped(text, width).Some?
    ensures AllGood(Split(SmartWrapped(text, width).value, "\n"), width)
  {
    var paras := Split(text, "\n\n");
    var ps := WrapAll(paras, width);
    forall k | 0 <= k < |ps| ensures AllGood(Split(ps[k], "\n"), width) {
      WrapAllBlock(paras, width, k);
    }
    JoinBlocksLines(ps, width);
  }

  /** A paragraph that wraps to itself is kept as it is. */
  lemma WrapAllFixedStep(init: seq<string>, x: string, width: int)
    requires Fixed(x, width)
    ensures WrapAll(init + [x], width) == WrapAll(init, width) + [x]
  {
    assert (init + [x])[..|init|] == init;
  }

  /** Paragraphs that each wrap to themselves are left as they are. */
  lemma {:induction false} WrapAllFixed(xs: seq<string>, width: int)
    requires forall k :: 0 <= k < |xs| ==> Fixed(xs[k], width)
    ensures WrapAll(xs, width) == xs
    decreases |xs|
  {
    if xs != [] {
      var init := xs[..|xs| - 1];
      var x := xs[|xs| - 1];
      assert forall k :: 0 <= k < |init| ==> init[k] == xs[k];
      WrapAllFixed(init, width);
      LastSplit(xs);
      WrapAllFixedStep(init, x, width);
    }
  }

  /** Wrapping is idempotent: `smart_wrap(smart_wrap(t, w), w) == smart_wrap(t, w)`. */
  lemma SmartWrapIdempotent(text: string, width: int)
    requires width >= 1
    ensures SmartWrapped(SmartWrapped(text, width).value, width) == SmartWrapped(text, width)
  {
    SmartWrapParagraphs(text, width);
    var paras := Split(text, "\n\n");
    var ps := WrapAll(paras, width);
    var r := Join("\n\n", ps);
    if ps == [] {
      assert r == [];
      assert Split(r, "\n\n") == [""];
      assert Collapsed("") == [];
      assert WrapAll([""], width) == WrapAll([], width);
    } else {
      forall k | 0 <= k < |ps| ensures Fixed(ps[k], width) {
        WrapAllBlock(paras, width, k);
      }
      WrapAllFixed(ps, width);
    }
  }

  // ---------------------------------------------------------------------------
  // format_statistics (the integer fields)
  // ---------------------------------------------------------------------------

  /** The integer statistics of the formatting stage. */
  datatype Stats = Stats(
    originalLines: nat, formattedLines: nat,
    originalWords: nat, formattedWords: nat,
    maxLineLength: nat,
    originalChars: nat, formattedChars: nat)

  /** `max(len(line) for line in ls)`, and 0 for no lines. */
  function MaxLength(ls: seq<string>): nat
    decreases |ls|
  {
    if ls == [] then 0
    else
      var m := MaxLength(ls[1..]);
      if |ls[0]| > m then |ls[0]| else m
  }

  /** `format_statistics(original, formatted)` without the average line length. */
  function FormatStatistics(original: string, formatted: string): Stats {
    var lines := Split(formatted, "\n");
    Stats(|Split(original, "\n")|, |lines|,
          |Words(original)|, |Words(formatted)|,
          MaxLength(lines),
          |original|, |formatted|)
  }

  /** The longest line is at least as long as every line and is the length of
      one of them. */
  lemma {:induction false} MaxLengthIsMax(ls: seq<string>)
    ensures forall k :: 0 <= k < |ls| ==> |ls[k]| <= MaxLength(ls)
    ensures ls != [] ==> exists k :: 0 <= k < |ls| && |ls[k]| == MaxLength(ls)
    decreases |ls|
  {
    if ls != [] {
      var tail := ls[1..];
      MaxLengthIsMax(tail);
      forall k | 1 <= k < |ls| ensures |ls[k]| <= MaxLength(ls) {
        assert ls[k] == tail[k - 1];
      }
      if |ls[0]| <= MaxLength(tail) && tail != [] {
        var j :| 0 <= j < |tail| && |tail[j]| == MaxLength(tail);
        assert ls[j + 1] == tail[j];
      }
    }
  }

  /** The line counts are one more than the number of newlines. */
  lemma StatsLineCounts(original: string, formatted: string)
    ensures var st := FormatStatistics(original, formatted);
      && st.originalLines == CountChar(original, '\n') + 1
      && st.formattedLines == CountChar(formatted, '\n') + 1
  {
    SplitCharCount(original, '\n');
    SplitCharCount(formatted, '\n');
  }

  /** `max_line_length` bounds every line of the formatted text and is
      reached by one of them. */
  lemma StatsMaxLine(original: string, formatted: string)
    ensures forall k :: 0 <= k < |Split(formatted, "\n")| ==>
      |Split(formatted, "\n")[k]| <= FormatStatistics(original, formatted).maxLineLength
    ensures exists k :: 0 <= k < |Split(formatted, "\n")|
                     && |Split(formatted, "\n")[k]| == FormatStatistics(original, formatted).maxLineLength
  {
    var lines := Split(formatted, "\n");
    MaxLengthIsMax(lines);
    var k :| 0 <= k < |lines| && |lines[k]| == MaxLength(lines);
    assert |lines[k]| == FormatStatistics(original, formatted).maxLineLength;
  }

  /** A word of a line of `s` is a word of `s`. */
  lemma LineWordIsWord(s: string, k: nat, w: string)
    requires k < |Split(s, "\n")| && w in Words(Split(s, "\n")[k])
    ensures w in Words(s)
  {
    var ls := Split(s, "\n");
    assert AllSpace("\n");
    WordsJoin("\n", ls);
    var f := seq(|ls|, j requires 0 <= j < |ls| => Words(ls[j]));
    FlattenMember(f, k, w);
  }

  /** When no word of the input is longer than `width`, no line of the
      output of `smart_wrap` is either. */
  lemma WrappedLineFits(text: string, width: int, k: nat)
    requires width >= 1 && forall w :: w in Words(text) ==> |w| <= width
    requires k < |Split(SmartWrapped(text, width).value, "\n")|
    ensures |Split(SmartWrapped(text, width).value, "\n")[k]| <= width
  {
    SmartWrapParagraphs(text, width);
    var out := SmartWrapped(text, width).value;
    var l := Split(out, "\n")[k];
    SmartWrapLines(text, width);
    assert GoodLine(l, width);
    if l != [] && |Words(l)| == 1 {
      var w := Words(l)[0];
      assert Words(l) == [w];
      LineWordIsWord(out, k, w);
      SmartWrapWords(text, width);
      assert w in Words(text);
      assert l == Unwords([w]);
      assert Unwords([w]) == w;
    }
  }

  /** On the result of `smart_wrap` the word counts agree, and when no word of
      the input is longer than `width` no line is either. */
  lemma WrappedStats(text: string, width: int)
    requires width >= 1
    ensures var st := FormatStatistics(text, SmartWrapped(text, width).value);
      && st.formattedWords == st.originalWords
      && ((forall w :: w in Words(text) ==> |w| <= width) ==> st.maxLineLength <= width)
  {
    SmartWrapParagraphs(text, width);
    var out := SmartWrapped(text, width).value;
    SmartWrapWords(text, width);
    if forall w :: w in Words(text) ==> |w| <= width {
      var lines := Split(out, "\n");
      MaxLengthIsMax(lines);
      var k :| 0 <= k < |lines| && |lines[k]| == MaxLength(lines);
      WrappedLineFits(text, width, k);
    }
  }
}
