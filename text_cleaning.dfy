/**
 * `clean_text` of the formatting stage (text_formatting.py): runs of spaces
 * squeezed, runs of three or more newlines collapsed, whitespace before
 * punctuation removed, every line stripped and the whole text stripped.
 */
module TextCleaning {

  import opened Text

  // ---------------------------------------------------------------------------
  // re.sub(r"\s+([,.;:!?])", r"\1", s)
  // ---------------------------------------------------------------------------

  /** The punctuation of the class `[,.;:!?]`. */
  predicate IsPunct(c: char) {
    c == ',' || c == '.' || c == ';' || c == ':' || c == '!' || c == '?'
  }

  /** The first character of `s` that is not whitespace is punctuation. */
  predicate PunctNext(s: string) {
    var t := LStrip(s);
    t != [] && IsPunct(t[0])
  }

  /** `re.sub(r"\s+([,.;:!?])", r"\1", s)`: a whitespace character is removed
      exactly when the run of whitespace it belongs to is followed by
      punctuation, since the leftmost match swallows that whole run; every
      other character is kept. */
  function Unpunct(s: string): string
    decreases |s|
  {
    if s == [] then []
    else (if IsSpace(s[0]) && PunctNext(s) then [] else [s[0]]) + Unpunct(s[1..])
  }

  // ---------------------------------------------------------------------------
  // Adjacent pairs
  // ---------------------------------------------------------------------------

  /** Two spaces, or whitespace followed by punctuation. */
  predicate Spaced(x: char, y: char) {
    (x == ' ' && y == ' ') || (IsSpace(x) && IsPunct(y))
  }

  /** A pair the cleaned text never holds: one of `Spaced`, or whitespace
      other than a newline next to a newline (a line that is not stripped). */
  predicate Untidy(x: char, y: char) {
    Spaced(x, y) || (x == '\n' && IsSpace(y) && y != '\n') || (IsSpace(x) && x != '\n' && y == '\n')
  }

  predicate Unspaced(s: string) {
    forall i :: 0 <= i < |s| - 1 ==> !Spaced(s[i], s[i + 1])
  }

  predicate Tidy(s: string) {
    forall i :: 0 <= i < |s| - 1 ==> !Untidy(s[i], s[i + 1])
  }

  lemma UnspacedSlice(s: string, a: nat, b: nat)
    requires Unspaced(s) && a <= b <= |s|
    ensures Unspaced(s[a..b])
  {
    forall i | 0 <= i < b - a - 1 ensures !Spaced(s[a..b][i], s[a..b][i + 1]) {
      assert s[a..b][i] == s[a + i] && s[a..b][i + 1] == s[a + i + 1];
    }
  }

  lemma TidySlice(s: string, a: nat, b: nat)
    requires Tidy(s) && a <= b <= |s|
    ensures Tidy(s[a..b])
  {
    forall i | 0 <= i < b - a - 1 ensures !Untidy(s[a..b][i], s[a..b][i + 1]) {
      assert s[a..b][i] == s[a + i] && s[a..b][i + 1] == s[a + i + 1];
    }
  }

  /** Two tidy strings make a tidy one when the pair where they meet is. */
  lemma TidyConcat(a: string, b: string)
    requires Tidy(a) && Tidy(b)
    requires a == [] || b == [] || !Untidy(a[|a| - 1], b[0])
    ensures Tidy(a + b)
  {
    var s := a + b;
    forall i | 0 <= i < |s| - 1 ensures !Untidy(s[i], s[i + 1]) {
      if i + 1 < |a| {
        assert s[i] == a[i] && s[i + 1] == a[i + 1];
      } else if i >= |a| {
        assert s[i] == b[i - |a|] && s[i + 1] == b[i - |a| + 1];
      }
    }
  }

  // ---------------------------------------------------------------------------
  // No whitespace before punctuation
  // ---------------------------------------------------------------------------

  lemma NoDoubleSpaceTail(s: string)
    requires s != [] && NoDoubleSpace(s)
    ensures NoDoubleSpace(s[1..])
  {
    forall i | 0 <= i < |s[1..]| - 1 ensures !(s[1..][i] == ' ' && s[1..][i + 1] == ' ') {
      assert s[1..][i] == s[1 + i] && s[1..][i + 1] == s[1 + i + 1];
    }
  }

  /** After the rewrite no whitespace precedes punctuation, and (when no two
      spaces were adjacent before) no two spaces are adjacent. */
  lemma {:induction false} UnpunctUnspaced(s: string)
    requires NoDoubleSpace(s)
    ensures Unspaced(Unpunct(s))
    decreases |s|
  {
    if s != [] {
      NoDoubleSpaceTail(s);
      UnpunctUnspaced(s[1..]);
      var t := Unpunct(s[1..]);
      if !(IsSpace(s[0]) && PunctNext(s)) {
        var r := [s[0]] + t;
        assert Unpunct(s) == r;
        if t != [] && IsSpace(s[0]) {
          assert s[1..] != [];
          assert LStrip(s) == LStrip(s[1..]);
          assert t[0] == s[1];
          assert !Spaced(r[0], r[1]);
        }
        forall i | 0 <= i < |r| - 1 ensures !Spaced(r[i], r[i + 1]) {
          if i > 0 {
            assert r[i] == t[i - 1] && r[i + 1] == t[i];
          }
        }
      }
    }
  }

  // ---------------------------------------------------------------------------
  // "\n".join(line.strip() for line in s.split("\n"))
  // ---------------------------------------------------------------------------

  function StripEach(ls: seq<string>): seq<string>
    decreases |ls|
  {
    if ls == [] then [] else [Strip(ls[0])] + StripEach(ls[1..])
  }

  /** Every line of `s` stripped. */
  function StripLines(s: string): string {
    Join("\n", StripEach(Split(s, "\n")))
  }

  /** `StripLines` line by line: the first line stripped, then the rest. */
  lemma StripLinesFirst(s: string)
    ensures var f := Split(s, "\n")[0];
      && |f| <= |s| && f == s[..|f|] && (forall j :: 0 <= j < |f| ==> f[j] != '\n')
      && (|f| == |s| ==> StripLines(s) == Strip(s))
      && (|f| < |s| ==> s[|f|] == '\n')
      && (|f| < |s| ==> StripLines(s) == Strip(f) + "\n" + StripLines(s[|f| + 1..]))
  {
    SplitLine(s);
    var f := Split(s, "\n")[0];
    forall j | 0 <= j < |f| ensures f[j] != '\n' {
      assert f[j] == s[j];
    }
    if |f| < |s| {
      var rest := Split(s[|f| + 1..], "\n");
      assert ([f] + rest)[1..] == rest;
      var st := StripEach([f] + rest);
      assert st == [Strip(f)] + StripEach(rest);
      assert st[1..] == StripEach(rest);
    }
  }

  /** A stripped piece of a string without whitespace before punctuation does
      not begin with punctuation unless the piece was the string's start. */
  lemma StripStartsPunct(s: string)
    requires Unspaced(s)
    requires Strip(s) != [] && IsPunct(Strip(s)[0])
    ensures IsPunct(s[0])
  {
    StripSlice(s);
    var a := StripStart(s);
    assert a > 0 ==> s[..a][a - 1] == s[a - 1];
    assert a > 0 ==> Spaced(s[a - 1], s[a]);
  }

  /** A stripped line (no newline in it) of an unspaced text is tidy. */
  lemma StrippedLineTidy(f: string)
    requires Unspaced(f) && forall j :: 0 <= j < |f| ==> f[j] != '\n'
    ensures Tidy(Strip(f))
  {
    StripSlice(f);
    var a := StripStart(f);
    var sf := Strip(f);
    UnspacedSlice(f, a, a + |sf|);
    forall i | 0 <= i < |sf| ensures sf[i] != '\n' {
      assert sf[i] == f[a + i];
    }
  }

  /** The stripped lines begin with a newline or with a character that is not
      whitespace. */
  lemma StripLinesEdge(s: string)
    requires StripLines(s) != []
    ensures StripLines(s)[0] == '\n' || !IsSpace(StripLines(s)[0])
  {
    StripLinesFirst(s);
    var f := Split(s, "\n")[0];
    StripIsStripped(f);
    StripIsStripped(s);
  }

  /** A stripped line, a newline and tidy stripped lines that do not begin
      with punctuation or with whitespace other than a newline are tidy. */
  lemma LineJoinTidy(f: string, t: string)
    requires Unspaced(f) && forall j :: 0 <= j < |f| ==> f[j] != '\n'
    requires Tidy(t) && (t == [] || ((t[0] == '\n' || !IsSpace(t[0])) && !IsPunct(t[0])))
    ensures Tidy(Strip(f) + "\n" + t)
  {
    var sf := Strip(f);
    StrippedLineTidy(f);
    StripIsStripped(f);
    TidyConcat(sf, "\n");
    TidyConcat(sf + "\n", t);
  }

  /** The stripped lines of an unspaced text begin with punctuation only when
      the text does. */
  lemma StripLinesStart(s: string)
    requires Unspaced(s)
    requires StripLines(s) != [] && IsPunct(StripLines(s)[0])
    ensures s != [] && IsPunct(s[0])
  {
    StripLinesFirst(s);
    var f := Split(s, "\n")[0];
    UnspacedSlice(s, 0, |f|);
    if Strip(f) != [] {
      StripStartsPunct(f);
    }
  }

  /** The stripped lines after a newline of an unspaced text begin with neither
      punctuation nor whitespace other than a newline. */
  lemma AfterNewline(s: string, n: nat)
    requires Unspaced(s) && n < |s| && s[n] == '\n'
    ensures var t := StripLines(s[n + 1..]);
      t == [] || ((t[0] == '\n' || !IsSpace(t[0])) && !IsPunct(t[0]))
  {
    var b := s[n + 1..];
    var t := StripLines(b);
    if t != [] {
      StripLinesEdge(b);
      if IsPunct(t[0]) {
        UnspacedSlice(s, n + 1, |s|);
        StripLinesStart(b);
      }
    }
  }

  /** `StripLinesFirst` with the first line given by where it ends. */
  lemma FirstLineEnd(s: string) returns (n: nat)
    ensures n <= |s| && forall j :: 0 <= j < n ==> s[..n][j] != '\n'
    ensures n == |s| ==> StripLines(s) == Strip(s[..n])
    ensures n < |s| ==> s[n] == '\n' && StripLines(s) == Strip(s[..n]) + "\n" + StripLines(s[n + 1..])
  {
    StripLinesFirst(s);
    n := |Split(s, "\n")[0]|;
  }

  /** Stripping every line of an unspaced text leaves no untidy pair. */
  lemma {:induction false} StripLinesTidy(s: string)
    requires Unspaced(s)
    ensures Tidy(StripLines(s))
    decreases |s|
  {
    var n := FirstLineEnd(s);
    var f := s[..n];
    UnspacedSlice(s, 0, n);
    if n < |s| {
      var b := s[n + 1..];
      UnspacedSlice(s, n + 1, |s|);
      StripLinesTidy(b);
      AfterNewline(s, n);
      LineJoinTidy(f, StripLines(b));
    } else {
      StrippedLineTidy(f);
    }
  }

  // ---------------------------------------------------------------------------
  // clean_text
  // ---------------------------------------------------------------------------

  /** `clean_text(text)`: `re.sub(r" +", " ")`, `re.sub(r"\n{3,}", "\n\n")`,
      `re.sub(r"\s+([,.;:!?])", r"\1")`, every line stripped, then the whole
      text stripped. */
  function CleanText(text: string): string {
    Strip(StripLines(Unpunct(CollapseNewlines(Squeeze(text, SpaceOnly)))))
  }

  /** The squeezed, collapsed and rewritten text is unspaced. */
  lemma RewrittenUnspaced(text: string)
    ensures Unspaced(Unpunct(CollapseNewlines(Squeeze(text, SpaceOnly))))
  {
    var squeezed := Squeeze(text, SpaceOnly);
    assert NoDoubleSpace(squeezed);
    CollapseNewlinesNoDoubleSpace(squeezed);
    UnpunctUnspaced(CollapseNewlines(squeezed));
  }

  /** The cleaned text is stripped and tidy. */
  lemma CleanTextTidy(text: string)
    ensures IsStripped(CleanText(text)) && Tidy(CleanText(text))
  {
    var lines := StripLines(Unpunct(CollapseNewlines(Squeeze(text, SpaceOnly))));
    RewrittenUnspaced(text);
    StripLinesTidy(Unpunct(CollapseNewlines(Squeeze(text, SpaceOnly))));
    StripSlice(lines);
    TidySlice(lines, StripStart(lines), StripStart(lines) + |Strip(lines)|);
    StripIsStripped(lines);
  }

  /** Both ends of `s` are a newline or not whitespace. */
  predicate LineEdges(s: string) {
    s == [] || ((s[0] == '\n' || !IsSpace(s[0])) && (s[|s| - 1] == '\n' || !IsSpace(s[|s| - 1])))
  }

  /** The first line of such a text, ending at `n`, is stripped. */
  lemma FirstLineStripped(s: string, n: nat)
    requires Tidy(s) && LineEdges(s)
    requires n <= |s| && (forall j :: 0 <= j < n ==> s[j] != '\n') && (n == |s| || s[n] == '\n')
    ensures IsStripped(s[..n])
  {
    if 0 < n < |s| {
      assert !Untidy(s[n - 1], s[n]);
    }
  }

  /** What follows a newline of such a text is again such a text. */
  lemma RestLineEdges(s: string, n: nat)
    requires Tidy(s) && LineEdges(s)
    requires n < |s| && s[n] == '\n'
    ensures Tidy(s[n + 1..]) && LineEdges(s[n + 1..])
  {
    TidySlice(s, n + 1, |s|);
    if n + 1 < |s| {
      assert !Untidy(s[n], s[n + 1]);
    }
  }

  /** In a tidy text whose ends are not whitespace other than a newline, every
      line of `s.split("\n")` is stripped. */
  lemma {:induction false} TidyLinesStripped(s: string)
    requires Tidy(s) && LineEdges(s)
    ensures forall k :: 0 <= k < |Split(s, "\n")| ==> IsStripped(Split(s, "\n")[k])
    decreases |s|
  {
    SplitLine(s);
    var f := Split(s, "\n")[0];
    FirstLineStripped(s, |f|);
    if |f| < |s| {
      var b := s[|f| + 1..];
      RestLineEdges(s, |f|);
      TidyLinesStripped(b);
      var rest := Split(b, "\n");
      assert Split(s, "\n") == [f] + rest;
      forall k | 0 <= k < |Split(s, "\n")| ensures IsStripped(Split(s, "\n")[k]) {
        if k > 0 {
          assert Split(s, "\n")[k] == rest[k - 1];
        }
      }
    }
  }

  /** What `clean_text` promises: the result is stripped, has no two adjacent
      spaces and no whitespace before `, . ; : ! ?`, and every one of its lines
      is stripped. */
  lemma CleanTextClean(text: string)
    ensures var r := CleanText(text);
      && IsStripped(r)
      && NoDoubleSpace(r)
      && (forall i :: 0 <= i < |r| - 1 ==> !(IsSpace(r[i]) && IsPunct(r[i + 1])))
      && (forall k :: 0 <= k < |Split(r, "\n")| ==> IsStripped(Split(r, "\n")[k]))
  {
    var r := CleanText(text);
    CleanTextTidy(text);
    TidyLinesStripped(r);
    forall i | 0 <= i < |r| - 1 ensures !(r[i] == ' ' && r[i + 1] == ' ') && !(IsSpace(r[i]) && IsPunct(r[i + 1])) {
      assert !Untidy(r[i], r[i + 1]);
    }
  }
}
