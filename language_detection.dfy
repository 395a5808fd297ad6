/**
 * The language stage (2_language_detection.py): one language tag per chunk,
 * chosen by the configured mode. `manual` asks the operator for each chunk,
 * `fixed` takes one configured tag, and every other mode assigns Italian.
 * At the end it counts how many chunks got each tag. The operator's console is
 * a finite sequence of input lines; an exhausted console is the `EOFError`
 * that `input()` raises.
 */
module LanguageDetection {

  import opened Wrappers
  import opened Text
  import opened Tally

  /** The four tags the keystroke menu can produce. */
  predicate Supported(lang: string) {
    lang == "it" || lang == "es" || lang == "en" || lang == "fr"
  }

  /** What one console line asks for. */
  datatype Choice = Pick(lang: string) | Preview | Invalid

  /** The menu on a normalised answer: "" and "i" mean Italian, "e", "g",
      "f" the `LANG_OPTIONS` entries, "p" a preview, anything else is
      rejected. */
  function Choose(choice: string): (c: Choice)
    ensures c.Pick? ==> Supported(c.lang)
  {
    if |choice| == 0 then Pick("it")
    else if |choice| > 1 then Invalid
    else
      match choice[0]
      case 'i' => Pick("it")
      case 'e' => Pick("es")
      case 'g' => Pick("en")
      case 'f' => Pick("fr")
      case 'p' => Preview
      case _ => Invalid
  }

  /** One turn of the `while True` loop of `manual_classify_language` (lines
      43-74): the line is lower-cased, then stripped, then looked up. */
  function Decide(line: string): (c: Choice)
    ensures c.Pick? ==> Supported(c.lang)
  {
    Choose(Strip(LowerString(line)))
  }

  /** `cs` holds, line by line, what the console asks for. */
  ghost predicate ChoicesOf(cs: seq<Choice>, input: seq<string>) {
    && |cs| == |input|
    && forall j {:trigger Decide(input[j])} :: 0 <= j < |input| ==> cs[j] == Decide(input[j])
  }

  lemma ChoicesExist(input: seq<string>)
    ensures exists cs :: ChoicesOf(cs, input)
  {
    var cs := seq(|input|, j requires 0 <= j < |input| => Decide(input[j]));
    assert ChoicesOf(cs, input);
  }

  /** What every line of the console asks for. */
  ghost function Choices(input: seq<string>): (cs: seq<Choice>)
    ensures ChoicesOf(cs, input)
  {
    ChoicesExist(input);
    var cs :| ChoicesOf(cs, input);
    cs
  }

  /** Answer `j` is the decision on line `j`. */
  lemma ChoicesAt(input: seq<string>, j: nat)
    requires j < |input|
    ensures Choices(input)[j] == Decide(input[j])
  {
  }

  /** A language picked on console line `at`. */
  datatype Found = Found(lang: string, at: nat)

  /** The first answer at or after position `from` that picks a language,
      with its position; `None` when no answer does (the console runs dry
      first). */
  function NextPick(choices: seq<Choice>, from: nat): (r: Option<Found>)
    requires from <= |choices|
    ensures r.Some? ==>
              && from <= r.value.at < |choices|
              && choices[r.value.at] == Pick(r.value.lang)
              && forall j :: from <= j < r.value.at ==> !choices[j].Pick?
    ensures r.None? ==> forall j :: from <= j < |choices| ==> !choices[j].Pick?
    decreases |choices| - from
  {
    if from == |choices| then None
    else match choices[from]
      case Pick(lang) => Some(Found(lang, from))
      case _ => NextPick(choices, from + 1)
  }

  /** `manual_classify_language` reading the console from position `from`:
      lines are read until one picks a language, which is returned with the
      position after that line; `None` when the console ends first.
      Previews and rejected lines only repeat the prompt. */
  method ClassifyLanguage(input: seq<string>, from: nat) returns (r: Option<string>, next: nat)
    requires from <= |input|
    ensures from <= next <= |input|
    ensures match NextPick(Choices(input), from)
      case None => r.None? && next == |input|
      case Some(p) => r == Some(p.lang) && next == p.at + 1
  {
    var pos := from;
    while pos < |input|
      invariant from <= pos <= |input|
      invariant NextPick(Choices(input), from) == NextPick(Choices(input), pos)
    {
      var choice := Decide(input[pos]);
      ChoicesAt(input, pos);
      if choice.Pick? {
        return Some(choice.lang), pos + 1;
      }
      pos := pos + 1;
    }
    return None, pos;
  }

  // ---------------------------------------------------------------------------
  // The decisions the keystroke menu makes
  // ---------------------------------------------------------------------------

  /** An empty line (Enter) and "i" both mean Italian. */
  lemma EnterMeansItalian()
    ensures Decide("") == Pick("it")
    ensures Decide("i") == Pick("it")
  {
    assert Strip(LowerString("")) == "";
    assert LowerString("i") == "i";
    StripStripped("i");
  }

  /** The three other keys of `LANG_OPTIONS`. */
  lemma OptionKeys()
    ensures Decide("e") == Pick("es")
    ensures Decide("g") == Pick("en")
    ensures Decide("f") == Pick("fr")
    ensures Decide("p") == Preview
  {
    assert LowerString("e") == "e";
    assert LowerString("g") == "g";
    assert LowerString("f") == "f";
    assert LowerString("p") == "p";
    StripStripped("e");
    StripStripped("g");
    StripStripped("f");
    StripStripped("p");
  }

  /** Case and surrounding blanks do not matter: " E " picks Spanish. */
  lemma PaddedCapitalPicksSpanish()
    ensures Decide(" E ") == Pick("es")
  {
    assert LowerString(" E ") == " e ";
    var t := RStrip(" e ");
    assert t == " e" by {
      assert " e "[..2] == " e";
    }
    assert Strip(" e ") == "e" by {
      assert LStrip(" e") == LStrip(" e"[1..]);
      assert " e"[1..] == "e";
    }
  }

  /** A preview or an invalid line is followed by more reading: the answer
      is that of the rest of the console. */
  lemma SkippedLine(input: seq<string>, from: nat)
    requires from < |input| && !Decide(input[from]).Pick?
    ensures NextPick(Choices(input), from) == NextPick(Choices(input), from + 1)
  {
    ChoicesAt(input, from);
  }

  /** The answer is always one of the four tags of the menu. */
  lemma PickSupported(input: seq<string>, from: nat)
    requires from <= |input| && NextPick(Choices(input), from).Some?
    ensures Supported(NextPick(Choices(input), from).value.lang)
  {
    var k := NextPick(Choices(input), from).value.at;
    ChoicesAt(input, k);
  }

  /** Every answer that picks, picks one of the four tags. */
  lemma ChoicesSupported(input: seq<string>)
    ensures forall j :: 0 <= j < |input| && Choices(input)[j].Pick? ==> Supported(Choices(input)[j].lang)
  {
    forall j | 0 <= j < |input| && Choices(input)[j].Pick? ensures Supported(Choices(input)[j].lang) {
      ChoicesAt(input, j);
    }
  }

  // ---------------------------------------------------------------------------
  // detect_languages
  // ---------------------------------------------------------------------------

  /** Why the stage stops without a map: no chunk files (`sys.exit(1)`), or
      the console ended during a manual classification. */
  datatype DetectError = NoChunks | EndOfInput

  /** The tags manual mode assigns to `n` more chunks after the tags `done`
      already given, each classification reading on from where the previous
      one stopped. */
  function ManualLanguages(choices: seq<Choice>, from: nat, n: nat, done: seq<string>): (r: Result<seq<string>, DetectError>)
    requires from <= |choices|
    ensures r.Success? ==> |r.value| == |done| + n && r.value[..|done|] == done
    ensures r.Failure? ==> r.error == EndOfInput
    decreases n
  {
    if n == 0 then Success(done)
    else match NextPick(choices, from)
      case None => Failure(EndOfInput)
      case Some(p) => ManualLanguages(choices, p.at + 1, n - 1, done + [p.lang])
  }

  /** Every tag manual mode assigns is one of the four of the menu. */
  lemma {:induction false} ManualLanguagesSupported(choices: seq<Choice>, from: nat, n: nat, done: seq<string>)
    requires from <= |choices| && ManualLanguages(choices, from, n, done).Success?
    requires forall j :: 0 <= j < |choices| && choices[j].Pick? ==> Supported(choices[j].lang)
    requires forall i :: 0 <= i < |done| ==> Supported(done[i])
    ensures forall i :: 0 <= i < |done| + n ==> Supported(ManualLanguages(choices, from, n, done).value[i])
    decreases n
  {
    if n > 0 {
      var p := NextPick(choices, from).value;
      ManualLanguagesSupported(choices, p.at + 1, n - 1, done + [p.lang]);
    }
  }

  /** The tag list the mode produces for `n` chunks. */
  ghost function ModeLanguages(mode: string, fixedLanguage: string, input: seq<string>, n: nat): (r: Result<seq<string>, DetectError>)
    ensures r.Success? ==> |r.value| == n
    ensures mode != "manual" ==> r.Success?
    ensures mode != "manual" && mode != "fixed" ==> forall i :: 0 <= i < n ==> r.value[i] == "it"
    ensures mode == "fixed" ==> forall i :: 0 <= i < n ==> r.value[i] == fixedLanguage
  {
    if mode == "manual" then ManualLanguages(Choices(input), 0, n, [])
    else if mode == "fixed" then Success(seq(n, _ => fixedLanguage))
    else Success(seq(n, _ => "it"))
  }

  /** The dictionary `language_map[str(chunk)] = lang` filled in chunk order. */
  function BuildMap(chunks: seq<string>, langs: seq<string>): map<string, string>
    requires |langs| == |chunks|
    decreases |chunks|
  {
    if chunks == [] then map[]
    else
      var n := |chunks| - 1;
      BuildMap(chunks[..n], langs[..n])[chunks[n] := langs[n]]
  }

  /** The map has one key per chunk path and no other. */
  lemma {:induction false} BuildMapKeys(chunks: seq<string>, langs: seq<string>)
    requires |langs| == |chunks|
    ensures BuildMap(chunks, langs).Keys == set c | c in chunks
    decreases |chunks|
  {
    if chunks != [] {
      var n := |chunks| - 1;
      BuildMapKeys(chunks[..n], langs[..n]);
      assert (set c | c in chunks) == (set c | c in chunks[..n]) + {chunks[n]} by {
        assert chunks == chunks[..n] + [chunks[n]];
      }
    }
  }

  /** Filling in one more chunk. */
  lemma BuildMapSnoc(chunks: seq<string>, langs: seq<string>, i: nat, lang: string)
    requires |langs| == i < |chunks|
    ensures BuildMap(chunks[..i + 1], langs + [lang]) == BuildMap(chunks[..i], langs)[chunks[i] := lang]
  {
    assert chunks[..i + 1][..i] == chunks[..i];
    assert (langs + [lang])[..i] == langs;
  }

  predicate Distinct(xs: seq<string>) {
    forall i, j :: 0 <= i < j < |xs| ==> xs[i] != xs[j]
  }

  /** Every chunk path maps to the tag of its last position in the list. For
      the distinct paths a directory listing yields, that is its own tag. */
  lemma {:induction false} BuildMapAt(chunks: seq<string>, langs: seq<string>, i: nat)
    requires |langs| == |chunks| && i < |chunks|
    requires forall j :: i < j < |chunks| ==> chunks[j] != chunks[i]
    ensures chunks[i] in BuildMap(chunks, langs) && BuildMap(chunks, langs)[chunks[i]] == langs[i]
    decreases |chunks|
  {
    var n := |chunks| - 1;
    if i < n {
      BuildMapAt(chunks[..n], langs[..n], i);
    }
  }

  /** Distinct chunk paths give one entry per chunk. */
  lemma {:induction false} BuildMapSize(chunks: seq<string>, langs: seq<string>)
    requires |langs| == |chunks| && Distinct(chunks)
    ensures |BuildMap(chunks, langs)| == |chunks|
    decreases |chunks|
  {
    if chunks != [] {
      var n := |chunks| - 1;
      BuildMapSize(chunks[..n], langs[..n]);
      BuildMapKeys(chunks[..n], langs[..n]);
      assert chunks[n] !in BuildMap(chunks[..n], langs[..n]);
    }
  }

  /** The chunk paths whose tag is `lang`. */
  function KeysWith(m: map<string, string>, lang: string): set<string> {
    set k | k in m && m[k] == lang
  }

  /** `stats` counts, for every tag, the keys of `m` carrying it. */
  ghost predicate IsTallyOf(stats: Counts, m: map<string, string>) {
    forall lang :: Get(stats, lang) == |KeysWith(m, lang)|
  }

  /** The keys in `done` whose tag is `lang`: what the loop has counted
      for `lang` so far. */
  ghost function Tallied(m: map<string, string>, done: set<string>, lang: string): set<string> {
    set k | k in done && k in m && m[k] == lang
  }

  /** The summary loop (lines 145-147): `stats[lang] = stats.get(lang, 0) + 1`
      for every value of the map. */
  method TallyLanguages(m: map<string, string>) returns (stats: Counts)
    ensures IsTallyOf(stats, m)
    ensures Total(stats) == |m|
  {
    stats := map[];
    var rest := m.Keys;
    ghost var done: set<string> := {};
    while rest != {}
      invariant rest <= m.Keys && done == m.Keys - rest
      invariant forall lang :: Get(stats, lang) == |Tallied(m, done, lang)|
      invariant Total(stats) == |done|
      decreases rest
    {
      var k :| k in rest;
      TallyNext(m, rest, done, k, stats);
      stats := Bump(stats, m[k]);
      rest := rest - {k};
      done := done + {k};
    }
    TallyDone(m, done, stats);
  }

  /** The loop invariant of `TallyLanguages` survives counting key `k`. */
  lemma TallyNext(m: map<string, string>, rest: set<string>, done: set<string>, k: string, stats: Counts)
    requires rest <= m.Keys && done == m.Keys - rest && k in rest
    requires forall lang :: Get(stats, lang) == |Tallied(m, done, lang)|
    requires Total(stats) == |done|
    ensures rest - {k} <= m.Keys && done + {k} == m.Keys - (rest - {k})
    ensures forall lang :: Get(Bump(stats, m[k]), lang) == |Tallied(m, done + {k}, lang)|
    ensures Total(Bump(stats, m[k])) == |done + {k}|
  {
    TotalBump(stats, m[k]);
    TallyStep(m, done, k, stats);
  }

  /** Once every key is counted, the counts are the tally of the map. */
  lemma TallyDone(m: map<string, string>, done: set<string>, stats: Counts)
    requires done == m.Keys
    requires forall lang :: Get(stats, lang) == |Tallied(m, done, lang)|
    ensures IsTallyOf(stats, m)
  {
    forall lang ensures Get(stats, lang) == |KeysWith(m, lang)| {
      assert Tallied(m, done, lang) == KeysWith(m, lang);
    }
  }

  lemma TallyStepAt(m: map<string, string>, done: set<string>, k: string, stats: Counts, lang: string)
    requires done <= m.Keys && k in m && k !in done
    requires Get(stats, lang) == |Tallied(m, done, lang)|
    ensures Get(Bump(stats, m[k]), lang) == |Tallied(m, done + {k}, lang)|
  {
    var before := Tallied(m, done, lang);
    var after := Tallied(m, done + {k}, lang);
    if m[k] == lang {
      assert after == before + {k};
      assert k !in before;
    } else {
      assert after == before;
    }
  }

  lemma TallyStep(m: map<string, string>, done: set<string>, k: string, stats: Counts)
    requires done <= m.Keys && k in m && k !in done
    requires forall lang :: Get(stats, lang) == |Tallied(m, done, lang)|
    ensures forall lang :: Get(Bump(stats, m[k]), lang) == |Tallied(m, done + {k}, lang)|
  {
    forall lang ensures Get(Bump(stats, m[k]), lang) == |Tallied(m, done + {k}, lang)| {
      TallyStepAt(m, done, k, stats, lang);
    }
  }

  /** The manual branch (lines 98-118): chunk by chunk, classify from where
      the previous answer stopped reading. */
  method ManualMap(chunks: seq<string>, input: seq<string>)
    returns (r: Result<map<string, string>, DetectError>)
    ensures var langs := ManualLanguages(Choices(input), 0, |chunks|, []);
      && (langs.Failure? ==> r == Failure(langs.error))
      && (langs.Success? ==> r == Success(BuildMap(chunks, langs.value)))
  {
    var languageMap: map<string, string> := map[];
    ghost var langs: seq<string> := [];
    var i := 0;
    var pos := 0;
    ghost var cs := Choices(input);
    while i < |chunks|
      invariant i <= |chunks| && pos <= |input| && |langs| == i
      invariant languageMap == BuildMap(chunks[..i], langs)
      invariant ManualLanguages(cs, 0, |chunks|, []) == ManualLanguages(cs, pos, |chunks| - i, langs)
    {
      var lang, next := ClassifyLanguage(input, pos);
      if lang.None? {
        return Failure(EndOfInput);
      }
      BuildMapSnoc(chunks, langs, i, lang.value);
      languageMap := languageMap[chunks[i] := lang.value];
      langs := langs + [lang.value];
      pos := next;
      i := i + 1;
    }
    assert chunks[..i] == chunks;
    return Success(languageMap);
  }

  /** The fixed and auto branches (lines 121-140): every chunk gets `lang`. */
  method ConstantMap(chunks: seq<string>, lang: string) returns (m: map<string, string>)
    ensures m == BuildMap(chunks, seq(|chunks|, _ => lang))
  {
    m := map[];
    ghost var langs: seq<string> := [];
    var i := 0;
    while i < |chunks|
      invariant i <= |chunks| && langs == seq(i, _ => lang)
      invariant m == BuildMap(chunks[..i], langs)
    {
      BuildMapSnoc(chunks, langs, i, lang);
      m := m[chunks[i] := lang];
      langs := langs + [lang];
      i := i + 1;
    }
    assert chunks[..i] == chunks;
  }

  /** What the stage hands on: the chunk-to-tag map and its tally. */
  datatype Detection = Detection(languageMap: map<string, string>, stats: Counts)

  /** `detect_languages` (lines 86-147) on an already sorted list of chunk
      paths: the map of the configured mode and its tally. */
  method DetectLanguages(chunks: seq<string>, mode: string, fixedLanguage: string, input: seq<string>)
    returns (r: Result<Detection, DetectError>)
    ensures chunks == [] ==> r == Failure(NoChunks)
    ensures var langs := ModeLanguages(mode, fixedLanguage, input, |chunks|);
      && (chunks != [] && langs.Failure? ==> r == Failure(langs.error))
      && (chunks != [] && langs.Success? ==>
            && r.Success?
            && r.value.languageMap == BuildMap(chunks, langs.value)
            && IsTallyOf(r.value.stats, r.value.languageMap)
            && Total(r.value.stats) == |r.value.languageMap|)
  {
    if chunks == [] {
      return Failure(NoChunks);
    }
    var languageMap: map<string, string>;
    if mode == "manual" {
      var m := ManualMap(chunks, input);
      if m.Failure? {
        return Failure(m.error);
      }
      languageMap := m.value;
    } else if mode == "fixed" {
      languageMap := ConstantMap(chunks, fixedLanguage);
    } else {
      languageMap := ConstantMap(chunks, "it");
    }
    var stats := TallyLanguages(languageMap);
    return Success(Detection(languageMap, stats));
  }

  /** Every tag of a successful run is one of the four in manual and auto
      mode; fixed mode passes the configured tag through unchecked. */
  lemma TagsSupported(chunks: seq<string>, mode: string, fixedLanguage: string, input: seq<string>)
    requires chunks != [] && mode != "fixed"
    requires ModeLanguages(mode, fixedLanguage, input, |chunks|).Success?
    ensures var m := BuildMap(chunks, ModeLanguages(mode, fixedLanguage, input, |chunks|).value);
      forall c :: c in m ==> Supported(m[c])
  {
    var langs := ModeLanguages(mode, fixedLanguage, input, |chunks|).value;
    if mode == "manual" {
      ChoicesSupported(input);
      ManualLanguagesSupported(Choices(input), 0, |chunks|, []);
    }
    assert forall l :: l in langs ==> Supported(l);
    BuildMapValues(chunks, langs);
  }

  /** In fixed and auto mode every chunk path maps to the one tag. */
  lemma ConstantModeMap(chunks: seq<string>, lang: string)
    ensures var m := BuildMap(chunks, seq(|chunks|, _ => lang));
      m.Keys == (set c | c in chunks) && forall c :: c in m ==> m[c] == lang
  {
    BuildMapKeys(chunks, seq(|chunks|, _ => lang));
    BuildMapValues(chunks, seq(|chunks|, _ => lang));
  }

  lemma {:induction false} BuildMapValues(chunks: seq<string>, langs: seq<string>)
    requires |langs| == |chunks|
    ensures forall c :: c in BuildMap(chunks, langs) ==> BuildMap(chunks, langs)[c] in langs
    decreases |chunks|
  {
    if chunks != [] {
      var n := |chunks| - 1;
      BuildMapValues(chunks[..n], langs[..n]);
    }
  }
}
