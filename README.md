# Offline transcription pipeline — a Dafny model of its text and schedule logic

The pipeline turns a long video into a corrected, formatted transcript in five
stages. First it cuts the video into overlapping segments. Then it assigns a
language to each segment and transcribes each one with a speech model. Next it
sends the transcript, chunk by chunk, to a local language model for
correction. Last it reformats the result to a fixed line width. This project
models the logic of each stage that does not depend on an
external tool, and proves what that logic promises:

- **Segment schedule** (`chunking.dfy`, module `Chunking`).
  - The start, end and duration of every segment of `split_video`.
  - The three-digit file names.
- **Language assignment** (`language_detection.dfy`, module `LanguageDetection`).
  - The operator's keystroke classifier, read over a finite sequence of console lines.
  - The three modes that build the chunk-to-language map.
  - The final tally.
- **Assembly of the transcript** (`transcription.dfy`, module `Transcription`).
  - `clean_overlap`, which removes the words a chunk repeats from the end of the text before it.
  - The loop of `transcribe_all`, which stitches same-language chunks and inserts a marker on a change of language.
- **Correction helpers** (`correction.dfy`, module `Correction`).
  - Heading removal in `extract_text`.
  - The length guard `validate_output`.
  - The paragraph packer `chunk_text`.
  - The join and normalisation that end `correct_transcription`.
- **Formatting.**
  - `clean_text` (`text_cleaning.dfy`, module `TextCleaning`).
  - `smart_wrap` with the greedy `textwrap.fill`, and the integer fields of `format_statistics` (`text_formatting.dfy`, module `TextFormatting`).
- **Shared building blocks.**
  - `text.dfy` (module `Text`) holds the Python string primitives the stages are written with: `strip`, `split`, `join`, `split()` without argument, and the regex squeezes.
  - `tally.dfy` (module `Tally`) holds the `stats[lang] = stats.get(lang, 0) + 1` counters.
  - `wrappers.dfy` holds `Option` and `Result`.

Loops of the source are methods with loop invariants. Each one is proved equal
to a function that states the loop's meaning, and the promised properties are
lemmas about that function. Purely functional code (`validate_output`,
`clean_text`, `format_statistics`) is modelled as functions with lemmas.

Inputs that come from outside become parameters:

- the video duration;
- the console lines;
- the speech model's raw outputs;
- the language model's replies (`None` when a call raised);
- whether the language-model server answered its health check;
- which cut commands fail;
- which chunks fail their audio extraction or transcription;
- the configured constants (`MAX_CHUNK_SECONDS`, `OVERLAP_SECONDS`, the language mode, `FIXED_LANGUAGE`).

Where the program's own comments and its code disagree, the model follows
the code:

- **`clean_overlap`**:
  - Its docstring gives a minimum match of 30 characters ("Match minimo: 30 caratteri", 3_transcription.py:54). Yet the loop never tries the last 30 offsets of its window (`range(len(tail) - 30)`, line 76). A repetition of exactly the last 30 characters of the window is therefore kept. `Transcription.LastOffsetNeverTried` exhibits it.
  - Its comment announces a search for the longest match ("Cerca il match più lungo", line 75). Yet the loop breaks at the first offset whose match reaches 30. `Transcription.StitchedCases` states the first-offset behaviour.
- **`clean_text`**:
  - Its docstring promises to remove triple or longer newlines ("A capo tripli o più", text_formatting.py:68), and its comment says "max 2 consecutivi" (line 74).
  - The code collapses newline runs before it strips lines, and stripping can create runs of three or more newlines again. So no bound on newline runs is claimed for it.

## Model

| member | source | states |
|---|---|---|
| Chunking.ChunkName | 1_chunking.py:63 | definition: `chunk_{i:03}.mp4` |
| Chunking.ChunkPath | 1_chunking.py:63 | definition: the output directory, `/`, and the chunk name |
| Chunking.ChunkAt | 1_chunking.py:56-58 | definition: record `i` with `start = i * step`, `end = min(start + MAX, d)` and `end - start` |
| Chunking.ChunkCount | 1_chunking.py:40-41 | `ceil(d / step)` chunks: none when `d <= 0`, otherwise the least `n` with `n * step >= d` |
| Chunking.SplitVideo | 1_chunking.py:40-94 | an overlap equal to the chunk length fails with the division by zero; otherwise the loop succeeds exactly when no cut fails, returning `ceil(d / step)` records with record `i` being `ChunkAt(i)`, and else fails at the first index whose cut fails |
| Chunking.ChunkFields | 1_chunking.py:56-58 | index `i`, `start = i * step`, `end = min(start + MAX, d)`, `duration = end - start <= MAX` |
| Chunking.ChunkNonEmpty | 1_chunking.py:41 | for `d > 0` every scheduled chunk has `start < end` |
| Chunking.LastChunkEndsAtDuration | 1_chunking.py:55-57 | for `d > 0` and `0 <= OVERLAP < MAX` there is at least one chunk and the last one ends exactly at `d` |
| Chunking.NeighboursOverlap | 1_chunking.py:7-10 | a chunk that is not cut short overlaps the next one by exactly `OVERLAP` seconds |
| Chunking.NoGap | 1_chunking.py:56-57 | with a non-negative overlap each chunk starts no later than its predecessor ends |
| Chunking.StartsIncrease | 1_chunking.py:56 | starts strictly increase with the index |
| Chunking.Pad3Digits | 1_chunking.py:63 | below 1000, `{i:03}` is the three decimal digits of `i` |
| Chunking.ChunkNamesSorted | 1_chunking.py:63 | below 1000, the path of a smaller index sorts before the path of a larger one |
| Chunking.ChunkNamesUnsortedFrom1000 | 1_chunking.py:63 | chunk 1000 sorts before chunk 101, so lexicographic order breaks from index 1000 |
| LanguageDetection.Choose | 2_language_detection.py:46-54 | a pick is always one of it, es, en, fr |
| LanguageDetection.Decide | 2_language_detection.py:43-54 | after `lower().strip()`, a pick is always one of it, es, en, fr |
| LanguageDetection.EnterMeansItalian | 2_language_detection.py:46-47 | an empty line and "i" pick "it" |
| LanguageDetection.OptionKeys | 2_language_detection.py:19-24 | "e", "g" and "f" pick es, en, fr; "p" asks for a preview |
| LanguageDetection.PaddedCapitalPicksSpanish | 2_language_detection.py:43 | " E " is normalised and picks "es" |
| LanguageDetection.NextPick | 2_language_detection.py:42-74 | the chosen line is the first line from `from` on that picks; earlier lines do not pick; none means that no line picks |
| LanguageDetection.ClassifyLanguage | 2_language_detection.py:42-74 | the read loop returns the tag of the first picking line and resumes after it; an exhausted console returns none |
| LanguageDetection.SkippedLine | 2_language_detection.py:54-74 | a preview or an invalid line is skipped without answering |
| LanguageDetection.PickSupported | 2_language_detection.py:46-51 | every answer of the classifier is a supported tag |
| LanguageDetection.ChoicesSupported | 2_language_detection.py:46-51 | every picking line picks a supported tag |
| LanguageDetection.ManualLanguages | 2_language_detection.py:106-108 | manual mode yields one tag per chunk after those already given, or fails when the console runs out |
| LanguageDetection.ManualLanguagesSupported | 2_language_detection.py:106-108 | every tag from manual mode is supported |
| LanguageDetection.ModeLanguages | 2_language_detection.py:98-140 | one tag per chunk: all "it" in auto mode, all `FIXED_LANGUAGE` in fixed mode |
| LanguageDetection.BuildMapKeys | 2_language_detection.py:106-139 | the map's keys are exactly the chunk paths |
| LanguageDetection.BuildMapSnoc | 2_language_detection.py:108 | each iteration adds (or overwrites) exactly the current chunk's entry |
| LanguageDetection.BuildMapAt | 2_language_detection.py:106-139 | a chunk path maps to the tag at its last position |
| LanguageDetection.BuildMapSize | 2_language_detection.py:86-139 | for distinct paths the map has exactly one entry per chunk |
| LanguageDetection.BuildMapValues | 2_language_detection.py:106-139 | every value of the map is one of the produced tags |
| LanguageDetection.TallyLanguages | 2_language_detection.py:145-147 | each count is the number of map entries with that tag, and the counts sum to the number of entries |
| LanguageDetection.TallyStep | 2_language_detection.py:147 | counting one more entry keeps every count exact |
| LanguageDetection.ManualMap | 2_language_detection.py:106-108 | the manual loop builds the map from the classifier's answers, or fails when the console runs out |
| LanguageDetection.ConstantMap | 2_language_detection.py:121-140 | the fixed and auto loops map every chunk to one tag |
| LanguageDetection.DetectLanguages | 2_language_detection.py:86-147 | no chunks is an error; otherwise the map of the mode's tags and its exact tally |
| LanguageDetection.TagsSupported | 2_language_detection.py:98-140 | outside fixed mode every value of the map is a supported tag |
| LanguageDetection.ConstantModeMap | 2_language_detection.py:121-140 | in fixed and auto mode the keys are the chunk paths and every value is the one tag |
| Tally.TotalBump | 2_language_detection.py:147 | one more `stats.get(lang, 0) + 1` adds one to the sum of the counts |
| Transcription.TailWindowSuffix | 3_transcription.py:69-70 | `prev[-m:]` is a suffix of `prev` of length `min(m, len(prev))` for `m > 0`, and all of `prev` for `m == 0` |
| Transcription.WindowOfTwoSeconds | 3_transcription.py:69-70 | with 2 seconds the window is the last 50 characters |
| Transcription.CommonPrefixLenSpec | 3_transcription.py:77-84 | the match length is at most both lengths, the letters agree under `lower()` up to it, and differ right after it |
| Transcription.CommonPrefixLenUnique | 3_transcription.py:77-84 | any length with these three properties is the match length |
| Transcription.FirstMatch | 3_transcription.py:76-88 | the chosen offset is the first offset below `len(tail) - 30` whose match reaches 30 |
| Transcription.CutFromFirstMatch | 3_transcription.py:76-88 | the cut is the match length at the first matching offset, or 0 when none matches |
| Transcription.CutFromBound | 3_transcription.py:86-88 | a cut is 0 or between 30 and `len(curr)` |
| Transcription.Stitched | 3_transcription.py:65-98 | definition: `curr` for an empty `prev`; otherwise `curr[cut:].lstrip()` for the cut found in the tail window, or `curr` when the cut is 0 |
| Transcription.CleanOverlap | 3_transcription.py:48-98 | the nested loops with the early exit compute `Stitched(prev, curr, overlap)` |
| Transcription.StitchedEmptyPrev | 3_transcription.py:65-66 | an empty `prev` returns `curr` unchanged |
| Transcription.ShortWindowNoCut | 3_transcription.py:76 | a window of at most 30 characters never cuts |
| Transcription.StitchedEmptyCurr | 3_transcription.py:81-98 | an empty `curr` gives "" |
| Transcription.StitchedCases | 3_transcription.py:72-98 | either no offset matches and `curr` is returned, or the first matching offset gives `curr[cut:].lstrip()` |
| Transcription.StitchedCutIsShorterSuffix | 3_transcription.py:92-96 | a cut result is a suffix of `curr` at least 30 characters shorter, not starting with whitespace |
| Transcription.LastOffsetNeverTried | 3_transcription.py:76 | the last 30 characters of a 50-character window repeated verbatim are not removed |
| Transcription.Transcripts | 3_transcription.py:131 | each transcript is the raw output stripped |
| Transcription.Step | 3_transcription.py:179-212 | definition: one chunk stitched, preceded by the marker, or appended as is, then " ", with `prev_lang` and the counter updated |
| Transcription.TranscribeChunk | 3_transcription.py:179-212 | one turn: the chunk's language from the map ("it" when absent), its count bumped, its stripped transcript appended as `Step` says |
| Transcription.AppendChunk | 3_transcription.py:202-211 | the text after one chunk is that of `Step` with the configured cleaner |
| Transcription.TranscribeAll | 3_transcription.py:152-216 | no chunks is an error; otherwise the run succeeds exactly when no chunk's audio extraction or transcription raises, with the final text and counters of the assembly of all chunks, and else stops at the first failing chunk with the text of the chunks before it saved |
| Transcription.AssembleChunks | 3_transcription.py:179-216 | the loop stops at the first chunk whose extraction or transcription raises, or after the last chunk, holding the assembly of exactly the chunks before that point |
| Transcription.StepAppends | 3_transcription.py:202-212 | same language with text: stitched chunk plus " "; a language change: marker, chunk, " "; otherwise chunk plus " " |
| Transcription.StepExtends | 3_transcription.py:202-211 | every turn strictly extends the text, keeps the old text as a prefix and ends with " " |
| Transcription.AppendOnly | 3_transcription.py:202-211 | the text after `k` chunks is a prefix of the text after any `n >= k` chunks |
| Transcription.EndsWithSpace | 3_transcription.py:211 | after every chunk the text ends with " " |
| Transcription.FirstChunkVerbatim | 3_transcription.py:202-211 | the first chunk is appended verbatim, followed by " " |
| Transcription.PrevLangIsLast | 3_transcription.py:179-212 | `prev_lang` is the last chunk's language, "it" when the map lacks it |
| Transcription.LanguagesAt | 3_transcription.py:179 | chunk `i`'s language is its map entry, or "it" |
| Transcription.StatsCount | 3_transcription.py:174-180 | the counters sum to the number of chunks, and each counts that language's chunks |
| Correction.Extracted | 4_correction.py:57-68 | definition: the heading list applied in order to the reply, then `strip()` |
| Correction.ExtractText | 4_correction.py:57-68 | the heading loop returns `Extracted(text)` |
| Correction.ExtractedStripped | 4_correction.py:68 | the result has no leading or trailing whitespace |
| Correction.ExtractedNoHeading | 4_correction.py:58-68 | when no heading starts the stripped text, the result is `text.strip()` |
| Correction.StripDropHeadingsSlice | 4_correction.py:64-68 | the result is a contiguous part of the reply |
| Correction.DropHeadingsSkipMany | 4_correction.py:64-66 | headings that do not match are passed over, in order |
| Correction.ExtractedAfterHeading | 4_correction.py:64-66 | the first matching heading is removed and only later headings are tried on the rest |
| Correction.OutputHeadingLast | 4_correction.py:62-66 | "Output:" is tried last: after it nothing more is removed |
| Correction.CorrectedThenOutput | 4_correction.py:58-66 | "Testo corretto: Output: x" loses both headings, since "Output:" comes later in the list |
| Correction.ValidateOutput | 4_correction.py:71-93 | definition: the original below 60%, the stripped first paragraph above 140%, the stripped reply otherwise |
| Correction.ValidateTooShort | 4_correction.py:83-85 | below 60% of the original, the original is returned unstripped |
| Correction.ValidateAccepted | 4_correction.py:93 | between 60% and 140% the reply is returned stripped |
| Correction.ValidateTooLong | 4_correction.py:88-93 | above 140% the result is the reply up to its first blank line, stripped |
| Correction.ValidateNoRecheck | 4_correction.py:88-93 | the shortened reply is not re-checked against 60% |
| Correction.ValidateCutParagraph | 4_correction.py:88-93 | a too-long reply whose first blank line follows a stripped text `a` comes back as exactly `a`, however short `a` is |
| Correction.ValidateStripped | 4_correction.py:88-93 | unless the original is returned, the result is stripped |
| Correction.Chunks | 4_correction.py:96-133 | definition: `text.split("\n\n")` packed by `Groups`, each group joined, stripped, empty ones dropped |
| Correction.ChunkText | 4_correction.py:96-133 | the packing loop returns `Chunks(text, max_len)` |
| Correction.PackParagraphs | 4_correction.py:113-131 | the loop over the paragraphs emits exactly the groups `Groups(paragraphs, max_len)` packs, each joined and stripped, empty ones dropped |
| Correction.ChunksStripped | 4_correction.py:122-131 | every chunk is non-empty and stripped |
| Correction.GroupsFlatten | 4_correction.py:112-127 | the groups, concatenated, are exactly the paragraphs in order: none is split or reordered |
| Correction.GroupsFit | 4_correction.py:118-124 | a group of more than one paragraph has pre-strip length at most `max_len` |
| Correction.LongChunkIsParagraph | 4_correction.py:118-131 | an emitted chunk longer than `max_len` is one paragraph of `text.split("\n\n")`, stripped |
| Correction.ChunksOfBlank | 4_correction.py:122-131 | empty or whitespace-only text gives no chunks |
| Correction.Normalise | 4_correction.py:258-264 | definition: blocks joined by "\n\n", runs of spaces and tabs squeezed, newline runs cut to two, stripped |
| Correction.NormaliseClean | 4_correction.py:258-264 | the final text has no tab, no two adjacent spaces, no run of three newlines, and no outer whitespace |
| Correction.CorrectChunk | 4_correction.py:237-255 | a reply is extracted and validated; a failed call keeps the chunk |
| Correction.CorrectTranscription | 4_correction.py:213-264 | without the server the text is returned unchanged; otherwise the corrected chunks joined and normalised |
| TextCleaning.Unpunct | text_formatting.py:78 | definition: a whitespace character is dropped exactly when its run is followed by `, . ; : ! ?` |
| TextCleaning.CleanText | text_formatting.py:62-84 | definition: spaces squeezed, newline runs cut to two, whitespace before punctuation removed, every line stripped, the whole stripped |
| TextCleaning.UnpunctUnspaced | text_formatting.py:72-78 | after the rewrites no whitespace precedes punctuation and no two spaces are adjacent |
| TextCleaning.StripLinesTidy | text_formatting.py:81-82 | stripping every line keeps that, and leaves no whitespace next to a newline |
| TextCleaning.CleanTextTidy | text_formatting.py:62-84 | the cleaned text is stripped and tidy |
| TextCleaning.TidyLinesStripped | text_formatting.py:81-84 | in such a text every line of `split("\n")` is stripped |
| TextCleaning.CleanTextClean | text_formatting.py:62-84 | `clean_text` output is stripped, every line in it is stripped, no two spaces are adjacent and no whitespace precedes `, . ; : ! ?` |
| TextFormatting.Fill | text_formatting.py:46-54 | the greedy loop wraps the words of the paragraph, and fails for a width below one |
| TextFormatting.LinesProperties | text_formatting.py:46-54 | the lines are the words in order, none empty, each fits unless it is a single word, and none could take the next line's first word |
| TextFormatting.FillWords | text_formatting.py:46-54 | the wrapped text has exactly the words of the paragraph |
| TextFormatting.FillShape | text_formatting.py:46-54 | the wrap is non-empty, stripped, without blank line, and its lines are the word lines |
| TextFormatting.SmartWrapped | text_formatting.py:27-59 | definition: the filled paragraphs with words joined by "\n\n", or none when a width below one meets such a paragraph |
| TextFormatting.SmartWrap | text_formatting.py:27-59 | the paragraph loop returns `SmartWrapped(text, width)` |
| TextFormatting.WrapParagraphs | text_formatting.py:38-56 | the loop keeps the wrapped form of every paragraph with words, in order, and fails for a width below one as soon as it meets one |
| TextFormatting.SmartWrappedFails | text_formatting.py:46-54 | a width below one fails as soon as one paragraph has words |
| TextFormatting.CollapsedWords | text_formatting.py:40-43 | collapsing whitespace keeps the words, and a paragraph is dropped exactly when it has none |
| TextFormatting.SmartWrapParagraphs | text_formatting.py:35-59 | the output is non-empty stripped blocks joined by exactly "\n\n", which split back into those blocks |
| TextFormatting.WrapAllBlock | text_formatting.py:38-56 | every kept paragraph is a block of good lines that wraps to itself |
| TextFormatting.SmartWrapWords | text_formatting.py:40-54 | the words of the output are the words of the input |
| TextFormatting.SmartWrapLines | text_formatting.py:46-54 | every line is empty or words joined by single spaces, and fits in `width` unless it is a single word |
| TextFormatting.SmartWrapIdempotent | text_formatting.py:35-59 | `smart_wrap(smart_wrap(t, w), w) == smart_wrap(t, w)` for `w >= 1` |
| TextFormatting.FormatStatistics | text_formatting.py:97-117 | definition: line counts of `split('\n')`, word counts of `split()`, the longest formatted line, and both character counts |
| TextFormatting.MaxLengthIsMax | text_formatting.py:107 | the maximum bounds every line and is the length of one of them |
| TextFormatting.StatsLineCounts | text_formatting.py:101-112 | both line counts are the number of newlines plus one |
| TextFormatting.StatsMaxLine | text_formatting.py:107-115 | `max_line_length` bounds every formatted line and equals the length of one |
| TextFormatting.WrappedLineFits | text_formatting.py:155-162 | when no word exceeds `width`, no wrapped line does |
| TextFormatting.WrappedStats | text_formatting.py:101-107 | on `smart_wrap` output the word counts agree, and no word above `width` means `max_line_length <= width` |

## Left out

- **I/O and external tools.**
  - File reading and writing, JSON persistence, directory globbing, console output and the `main` functions.
  - The media tools: audio extraction, the cut command (only its success or failure is a parameter), the duration probe, the preview player, the dependency check.
- **The models.**
  - Speech-model inference and device probing: raw transcripts are inputs.
  - The language-model agent and its health check: replies and server availability are inputs.
  - The dispatch on the reply object's type in `extract_text` (4_correction.py:42-55): the model starts from the reply's text.
- **Floating point.**
  - `seconds_to_timestamp` (utils.py:80-93) is float formatting.
  - `avg_line_length` (text_formatting.py:108) is a float average.
  - Durations are exact reals.
  - The 0.6 and 1.4 ratios are exact (`10·|c| < 6·|o|`, `10·|c| > 14·|o|`), not rounded floats.
- **Unicode detail.**
  - `Text.Lower`: maps only ASCII and Latin-1 capitals, not the whole of Python's `lower()`.
  - `Text.IsSpace` is the fixed set of `str.isspace` characters, shared by `strip()`, `split()` and `\s`.
- `TextFormatting.Fill`: models the greedy word wrap that `textwrap.fill` yields with these flags, not textwrap's internal chunking regex.
- **Configuration and small functions.**
  - The configuration constants are parameters; the 2-second overlap is fixed only in `WindowOfTwoSeconds` and `LastOffsetNeverTried`.
  - `add_visual_separators` returns its input unchanged, so it is not modelled.
  - `impagination.py` consists of one `textwrap.fill` between a read and a write, so it is not modelled.
  - `format_transcription` only chains `clean_text`, `smart_wrap` and the statistics with console output, so no separate function models it.
- `TextCleaning.CleanTextClean`: claims no bound on newline runs, because stripping lines after the collapse can create runs longer than two.
- `Transcription.TranscribeAll`: the progressive save after each chunk is file output; only its effect, the text saved when a chunk fails, is part of the result.
- `Transcription.TranscribeAll`: which chunks fail their audio extraction or transcription is a parameter; the exception itself and the partial WAV files are not modelled.
- `Chunking.ChunkCount`: it is the count only where `math.ceil(duration / step)` is defined (`step != 0`); the division by zero for `MAX_CHUNK_SECONDS == OVERLAP_SECONDS` is the `ZeroStep` error of `SplitVideo`.
- The missing `language_map.json` check of `transcribe_all` (3_transcription.py:142-145) is file input: the map is a parameter.
