/**
 * The segment schedule of `split_video` (1_chunking.py): a recording of
 * `duration` seconds is cut into segments of at most `maxChunk` seconds whose
 * starts are `maxChunk - overlap` seconds apart, so that neighbours share
 * `overlap` seconds of audio. The media cutter itself is not modelled; only
 * the records of `chunks_info` are.
 */
module Chunking {

  import opened Wrappers

  /** One record of `chunks_info`. */
  datatype ChunkInfo = ChunkInfo(
    index: nat,
    path: string,
    startSeconds: real,
    endSeconds: real,
    durationSeconds: real)

  /** `math.ceil(x)`. */
  function Ceil(x: real): (n: int)
    ensures (n - 1) as real < x <= n as real
  {
    -((-x).Floor)
  }

  function Min(a: real, b: real): real {
    if a <= b then a else b
  }

  /** `len(range(math.ceil(duration / step)))`: a non-positive ceiling gives
      no chunks, so neither does a negative step. */
  function ChunkCount(duration: real, step: int): (n: nat)
    requires step != 0
    ensures duration <= 0.0 && step > 0 ==> n == 0
    ensures duration >= 0.0 && step < 0 ==> n == 0
    ensures duration > 0.0 && step > 0 ==>
              ((n - 1) * step) as real < duration <= (n * step) as real
  {
    var c := Ceil(duration / step as real);
    CeilQuotient(duration, step, c);
    if c < 0 then 0 else c
  }

  lemma CeilQuotient(duration: real, step: int, c: int)
    requires step != 0
    requires (c - 1) as real < duration / step as real <= c as real
    ensures duration > 0.0 && step > 0 ==>
              c >= 1 && ((c - 1) * step) as real < duration <= (c * step) as real
    ensures duration >= 0.0 && step < 0 ==> c <= 0
    ensures duration <= 0.0 && step > 0 ==> c <= 0
  {
    if step > 0 {
      assert ((c - 1) * step) as real == (c - 1) as real * step as real;
      assert (c * step) as real == c as real * step as real;
      MulLess((c - 1) as real, duration / step as real, step as real);
      MulLessEq(duration / step as real, c as real, step as real);
    }
  }

  lemma MulLess(a: real, b: real, c: real)
    requires a < b && c > 0.0
    ensures a * c < b * c
  {
  }

  lemma MulLessEq(a: real, b: real, c: real)
    requires a <= b && c > 0.0
    ensures a * c <= b * c
  {
  }

  // ---------------------------------------------------------------------------
  // Chunk file names
  // ---------------------------------------------------------------------------

  function DigitChar(d: nat): char
    requires d < 10
  {
    ('0' as int + d) as char
  }

  /** The decimal digits of `n`. */
  function Digits(n: nat): (s: string)
    ensures |s| >= 1
    decreases n
  {
    if n < 10 then [DigitChar(n)] else Digits(n / 10) + [DigitChar(n % 10)]
  }

  /** `f"{n:03}"`: the decimal digits of `n`, left-padded with zeros to three. */
  function Pad3(n: nat): string {
    var d := Digits(n);
    if |d| >= 3 then d else seq(3 - |d|, _ => '0') + d
  }

  /** `f"chunk_{i:03}.mp4"`. */
  function ChunkName(i: nat): string {
    "chunk_" + Pad3(i) + ".mp4"
  }

  /** `str(output_dir / name)` on a POSIX system. */
  function ChunkPath(outputDir: string, i: nat): string {
    outputDir + "/" + ChunkName(i)
  }

  /** Python's `a < b` on strings: lexicographic by code point. */
  predicate LexLess(a: string, b: string)
    decreases |a|
  {
    if a == [] then b != []
    else if b == [] then false
    else if a[0] == b[0] then LexLess(a[1..], b[1..])
    else a[0] < b[0]
  }

  // ---------------------------------------------------------------------------
  // The schedule
  // ---------------------------------------------------------------------------

  /** Record `i` of the schedule: `start = i * step`, `end = min(start + maxChunk, duration)`. */
  function ChunkAt(outputDir: string, i: nat, duration: real, maxChunk: int, overlap: int): ChunkInfo {
    var start := (i * (maxChunk - overlap)) as real;
    var end := Min(start + maxChunk as real, duration);
    ChunkInfo(i, ChunkPath(outputDir, i), start, end, end - start)
  }

  /** Why `split_video` stops: `math.ceil(duration / step)` divides by zero
      when the overlap equals the chunk length (line 41), or the cut command
      for a chunk fails and the `RuntimeError` names its index (lines 84-85). */
  datatype SplitError = ZeroStep | CutFailed(index: nat)

  /** The loop of `split_video` (lines 40-41, 55-94). The cut command's
      outcome is a parameter: `cutFails` holds the indices whose command
      exits with an error, and the first of them aborts the loop. */
  method SplitVideo(duration: real, outputDir: string, maxChunk: int, overlap: int, cutFails: set<nat>)
    returns (r: Result<seq<ChunkInfo>, SplitError>)
    ensures overlap == maxChunk <==> r == Failure(ZeroStep)
    ensures overlap != maxChunk ==>
      var n := ChunkCount(duration, maxChunk - overlap);
      && (r.Success? <==> forall i :: 0 <= i < n ==> i !in cutFails)
      && (r.Success? ==>
            && |r.value| == n
            && forall i :: 0 <= i < |r.value| ==> r.value[i] == ChunkAt(outputDir, i, duration, maxChunk, overlap))
      && (r.Failure? ==>
            && r.error.CutFailed?
            && r.error.index < n && r.error.index in cutFails
            && forall i :: 0 <= i < r.error.index ==> i !in cutFails)
  {
    var step := maxChunk - overlap;
    if step == 0 {
      return Failure(ZeroStep);
    }
    var numChunks := Ceil(duration / step as real);
    var chunks := [];
    var i := 0;
    while i < numChunks
      invariant 0 <= i && (i <= numChunks || i == 0)
      invariant |chunks| == i
      invariant forall j :: 0 <= j < i ==> j !in cutFails
      invariant forall j :: 0 <= j < i ==> chunks[j] == ChunkAt(outputDir, j, duration, maxChunk, overlap)
    {
      var start := (i * step) as real;
      var end := Min(start + maxChunk as real, duration);
      var actualDuration := end - start;
      var output := outputDir + "/" + ChunkName(i);
      if i in cutFails {
        return Failure(CutFailed(i));
      }
      chunks := chunks + [ChunkInfo(i, output, start, end, actualDuration)];
      i := i + 1;
    }
    return Success(chunks);
  }

  // ---------------------------------------------------------------------------
  // Properties of the schedule
  // ---------------------------------------------------------------------------

  /** Every record: index `i`, `start = i * step`, `end` at most `maxChunk`
      after `start` and never past the recording, duration `end - start`. */
  lemma ChunkFields(outputDir: string, i: nat, duration: real, maxChunk: int, overlap: int)
    ensures var c := ChunkAt(outputDir, i, duration, maxChunk, overlap);
      && c.index == i
      && c.startSeconds == (i * (maxChunk - overlap)) as real
      && c.endSeconds <= c.startSeconds + maxChunk as real
      && c.endSeconds <= duration
      && (c.endSeconds == c.startSeconds + maxChunk as real || c.endSeconds == duration)
      && c.durationSeconds == c.endSeconds - c.startSeconds
      && c.durationSeconds <= maxChunk as real
  {
  }

  /** For a positive duration every scheduled chunk is non-empty: `start < end`. */
  lemma ChunkNonEmpty(outputDir: string, i: nat, duration: real, maxChunk: int, overlap: int)
    requires 0 < maxChunk && overlap < maxChunk
    requires i < ChunkCount(duration, maxChunk - overlap)
    ensures var c := ChunkAt(outputDir, i, duration, maxChunk, overlap);
      c.startSeconds < c.endSeconds
  {
    var step := maxChunk - overlap;
    var n := ChunkCount(duration, step);
    StartBeforeEnd(i, n, step, duration);
  }

  lemma StartBeforeEnd(i: nat, n: nat, step: int, duration: real)
    requires step > 0 && i < n
    requires ((n - 1) * step) as real < duration
    ensures ((i * step) as real) < duration
  {
    assert i * step <= (n - 1) * step by {
      MulMono(i, n - 1, step);
    }
  }

  lemma MulMono(a: int, b: int, c: int)
    requires a <= b && c > 0
    ensures a * c <= b * c
  {
  }

  /** With a non-negative overlap the last chunk ends exactly at the end of
      the recording. */
  lemma LastChunkEndsAtDuration(outputDir: string, duration: real, maxChunk: int, overlap: int)
    requires 0 <= overlap < maxChunk && duration > 0.0
    ensures var n := ChunkCount(duration, maxChunk - overlap);
      n >= 1 && ChunkAt(outputDir, n - 1, duration, maxChunk, overlap).endSeconds == duration
  {
    var step := maxChunk - overlap;
    var n := ChunkCount(duration, step);
    assert (n - 1) * step + maxChunk == n * step + overlap;
  }

  /** A chunk that is not cut short by the end of the recording overlaps the
      next one by exactly `overlap` seconds. */
  lemma NeighboursOverlap(outputDir: string, i: nat, duration: real, maxChunk: int, overlap: int)
    requires overlap < maxChunk
    requires var c := ChunkAt(outputDir, i, duration, maxChunk, overlap);
      c.endSeconds == c.startSeconds + maxChunk as real
    ensures var c := ChunkAt(outputDir, i, duration, maxChunk, overlap);
      var d := ChunkAt(outputDir, i + 1, duration, maxChunk, overlap);
      c.endSeconds - d.startSeconds == overlap as real
  {
    var step := maxChunk - overlap;
    assert (i + 1) * step == i * step + step;
  }

  /** With a non-negative overlap there is no gap: each chunk after the first
      starts no later than its predecessor ends. */
  lemma NoGap(outputDir: string, i: nat, duration: real, maxChunk: int, overlap: int)
    requires 0 <= overlap < maxChunk
    requires i + 1 < ChunkCount(duration, maxChunk - overlap)
    ensures ChunkAt(outputDir, i + 1, duration, maxChunk, overlap).startSeconds
            <= ChunkAt(outputDir, i, duration, maxChunk, overlap).endSeconds
  {
    var step := maxChunk - overlap;
    var n := ChunkCount(duration, step);
    StartBeforeEnd(i + 1, n, step, duration);
    assert (i + 1) * step == i * step + step;
  }

  /** Starts strictly increase with the index. */
  lemma StartsIncrease(outputDir: string, i: nat, j: nat, duration: real, maxChunk: int, overlap: int)
    requires overlap < maxChunk && i < j
    ensures ChunkAt(outputDir, i, duration, maxChunk, overlap).startSeconds
            < ChunkAt(outputDir, j, duration, maxChunk, overlap).startSeconds
  {
    var step := maxChunk - overlap;
    assert i * step < j * step by {
      MulMono(i + 1, j, step);
    }
  }

  // ---------------------------------------------------------------------------
  // Properties of the names
  // ---------------------------------------------------------------------------

  /** Below 1000, `f"{n:03}"` is exactly three digits: hundreds, tens, units. */
  lemma Pad3Digits(n: nat)
    requires n < 1000
    ensures Pad3(n) == [DigitChar(n / 100), DigitChar(n / 10 % 10), DigitChar(n % 10)]
  {
    if n < 10 {
      assert Digits(n) == [DigitChar(n)];
    } else if n < 100 {
      assert Digits(n / 10) == [DigitChar(n / 10)];
      assert Digits(n) == [DigitChar(n / 10), DigitChar(n % 10)];
    } else {
      assert Digits(n / 100) == [DigitChar(n / 100)];
      assert Digits(n / 10) == [DigitChar(n / 100), DigitChar(n / 10 % 10)];
    }
  }

  /** Strings that agree before position `k` and differ at `k` compare as
      their characters at `k` do. */
  lemma {:induction false} LexLessFirstDifference(a: string, b: string, k: nat)
    requires k < |a| && k < |b| && a[..k] == b[..k] && a[k] != b[k]
    ensures LexLess(a, b) == (a[k] < b[k])
    decreases k
  {
    if k > 0 {
      assert a[0] == a[..k][0] == b[..k][0] == b[0];
      assert a[1..][..k - 1] == a[..k][1..] == b[..k][1..] == b[1..][..k - 1];
      LexLessFirstDifference(a[1..], b[1..], k - 1);
    }
  }

  lemma {:induction false} LexLessCommonPrefix(p: string, a: string, b: string)
    ensures LexLess(p + a, p + b) == LexLess(a, b)
    decreases |p|
  {
    if p == [] {
      assert p + a == a && p + b == b;
    } else {
      assert (p + a)[0] == p[0] == (p + b)[0];
      assert (p + a)[1..] == p[1..] + a;
      assert (p + b)[1..] == p[1..] + b;
      LexLessCommonPrefix(p[1..], a, b);
    }
  }

  lemma DigitsOrder(i: nat, j: nat)
    requires i < j < 1000
    ensures || i / 100 < j / 100
            || (i / 100 == j / 100 && i / 10 % 10 < j / 10 % 10)
            || (i / 100 == j / 100 && i / 10 % 10 == j / 10 % 10 && i % 10 < j % 10)
  {
    assert i == 100 * (i / 100) + 10 * (i / 10 % 10) + i % 10;
    assert j == 100 * (j / 100) + 10 * (j / 10 % 10) + j % 10;
  }

  /** Below 1000, the three-digit fields of a smaller and a larger index
      first differ at a position where the smaller one has the smaller
      digit. */
  lemma Pad3FirstDifference(i: nat, j: nat) returns (k: nat)
    requires i < j < 1000
    ensures k < 3 && Pad3(i)[..k] == Pad3(j)[..k] && Pad3(i)[k] < Pad3(j)[k]
  {
    Pad3Digits(i);
    Pad3Digits(j);
    DigitsOrder(i, j);
    var a, b := Pad3(i), Pad3(j);
    if i / 100 != j / 100 {
      k := 0;
    } else if i / 10 % 10 != j / 10 % 10 {
      assert a[..1] == b[..1];
      k := 1;
    } else {
      assert a[..2] == b[..2];
      k := 2;
    }
  }

  /** Below 1000, a smaller index has a smaller three-digit field. */
  lemma Pad3Less(i: nat, j: nat)
    requires i < j < 1000
    ensures LexLess(Pad3(i), Pad3(j))
  {
    var k := Pad3FirstDifference(i, j);
    LexLessFirstDifference(Pad3(i), Pad3(j), k);
  }

  /** Appending leaves the first `k + 1` elements alone. */
  lemma AppendKeepsPrefix<T>(a: seq<T>, b: seq<T>, k: nat)
    requires k < |a|
    ensures (a + b)[..k] == a[..k] && (a + b)[k] == a[k]
  {
  }

  /** Below index 1000 the chunk paths sort in index order, which is what the
      later stages' `sorted(glob("chunk_*.mp4"))` relies on. */
  lemma ChunkNamesSorted(outputDir: string, i: nat, j: nat)
    requires i < j < 1000
    ensures LexLess(ChunkPath(outputDir, i), ChunkPath(outputDir, j))
  {
    var k := Pad3FirstDifference(i, j);
    var a, b := Pad3(i), Pad3(j);
    var x, y := a + ".mp4", b + ".mp4";
    AppendKeepsPrefix(a, ".mp4", k);
    AppendKeepsPrefix(b, ".mp4", k);
    LexLessFirstDifference(x, y, k);
    var p := outputDir + "/" + "chunk_";
    LexLessCommonPrefix(p, x, y);
    assert ChunkPath(outputDir, i) == p + x;
    assert ChunkPath(outputDir, j) == p + y;
  }

  /** From index 1000 on the order breaks: chunk 1000 sorts before chunk 101. */
  lemma ChunkNamesUnsortedFrom1000(outputDir: string)
    ensures LexLess(ChunkPath(outputDir, 1000), ChunkPath(outputDir, 101))
    ensures !LexLess(ChunkPath(outputDir, 101), ChunkPath(outputDir, 1000))
  {
    assert Digits(1) == "1";
    assert Digits(10) == "10";
    assert Digits(100) == "100";
    assert Digits(1000) == "1000";
    assert Digits(101) == "101";
    var p := outputDir + "/" + "chunk_";
    LexLessCommonPrefix(p, "1000.mp4", "101.mp4");
    LexLessCommonPrefix(p, "101.mp4", "1000.mp4");
    assert ChunkPath(outputDir, 1000) == p + "1000.mp4";
    assert ChunkPath(outputDir, 101) == p + "101.mp4";
    assert LexLess("1000.mp4", "101.mp4") by {
      assert "1000.mp4"[1..] == "000.mp4";
      assert "101.mp4"[1..] == "01.mp4";
      assert "000.mp4"[1..] == "00.mp4";
      assert "01.mp4"[1..] == "1.mp4";
    }
    assert !LexLess("101.mp4", "1000.mp4") by {
      assert "1000.mp4"[1..] == "000.mp4";
      assert "101.mp4"[1..] == "01.mp4";
      assert "000.mp4"[1..] == "00.mp4";
      assert "01.mp4"[1..] == "1.mp4";
    }
  }
}
