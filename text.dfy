/**
 * The Python string primitives the pipeline is written with, over `string`
 * (a sequence of characters): whitespace and case, `strip()`, `split(sep)`,
 * `sep.join(parts)`, `split()` with no argument, and the regular-expression
 * rewrites that squeeze a run of blanks into one space or a run of three or
 * more newlines into two.
 */
module Text {

  // ---------------------------------------------------------------------------
  // Characters
  // ---------------------------------------------------------------------------

  /** `c.isspace()`: space, the ASCII controls \t \n \v \f \r, the separators
      U+001C..U+001F and the Unicode spaces. This is also what `strip()`,
      `split()` with no argument and the regex class `\s` treat as whitespace. */
  predicate IsSpace(c: char) {
    c == ' ' || ('\t' <= c <= '\r') || ('\U{001C}' <= c <= '\U{001F}')
    || c == '\U{0085}' || c == '\U{00A0}' || c == '\U{1680}'
    || ('\U{2000}' <= c <= '\U{200A}') || c == '\U{2028}' || c == '\U{2029}'
    || c == '\U{202F}' || c == '\U{205F}' || c == '\U{3000}'
  }

  /** An upper-case letter of ASCII or Latin-1 (the accented capitals of Italian,
      Spanish and French), the letters `Lower` maps. */
  predicate IsUpper(c: char) {
    ('A' <= c <= 'Z') || ('\U{00C0}' <= c <= '\U{00DE}' && c != '\U{00D7}')
  }

  /** `c.lower()` on the letters of `IsUpper`; every other character is kept. */
  function Lower(c: char): char {
    if IsUpper(c) then (c as int + 32) as char else c
  }

  /** `a.lower() == b.lower()`. */
  predicate SameLetter(a: char, b: char) {
    Lower(a) == Lower(b)
  }

  /** `s.lower()`. */
  function LowerString(s: string): (r: string)
    ensures |r| == |s|
    ensures forall i :: 0 <= i < |s| ==> r[i] == Lower(s[i])
  {
    seq(|s|, i requires 0 <= i < |s| => Lower(s[i]))
  }

  // ---------------------------------------------------------------------------
  // Blank classes and strip()
  // ---------------------------------------------------------------------------

  /** The character classes the pipeline squeezes or strips:
      `\s` / `str.isspace`, the regex class `[ \t]`, and the single space ` `. */
  datatype Blank = Whitespace | SpaceOrTab | SpaceOnly

  predicate IsBlank(c: char, b: Blank) {
    match b
    case Whitespace => IsSpace(c)
    case SpaceOrTab => c == ' ' || c == '\t'
    case SpaceOnly => c == ' '
  }

  /** `s` without its leading run of `b` characters. */
  function DropLeading(s: string, b: Blank): (r: string)
    ensures |r| <= |s|
    ensures r == [] || !IsBlank(r[0], b)
    decreases |s|
  {
    if s != [] && IsBlank(s[0], b) then DropLeading(s[1..], b) else s
  }

  /** `DropLeading` keeps a suffix of `s` and removes a run of `b`
      characters before it. */
  lemma {:induction false} DropLeadingPrefix(s: string, b: Blank)
    ensures DropLeading(s, b) == s[|s| - |DropLeading(s, b)|..]
    ensures forall i :: 0 <= i < |s| - |DropLeading(s, b)| ==> IsBlank(s[i], b)
    decreases |s|
  {
    if s != [] && IsBlank(s[0], b) {
      DropLeadingPrefix(s[1..], b);
      assert s[1..][|s[1..]| - |DropLeading(s, b)|..] == s[|s| - |DropLeading(s, b)|..];
      forall i | 1 <= i < |s| - |DropLeading(s, b)| ensures IsBlank(s[i], b) {
        assert s[i] == s[1..][i - 1];
      }
    }
  }

  /** `s.lstrip()`. */
  function LStrip(s: string): string {
    DropLeading(s, Whitespace)
  }

  /** `s.rstrip()`. */
  function RStrip(s: string): (r: string)
    ensures |r| <= |s| && r == s[..|r|]
    ensures r == [] || !IsSpace(r[|r| - 1])
    decreases |s|
  {
    if s != [] && IsSpace(s[|s| - 1]) then RStrip(s[..|s| - 1]) else s
  }

  /** What `RStrip` removes is whitespace. */
  lemma {:induction false} RStripSuffix(s: string)
    ensures forall i :: |RStrip(s)| <= i < |s| ==> IsSpace(s[i])
    decreases |s|
  {
    if s != [] && IsSpace(s[|s| - 1]) {
      RStripSuffix(s[..|s| - 1]);
    }
  }

  /** Neither end of `s` is whitespace: `s.strip() == s`. */
  predicate IsStripped(s: string) {
    s == [] || (!IsSpace(s[0]) && !IsSpace(s[|s| - 1]))
  }

  /** Every character of `s` is whitespace. */
  predicate AllSpace(s: string) {
    forall i :: 0 <= i < |s| ==> IsSpace(s[i])
  }

  /** Where `s.strip()` begins in `s`. */
  function StripStart(s: string): nat {
    |RStrip(s)| - |LStrip(RStrip(s))|
  }

  /** `s.strip()`: `s` without its leading and trailing whitespace.
      `StripIsStripped` and `StripSlice` say what the result is. */
  function Strip(s: string): string {
    LStrip(RStrip(s))
  }

  /** `strip()` leaves whitespace at neither end and never lengthens. */
  lemma StripIsStripped(s: string)
    ensures IsStripped(Strip(s)) && |Strip(s)| <= |s|
  {
    DropLeadingPrefix(RStrip(s), Whitespace);
  }

  /** `s.strip()` is the slice of `s` starting at `StripStart(s)`; what lies on
      either side of it is whitespace. */
  lemma StripSlice(s: string)
    ensures var r := Strip(s);
      && StripStart(s) + |r| <= |s| && r == s[StripStart(s)..StripStart(s) + |r|]
      && AllSpace(s[..StripStart(s)]) && AllSpace(s[StripStart(s) + |r|..])
  {
    var t := RStrip(s);
    var r := DropLeading(t, Whitespace);
    DropLeadingPrefix(t, Whitespace);
    RStripSuffix(s);
    assert Strip(s) == r && StripStart(s) == |t| - |r|;
    SliceOfPrefix(s, t, |t| - |r|, r);
  }

  /** `s.strip()` is a slice of `s`, starting at the returned index. */
  lemma StripAt(s: string) returns (a: nat)
    ensures a + |Strip(s)| <= |s| && Strip(s) == s[a..a + |Strip(s)|]
  {
    StripSlice(s);
    a := StripStart(s);
  }

  /** The suffix `r` of a prefix `t` of `s`, with whitespace before `r` in
      `t` and after `t` in `s`, is a slice of `s` between whitespace. */
  lemma SliceOfPrefix(s: string, t: string, a: nat, r: string)
    requires |t| <= |s| && t == s[..|t|] && a + |r| == |t| && r == t[a..]
    requires forall i :: 0 <= i < a ==> IsSpace(t[i])
    requires forall i :: |t| <= i < |s| ==> IsSpace(s[i])
    ensures r == s[a..a + |r|] && AllSpace(s[..a]) && AllSpace(s[a + |r|..])
  {
    assert r == s[a..a + |r|] by {
      forall i | 0 <= i < |r| ensures r[i] == s[a + i] {
        assert r[i] == t[a + i];
      }
    }
    assert AllSpace(s[..a]) by {
      forall i | 0 <= i < a ensures IsSpace(s[..a][i]) {
        assert s[..a][i] == t[i];
      }
    }
    assert AllSpace(s[a + |r|..]) by {
      forall i | 0 <= i < |s| - |t| ensures IsSpace(s[|t|..][i]) {
        assert s[|t|..][i] == s[|t| + i];
      }
    }
  }

  /** `s.startswith(p)`. */
  predicate StartsWith(s: string, p: string) {
    |p| <= |s| && s[..|p|] == p
  }

  /** An all-whitespace string strips to "". */
  lemma StripAllSpace(s: string)
    requires AllSpace(s)
    ensures Strip(s) == []
  {
  }

  /** A stripped string is its own `strip()`. */
  lemma StripStripped(s: string)
    requires IsStripped(s)
    ensures Strip(s) == s
  {
  }

  // ---------------------------------------------------------------------------
  // split(sep) and sep.join(parts)
  // ---------------------------------------------------------------------------

  /** `sep.join(parts)`. */
  function Join(sep: string, parts: seq<string>): string
    decreases |parts|
  {
    if parts == [] then ""
    else if |parts| == 1 then parts[0]
    else parts[0] + sep + Join(sep, parts[1..])
  }

  /** `s.split(sep)` for a non-empty separator: scanning from the left, every
      occurrence of `sep` not overlapping an earlier one ends a part. */
  function Split(s: string, sep: string): (parts: seq<string>)
    requires |sep| > 0
    ensures |parts| >= 1
    ensures Join(sep, parts) == s
    decreases |s|
  {
    if |s| < |sep| then [s]
    else if s[..|sep|] == sep then
      var rest := Split(s[|sep|..], sep);
      TakeDrop(s, |sep|);
      ConsShape("", rest);
      [""] + rest
    else
      var rest := Split(s[1..], sep);
      var parts := [[s[0]] + rest[0]] + rest[1..];
      TakeDrop(s, 1);
      JoinConsFirst(sep, s[0], rest);
      parts
  }

  /** Putting a character in front of the first part puts it in front of the join. */
  lemma JoinConsFirst(sep: string, c: char, parts: seq<string>)
    requires |parts| >= 1
    ensures Join(sep, [[c] + parts[0]] + parts[1..]) == [c] + Join(sep, parts)
  {
    var q := [[c] + parts[0]] + parts[1..];
    assert q[1..] == parts[1..];
  }

  /** Joining one more part at the end. */
  lemma JoinSnoc(sep: string, parts: seq<string>, p: string)
    requires parts != []
    ensures Join(sep, parts + [p]) == Join(sep, parts) + sep + p
    decreases |parts|
  {
    if |parts| == 1 {
      assert parts + [p] == [parts[0], p];
    } else {
      assert (parts + [p])[1..] == parts[1..] + [p];
      JoinSnoc(sep, parts[1..], p);
    }
  }

  /** `sep` occurs at offset `j` of `s`. */
  predicate OccursAt(s: string, sep: string, j: int) {
    0 <= j && j + |sep| <= |s| && s[j..j + |sep|] == sep
  }

  /** When the first occurrence of `sep` in `a + sep + b` is the one after `a`,
      splitting yields `a` followed by the parts of `b`. */
  lemma {:induction false} SplitAppend(a: string, sep: string, b: string)
    requires |sep| > 0
    requires forall j :: 0 <= j < |a| ==> !OccursAt(a + sep + b, sep, j)
    ensures Split(a + sep + b, sep) == [a] + Split(b, sep)
    decreases |a|
  {
    var s := a + sep + b;
    if a == [] {
      assert s == sep + b;
      assert s[..|sep|] == sep;
      assert s[|sep|..] == b;
    } else {
      assert !OccursAt(s, sep, 0);
      assert s[..|sep|] != sep;
      var a' := a[1..];
      assert s[1..] == a' + sep + b;
      forall j | 0 <= j < |a'|
        ensures !OccursAt(a' + sep + b, sep, j)
      {
        assert !OccursAt(s, sep, j + 1);
        if j + |sep| <= |a' + sep + b| {
          assert (a' + sep + b)[j..j + |sep|] == s[j + 1..j + 1 + |sep|];
        }
      }
      SplitAppend(a', sep, b);
      assert [a[0]] + a' == a;
    }
  }

  /** A string with no occurrence of `sep` is a single part. */
  lemma {:induction false} SplitNone(a: string, sep: string)
    requires |sep| > 0
    requires forall j :: 0 <= j < |a| ==> !OccursAt(a, sep, j)
    ensures Split(a, sep) == [a]
    decreases |a|
  {
    if |a| >= |sep| {
      assert !OccursAt(a, sep, 0);
      assert a[..|sep|] != sep;
      forall j | 0 <= j < |a| - 1
        ensures !OccursAt(a[1..], sep, j)
      {
        assert !OccursAt(a, sep, j + 1);
        if j + |sep| <= |a| - 1 {
          assert a[1..][j..j + |sep|] == a[j + 1..j + 1 + |sep|];
        }
      }
      SplitNone(a[1..], sep);
      assert [a[0]] + a[1..] == a;
    }
  }

  /** The first part of `s.split(sep)` is `s` up to the first occurrence of
      `sep`, or all of `s` when there is none. */
  lemma {:induction false} SplitFirst(s: string, sep: string)
    requires |sep| > 0
    ensures var f := Split(s, sep)[0];
      && |f| <= |s| && f == s[..|f|]
      && (forall j :: 0 <= j < |f| ==> !OccursAt(s, sep, j))
      && (|f| == |s| || OccursAt(s, sep, |f|))
    decreases |s|
  {
    if |s| >= |sep| && s[..|sep|] != sep {
      SplitFirst(s[1..], sep);
      var f' := Split(s[1..], sep)[0];
      assert Split(s, sep)[0] == [s[0]] + f';
      FirstPartStep(s, sep, f');
    }
  }

  /** The step of `SplitFirst`: a first part of `s[1..]` preceded by `s[0]`,
      when `sep` does not occur at the start of `s`. */
  lemma FirstPartStep(s: string, sep: string, f': string)
    requires |sep| > 0 && |s| >= |sep| && s[..|sep|] != sep
    requires |f'| <= |s| - 1 && f' == s[1..][..|f'|]
    requires forall j :: 0 <= j < |f'| ==> !OccursAt(s[1..], sep, j)
    requires |f'| == |s| - 1 || OccursAt(s[1..], sep, |f'|)
    ensures var f := [s[0]] + f';
      && |f| <= |s| && f == s[..|f|]
      && (forall j :: 0 <= j < |f| ==> !OccursAt(s, sep, j))
      && (|f| == |s| || OccursAt(s, sep, |f|))
  {
    var f := [s[0]] + f';
    assert f == s[..|f|];
    forall j | 0 <= j < |f|
      ensures !OccursAt(s, sep, j)
    {
      if j > 0 {
        assert !OccursAt(s[1..], sep, j - 1);
        if j + |sep| <= |s| {
          assert s[1..][j - 1..j - 1 + |sep|] == s[j..j + |sep|];
        }
      }
    }
    if |f| < |s| {
      assert s[1..][|f'|..|f'| + |sep|] == s[|f|..|f| + |sep|];
    }
  }

  /** The lines of `s.split("\n")`: a first line without a newline, then
      either nothing more or a newline and the lines of the rest. */
  lemma SplitLine(s: string)
    ensures var f := Split(s, "\n")[0];
      && |f| <= |s| && f == s[..|f|]
      && (forall j :: 0 <= j < |f| ==> s[j] != '\n')
      && (|f| == |s| ==> Split(s, "\n") == [s])
      && (|f| < |s| ==> s[|f|] == '\n' && Split(s, "\n") == [f] + Split(s[|f| + 1..], "\n"))
  {
    SplitFirst(s, "\n");
    var f := Split(s, "\n")[0];
    forall j | 0 <= j < |f| ensures s[j] != '\n' {
      assert !OccursAt(s, "\n", j);
      AroundAt(s, j);
    }
    if |f| == |s| {
      SplitNone(s, "\n");
    } else {
      assert OccursAt(s, "\n", |f|);
      AroundAt(s, |f|);
      SplitAppend(f, "\n", s[|f| + 1..]);
    }
  }

  /** `sep` cannot be found in `a + sep` before the end of `a`: when `a` is
      followed by `sep`, the first occurrence is the one after `a`. */
  predicate Separable(a: string, sep: string) {
    forall j :: 0 <= j < |a| ==> !OccursAt(a + sep, sep, j)
  }

  /** Splitting a join gives back its parts when no part hides the
      separator. */
  lemma {:induction false} SplitJoin(sep: string, parts: seq<string>)
    requires |sep| > 0 && |parts| >= 1
    requires forall i :: 0 <= i < |parts| ==> Separable(parts[i], sep)
    ensures Split(Join(sep, parts), sep) == parts
    decreases |parts|
  {
    var a := parts[0];
    assert Separable(a, sep);
    if |parts| == 1 {
      forall j | 0 <= j < |a| ensures !OccursAt(a, sep, j) {
        assert !OccursAt(a + sep, sep, j);
        if j + |sep| <= |a| {
          assert (a + sep)[j..j + |sep|] == a[j..j + |sep|];
        }
      }
      SplitNone(a, sep);
    } else {
      var b := Join(sep, parts[1..]);
      forall j | 0 <= j < |a| ensures !OccursAt(a + sep + b, sep, j) {
        assert !OccursAt(a + sep, sep, j);
        assert (a + sep + b)[j..j + |sep|] == (a + sep)[j..j + |sep|];
      }
      SplitAppend(a, sep, b);
      forall i | 0 <= i < |parts| - 1 ensures Separable(parts[1..][i], sep) {
        assert parts[1..][i] == parts[i + 1];
      }
      SplitJoin(sep, parts[1..]);
    }
  }

  /** Splitting on one character at an occurrence of it splits the two
      sides independently. */
  lemma {:induction false} SplitCharConcat(a: string, c: char, b: string)
    ensures Split(a + [c] + b, [c]) == Split(a, [c]) + Split(b, [c])
    decreases |a|
  {
    var s := a + [c] + b;
    if a == [] {
      assert s[..1] == [c] && s[1..] == b;
    } else {
      assert s[..1] == [a[0]] && a[..1] == [a[0]];
      assert s[1..] == a[1..] + [c] + b;
      SplitCharConcat(a[1..], c, b);
    }
  }

  /** How many times `c` occurs in `s`. */
  function CountChar(s: string, c: char): nat
    decreases |s|
  {
    if s == [] then 0 else (if s[0] == c then 1 else 0) + CountChar(s[1..], c)
  }

  /** `s.split(c)` for a one-character separator has one more part than `s` has `c`s. */
  lemma {:induction false} SplitCharCount(s: string, c: char)
    ensures |Split(s, [c])| == CountChar(s, c) + 1
    decreases |s|
  {
    if s != [] {
      SplitCharCount(s[1..], c);
      assert s[..1] == [s[0]];
    }
  }

  // ---------------------------------------------------------------------------
  // split() with no argument
  // ---------------------------------------------------------------------------

  /** A word of `split()`: non-empty, no whitespace. */
  predicate IsWord(w: string) {
    w != [] && forall i :: 0 <= i < |w| ==> !IsSpace(w[i])
  }

  /** The pieces of `s` between single whitespace characters, empty pieces kept. */
  function Pieces(s: string): (ps: seq<string>)
    ensures |ps| >= 1
    ensures forall k, i :: 0 <= k < |ps| && 0 <= i < |ps[k]| ==> !IsSpace(ps[k][i])
    decreases |s|
  {
    if s == [] then [""]
    else
      var rest := Pieces(s[1..]);
      if IsSpace(s[0]) then [""] + rest
      else
        var ps := [[s[0]] + rest[0]] + rest[1..];
        assert forall k :: 1 <= k < |ps| ==> ps[k] == rest[k];
        ps
  }

  /** The non-empty elements of `ps`, in order. */
  function NonEmpty(ps: seq<string>): (r: seq<string>)
    ensures forall w :: w in r ==> w in ps && w != []
    decreases |ps|
  {
    if ps == [] then [] else (if ps[0] == [] then [] else [ps[0]]) + NonEmpty(ps[1..])
  }

  /** `s.split()`: the maximal runs of non-whitespace characters. */
  function Words(s: string): (ws: seq<string>)
    ensures forall w :: w in ws ==> IsWord(w)
  {
    var ps := Pieces(s);
    var ws := NonEmpty(ps);
    forall w | w in ws
      ensures IsWord(w)
    {
      var k :| 0 <= k < |ps| && ps[k] == w;
      assert forall i :: 0 <= i < |w| ==> !IsSpace(ps[k][i]);
    }
    ws
  }

  /** A string that starts with a non-whitespace character has a word. */
  lemma WordsNonEmpty(s: string)
    requires s != [] && !IsSpace(s[0])
    ensures Words(s) != []
  {
    var ps := Pieces(s);
    assert ps[0] != [];
    assert NonEmpty(ps) == [ps[0]] + NonEmpty(ps[1..]);
  }

  /** `" ".join(ws)`. */
  function Unwords(ws: seq<string>): string {
    Join(" ", ws)
  }

  /** The concatenation of a sequence of sequences. */
  function Flatten<T>(xss: seq<seq<T>>): seq<T>
    decreases |xss|
  {
    if xss == [] then [] else xss[0] + Flatten(xss[1..])
  }

  /** An element of one of the sequences is an element of the flattening. */
  lemma {:induction false} FlattenMember<T>(xss: seq<seq<T>>, k: nat, x: T)
    requires k < |xss| && x in xss[k]
    ensures x in Flatten(xss)
    decreases k
  {
    if k > 0 {
      FlattenMember(xss[1..], k - 1, x);
    }
  }

  lemma {:induction false} FlattenAppend<T>(a: seq<seq<T>>, b: seq<seq<T>>)
    ensures Flatten(a + b) == Flatten(a) + Flatten(b)
    decreases |a|
  {
    if a == [] {
      assert a + b == b;
    } else {
      assert (a + b)[1..] == a[1..] + b;
      assert (a + b)[0] == a[0];
      FlattenAppend(a[1..], b);
    }
  }

  /** A non-empty sequence is its front followed by its last element. */
  lemma LastSplit<T>(xs: seq<T>)
    requires xs != []
    ensures xs == xs[..|xs| - 1] + [xs[|xs| - 1]]
  {
  }

  /** A sequence is what comes before position `i`, the element there, and
      what comes after. */
  lemma AroundAt<T>(xs: seq<T>, i: nat)
    requires i < |xs|
    ensures xs[i..i + 1] == [xs[i]]
    ensures xs == xs[..i] + [xs[i]] + xs[i + 1..]
  {
  }

  /** The shape of `a + [c] + b` after its first element. */
  lemma ConsAround<T>(a: seq<T>, c: T, b: seq<T>)
    ensures a == [] ==> a + [c] + b == [c] + b && ([c] + b)[1..] == b
    ensures a != [] ==> (a + [c] + b)[0] == a[0] && (a + [c] + b)[1..] == a[1..] + [c] + b
  {
  }

  /** A sequence is its first `k` elements followed by the rest. */
  lemma TakeDrop<T>(xs: seq<T>, k: nat)
    requires k <= |xs|
    ensures xs == xs[..k] + xs[k..]
    ensures 0 < k ==> xs[..1] == [xs[0]]
  {
  }

  /** The head and the tail of `[x] + rest`. */
  lemma ConsShape<T>(x: T, rest: seq<T>)
    ensures |[x] + rest| == |rest| + 1 && ([x] + rest)[0] == x && ([x] + rest)[1..] == rest
  {
  }

  /** Replacing the first element of `p + q` only touches `p`. */
  lemma MergeFirst<T>(y: T, p: seq<T>, q: seq<T>)
    requires |p| >= 1
    ensures (p + q)[0] == p[0] && [y] + (p + q)[1..] == [y] + p[1..] + q
  {
  }

  /** A sequence is its prefix, its suffix and nothing more. */
  lemma PadSplit<T>(xs: seq<T>, k: nat)
    requires k <= |xs|
    ensures xs == xs[..k] + xs[k..] + []
  {
  }

  /** A prefix one element longer is the shorter prefix and that element. */
  lemma TakeSnoc<T>(xs: seq<T>, n: nat)
    requires 0 < n <= |xs|
    ensures xs[..n] == xs[..n - 1] + [xs[n - 1]]
  {
  }

  /** Flattening with one more sequence at the end. */
  lemma FlattenSnoc<T>(xss: seq<seq<T>>, xs: seq<T>)
    ensures Flatten(xss + [xs]) == Flatten(xss) + xs
  {
    FlattenAppend(xss, [xs]);
    assert [xs][1..] == [];
  }

  lemma {:induction false} NonEmptyAppend(a: seq<string>, b: seq<string>)
    ensures NonEmpty(a + b) == NonEmpty(a) + NonEmpty(b)
    decreases |a|
  {
    if a == [] {
      assert a + b == b;
    } else {
      assert (a + b)[1..] == a[1..] + b;
      assert (a + b)[0] == a[0];
      NonEmptyAppend(a[1..], b);
      var h := if a[0] == [] then [] else [a[0]];
      calc {
        NonEmpty(a + b);
        h + NonEmpty(a[1..] + b);
        h + (NonEmpty(a[1..]) + NonEmpty(b));
        (h + NonEmpty(a[1..])) + NonEmpty(b);
      }
    }
  }

  /** A whitespace character separates the pieces on its two sides. */
  lemma {:induction false} PiecesAtSpace(a: string, c: char, b: string)
    requires IsSpace(c)
    ensures Pieces(a + [c] + b) == Pieces(a) + Pieces(b)
    decreases |a|
  {
    ConsAround(a, c, b);
    if a == [] {
      PiecesCons(c, b);
    } else {
      var s := a[1..] + [c] + b;
      assert [a[0]] + s == a + [c] + b;
      assert [a[0]] + a[1..] == a;
      PiecesAtSpace(a[1..], c, b);
      PiecesCons(a[0], s);
      PiecesCons(a[0], a[1..]);
      PiecesJoin(a[0], Pieces(a[1..]), Pieces(b), Pieces(a + [c] + b), Pieces(a));
    }
  }

  /** The list algebra of one step of `PiecesAtSpace`: `whole` is the step
      of `Pieces` applied to `p + q`, and `pa` the same step applied to `p`. */
  lemma PiecesJoin(x: char, p: seq<string>, q: seq<string>, whole: seq<string>, pa: seq<string>)
    requires |p| >= 1
    requires IsSpace(x) ==> whole == [""] + (p + q) && pa == [""] + p
    requires !IsSpace(x) ==> whole == [[x] + (p + q)[0]] + (p + q)[1..] && pa == [[x] + p[0]] + p[1..]
    ensures whole == pa + q
  {
    if IsSpace(x) {
      Assoc([""], p, q);
    } else {
      MergeFirst([x] + p[0], p, q);
      Assoc([[x] + p[0]], p[1..], q);
    }
  }

  lemma Assoc<T>(x: seq<T>, y: seq<T>, z: seq<T>)
    ensures (x + y) + z == x + (y + z)
  {
  }

  /** One step of `Pieces`: a leading whitespace character opens a new
      piece, any other character joins the first piece. */
  lemma PiecesCons(x: char, s: string)
    ensures IsSpace(x) ==> Pieces([x] + s) == [""] + Pieces(s)
    ensures !IsSpace(x) ==> Pieces([x] + s) == [[x] + Pieces(s)[0]] + Pieces(s)[1..]
  {
    assert ([x] + s)[1..] == s;
  }

  /** The words on the two sides of a whitespace character. */
  lemma WordsAtSpace(a: string, c: char, b: string)
    requires IsSpace(c)
    ensures Words(a + [c] + b) == Words(a) + Words(b)
  {
    PiecesAtSpace(a, c, b);
    NonEmptyAppend(Pieces(a), Pieces(b));
  }

  /** The words on the two sides of an all-whitespace separator. */
  lemma {:induction false} WordsAtSeparator(a: string, sep: string, b: string)
    requires sep != [] && AllSpace(sep)
    ensures Words(a + sep + b) == Words(a) + Words(b)
    decreases |sep|
  {
    assert a + sep + b == a + [sep[0]] + (sep[1..] + b);
    WordsAtSpace(a, sep[0], sep[1..] + b);
    if |sep| == 1 {
      assert sep[1..] + b == b;
    } else {
      assert sep[1..] + b == [] + sep[1..] + b;
      WordsAtSeparator([], sep[1..], b);
      assert Words([]) == [];
    }
  }

  /** An all-whitespace string has no words. */
  lemma {:induction false} WordsAllSpace(s: string)
    requires AllSpace(s)
    ensures Words(s) == []
    decreases |s|
  {
    if s != [] {
      assert s == [] + [s[0]] + s[1..];
      WordsAtSpace([], s[0], s[1..]);
      WordsAllSpace(s[1..]);
    }
  }

  /** Whitespace around a string adds no words. */
  lemma WordsPadded(x: string, r: string, y: string)
    requires AllSpace(x) && AllSpace(y)
    ensures Words(x + r + y) == Words(r)
  {
    if x != [] {
      WordsAtSeparator([], x, r + y);
      assert x + r + y == [] + x + (r + y);
    } else {
      assert x + r + y == r + y;
    }
    if y != [] {
      WordsAtSeparator(r, y, []);
      assert r + y + [] == r + y;
    } else {
      assert r + y == r;
    }
  }

  /** `s.strip().split() == s.split()`. */
  lemma WordsStrip(s: string)
    ensures Words(Strip(s)) == Words(s)
  {
    var r := Strip(s);
    var a := StripStart(s);
    StripSlice(s);
    var x, y := s[..a], s[a + |r|..];
    assert s == x + r + y;
    WordsPadded(x, r, y);
  }

  /** A word splits into itself. */
  lemma {:induction false} PiecesOfWord(w: string)
    requires forall i :: 0 <= i < |w| ==> !IsSpace(w[i])
    ensures Pieces(w) == [w]
    decreases |w|
  {
    if w != [] {
      PiecesOfWord(w[1..]);
      assert [w[0]] + w[1..] == w;
    }
  }

  /** A word is its own `split()`. */
  lemma WordsOfWord(w: string)
    requires IsWord(w)
    ensures Words(w) == [w]
  {
    PiecesOfWord(w);
    assert [w][1..] == [];
    assert NonEmpty([w]) == [w] + NonEmpty([]);
  }

  /** `" ".join(ws).split() == ws` for genuine words. */
  lemma {:induction false} WordsUnwords(ws: seq<string>)
    requires forall w :: w in ws ==> IsWord(w)
    ensures Words(Unwords(ws)) == ws
    decreases |ws|
  {
    if ws == [] {
    } else if |ws| == 1 {
      assert ws[0] in ws;
      WordsOfWord(ws[0]);
      assert ws == [ws[0]];
    } else {
      assert ws[0] in ws;
      assert forall w :: w in ws[1..] ==> w in ws;
      WordsUnwords(ws[1..]);
      WordsOfWord(ws[0]);
      WordsAtSpace(ws[0], ' ', Unwords(ws[1..]));
      assert Unwords(ws) == ws[0] + [' '] + Unwords(ws[1..]);
      assert [ws[0]] + ws[1..] == ws;
    }
  }

  /** `sep.join(parts).split()` for an all-whitespace separator: the words of
      the parts, in order. */
  lemma {:induction false} WordsJoin(sep: string, parts: seq<string>)
    requires sep != [] && AllSpace(sep)
    ensures Words(Join(sep, parts)) == Flatten(seq(|parts|, k requires 0 <= k < |parts| => Words(parts[k])))
    decreases |parts|
  {
    var f := seq(|parts|, k requires 0 <= k < |parts| => Words(parts[k]));
    if parts == [] {
    } else if |parts| == 1 {
      assert f[1..] == [];
      assert Flatten(f) == f[0] + Flatten(f[1..]);
    } else {
      var tail := parts[1..];
      WordsJoin(sep, tail);
      WordsAtSeparator(parts[0], sep, Join(sep, tail));
      var g := seq(|tail|, k requires 0 <= k < |tail| => Words(tail[k]));
      assert f[1..] == g by {
        forall k | 0 <= k < |g| ensures f[1..][k] == g[k] {
          assert tail[k] == parts[k + 1];
        }
      }
      assert Flatten(f) == f[0] + Flatten(f[1..]);
    }
  }

  // ---------------------------------------------------------------------------
  // re.sub(<blank class>+, " ", s)
  // ---------------------------------------------------------------------------

  /** Every maximal run of `b` characters in `s` replaced by one space:
      `re.sub(r"\s+", " ", s)`, `re.sub(r"[ \t]+", " ", s)` or `re.sub(r" +", " ", s)`. */
  function Squeeze(s: string, b: Blank): (r: string)
    ensures |r| <= |s|
    ensures forall i :: 0 <= i < |r| && IsBlank(r[i], b) ==> r[i] == ' '
    ensures forall i :: 0 <= i < |r| - 1 ==> !(IsBlank(r[i], b) && IsBlank(r[i + 1], b))
    ensures s != [] ==> r != [] && (IsBlank(s[0], b) <==> IsBlank(r[0], b))
    ensures s != [] && !IsBlank(s[0], b) ==> r[0] == s[0]
    ensures forall i :: 0 <= i < |r| && !IsBlank(r[i], b) ==> r[i] in s
    decreases |s|
  {
    if s == [] then []
    else if IsBlank(s[0], b) then
      var t := DropLeading(s[1..], b);
      DropLeadingPrefix(s[1..], b);
      assert forall c :: c in t ==> c in s;
      [' '] + Squeeze(t, b)
    else
      [s[0]] + Squeeze(s[1..], b)
  }

  /** Leading whitespace does not change the words. */
  lemma WordsDropLeading(u: string)
    ensures Words(DropLeading(u, Whitespace)) == Words(u)
  {
    var t := DropLeading(u, Whitespace);
    var k := |u| - |t|;
    DropLeadingPrefix(u, Whitespace);
    forall i | 0 <= i < k ensures IsSpace(u[..k][i]) {
      assert u[..k][i] == u[i];
    }
    PadSplit(u, k);
    WordsPadded(u[..k], t, []);
  }

  /** Squeezing whitespace keeps the words: the first piece is unchanged and the
      remaining pieces have the same non-empty members. */
  lemma {:induction false} SqueezePieces(s: string)
    ensures Pieces(Squeeze(s, Whitespace))[0] == Pieces(s)[0]
    ensures NonEmpty(Pieces(Squeeze(s, Whitespace))[1..]) == NonEmpty(Pieces(s)[1..])
    decreases |s|
  {
    if s != [] {
      var r := Squeeze(s, Whitespace);
      if IsSpace(s[0]) {
        var t := DropLeading(s[1..], Whitespace);
        SqueezePieces(t);
        var p := Pieces(Squeeze(t, Whitespace));
        assert r == [' '] + Squeeze(t, Whitespace);
        assert r[1..] == Squeeze(t, Whitespace);
        assert Pieces(r)[1..] == p;
        assert Pieces(s)[1..] == Pieces(s[1..]);
        assert p == [p[0]] + p[1..];
        NonEmptyAppend([p[0]], p[1..]);
        var q := Pieces(t);
        assert q == [q[0]] + q[1..];
        NonEmptyAppend([q[0]], q[1..]);
        WordsDropLeading(s[1..]);
      } else {
        SqueezePieces(s[1..]);
        assert r[1..] == Squeeze(s[1..], Whitespace);
      }
    }
  }

  /** `re.sub(r"\s+", " ", s).split() == s.split()`. */
  lemma WordsSqueeze(s: string)
    ensures Words(Squeeze(s, Whitespace)) == Words(s)
  {
    SqueezePieces(s);
    var p := Pieces(Squeeze(s, Whitespace));
    var q := Pieces(s);
    assert p == [p[0]] + p[1..];
    assert q == [q[0]] + q[1..];
    NonEmptyAppend([p[0]], p[1..]);
    NonEmptyAppend([q[0]], q[1..]);
  }

  // ---------------------------------------------------------------------------
  // re.sub(r"\n{3,}", "\n\n", s)
  // ---------------------------------------------------------------------------

  /** The length of the run of newlines `s` starts with. */
  function NewlineRun(s: string): (n: nat)
    ensures n <= |s|
    ensures forall i :: 0 <= i < n ==> s[i] == '\n'
    ensures n < |s| ==> s[n] != '\n'
    decreases |s|
  {
    if s != [] && s[0] == '\n' then 1 + NewlineRun(s[1..]) else 0
  }

  /** No three newlines in a row. */
  predicate NoTripleNewline(s: string) {
    forall i :: 0 <= i < |s| - 2 ==> !(s[i] == '\n' && s[i + 1] == '\n' && s[i + 2] == '\n')
  }

  /** No two spaces in a row. */
  predicate NoDoubleSpace(s: string) {
    forall i :: 0 <= i < |s| - 1 ==> !(s[i] == ' ' && s[i + 1] == ' ')
  }

  /** `re.sub(r"\n{3,}", "\n\n", s)`: every run of three or more newlines
      becomes exactly two; shorter runs and all other characters are kept. */
  function CollapseNewlines(s: string): (r: string)
    ensures NoTripleNewline(r)
    ensures s != [] ==> r != [] && r[0] == s[0]
    ensures forall c :: c in r && c != '\n' ==> c in s
    decreases |s|
  {
    if s == [] then []
    else if s[0] == '\n' then
      var n := NewlineRun(s);
      var rest := CollapseNewlines(s[n..]);
      var run := if n >= 3 then "\n\n" else s[..n];
      assert forall c :: c in rest && c != '\n' ==> c in s;
      assert forall i :: 0 <= i < |run| ==> run[i] == '\n';
      ShortRunBefore(run, rest);
      run + rest
    else
      var rest := CollapseNewlines(s[1..]);
      OtherBefore(s[0], rest);
      [s[0]] + rest
  }

  /** At most two newlines before a text that does not start with one add
      no run of three. */
  lemma ShortRunBefore(run: string, rest: string)
    requires |run| <= 2 && forall i :: 0 <= i < |run| ==> run[i] == '\n'
    requires NoTripleNewline(rest) && (rest == [] || rest[0] != '\n')
    ensures NoTripleNewline(run + rest)
  {
    var r := run + rest;
    forall i | 0 <= i < |r| - 2 ensures !(r[i] == '\n' && r[i + 1] == '\n' && r[i + 2] == '\n') {
      if i >= |run| {
        assert r[i] == rest[i - |run|] && r[i + 1] == rest[i - |run| + 1] && r[i + 2] == rest[i - |run| + 2];
      } else {
        assert r[|run|] == rest[0];
      }
    }
  }

  /** A character other than a newline before a text adds no run of three. */
  lemma OtherBefore(c: char, rest: string)
    requires c != '\n' && NoTripleNewline(rest)
    ensures NoTripleNewline([c] + rest)
  {
    var r := [c] + rest;
    forall i | 1 <= i < |r| - 2 ensures !(r[i] == '\n' && r[i + 1] == '\n' && r[i + 2] == '\n') {
      assert r[i] == rest[i - 1] && r[i + 1] == rest[i] && r[i + 2] == rest[i + 1];
    }
  }

  /** Collapsing newline runs creates no pair of adjacent spaces. */
  lemma {:induction false} CollapseNewlinesNoDoubleSpace(s: string)
    requires NoDoubleSpace(s)
    ensures NoDoubleSpace(CollapseNewlines(s))
    decreases |s|
  {
    if s != [] {
      if s[0] == '\n' {
        var n := NewlineRun(s);
        assert NoDoubleSpace(s[n..]) by {
          forall i | 0 <= i < |s[n..]| - 1 ensures !(s[n..][i] == ' ' && s[n..][i + 1] == ' ') {
            assert s[n..][i] == s[n + i] && s[n..][i + 1] == s[n + i + 1];
          }
        }
        CollapseNewlinesNoDoubleSpace(s[n..]);
      } else {
        assert NoDoubleSpace(s[1..]) by {
          forall i | 0 <= i < |s[1..]| - 1 ensures !(s[1..][i] == ' ' && s[1..][i + 1] == ' ') {
            assert s[1..][i] == s[1 + i] && s[1..][i + 1] == s[1 + i + 1];
          }
        }
        CollapseNewlinesNoDoubleSpace(s[1..]);
      }
    }
  }
}
