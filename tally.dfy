/**
 * The per-language counters both the language stage and the transcription
 * stage keep in a dictionary: `stats[lang] = stats.get(lang, 0) + 1`.
 */
module Tally {

  /** A dictionary from language tag to count. */
  type Counts = map<string, nat>

  /** `stats.get(key, 0)`. */
  function Get(stats: Counts, key: string): nat {
    if key in stats then stats[key] else 0
  }

  /** `stats[key] = stats.get(key, 0) + 1`. */
  function Bump(stats: Counts, key: string): Counts {
    stats[key := Get(stats, key) + 1]
  }

  /** `sum(stats.values())`. */
  ghost function Total(stats: Counts): nat
    decreases |stats|
  {
    if stats == map[] then 0
    else
      var k :| k in stats;
      stats[k] + Total(stats - {k})
  }

  /** The sum does not depend on which key is taken out first. */
  lemma {:induction false} TotalRemove(stats: Counts, k: string)
    requires k in stats
    ensures Total(stats) == stats[k] + Total(stats - {k})
    decreases |stats|
  {
    var k' :| k' in stats && Total(stats) == stats[k'] + Total(stats - {k'});
    if k' != k {
      var both := stats - {k} - {k'};
      assert stats - {k'} - {k} == both;
      TotalRemove(stats - {k'}, k);
      TotalRemove(stats - {k}, k');
    }
  }

  /** One more occurrence adds one to the sum. */
  lemma TotalBump(stats: Counts, key: string)
    ensures Total(Bump(stats, key)) == Total(stats) + 1
  {
    var r := Bump(stats, key);
    TotalRemove(r, key);
    assert r - {key} == stats - {key};
    if key in stats {
      TotalRemove(stats, key);
    } else {
      assert stats - {key} == stats;
    }
  }

  /** How many elements of `xs` equal `x`. */
  function Count(xs: seq<string>, x: string): nat
    decreases |xs|
  {
    if xs == [] then 0
    else Count(xs[..|xs| - 1], x) + (if xs[|xs| - 1] == x then 1 else 0)
  }
}
