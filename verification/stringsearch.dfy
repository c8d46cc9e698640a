/** The literal substring search of the `String` extension: first match,
    its end, and every left-to-right non-overlapping match, as start
    positions or as ranges. Positions are character offsets. */
module StringSearch {
  import opened Results

  /** `needle` occurs in `hay` starting at `i`. */
  predicate OccursAt(hay: string, needle: string, i: nat) {
    i + |needle| <= |hay| && hay[i..i + |needle|] == needle
  }

  /** `range(of:options:range:)` with `.literal` over `start..<endIndex`:
      the first occurrence at or after `start`. An empty needle is never
      found. */
  function FindFrom(hay: string, needle: string, start: nat): (r: Option<nat>)
    ensures r.Some? ==> |needle| > 0 && start <= r.value && r.value + |needle| <= |hay|
    decreases |hay| - start
  {
    if |needle| == 0 || start + |needle| > |hay| then None
    else if hay[start..start + |needle|] == needle then Some(start)
    else FindFrom(hay, needle, start + 1)
  }

  /** What the search finds: an occurrence with none before it, and nothing
      only when there is no occurrence at all from `start` on. */
  lemma {:induction false} FindFromFirst(hay: string, needle: string, start: nat)
    ensures var r := FindFrom(hay, needle, start);
      && (r.Some? ==> OccursAt(hay, needle, r.value))
      && (r.Some? ==> forall k :: start <= k < r.value ==> !OccursAt(hay, needle, k))
      && (r.None? ==> |needle| == 0 || forall k :: start <= k ==> !OccursAt(hay, needle, k))
    decreases |hay| - start
  {
    if |needle| > 0 && start + |needle| <= |hay| && hay[start..start + |needle|] != needle {
      FindFromFirst(hay, needle, start + 1);
    }
  }

  /** `index(of:)`: where the first occurrence starts. */
  function IndexOf(hay: string, needle: string): (r: Option<nat>)
    ensures r.Some? ==> OccursAt(hay, needle, r.value) && forall k :: 0 <= k < r.value ==> !OccursAt(hay, needle, k)
    ensures r.None? <==> |needle| == 0 || forall k :: !OccursAt(hay, needle, k)
  {
    FindFromFirst(hay, needle, 0);
    FindFrom(hay, needle, 0)
  }

  /** `endIndex(of:)`: where that same first occurrence ends. */
  function EndIndexOf(hay: string, needle: string): (r: Option<nat>)
    ensures r.Some? <==> IndexOf(hay, needle).Some?
    ensures r.Some? ==> r.value == IndexOf(hay, needle).value + |needle| && r.value <= |hay|
  {
    match IndexOf(hay, needle)
    case None => None
    case Some(i) => Some(i + |needle|)
  }

  /** The matches from `start` on, each search resuming where the previous
      match ended. */
  function MatchesFrom(hay: string, needle: string, start: nat): seq<nat>
    decreases |hay| - start
  {
    match FindFrom(hay, needle, start)
    case None => []
    case Some(i) => [i] + MatchesFrom(hay, needle, i + |needle|)
  }

  /** Every position in `ms` is an occurrence at or after `start`. */
  predicate AllOccurFrom(hay: string, needle: string, ms: seq<nat>, start: nat) {
    forall k :: 0 <= k < |ms| ==> start <= ms[k] && OccursAt(hay, needle, ms[k])
  }

  /** Each position in `ms` is at least one needle length past the previous. */
  predicate Spaced(ms: seq<nat>, len: nat) {
    forall k :: 0 <= k < |ms| - 1 ==> ms[k] + len <= ms[k + 1]
  }

  /** Every listed start is a match at or after `start`, and each one begins
      at or after the end of the previous one. */
  lemma {:induction false} MatchesAreOccurrences(hay: string, needle: string, start: nat)
    ensures AllOccurFrom(hay, needle, MatchesFrom(hay, needle, start), start)
    ensures Spaced(MatchesFrom(hay, needle, start), |needle|)
    decreases |hay| - start
  {
    var ms := MatchesFrom(hay, needle, start);
    FindFromFirst(hay, needle, start);
    match FindFrom(hay, needle, start)
    case None =>
      assert ms == [];
    case Some(i) =>
      var rest := MatchesFrom(hay, needle, i + |needle|);
      assert ms == [i] + rest;
      MatchesAreOccurrences(hay, needle, i + |needle|);
      forall k | 0 <= k < |ms| ensures start <= ms[k] && OccursAt(hay, needle, ms[k]) {
        if k > 0 {
          assert ms[k] == rest[k - 1];
        }
      }
      forall k | 0 <= k < |ms| - 1 ensures ms[k] + |needle| <= ms[k + 1] {
        assert ms[k + 1] == rest[k];
        if k > 0 {
          assert ms[k] == rest[k - 1];
        }
      }
  }

  /** Some match in `ms` spans position `p`. */
  predicate Covers(ms: seq<nat>, p: nat, len: nat) {
    exists k :: 0 <= k < |ms| && ms[k] <= p < ms[k] + len
  }

  /** No occurrence is skipped: every occurrence at or after `start` is a
      listed match or starts inside one. */
  lemma {:induction false} MatchesCoverOccurrences(hay: string, needle: string, start: nat, p: nat)
    requires start <= p && OccursAt(hay, needle, p) && |needle| > 0
    ensures Covers(MatchesFrom(hay, needle, start), p, |needle|)
    decreases |hay| - start
  {
    var ms := MatchesFrom(hay, needle, start);
    FindFromFirst(hay, needle, start);
    match FindFrom(hay, needle, start)
    case None =>
      assert false;
    case Some(i) =>
      var rest := MatchesFrom(hay, needle, i + |needle|);
      assert ms == [i] + rest;
      assert i <= p;
      if p < i + |needle| {
        assert ms[0] == i;
      } else {
        MatchesCoverOccurrences(hay, needle, i + |needle|, p);
        var k :| 0 <= k < |rest| && rest[k] <= p < rest[k] + |needle|;
        assert ms[k + 1] == rest[k];
      }
  }

  /** `indexes(of:)`: the start of every match, left to right, each search
      resuming at the end of the previous match. */
  method Indexes(hay: string, needle: string) returns (result: seq<nat>)
    ensures result == MatchesFrom(hay, needle, 0)
  {
    result := [];
    var start := 0;
    while FindFrom(hay, needle, start).Some?
      invariant start <= |hay|
      invariant result + MatchesFrom(hay, needle, start) == MatchesFrom(hay, needle, 0)
      decreases |hay| - start
    {
      var i := FindFrom(hay, needle, start).value;
      MatchStep(hay, needle, start, i, result);
      result, start := result + [i], i + |needle|;
    }
    LastStep(hay, needle, start, result);
  }

  /** One turn of the search loop: the match found at `i` is the next listed
      start, and the search resumes past it. */
  lemma MatchStep(hay: string, needle: string, start: nat, i: nat, done: seq<nat>)
    requires FindFrom(hay, needle, start) == Some(i)
    ensures start < i + |needle| <= |hay|
    ensures done + MatchesFrom(hay, needle, start) == (done + [i]) + MatchesFrom(hay, needle, i + |needle|)
  {
    var rest := MatchesFrom(hay, needle, i + |needle|);
    assert MatchesFrom(hay, needle, start) == [i] + rest;
    assert done + ([i] + rest) == (done + [i]) + rest;
  }

  /** The search loop ends when nothing more is found: no further starts. */
  lemma LastStep(hay: string, needle: string, start: nat, done: seq<nat>)
    requires FindFrom(hay, needle, start).None?
    ensures done + MatchesFrom(hay, needle, start) == done
  {
  }

  /** The first listed start, when there is one, is `index(of:)`; a needle
      that never occurs lists nothing. */
  lemma FirstIndexIsIndexOf(hay: string, needle: string)
    ensures |MatchesFrom(hay, needle, 0)| > 0 ==> IndexOf(hay, needle) == Some(MatchesFrom(hay, needle, 0)[0])
    ensures IndexOf(hay, needle).None? <==> MatchesFrom(hay, needle, 0) == []
  {
  }

  datatype Range = Range(lower: nat, upper: nat)

  /** `ranges(of:)`: the same search loop, each match kept as the range it
      covers. */
  method Ranges(hay: string, needle: string) returns (result: seq<Range>)
    ensures |result| == |MatchesFrom(hay, needle, 0)|
    ensures forall k :: 0 <= k < |result| ==>
      result[k] == Range(MatchesFrom(hay, needle, 0)[k], MatchesFrom(hay, needle, 0)[k] + |needle|)
  {
    var starts := Indexes(hay, needle);
    result := seq(|starts|, k requires 0 <= k < |starts| => Range(starts[k], starts[k] + |needle|));
  }

  /** Each range spans one occurrence of the needle. */
  lemma RangesSpanOccurrences(hay: string, needle: string, k: nat)
    requires k < |MatchesFrom(hay, needle, 0)|
    ensures var lo := MatchesFrom(hay, needle, 0)[k];
      lo + |needle| <= |hay| && hay[lo..lo + |needle|] == needle
  {
    MatchesAreOccurrences(hay, needle, 0);
  }

  /** "abab" in "ababab" also occurs at 2, but that occurrence overlaps
      the one at 0: the search resumes at 4 and finds nothing more. */
  lemma NonOverlappingExample(hay: string, needle: string)
    requires hay == "ababab" && needle == "abab"
    ensures MatchesFrom(hay, needle, 0) == [0]
  {
    assert OccursAt(hay, needle, 0);
    assert FindFrom(hay, needle, 4) == None;
  }
}
