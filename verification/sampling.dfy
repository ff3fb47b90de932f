/** The optional row sampling of the allel script's `get_variants`
    (`first`, `last` or `random`), over the rows of a table. */
module Sampling {
  import opened Text
  import opened Results

  datatype SamplingError =
    | UnsupportedSamplingMethod  // the `RuntimeError` for an unknown method
    | NegativeSampleSize         // `DataFrame.sample` refusing a negative count

  /** `sample_method and sample_n`: both present and truthy (a non-empty
      method name, a non-zero count). */
  predicate Active(how: Option<string>, n: Option<int>) {
    how.Some? && how.value != "" && n.Some? && n.value != 0
  }

  /** The three method names, matched after `lower()`. */
  predicate IsKnownMethod(name: string) {
    Lower(name) == "first" || Lower(name) == "last" || Lower(name) == "random"
  }

  function Min(a: int, b: int): int {
    if a <= b then a else b
  }

  lemma PrefixSubMultiset<T>(rows: seq<T>, k: nat)
    requires k <= |rows|
    ensures multiset(rows[..k]) <= multiset(rows) && multiset(rows[k..]) <= multiset(rows)
  {
    assert rows == rows[..k] + rows[k..];
  }

  /** `DataFrame.head(n)`, that is `rows[:n]`: for a negative `n`, all but
      the last `-n` rows. */
  function Head<T>(rows: seq<T>, n: int): (h: seq<T>)
    requires n <= |rows|
    ensures multiset(h) <= multiset(rows)
  {
    var k := if n >= 0 then n else if |rows| + n >= 0 then |rows| + n else 0;
    PrefixSubMultiset(rows, k);
    rows[..k]
  }

  /** `DataFrame.tail(n)`: no rows for 0, otherwise `rows[-n:]`, so for a
      negative `n` all but the first `-n` rows. */
  function Tail<T>(rows: seq<T>, n: int): (t: seq<T>)
    requires n <= |rows|
    ensures multiset(t) <= multiset(rows)
  {
    var k := if n == 0 then |rows| else if n > 0 then |rows| - n else if -n <= |rows| then -n else |rows|;
    PrefixSubMultiset(rows, k);
    rows[k..]
  }

  /** The random generator's choices for drawing rows one at a time without
      replacement: the `k`-th choice picks among the `size - k` rows still
      undrawn. A seed determines the choices, so the same seed gives the
      same draw. */
  predicate ValidChoices(choices: seq<nat>, size: nat) {
    |choices| == size && forall k :: 0 <= k < |choices| ==> choices[k] < size - k
  }

  /** Draws `|choices|` rows, removing each drawn row from the pool. */
  function DrawRows<T>(rows: seq<T>, choices: seq<nat>): (drawn: seq<T>)
    requires |choices| <= |rows|
    requires forall k :: 0 <= k < |choices| ==> choices[k] < |rows| - k
    ensures |drawn| == |choices|
    ensures multiset(drawn) <= multiset(rows)
    decreases |choices|
  {
    if |choices| == 0 then []
    else
      var j := choices[0];
      var pool := rows[..j] + rows[j + 1..];
      assert rows == rows[..j] + [rows[j]] + rows[j + 1..];
      assert multiset(rows) == multiset(pool) + multiset{rows[j]};
      [rows[j]] + DrawRows(pool, choices[1..])
  }

  /** The sampling step. When it is not active the rows are returned as
      they are; otherwise the count is first clamped to the number of rows.
      Every successful result is a sub-multiset of the rows: no row is
      duplicated or invented. */
  function SampleRows<T>(rows: seq<T>, how: Option<string>, n: Option<int>, choices: seq<nat>)
    : (r: Result<seq<T>, SamplingError>)
    requires ValidChoices(choices, |rows|)
    ensures !Active(how, n) ==> r == Ok(rows)
    ensures Active(how, n) ==> (r == Err(UnsupportedSamplingMethod) <==> !IsKnownMethod(how.value))
    ensures Active(how, n) ==>
      (r == Err(NegativeSampleSize) <==> Lower(how.value) == "random" && n.value < 0)
    ensures r.Ok? ==> multiset(r.value) <= multiset(rows)
    ensures Active(how, n) && IsKnownMethod(how.value) && n.value > 0 ==>
      r.Ok? && |r.value| == Min(n.value, |rows|)
    ensures Active(how, n) && Lower(how.value) == "first" && n.value > 0 ==>
      r == Ok(rows[..Min(n.value, |rows|)])
    ensures Active(how, n) && Lower(how.value) == "last" && n.value > 0 ==>
      r == Ok(rows[|rows| - Min(n.value, |rows|)..])
    ensures Active(how, n) && Lower(how.value) == "random" && n.value >= |rows| ==>
      r == Ok(rows)
  {
    if !Active(how, n) then Ok(rows)
    else
      var count := if n.value > |rows| then |rows| else n.value;
      var name := Lower(how.value);
      if name == "first" then Ok(Head(rows, count))
      else if name == "last" then Ok(Tail(rows, count))
      else if name == "random" then
        if count < |rows| then
          if count < 0 then Err(NegativeSampleSize)
          else Ok(DrawRows(rows, choices[..count]))
        else Ok(rows)
      else Err(UnsupportedSamplingMethod)
  }

  /** `first n` for a positive `n`: the first `min(n, size)` rows. */
  lemma FirstIsPrefix<T>(rows: seq<T>, n: int, choices: seq<nat>)
    requires ValidChoices(choices, |rows|)
    requires n > 0
    ensures SampleRows(rows, Some("first"), Some(n), choices) == Ok(rows[..Min(n, |rows|)])
  {
    assert Lower("first") == "first";
  }

  /** `last n` for a positive `n`: the last `min(n, size)` rows. */
  lemma LastIsSuffix<T>(rows: seq<T>, n: int, choices: seq<nat>)
    requires ValidChoices(choices, |rows|)
    requires n > 0
    ensures SampleRows(rows, Some("last"), Some(n), choices) == Ok(rows[|rows| - Min(n, |rows|)..])
  {
    assert Lower("last") == "last";
  }

  /** Entry `k` of the suffix from `d` is entry `d + k`. */
  lemma SuffixIndex<T>(xs: seq<T>, d: nat, k: nat)
    requires d + k < |xs|
    ensures xs[d..][k] == xs[d + k]
  {
  }

  /** `first k` and `last (size - k)` split the rows between them. */
  lemma FirstAndLastPartition<T>(rows: seq<T>, k: nat, choices: seq<nat>)
    requires ValidChoices(choices, |rows|)
    requires 0 < k < |rows|
    ensures SampleRows(rows, Some("first"), Some(k), choices).value
          + SampleRows(rows, Some("last"), Some(|rows| - k), choices).value == rows
  {
    assert Lower("first") == "first" && Lower("last") == "last";
    assert rows[..k] + rows[k..] == rows;
  }

  /** A negative count keeps all but the last (`first`) or all but the first
      (`last`) `-n` rows. */
  lemma NegativeCount<T>(rows: seq<T>, n: int, choices: seq<nat>)
    requires ValidChoices(choices, |rows|)
    requires n < 0
    ensures SampleRows(rows, Some("first"), Some(n), choices)
            == Ok(rows[..if |rows| + n >= 0 then |rows| + n else 0])
    ensures SampleRows(rows, Some("last"), Some(n), choices)
            == Ok(rows[if -n <= |rows| then -n else |rows|..])
  {
    assert Lower("first") == "first" && Lower("last") == "last";
    assert Lower("first") != "last";
    if -n > |rows| {
      assert rows[|rows|..] == [];
    }
  }

  /** Five rows: `first 2` keeps rows 0 and 1, and `last 2` keeps rows 3
      and 4. */
  lemma FiveRowsExample<T>(a: T, b: T, c: T, d: T, e: T, choices: seq<nat>)
    requires ValidChoices(choices, 5)
    ensures SampleRows([a, b, c, d, e], Some("first"), Some(2), choices) == Ok([a, b])
    ensures SampleRows([a, b, c, d, e], Some("last"), Some(2), choices) == Ok([d, e])
  {
    var rows := [a, b, c, d, e];
    assert Lower("first") == "first" && Lower("last") == "last";
    assert Active(Some("first"), Some(2)) && Active(Some("last"), Some(2)) && Min(2, |rows|) == 2;
    assert rows[..2] == [a, b] && rows[3..] == [d, e];
  }

  /** A count above the number of rows keeps every row, for `first` and for
      `random` alike. */
  lemma OversizedCountKeepsAll<T>(rows: seq<T>, n: int, choices: seq<nat>)
    requires ValidChoices(choices, |rows|)
    requires n > |rows|
    ensures SampleRows(rows, Some("first"), Some(n), choices) == Ok(rows)
    ensures SampleRows(rows, Some("random"), Some(n), choices) == Ok(rows)
  {
    assert Lower("first") == "first" && Lower("random") == "random";
    assert rows[..|rows|] == rows;
  }
}
