/**
 * `SplitArray`, `HasItems` and `ForEach` of EnumerableExtensions.cs, over
 * immutable sequences; `Skip` and `Take` are the LINQ operators.
 */
module EnumerableExtensions {
  import opened Wrappers

  function Min(a: int, b: int): int {
    if a <= b then a else b
  }

  /** LINQ `Skip(count)`: a non-positive count skips nothing. */
  function Skip<T>(s: seq<T>, count: int): seq<T> {
    if count <= 0 then s else if count >= |s| then [] else s[count..]
  }

  /** LINQ `Take(count)`: a non-positive count takes nothing. */
  function Take<T>(s: seq<T>, count: int): seq<T> {
    if count <= 0 then [] else if count >= |s| then s else s[..count]
  }

  /** Taking `count` elements after skipping `start` is a slice clipped to the sequence. */
  lemma SkipTakeIsSlice<T>(s: seq<T>, start: nat, count: int)
    ensures Take(Skip(s, start), count) == s[Min(start, |s|)..Min(start + if count <= 0 then 0 else count, |s|)]
  {
  }

  /**
   * `(int)Math.Ceiling(total / (double)n)` for `n >= 1`: exact integer
   * ceiling division, since every int quotient is representable.
   */
  function CeilDiv(total: nat, n: int): (c: nat)
    requires n >= 1
  {
    (total + n - 1) / n
  }

  /** `CeilDiv` is the least count per column that fits `total` items into `n` columns. */
  lemma CeilDivIsCeiling(total: nat, n: int)
    requires n >= 1
    ensures CeilDiv(total, n) * n >= total
    ensures CeilDiv(total, n) == 0 || (CeilDiv(total, n) - 1) * n < total
  {
    var c := CeilDiv(total, n);
    var r := (total + n - 1) % n;
    assert total + n - 1 == c * n + r && 0 <= r < n;
    assert c * n >= total by {
      assert c * n == total + n - 1 - r;
    }
    if c > 0 {
      assert (c - 1) * n == c * n - n;
    }
  }

  /** Column `i` of `n` with `c` items per column: the last takes the rest. */
  function Column<T>(s: seq<T>, n: int, c: nat, i: nat): seq<T> {
    var take := if i == n - 1 then |s| - c * i else c;
    Take(Skip(s, i * c), take)
  }

  /** The `n` columns of `c` items each, but for the last. */
  function ColumnsOf<T>(s: seq<T>, n: nat, c: nat): (cols: seq<seq<T>>)
    ensures |cols| == n
  {
    seq(n, i requires 0 <= i < n => Column(s, n, c, i))
  }

  /** The columns `SplitArray(s, n)` returns; none for `n <= 0`, as the loop never runs. */
  function Columns<T>(s: seq<T>, n: int): seq<seq<T>> {
    if n <= 0 then [] else ColumnsOf(s, n, CeilDiv(|s|, n))
  }

  /** `SplitArray`: one column per iteration of the `for` loop. */
  method SplitArray<T>(values: seq<T>, numberOfColumns: int) returns (columns: seq<seq<T>>)
    ensures columns == Columns(values, numberOfColumns)
  {
    var totalItems := |values|;
    columns := [];
    if numberOfColumns <= 0 {
      return;
    }
    var itemsPerColumn := CeilDiv(totalItems, numberOfColumns);
    for i := 0 to numberOfColumns
      invariant columns == ColumnsOf(values, numberOfColumns, itemsPerColumn)[..i]
    {
      var take := itemsPerColumn;
      if i == numberOfColumns - 1 {
        take := totalItems - itemsPerColumn * i;  // only what is left
      }
      columns := columns + [Take(Skip(values, i * itemsPerColumn), take)];
    }
  }

  /** The columns concatenated in order. */
  function Flatten<T>(ss: seq<seq<T>>): seq<T> {
    if ss == [] then [] else Flatten(ss[..|ss| - 1]) + ss[|ss| - 1]
  }

  /** `n >= 1` columns, whatever the input; none otherwise. */
  lemma ColumnCount<T>(s: seq<T>, n: int)
    ensures n >= 1 ==> |Columns(s, n)| == n
    ensures n <= 0 ==> Columns(s, n) == []
  {
  }

  lemma MulStep(k: nat, c: nat)
    requires k >= 1
    ensures k * c == (k - 1) * c + c
    ensures (k - 1) * c >= 0
  {
  }

  /**
   * Every column but the last covers the indices from `i * c` up to
   * `(i + 1) * c`, clipped to the input; the last one covers the rest.
   */
  lemma ColumnOfContents<T>(s: seq<T>, n: nat, c: nat, i: nat)
    requires i < n
    ensures i < n - 1 ==> ColumnsOf(s, n, c)[i] == s[Min(i * c, |s|)..Min((i + 1) * c, |s|)]
    ensures i == n - 1 ==> ColumnsOf(s, n, c)[i] == s[Min(i * c, |s|)..]
  {
    var start := i * c;
    MulStep(i + 1, c);
    assert c * i == start;
    var take := if i == n - 1 then |s| - start else c;
    assert ColumnsOf(s, n, c)[i] == Take(Skip(s, start), take);
    SkipTakeIsSlice(s, start, take);
  }

  /** The same for the columns `SplitArray` returns. */
  lemma ColumnContents<T>(s: seq<T>, n: int, i: nat)
    requires 0 <= i < n
    ensures var c := CeilDiv(|s|, n);
      && (i < n - 1 ==> Columns(s, n)[i] == s[Min(i * c, |s|)..Min((i + 1) * c, |s|)])
      && (i == n - 1 ==> Columns(s, n)[i] == s[Min(i * c, |s|)..])
  {
    ColumnOfContents(s, n, CeilDiv(|s|, n), i);
  }

  /** No column holds more than `CeilDiv(|s|, n)` items. */
  lemma ColumnsBounded<T>(s: seq<T>, n: int, i: nat)
    requires 0 <= i < n
    ensures |Columns(s, n)[i]| <= CeilDiv(|s|, n)
  {
    var c := CeilDiv(|s|, n);
    CeilDivIsCeiling(|s|, n);
    ColumnBounded(s, n, c, i);
  }

  /** A column of `c`-item columns holds at most `c` items when `n` of them fit the input. */
  lemma ColumnBounded<T>(s: seq<T>, n: nat, c: nat, i: nat)
    requires i < n && c * n >= |s|
    ensures |ColumnsOf(s, n, c)[i]| <= c
  {
    var start := i * c;
    MulStep(i + 1, c);
    ColumnOfContents(s, n, c, i);
    if i == n - 1 {
      assert c * n == start + c;
    }
  }

  lemma SliceJoin<T>(s: seq<T>, lo: nat, hi: nat)
    requires lo <= hi <= |s|
    ensures s[..lo] + s[lo..hi] == s[..hi]
  {
  }

  /** The first `k` of the `n` columns, `k < n`, concatenated are the first `k * c` items, clipped. */
  lemma {:induction false} FlattenPrefix<T>(s: seq<T>, n: nat, c: nat, k: nat)
    requires k < n
    ensures Flatten(ColumnsOf(s, n, c)[..k]) == s[..Min(k * c, |s|)]
  {
    if k > 0 {
      var cols := ColumnsOf(s, n, c);
      var before := (k - 1) * c;
      MulStep(k, c);
      FlattenPrefix(s, n, c, k - 1);
      ColumnOfContents(s, n, c, k - 1);
      assert cols[..k][..k - 1] == cols[..k - 1] && cols[..k][k - 1] == cols[k - 1];
      SliceJoin(s, Min(before, |s|), Min(before + c, |s|));
    }
  }

  /** Concatenating the columns in order gives back the input, for `n >= 1`. */
  lemma FlattenColumns<T>(s: seq<T>, n: int)
    requires n >= 1
    ensures Flatten(Columns(s, n)) == s
  {
    FlattenColumnsOf(s, n, CeilDiv(|s|, n));
  }

  /** Whatever the width, the last column takes the rest, so nothing is lost. */
  lemma FlattenColumnsOf<T>(s: seq<T>, n: nat, c: nat)
    requires n >= 1
    ensures Flatten(ColumnsOf(s, n, c)) == s
  {
    var cols := ColumnsOf(s, n, c);
    MulStep(n, c);
    var k := Min((n - 1) * c, |s|);
    assert 0 <= k <= |s|;
    FlattenPrefix(s, n, c, n - 1);
    ColumnOfContents(s, n, c, n - 1);
    JoinLast(cols, s, k);
  }

  /** Columns that cover the input up to `k`, followed by one holding the rest, cover it all. */
  lemma JoinLast<T>(cols: seq<seq<T>>, s: seq<T>, k: nat)
    requires |cols| >= 1 && k <= |s|
    requires Flatten(cols[..|cols| - 1]) == s[..k] && cols[|cols| - 1] == s[k..]
    ensures Flatten(cols) == s
  {
    assert Flatten(cols) == Flatten(cols[..|cols| - 1]) + cols[|cols| - 1];
    SplitAt(s, k);
  }

  lemma SplitAt<T>(s: seq<T>, k: nat)
    requires k <= |s|
    ensures s[..k] + s[k..] == s
  {
  }

  /** Five items in four columns: lengths 2, 2, 1 and 0. */
  lemma FiveIntoFour()
    ensures Columns([1, 2, 3, 4, 5], 4) == [[1, 2], [3, 4], [5], []]
  {
    var s := [1, 2, 3, 4, 5];
    assert CeilDiv(5, 4) == 2;
    assert Column(s, 4, 2, 0) == [1, 2];
    assert Column(s, 4, 2, 1) == [3, 4];
    assert Column(s, 4, 2, 2) == [5];
    assert Column(s, 4, 2, 3) == [];
  }

  /** `HasItems`: the sequence is not null and `Any()` finds an element. */
  function HasItems<T>(values: Option<seq<T>>): bool {
    values.Some? && |values.value| > 0
  }

  /** `HasItems` holds exactly when some element exists. */
  lemma HasItemsIffElement<T>(values: Option<seq<T>>)
    ensures HasItems(values) <==> values.Some? && exists x :: x in values.value
  {
    if HasItems(values) {
      assert values.value[0] in values.value;
    }
  }

  /** The state after running `action` on each element in order. */
  function Apply<S, T>(action: (S, T) -> S, state: S, values: seq<T>): S {
    if values == [] then state else action(Apply(action, state, values[..|values| - 1]), values[|values| - 1])
  }

  /** `ForEach`: the action once per element of a snapshot, in order. */
  method ForEach<S, T>(values: seq<T>, action: (S, T) -> S, state: S) returns (result: S)
    ensures result == Apply(action, state, values)
  {
    var snapshot := values;  // ToList()
    result := state;
    for i := 0 to |snapshot|
      invariant result == Apply(action, state, snapshot[..i])
    {
      assert snapshot[..i + 1][..i] == snapshot[..i];
      result := action(result, snapshot[i]);
    }
    assert snapshot[..|snapshot|] == snapshot;
  }

  /** Running over `a + b` is running over `a`, then over `b`. */
  lemma {:induction false} ApplyAppend<S, T>(action: (S, T) -> S, state: S, a: seq<T>, b: seq<T>)
    ensures Apply(action, state, a + b) == Apply(action, Apply(action, state, a), b)
    decreases |b|
  {
    if b != [] {
      var init, last := b[..|b| - 1], b[|b| - 1];
      assert (a + b)[..|a + b| - 1] == a + init;
      assert (a + b)[|a + b| - 1] == last;
      ApplyAppend(action, state, a, init);
      assert Apply(action, state, a + b) == action(Apply(action, state, a + init), last);
    } else {
      assert a + b == a;
    }
  }

  /** An action that records its argument sees every element once, in order. */
  lemma {:induction false} ApplyRecords<T>(trace: seq<T>, values: seq<T>)
    ensures Apply((log: seq<T>, x: T) => log + [x], trace, values) == trace + values
    decreases |values|
  {
    if values != [] {
      ApplyRecords(trace, values[..|values| - 1]);
      assert values[..|values| - 1] + [values[|values| - 1]] == values;
    }
  }
}
