/**
 * The spreadsheet side: reading the list of Epics already in a worksheet, and
 * appending backlog rows and merging the Epic cells of each group of rows.
 * A worksheet is a list of rows of cells together with the merges issued on it.
 */
module GoogleSheets {
  import opened Wrappers
  import opened Strings

  // ---------------------------------------------------------------------
  // get_existing_epics
  // ---------------------------------------------------------------------

  /** The cell in 1-based column `column` of a row; a short row reads as empty there. */
  function Cell(row: seq<string>, column: nat): string
    requires column >= 1
  {
    if column <= |row| then row[column - 1] else []
  }

  /** The values of one column, read from the first row down. */
  function ColValues(rows: seq<seq<string>>, column: nat): (values: seq<string>)
    requires column >= 1
    ensures |values| == |rows|
  {
    seq(|rows|, i requires 0 <= i < |rows| => Cell(rows[i], column))
  }

  /** The values that are not empty, in order. */
  function NonEmpty(values: seq<string>): (r: seq<string>)
    ensures |r| <= |values|
  {
    if values == [] then []
    else (if values[0] != [] then [values[0]] else []) + NonEmpty(values[1..])
  }

  lemma {:induction false} NonEmptySpec(values: seq<string>)
    ensures forall x :: x in NonEmpty(values) <==> x in values && x != []
  {
    if values != [] {
      NonEmptySpec(values[1..]);
      assert values == [values[0]] + values[1..];
    }
  }

  /** Ascending by Python's string order, with no value twice. */
  predicate StrictlySorted(s: seq<string>) {
    forall i, j :: 0 <= i < j < |s| ==> Less(s[i], s[j])
  }

  /** Put `x` into a strictly sorted list, unless it is there already. */
  function Insert(s: seq<string>, x: string): seq<string> {
    if s == [] then [x]
    else if x == s[0] then s
    else if Less(x, s[0]) then [x] + s
    else [s[0]] + Insert(s[1..], x)
  }

  lemma {:induction false} InsertSpec(s: seq<string>, x: string)
    requires StrictlySorted(s)
    ensures StrictlySorted(Insert(s, x))
    ensures forall y :: y in Insert(s, x) <==> y in s || y == x
  {
    if s == [] {
    } else if x == s[0] {
    } else if Less(x, s[0]) {
      forall j | 0 <= j < |s|
        ensures Less(x, s[j])
      {
        if j > 0 {
          LessTransitive(x, s[0], s[j]);
        }
      }
      assert forall j :: 1 <= j < |[x] + s| ==> ([x] + s)[j] == s[j - 1];
    } else {
      LessTotal(x, s[0]);
      InsertSpec(s[1..], x);
      var r := Insert(s[1..], x);
      assert s == [s[0]] + s[1..];
      forall j | 0 <= j < |r|
        ensures Less(s[0], r[j])
      {
        if r[j] != x {
          assert r[j] in s[1..];
        }
      }
      assert forall j :: 1 <= j < |[s[0]] + r| ==> ([s[0]] + r)[j] == r[j - 1];
    }
  }

  /** Each distinct value once, in ascending order. */
  function SortedSet(values: seq<string>): seq<string> {
    if values == [] then []
    else Insert(SortedSet(values[..|values| - 1]), values[|values| - 1])
  }

  lemma {:induction false} SortedSetSpec(values: seq<string>)
    ensures StrictlySorted(SortedSet(values))
    ensures forall y :: y in SortedSet(values) <==> y in values
  {
    if values != [] {
      var init := values[..|values| - 1];
      SortedSetSpec(init);
      InsertSpec(SortedSet(init), values[|values| - 1]);
      assert values == init + [values[|values| - 1]];
    }
  }

  /** Two strictly sorted lists with the same members are the same list. */
  lemma {:induction false} StrictlySortedUnique(a: seq<string>, b: seq<string>)
    requires StrictlySorted(a) && StrictlySorted(b)
    requires forall y :: y in a <==> y in b
    ensures a == b
  {
    if a != [] && b != [] {
      if a[0] != b[0] {
        assert a[0] in a && b[0] in b;
        var i :| 0 <= i < |b| && b[i] == a[0];
        var j :| 0 <= j < |a| && a[j] == b[0];
        LessTransitive(a[0], b[0], a[0]);
        LessIrreflexive(a[0]);
      }
      forall y
        ensures y in a[1..] <==> y in b[1..]
      {
        NotAfterFirst(a, y);
        NotAfterFirst(b, y);
      }
      StrictlySortedUnique(a[1..], b[1..]);
      assert a == [a[0]] + a[1..] && b == [b[0]] + b[1..];
    } else {
      SameMembersBothEmpty(a, b);
    }
  }

  lemma SameMembersBothEmpty(a: seq<string>, b: seq<string>)
    requires forall y :: y in a <==> y in b
    ensures a == [] <==> b == []
  {
    if a != [] {
      assert a[0] in a;
    }
    if b != [] {
      assert b[0] in b;
    }
  }

  /** In a strictly sorted list, the tail holds everything but the first element. */
  lemma NotAfterFirst(s: seq<string>, y: string)
    requires StrictlySorted(s) && s != []
    ensures y in s[1..] <==> y in s && y != s[0]
  {
    if y in s[1..] && y == s[0] {
      var k :| 0 <= k < |s[1..]| && s[1..][k] == y;
      assert Less(s[0], s[k + 1]);
      LessIrreflexive(y);
    }
    assert s == [s[0]] + s[1..];
  }

  /** The column's values without the header cell. */
  function AfterHeader(values: seq<string>): seq<string> {
    if values == [] then [] else values[1..]
  }

  /** The Epics already in the sheet: the non-empty values below the header, each once, sorted. */
  function ExistingEpics(values: seq<string>): seq<string> {
    SortedSet(NonEmpty(AfterHeader(values)))
  }

  /** The Epics read are strictly increasing and are exactly the non-empty cells below the header. */
  lemma ExistingEpicsSpec(values: seq<string>)
    ensures StrictlySorted(ExistingEpics(values))
    ensures forall y :: y in ExistingEpics(values) <==> y in AfterHeader(values) && y != []
  {
    NonEmptySpec(AfterHeader(values));
    SortedSetSpec(NonEmpty(AfterHeader(values)));
  }

  /** Any strictly increasing list of exactly those cells is the list read. */
  lemma ExistingEpicsUnique(values: seq<string>, epics: seq<string>)
    requires StrictlySorted(epics)
    requires forall y :: y in epics <==> y in AfterHeader(values) && y != []
    ensures epics == ExistingEpics(values)
  {
    ExistingEpicsSpec(values);
    StrictlySortedUnique(epics, ExistingEpics(values));
  }

  // ---------------------------------------------------------------------
  // append_and_merge_data: the groups and the merge plan
  // ---------------------------------------------------------------------

  /** The value a row is grouped by: its first cell, the Epic. */
  function Key(row: seq<string>): string {
    if row == [] then [] else row[0]
  }

  function Keys(data: seq<seq<string>>): (keys: seq<string>)
    ensures |keys| == |data|
  {
    seq(|data|, i requires 0 <= i < |data| => Key(data[i]))
  }

  /** How many rows have key `k`: the size of its group. */
  function Occurrences(keys: seq<string>, k: string): nat {
    if keys == [] then 0
    else Occurrences(keys[..|keys| - 1], k) + (if keys[|keys| - 1] == k then 1 else 0)
  }

  /** The keys in order of first appearance, each once: the order of an unsorted grouping by key. */
  function GroupOrder(keys: seq<string>): seq<string> {
    if keys == [] then []
    else
      var g := GroupOrder(keys[..|keys| - 1]);
      if keys[|keys| - 1] in g then g else g + [keys[|keys| - 1]]
  }

  /** Rows taken by the groups `groups`, one after the other: how far the cursor moves. */
  function Offset(keys: seq<string>, groups: seq<string>): nat {
    if groups == [] then 0
    else Offset(keys, groups[..|groups| - 1]) + Occurrences(keys, groups[|groups| - 1])
  }

  /** A merged range of one column, from `firstRow` to `lastRow`, both 1-based and included. */
  datatype MergeRange = MergeRange(firstRow: nat, lastRow: nat, column: nat)

  /** The merge for `n` rows from `first`: none when there is only one row to merge. */
  function RunMerge(first: nat, n: nat, column: nat): seq<MergeRange> {
    if n > 1 then [MergeRange(first, first + n - 1, column)] else []
  }

  /** The merges the loop issues for `groups`, the cursor starting at `start`. */
  function MergePlan(keys: seq<string>, groups: seq<string>, start: nat, column: nat): seq<MergeRange> {
    if groups == [] then []
    else
      var prefix := groups[..|groups| - 1];
      var n := Occurrences(keys, groups[|groups| - 1]);
      var first := start + Offset(keys, prefix);
      MergePlan(keys, prefix, start, column)
      + RunMerge(first, n, column)
  }

  predicate Distinct(s: seq<string>) {
    forall i, j :: 0 <= i < j < |s| ==> s[i] != s[j]
  }

  /** Where `k` first appears in `keys`, or `|keys|` when it does not. */
  function FirstIndex(keys: seq<string>, k: string): (r: nat)
    ensures r <= |keys| && (r < |keys| <==> k in keys)
    ensures r < |keys| ==> keys[r] == k
    ensures forall j :: 0 <= j < r ==> keys[j] != k
  {
    if keys == [] then 0
    else if keys[0] == k then 0
    else 1 + FirstIndex(keys[1..], k)
  }

  /** A row added at the end does not move the first appearance of a key already seen. */
  lemma FirstIndexSnoc(init: seq<string>, x: string, k: string)
    ensures k in init ==> FirstIndex(init + [x], k) == FirstIndex(init, k)
    ensures k !in init && k == x ==> FirstIndex(init + [x], k) == |init|
  {
    var r, r' := FirstIndex(init + [x], k), FirstIndex(init, k);
    if k in init {
      assert (init + [x])[r'] == k;
      assert forall j :: 0 <= j < r' ==> (init + [x])[j] == init[j] != k;
    } else if k == x {
      assert (init + [x])[|init|] == k;
      assert forall j :: 0 <= j < |init| ==> (init + [x])[j] == init[j] != k;
    }
  }

  /**
   * The groups are distinct, are exactly the keys that occur, and come in
   * the order in which each key first appears: `["B", "A", "B"]` gives
   * `["B", "A"]`.
   */
  lemma {:induction false} GroupOrderSpec(keys: seq<string>)
    ensures Distinct(GroupOrder(keys))
    ensures forall k :: k in GroupOrder(keys) <==> k in keys
    ensures forall i, j :: 0 <= i < j < |GroupOrder(keys)| ==>
              FirstIndex(keys, GroupOrder(keys)[i]) < FirstIndex(keys, GroupOrder(keys)[j])
  {
    if keys != [] {
      var init := keys[..|keys| - 1];
      var x := keys[|keys| - 1];
      var g := GroupOrder(init);
      GroupOrderSpec(init);
      assert keys == init + [x];
      forall i | 0 <= i < |g|
        ensures FirstIndex(keys, g[i]) == FirstIndex(init, g[i]) < |init|
      {
        FirstIndexSnoc(init, x, g[i]);
      }
      if x !in g {
        FirstIndexSnoc(init, x, x);
        assert GroupOrder(keys) == g + [x];
      }
    }
  }

  lemma GroupOrderExample()
    ensures GroupOrder(["B", "A", "B"]) == ["B", "A"]
  {
    assert ["B", "A", "B"][..2] == ["B", "A"];
    assert ["B", "A"][..1] == ["B"];
    assert ["B"][..0] == [];
  }

  /** A key that does not occur has no rows. */
  lemma {:induction false} OccurrencesAbsent(keys: seq<string>, k: string)
    requires k !in keys
    ensures Occurrences(keys, k) == 0
  {
    if keys != [] {
      OccurrencesAbsent(keys[..|keys| - 1], k);
    }
  }

  /** One more row adds one to the offset of any distinct groups that include its key, and nothing otherwise. */
  lemma {:induction false} OffsetSnoc(keys: seq<string>, k: string, groups: seq<string>)
    requires Distinct(groups)
    ensures Offset(keys + [k], groups) == Offset(keys, groups) + (if k in groups then 1 else 0)
  {
    if groups != [] {
      var prefix := groups[..|groups| - 1];
      OffsetSnoc(keys, k, prefix);
      assert (keys + [k])[..|keys|] == keys;
      assert groups == prefix + [groups[|groups| - 1]];
    }
  }

  /** The groups tile the data: their sizes add up to the number of rows. */
  lemma {:induction false} GroupsTile(keys: seq<string>)
    ensures Offset(keys, GroupOrder(keys)) == |keys|
  {
    if keys != [] {
      var init := keys[..|keys| - 1];
      var k := keys[|keys| - 1];
      var g := GroupOrder(init);
      GroupsTile(init);
      GroupOrderSpec(init);
      assert keys == init + [k];
      OffsetSnoc(init, k, g);
      if k !in g {
        OccurrencesAbsent(init, k);
        assert (g + [k])[..|g|] == g;
      }
    }
  }

  /** Every merge lies in rows `lo` to `hi - 1` of `column` and covers at least two rows. */
  predicate PlanWithin(plan: seq<MergeRange>, lo: nat, hi: nat, column: nat) {
    forall i :: 0 <= i < |plan| ==> lo <= plan[i].firstRow < plan[i].lastRow < hi && plan[i].column == column
  }

  /** Each merge comes strictly after the merges before it: no two overlap. */
  predicate PlanOrdered(plan: seq<MergeRange>) {
    forall i, j :: 0 <= i < j < |plan| ==> plan[i].lastRow < plan[j].firstRow
  }

  /**
   * Every merge lies inside the rows the groups take from `start`, covers at least two
   * rows, and comes strictly after the merges before it.
   */
  lemma {:induction false} MergePlanBounds(keys: seq<string>, groups: seq<string>, start: nat, column: nat)
    ensures PlanWithin(MergePlan(keys, groups, start, column), start, start + Offset(keys, groups), column)
    ensures PlanOrdered(MergePlan(keys, groups, start, column))
  {
    if groups != [] {
      var prefix := groups[..|groups| - 1];
      MergePlanBounds(keys, prefix, start, column);
      var before := MergePlan(keys, prefix, start, column);
      var n := Occurrences(keys, groups[|groups| - 1]);
      var first := start + Offset(keys, prefix);
      var last := RunMerge(first, n, column);
      assert MergePlan(keys, groups, start, column) == before + last;
      assert PlanWithin(last, first, first + n, column);
      PlanConcat(before, last, start, first, first + n, column);
    }
  }

  lemma PlanConcat(a: seq<MergeRange>, b: seq<MergeRange>, lo: nat, mid: nat, hi: nat, column: nat)
    requires PlanWithin(a, lo, mid, column) && PlanOrdered(a)
    requires PlanWithin(b, mid, hi, column) && PlanOrdered(b)
    requires lo <= mid <= hi
    ensures PlanWithin(a + b, lo, hi, column) && PlanOrdered(a + b)
  {
    forall i | 0 <= i < |a + b|
      ensures lo <= (a + b)[i].firstRow < (a + b)[i].lastRow < hi && (a + b)[i].column == column
    {
      if i < |a| {
        assert (a + b)[i] == a[i];
      } else {
        assert (a + b)[i] == b[i - |a|];
      }
    }
    forall i, j | 0 <= i < j < |a + b|
      ensures (a + b)[i].lastRow < (a + b)[j].firstRow
    {
      if j < |a| {
      } else if i >= |a| {
        assert (a + b)[i] == b[i - |a|] && (a + b)[j] == b[j - |a|];
      } else {
        assert (a + b)[j] == b[j - |a|];
      }
    }
  }

  /** All rows appended from `start` are covered by the groups, so every merge lies within them. */
  lemma MergesWithinAppended(data: seq<seq<string>>, start: nat, column: nat)
    ensures var keys := Keys(data);
            PlanWithin(MergePlan(keys, GroupOrder(keys), start, column), start, start + |data|, column)
            && PlanOrdered(MergePlan(keys, GroupOrder(keys), start, column))
  {
    var keys := Keys(data);
    GroupsTile(keys);
    MergePlanBounds(keys, GroupOrder(keys), start, column);
    assert start + Offset(keys, GroupOrder(keys)) == start + |data|;
  }

  /** Every row the merge `m` covers is one of the rows from `start`, and holds the key of its first row. */
  predicate SameKeyIn(m: MergeRange, keys: seq<string>, start: nat) {
    start <= m.firstRow && m.lastRow < start + |keys|
    && forall t :: m.firstRow - start <= t <= m.lastRow - start ==> keys[t] == keys[m.firstRow - start]
  }

  /** No merge of the plan covers rows of two different keys. */
  predicate SameKeyThroughout(plan: seq<MergeRange>, keys: seq<string>, start: nat) {
    forall i :: 0 <= i < |plan| ==> SameKeyIn(plan[i], keys, start)
  }

  /**
   * The group loop assumes each Epic's rows are consecutive. Rows with Epics A, B, A make
   * group A two rows long, so it merges rows 1 and 2, and row 2 holds B.
   */
  lemma MergeSpansOtherEpic()
    ensures var keys := ["A", "B", "A"];
            MergePlan(keys, GroupOrder(keys), 1, 1) == [MergeRange(1, 2, 1)]
            && !SameKeyThroughout(MergePlan(keys, GroupOrder(keys), 1, 1), keys, 1)
  {
    var keys := ["A", "B", "A"];
    var ab := keys[..2];
    assert ab == ["A", "B"] && ab[..1] == ["A"] && ["A"][..0] == [];
    assert GroupOrder(["A"]) == ["A"];
    assert GroupOrder(ab) == ["A", "B"];
    assert GroupOrder(keys) == ["A", "B"];
    assert Occurrences(["A"], "A") == 1;
    assert Occurrences(ab, "A") == 1;
    assert Occurrences(keys, "A") == 2;
    assert ["A", "B"][..1] == ["A"];
    assert MergePlan(keys, ["A"], 1, 1) == [MergeRange(1, 2, 1)];
    assert Occurrences(["A"], "B") == 0;
    assert Occurrences(ab, "B") == 1;
    assert Occurrences(keys, "B") == 1;
    var plan := MergePlan(keys, GroupOrder(keys), 1, 1);
    assert plan == [MergeRange(1, 2, 1)];
    assert keys[1] != keys[0];
    assert !SameKeyIn(plan[0], keys, 1);
  }

  /** How many rows from the first share its key: the length of the first run. */
  function RunLength(keys: seq<string>): (n: nat)
    requires keys != []
    ensures 1 <= n <= |keys|
    decreases |keys|
  {
    if |keys| == 1 || keys[1] != keys[0] then 1 else 1 + RunLength(keys[1..])
  }

  /** A run is exactly the leading rows that share the first key. */
  lemma {:induction false} RunLengthSpec(keys: seq<string>)
    requires keys != []
    ensures forall t :: 0 <= t < RunLength(keys) ==> keys[t] == keys[0]
    ensures RunLength(keys) == |keys| || keys[RunLength(keys)] != keys[0]
    decreases |keys|
  {
    if |keys| > 1 && keys[1] == keys[0] {
      RunLengthSpec(keys[1..]);
    }
  }

  /** Any `m` leading rows sharing the first key, followed by the end or another key, are the run. */
  lemma RunLengthIs(keys: seq<string>, m: nat)
    requires 1 <= m <= |keys|
    requires forall t :: 0 <= t < m ==> keys[t] == keys[0]
    requires m == |keys| || keys[m] != keys[0]
    ensures RunLength(keys) == m
  {
    RunLengthSpec(keys);
  }

  /**
   * The corrected merges: one per run of two or more consecutive rows with the same key,
   * the rows numbered from `start`.
   */
  function Runs(keys: seq<string>, start: nat, column: nat): seq<MergeRange>
    decreases |keys|
  {
    if keys == [] then []
    else
      var n := RunLength(keys);
      RunMerge(start, n, column)
      + Runs(keys[n..], start + n, column)
  }

  /** A merge among the rows after the first `n` keeps its keys when those rows are put back. */
  lemma SameKeyShift(m: MergeRange, keys: seq<string>, n: nat, start: nat)
    requires n <= |keys|
    requires SameKeyIn(m, keys[n..], start + n)
    ensures SameKeyIn(m, keys, start)
  {
    forall t | m.firstRow - start <= t <= m.lastRow - start
      ensures keys[t] == keys[m.firstRow - start]
    {
      assert keys[n..][t - n] == keys[t];
      assert keys[n..][m.firstRow - (start + n)] == keys[m.firstRow - start];
    }
  }

  lemma SameKeyConcat(a: seq<MergeRange>, b: seq<MergeRange>, keys: seq<string>, n: nat, start: nat)
    requires n <= |keys|
    requires SameKeyThroughout(a, keys, start)
    requires SameKeyThroughout(b, keys[n..], start + n)
    ensures SameKeyThroughout(a + b, keys, start)
  {
    forall i | 0 <= i < |a + b|
      ensures SameKeyIn((a + b)[i], keys, start)
    {
      if i >= |a| {
        assert (a + b)[i] == b[i - |a|];
        SameKeyShift(b[i - |a|], keys, n, start);
      }
    }
  }

  /** One run, then the rest: how `Runs` unfolds. */
  lemma RunsUnfold(keys: seq<string>, start: nat, column: nat)
    requires keys != []
    ensures var n := RunLength(keys);
            Runs(keys, start, column)
            == RunMerge(start, n, column) + Runs(keys[n..], start + n, column)
  {
  }

  /** The corrected merges stay within the rows and do not overlap. */
  lemma {:induction false} RunsWithin(keys: seq<string>, start: nat, column: nat)
    ensures PlanWithin(Runs(keys, start, column), start, start + |keys|, column)
    ensures PlanOrdered(Runs(keys, start, column))
    decreases |keys|
  {
    if keys != [] {
      var n := RunLength(keys);
      var head := RunMerge(start, n, column);
      RunsWithin(keys[n..], start + n, column);
      RunsUnfold(keys, start, column);
      PlanConcat(head, Runs(keys[n..], start + n, column), start, start + n, start + |keys|, column);
    }
  }

  /** The corrected merges never cover a row of another key. */
  lemma {:induction false} RunsSameKey(keys: seq<string>, start: nat, column: nat)
    ensures SameKeyThroughout(Runs(keys, start, column), keys, start)
    decreases |keys|
  {
    if keys != [] {
      var n := RunLength(keys);
      RunLengthSpec(keys);
      var head := RunMerge(start, n, column);
      RunsSameKey(keys[n..], start + n, column);
      RunsUnfold(keys, start, column);
      SameKeyConcat(head, Runs(keys[n..], start + n, column), keys, n, start);
    }
  }

  /** Rows `i` to `j - 1` form a run: the corrected merges from `i` are its merge, then those from `j`. */
  lemma RunsStep(keys: seq<string>, i: nat, j: nat, start: nat, column: nat)
    requires i < j <= |keys|
    requires forall t :: i <= t < j ==> keys[t] == keys[i]
    requires j == |keys| || keys[j] != keys[i]
    ensures Runs(keys[i..], start + i, column)
            == RunMerge(start + i, j - i, column) + Runs(keys[j..], start + j, column)
  {
    RunLengthIs(keys[i..], j - i);
    assert keys[i..][j - i..] == keys[j..];
    RunsUnfold(keys[i..], start + i, column);
  }

  /** Scans forward from row `i` to the first row with another key: the end of the run at `i`. */
  method RunEnd(keys: seq<string>, i: nat) returns (j: nat)
    requires i < |keys|
    ensures i < j <= |keys|
    ensures forall t :: i <= t < j ==> keys[t] == keys[i]
    ensures j == |keys| || keys[j] != keys[i]
  {
    j := i + 1;
    while j < |keys| && keys[j] == keys[i]
      invariant i < j <= |keys|
      invariant forall t :: i <= t < j ==> keys[t] == keys[i]
    {
      j := j + 1;
    }
  }

  /** The loop's step: issuing the run's merge moves the remaining merges past the run. */
  lemma RunsAdvance(done: seq<MergeRange>, keys: seq<string>, i: nat, j: nat, start: nat, column: nat, total: seq<MergeRange>)
    requires i < j <= |keys|
    requires forall t :: i <= t < j ==> keys[t] == keys[i]
    requires j == |keys| || keys[j] != keys[i]
    requires done + Runs(keys[i..], start + i, column) == total
    ensures (done + RunMerge(start + i, j - i, column)) + Runs(keys[j..], start + j, column) == total
  {
    RunsStep(keys, i, j, start, column);
    var run := RunMerge(start + i, j - i, column);
    var rest := Runs(keys[j..], start + j, column);
    assert (done + run) + rest == done + (run + rest);
  }

  /** Some merge of the plan covers both `row` and the row after it. */
  predicate Joined(plan: seq<MergeRange>, row: nat) {
    exists i :: 0 <= i < |plan| && plan[i].firstRow <= row < plan[i].lastRow
  }

  /** Rows `t` and `t + 1` of a run end up in the same corrected merge. */
  lemma {:induction false} RunsJoinAt(keys: seq<string>, start: nat, column: nat, t: nat)
    requires t < |keys| - 1 && keys[t] == keys[t + 1]
    ensures Joined(Runs(keys, start, column), start + t)
    decreases |keys|
  {
    var n := RunLength(keys);
    RunLengthSpec(keys);
    var head := RunMerge(start, n, column);
    var tail := Runs(keys[n..], start + n, column);
    RunsUnfold(keys, start, column);
    if t + 1 < n {
      assert Runs(keys, start, column)[0] == MergeRange(start, start + n - 1, column);
    } else {
      assert n <= t;
      assert keys[n..][t - n] == keys[t] && keys[n..][t - n + 1] == keys[t + 1];
      RunsJoinAt(keys[n..], start + n, column, t - n);
      var j :| 0 <= j < |tail| && tail[j].firstRow <= start + n + (t - n) < tail[j].lastRow;
      assert Runs(keys, start, column)[|head| + j] == tail[j];
    }
  }

  /** Nothing is missed: any two neighbouring rows with the same key end up in one merge. */
  lemma RunsJoinNeighbours(keys: seq<string>, start: nat, column: nat)
    ensures forall t :: 0 <= t < |keys| - 1 && keys[t] == keys[t + 1] ==> Joined(Runs(keys, start, column), start + t)
  {
    forall t | 0 <= t < |keys| - 1 && keys[t] == keys[t + 1] {
      RunsJoinAt(keys, start, column, t);
    }
  }

  // ---------------------------------------------------------------------
  // The worksheet and the client
  // ---------------------------------------------------------------------

  /** A worksheet: its rows of cells, and the merges issued on it. */
  class Worksheet {
    var rows: seq<seq<string>>
    var merges: seq<MergeRange>

    constructor (rows: seq<seq<string>>)
      ensures this.rows == rows && merges == []
    {
      this.rows := rows;
      merges := [];
    }

    /** `append_rows`: the new rows go after the last one. */
    method AppendRows(data: seq<seq<string>>)
      modifies this
      ensures rows == old(rows) + data && merges == old(merges)
    {
      rows := rows + data;
    }

    /** Merges one range of cells: the merge is recorded after those issued before it. */
    method MergeCells(range: MergeRange)
      modifies this
      ensures merges == old(merges) + [range] && rows == old(rows)
    {
      merges := merges + [range];
    }

    /** Merges the column over every run of two or more consecutive rows with the same key. */
    method MergeRuns(keys: seq<string>, startRow: nat, column: nat)
      modifies this
      ensures rows == old(rows) && merges == old(merges) + Runs(keys, startRow, column)
    {
      var i := 0;
      while i < |keys|
        invariant 0 <= i <= |keys|
        invariant rows == old(rows)
        invariant merges + Runs(keys[i..], startRow + i, column) == old(merges) + Runs(keys, startRow, column)
        decreases |keys| - i
      {
        var j := RunEnd(keys, i);
        RunsAdvance(merges, keys, i, j, startRow, column, old(merges) + Runs(keys, startRow, column));
        if j - i > 1 {
          merges := merges + [MergeRange(startRow + i, startRow + j - 1, column)];
        } else {
          assert merges + [] == merges;
        }
        i := j;
      }
    }
  }

  /** What the client raises. */
  datatype SheetsError = WorksheetNotFound(name: string)

  /** `GoogleSheetsClient`: the spreadsheet's worksheets by name. */
  class GoogleSheetsClient {
    var worksheets: map<string, Worksheet>

    constructor (worksheets: map<string, Worksheet>)
      ensures this.worksheets == worksheets
    {
      this.worksheets := worksheets;
    }

    /**
     * `get_existing_epics`: a missing worksheet, or a column number below 1 (which the
     * library refuses), is caught and reads as no Epics.
     */
    method GetExistingEpics(name: string, column: nat) returns (epics: seq<string>)
      ensures name !in worksheets || column == 0 ==> epics == []
      ensures name in worksheets && column >= 1 ==> epics == ExistingEpics(ColValues(worksheets[name].rows, column))
    {
      if name !in worksheets || column == 0 {
        return [];
      }
      var worksheet := worksheets[name];
      var allEpics := ColValues(worksheet.rows, column);
      epics := ExistingEpics(allEpics);
    }

    /**
     * `append_and_merge_data`: append the rows after the last used row, then walk the
     * groups in order of first appearance, moving the cursor by each group's size and
     * merging the column over the group's rows when it has more than one.
     */
    method AppendAndMergeData(name: string, data: seq<seq<string>>, column: nat)
      returns (r: Result<nat, SheetsError>)
      modifies if name in worksheets then {worksheets[name]} else {}
      ensures name !in worksheets <==> r.Failure?
      ensures r.Failure? ==> r.error == WorksheetNotFound(name)
      ensures name in worksheets ==>
        var ws := worksheets[name];
        var start := |old(ws.rows)| + 1;
        var keys := Keys(data);
        r == Success(|data|)
        && ws.rows == old(ws.rows) + data
        && ws.merges == old(ws.merges) + MergePlan(keys, GroupOrder(keys), start, column)
    {
      if name !in worksheets {
        return Failure(WorksheetNotFound(name));
      }
      var worksheet := worksheets[name];
      var startRow := |worksheet.rows| + 1;
      if data == [] {
        return Success(0);
      }
      worksheet.AppendRows(data);
      var keys := Keys(data);
      var groups := GroupOrder(keys);
      var currentRow := startRow;
      for g := 0 to |groups|
        invariant currentRow == startRow + Offset(keys, groups[..g])
        invariant worksheet.rows == old(worksheet.rows) + data
        invariant worksheet.merges == old(worksheet.merges) + MergePlan(keys, groups[..g], startRow, column)
      {
        assert groups[..g + 1][..g] == groups[..g];
        var numRowsInGroup := Occurrences(keys, groups[g]);
        if numRowsInGroup > 1 {
          var endRow := currentRow + numRowsInGroup - 1;
          worksheet.MergeCells(MergeRange(currentRow, endRow, column));
        }
        currentRow := currentRow + numRowsInGroup;
      }
      assert groups[..|groups|] == groups;
      r := Success(|data|);
    }

    /**
     * `append_and_merge_data` as evidently intended: append the rows, then walk them in
     * order and merge the column over every run of consecutive rows with the same Epic.
     */
    method AppendAndMergeRuns(name: string, data: seq<seq<string>>, column: nat)
      returns (r: Result<nat, SheetsError>)
      modifies if name in worksheets then {worksheets[name]} else {}
      ensures name !in worksheets <==> r.Failure?
      ensures r.Failure? ==> r.error == WorksheetNotFound(name)
      ensures name in worksheets ==>
        var ws := worksheets[name];
        r == Success(|data|)
        && ws.rows == old(ws.rows) + data
        && ws.merges == old(ws.merges) + Runs(Keys(data), |old(ws.rows)| + 1, column)
    {
      if name !in worksheets {
        return Failure(WorksheetNotFound(name));
      }
      var worksheet := worksheets[name];
      var startRow := |worksheet.rows| + 1;
      if data == [] {
        return Success(0);
      }
      worksheet.AppendRows(data);
      worksheet.MergeRuns(Keys(data), startRow, column);
      r := Success(|data|);
    }
  }
}
