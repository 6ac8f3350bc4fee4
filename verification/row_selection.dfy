/**
 * Which rows `getdata` scrapes next: the first 50 rows on a first run (no `date` column),
 * else the rows never scraped (missing date), at most 50 of them, else the 50 rows whose
 * date is oldest. Dates are written as `%Y-%m-%d %H:%M`, so comparing them as strings
 * compares them in time.
 */
module RowSelection {
  import opened Wrappers
  import opened Text
  import opened Frames

  /** The batch size: `df[:50]` */
  const BatchSize: nat := 50
  const DateColumn: string := "date"

  function Min(a: nat, b: nat): nat {
    if a <= b then a else b
  }

  predicate Increasing(r: seq<nat>) {
    forall i, j :: 0 <= i < j < |r| ==> r[i] < r[j]
  }

  predicate Distinct(r: seq<nat>) {
    forall i, j :: 0 <= i < j < |r| ==> r[i] != r[j]
  }

  /** There is a date column and no row's date is NaN. */
  predicate AllDated(f: Frame) {
    DateColumn in f.columns &&
    forall b :: 0 <= b < |f.columns[DateColumn]| ==> f.columns[DateColumn][b].Some?
  }

  /** Row `b` has a date column cell that is NaN: `pd.isna(x)` */
  predicate Missing(f: Frame, b: nat) {
    DateColumn in f.columns && b < |f.columns[DateColumn]| && f.columns[DateColumn][b].None?
  }

  /** The positions of the rows with a missing date, in roster order: `df[natvalues]`. */
  method MissingRows(dates: seq<Cell>) returns (idx: seq<nat>)
    ensures Increasing(idx)
    ensures forall j :: 0 <= j < |idx| ==> idx[j] < |dates| && dates[idx[j]].None?
    ensures forall b :: 0 <= b < |dates| && dates[b].None? ==> b in idx
  {
    idx := [];
    var b := 0;
    while b < |dates|
      invariant 0 <= b <= |dates|
      invariant Increasing(idx)
      invariant forall j :: 0 <= j < |idx| ==> idx[j] < b && dates[idx[j]].None?
      invariant forall c :: 0 <= c < b && dates[c].None? ==> c in idx
    {
      if dates[b].None? {
        idx := idx + [b];
      }
      b := b + 1;
    }
  }

  /** The row positions `0, 1, ..., n - 1`. */
  function Range(n: nat): (r: seq<nat>)
    ensures |r| == n
    ensures forall j :: 0 <= j < n ==> r[j] == j
  {
    seq(n, j => j)
  }

  /* Sorting row positions by their date, ascending. */

  predicate InRange(l: seq<nat>, n: nat) {
    forall j :: 0 <= j < |l| ==> l[j] < n
  }

  /** Pairwise ascending by key. */
  predicate SortedBy(l: seq<nat>, keys: seq<string>)
    requires InRange(l, |keys|)
  {
    forall i, j :: 0 <= i < j < |l| ==> LexLe(keys[l[i]], keys[l[j]])
  }

  /** A key no larger than the head of a sorted list is no larger than any of its elements. */
  lemma BelowHead(x: nat, l: seq<nat>, keys: seq<string>)
    requires x < |keys| && InRange(l, |keys|) && SortedBy(l, keys)
    requires |l| > 0 && LexLe(keys[x], keys[l[0]])
    ensures forall j :: 0 <= j < |l| ==> LexLe(keys[x], keys[l[j]])
  {
    forall j | 0 < j < |l|
      ensures LexLe(keys[x], keys[l[j]])
    {
      LexLeTransitive(keys[x], keys[l[0]], keys[l[j]]);
    }
  }

  /** Every element of `rest` comes from `l[1..]` or is `x`, all of which the head of `l` is below. */
  lemma HeadBelowRest(x: nat, l: seq<nat>, rest: seq<nat>, keys: seq<string>)
    requires x < |keys| && InRange(l, |keys|) && SortedBy(l, keys) && InRange(rest, |keys|)
    requires |l| > 0 && LexLe(keys[l[0]], keys[x])
    requires multiset(rest) == multiset(l[1..]) + multiset{x}
    ensures forall j :: 0 <= j < |rest| ==> LexLe(keys[l[0]], keys[rest[j]])
  {
    forall j | 0 <= j < |rest|
      ensures LexLe(keys[l[0]], keys[rest[j]])
    {
      assert rest[j] in multiset(rest);
      if rest[j] != x {
        assert rest[j] in multiset(l[1..]);
        var p :| 0 <= p < |l[1..]| && l[1..][p] == rest[j];
        assert l[p + 1] == rest[j];
      }
    }
  }

  /** A sorted list headed by an element below all of it stays sorted. */
  lemma ConsSorted(h: nat, rest: seq<nat>, keys: seq<string>)
    requires h < |keys| && InRange(rest, |keys|) && SortedBy(rest, keys)
    requires forall j :: 0 <= j < |rest| ==> LexLe(keys[h], keys[rest[j]])
    ensures InRange([h] + rest, |keys|) && SortedBy([h] + rest, keys)
  {
    var r := [h] + rest;
    forall i, j | 0 <= i < j < |r|
      ensures LexLe(keys[r[i]], keys[r[j]])
    {
      assert r[j] == rest[j - 1];
      if i > 0 {
        assert r[i] == rest[i - 1];
      }
    }
  }

  /** Putting `h` in front of a duplicate-free list that lacks it keeps it duplicate-free. */
  lemma ConsDistinct(h: nat, rest: seq<nat>)
    requires Distinct(rest) && h !in multiset(rest)
    ensures Distinct([h] + rest)
  {
    var r := [h] + rest;
    forall i, j | 0 <= i < j < |r|
      ensures r[i] != r[j]
    {
      assert r[j] == rest[j - 1];
      assert r[j] in multiset(rest);
      if i > 0 {
        assert r[i] == rest[i - 1];
      }
    }
  }

  /** The head of a duplicate-free list does not occur in its tail. */
  lemma HeadNotInTail(l: seq<nat>)
    requires |l| > 0 && Distinct(l)
    ensures l[0] !in multiset(l[1..])
  {
  }

  /** Inserts `x` in front of the first element whose key is not smaller. */
  function Insert(x: nat, l: seq<nat>, keys: seq<string>): (r: seq<nat>)
    requires x < |keys| && InRange(l, |keys|) && SortedBy(l, keys)
    ensures InRange(r, |keys|) && SortedBy(r, keys)
    ensures multiset(r) == multiset(l) + multiset{x}
    ensures Distinct(l) && x !in multiset(l) ==> Distinct(r)
  {
    if |l| == 0 then [x]
    else if LexLe(keys[x], keys[l[0]]) then
      BelowHead(x, l, keys);
      ConsSorted(x, l, keys);
      if Distinct(l) && x !in multiset(l) then ConsDistinct(x, l); [x] + l else [x] + l
    else
      LexLeTotal(keys[x], keys[l[0]]);
      assert l == [l[0]] + l[1..];
      assert multiset(l) == multiset{l[0]} + multiset(l[1..]);
      var rest := Insert(x, l[1..], keys);
      HeadBelowRest(x, l, rest, keys);
      ConsSorted(l[0], rest, keys);
      if Distinct(l) && x !in multiset(l) then
        HeadNotInTail(l);
        ConsDistinct(l[0], rest);
        [l[0]] + rest
      else [l[0]] + rest
  }

  /** Stable insertion sort of row positions by key. */
  function Sort(l: seq<nat>, keys: seq<string>): (r: seq<nat>)
    requires InRange(l, |keys|)
    ensures InRange(r, |keys|) && SortedBy(r, keys)
    ensures multiset(r) == multiset(l)
    ensures Distinct(l) ==> Distinct(r)
  {
    if |l| == 0 then []
    else
      assert l == [l[0]] + l[1..];
      assert multiset(l) == multiset{l[0]} + multiset(l[1..]);
      var rest := Sort(l[1..], keys);
      if Distinct(l) then
        HeadNotInTail(l);
        assert Distinct(l[1..]) by {
          forall i, j | 0 <= i < j < |l[1..]| ensures l[1..][i] != l[1..][j] {
            assert l[1..][i] == l[i + 1] && l[1..][j] == l[j + 1];
          }
        }
        assert l[0] !in multiset(rest);
        Insert(l[0], rest, keys)
      else Insert(l[0], rest, keys)
  }

  /** A row left out of the first `m` of a sorted permutation of all rows sits after them. */
  lemma LeftOutIsLater(keys: seq<string>, sorted: seq<nat>, m: nat, a: nat, b: nat)
    requires InRange(sorted, |keys|) && SortedBy(sorted, keys)
    requires multiset(sorted) == multiset(Range(|keys|))
    requires m <= |sorted| && a < m && b < |keys| && b !in sorted[..m]
    ensures LexLe(keys[sorted[a]], keys[b])
  {
    assert Range(|keys|)[b] == b;
    assert b in multiset(sorted);
    var p :| 0 <= p < |sorted| && sorted[p] == b;
  }

  /**
   * `df.sort_values(by='date')[:50]` on a roster where every row has a date: the `m`
   * (or all, if fewer) oldest rows, oldest first, each once, and no row left out is
   * older than a row taken.
   */
  function Oldest(keys: seq<string>, m: nat): (r: seq<nat>)
    ensures |r| == Min(m, |keys|) && InRange(r, |keys|) && Distinct(r)
    ensures forall i, j :: 0 <= i < j < |r| ==> LexLe(keys[r[i]], keys[r[j]])
    ensures forall a, b :: 0 <= a < |r| && 0 <= b < |keys| && b !in r ==> LexLe(keys[r[a]], keys[b])
  {
    var all := Range(|keys|);
    assert Distinct(all);
    var sorted := Sort(all, keys);
    assert |sorted| == |keys| by {
      assert |multiset(sorted)| == |multiset(all)|;
    }
    var n := Min(m, |keys|);
    var r := sorted[..n];
    forall a, b | 0 <= a < |r| && 0 <= b < |keys| && b !in r
      ensures LexLe(keys[r[a]], keys[b])
    {
      LeftOutIsLater(keys, sorted, n, a, b);
    }
    r
  }

  /** The dates of a roster in which no row has a missing date. */
  function DateKeys(dates: seq<Cell>): (keys: seq<string>)
    requires forall b :: 0 <= b < |dates| ==> dates[b].Some?
    ensures |keys| == |dates|
    ensures forall b :: 0 <= b < |dates| ==> dates[b] == Some(keys[b])
  {
    seq(|dates|, b requires 0 <= b < |dates| => dates[b].value)
  }

  /** First run: the first rows, in roster order. */
  predicate LeadingRows(f: Frame, rows: seq<nat>) {
    |rows| == Min(BatchSize, f.height) && forall j :: 0 <= j < |rows| ==> rows[j] == j
  }

  /**
   * Rows never scraped come first: the selection is the earliest rows with a missing
   * date, in roster order, as many as there are up to the batch size.
   */
  predicate EarliestMissing(f: Frame, rows: seq<nat>) {
    && |rows| > 0
    && Increasing(rows)
    && (forall j :: 0 <= j < |rows| ==> Missing(f, rows[j]))
    && (|rows| == BatchSize || forall b :: 0 <= b < f.height && Missing(f, b) ==> b in rows)
    && (forall b, j :: 0 <= b < f.height && Missing(f, b) && b !in rows && 0 <= j < |rows| ==> rows[j] < b)
  }

  /**
   * Refresh oldest first: as many rows as the batch holds, ordered by date, and no row
   * left out has an older date than a row taken.
   */
  predicate OldestFirst(f: Frame, rows: seq<nat>)
    requires f.Valid() && AllDated(f) && InRange(rows, f.height)
  {
    var dates := f.columns[DateColumn];
    && |rows| == Min(BatchSize, f.height)
    && (forall i, j :: 0 <= i < j < |rows| ==> LexLe(dates[rows[i]].value, dates[rows[j]].value))
    && (forall a, b :: 0 <= a < |rows| && 0 <= b < f.height && b !in rows ==>
          LexLe(dates[rows[a]].value, dates[b].value))
  }

  /** The first of the rows with a missing date, capped at the batch size. */
  lemma TakeMissing(f: Frame, missing: seq<nat>)
    requires f.Valid() && DateColumn in f.columns && |missing| > 0
    requires Increasing(missing)
    requires forall j :: 0 <= j < |missing| ==> missing[j] < f.height && Missing(f, missing[j])
    requires forall b :: 0 <= b < f.height && Missing(f, b) ==> b in missing
    ensures var rows := missing[..Min(BatchSize, |missing|)];
      InRange(rows, f.height) && Distinct(rows) && EarliestMissing(f, rows)
  {
    var rows := missing[..Min(BatchSize, |missing|)];
    forall b, j | 0 <= b < f.height && Missing(f, b) && b !in rows && 0 <= j < |rows|
      ensures rows[j] < b
    {
      var p :| 0 <= p < |missing| && missing[p] == b;
      assert p >= |rows|;
      assert rows[j] == missing[j];
    }
  }

  /** The oldest rows of a roster where every row has a date. */
  function OldestRows(f: Frame): (rows: seq<nat>)
    requires f.Valid() && AllDated(f)
    ensures InRange(rows, f.height) && Distinct(rows) && OldestFirst(f, rows)
  {
    var dates := f.columns[DateColumn];
    var keys := DateKeys(dates);
    var rows := Oldest(keys, BatchSize);
    assert forall b :: 0 <= b < |dates| ==> dates[b].value == keys[b];
    rows
  }

  /** The rows `getdata` scrapes this run, as row positions in the order they are scraped. */
  method SelectRows(f: Frame) returns (rows: seq<nat>)
    requires f.Valid()
    ensures |rows| <= BatchSize && InRange(rows, f.height) && Distinct(rows)
    ensures DateColumn !in f.columns ==> LeadingRows(f, rows)
    ensures (exists b :: 0 <= b < f.height && Missing(f, b)) ==> EarliestMissing(f, rows)
    ensures AllDated(f) ==> OldestFirst(f, rows)
  {
    if DateColumn !in f.columns {
      rows := Range(Min(BatchSize, f.height));
      return;
    }
    var dates := f.columns[DateColumn];
    assert |dates| == f.height;
    var missing := MissingRows(dates);
    if |missing| > 0 {
      assert !AllDated(f) by {
        assert dates[missing[0]].None?;
      }
      TakeMissing(f, missing);
      if |missing| > BatchSize {
        rows := missing[..BatchSize];
      } else {
        assert missing[..|missing|] == missing;
        rows := missing;
      }
    } else {
      assert AllDated(f);
      rows := OldestRows(f);
    }
  }
}
