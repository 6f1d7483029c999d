/**
 * The aggregates behind the dashboard's panels: per-key visit counts
 * (`groupby(key)['totals.transactionRevenue'].agg(['count'])`), per-key
 * purchase counts (the same over the rows whose revenue is positive), and
 * the order in which a panel shows them.
 */
module Aggregates {
  import opened Wrappers
  import opened Digits
  import opened Table
  import opened Dates
  import opened Normalizer

  const REVENUE := "totals.transactionRevenue"

  // ---------------------------------------------------------------------------
  // Group keys and their order.
  // ---------------------------------------------------------------------------

  /** A hashable cell value used as a group label. */
  datatype Key = NumKey(n: int) | StrKey(s: string)

  /**
   * The group a cell falls in: a number or a text labels its own group; a
   * missing cell falls in none (`dropna=True`), and neither does a nested
   * object, which cannot be hashed (grouping by it raises, see `GroupError`).
   */
  function KeyOf(v: Value): (r: Option<Key>)
    ensures r.None? <==> v.Missing? || v.Object?
    ensures r.Some? ==> (r.value.NumKey? <==> v.Number?)
  {
    match v
    case Number(n) => Some(NumKey(n))
    case Str(s) => Some(StrKey(s))
    case _ => None
  }

  /** Two cells share a group only when they hold the same value. */
  lemma KeyOfInjective(v: Value, w: Value)
    requires KeyOf(v).Some? && KeyOf(v) == KeyOf(w)
    ensures v == w
  {
  }

  /**
   * The order of the group labels: numbers by value, strings by code point,
   * and numbers before strings in a column that mixes both.
   */
  predicate KeyLess(a: Key, b: Key)
  {
    match (a, b)
    case (NumKey(x), NumKey(y)) => x < y
    case (NumKey(_), StrKey(_)) => true
    case (StrKey(_), NumKey(_)) => false
    case (StrKey(x), StrKey(y)) => StrLess(x, y)
  }

  lemma KeyLessIrreflexive(a: Key)
    ensures !KeyLess(a, a)
  {
    if a.StrKey? {
      StrLessIrreflexive(a.s);
    }
  }

  lemma KeyLessTransitive(a: Key, b: Key, c: Key)
    requires KeyLess(a, b) && KeyLess(b, c)
    ensures KeyLess(a, c)
  {
    if a.StrKey? && b.StrKey? && c.StrKey? {
      StrLessTransitive(a.s, b.s, c.s);
    }
  }

  lemma KeyLessTotal(a: Key, b: Key)
    requires a != b
    ensures KeyLess(a, b) || KeyLess(b, a)
  {
    if a.StrKey? && b.StrKey? {
      StrLessTotal(a.s, b.s);
    }
  }

  predicate Ascending(s: seq<Key>)
  {
    forall i, j :: 0 <= i < j < |s| ==> KeyLess(s[i], s[j])
  }

  predicate Distinct(s: seq<Key>)
  {
    forall i, j :: 0 <= i < j < |s| ==> s[i] != s[j]
  }

  lemma AscendingDistinct(s: seq<Key>)
    requires Ascending(s)
    ensures Distinct(s)
  {
    forall i, j | 0 <= i < j < |s|
      ensures s[i] != s[j]
    {
      KeyLessIrreflexive(s[i]);
    }
  }

  /** Adding a label to an ascending list of labels, as the group index grows. */
  function Insert(keys: seq<Key>, k: Key): (r: seq<Key>)
    requires Ascending(keys)
    ensures Ascending(r)
    ensures forall x :: x in r <==> x in keys || x == k
  {
    if keys == [] then [k]
    else if k == keys[0] then keys
    else if KeyLess(k, keys[0]) then
      assert forall j :: 0 <= j < |keys| ==> KeyLess(k, keys[j]) by {
        forall j | 0 <= j < |keys|
          ensures KeyLess(k, keys[j])
        {
          if j > 0 {
            KeyLessTransitive(k, keys[0], keys[j]);
          }
        }
      }
      [k] + keys
    else
      var rest := Insert(keys[1..], k);
      KeyLessTotal(k, keys[0]);
      assert forall x :: x in rest ==> KeyLess(keys[0], x) by {
        forall x | x in rest
          ensures KeyLess(keys[0], x)
        {
          if x != k {
            var j :| 1 <= j < |keys| && keys[j] == x;
          }
        }
      }
      var r := [keys[0]] + rest;
      assert forall j :: 1 <= j < |r| ==> r[j] == rest[j - 1];
      r
  }

  // ---------------------------------------------------------------------------
  // What `count` counts, row by row.
  // ---------------------------------------------------------------------------

  /** `count` counts the non-missing values of the aggregated column. */
  predicate Counted(v: Value)
  {
    !v.Missing?
  }

  /** A row that adds one to the count of group `k`. */
  predicate Hit(row: Row, g: string, k: Key)
  {
    KeyOf(Cell(row, g)) == Some(k) && Counted(Cell(row, REVENUE))
  }

  /** The count of group `k`: the rows labelled `k` whose revenue is present. */
  function CountKey(rows: seq<Row>, g: string, k: Key): (n: nat)
  {
    if rows == [] then 0
    else CountKey(rows[..|rows| - 1], g, k) + (if Hit(rows[|rows| - 1], g, k) then 1 else 0)
  }

  /** A label that no row carries has count 0. */
  lemma {:induction false} CountKeyAbsent(rows: seq<Row>, g: string, k: Key)
    requires forall row :: row in rows ==> KeyOf(Cell(row, g)) != Some(k)
    ensures CountKey(rows, g, k) == 0
  {
    if rows != [] {
      assert rows[|rows| - 1] in rows;
      CountKeyAbsent(rows[..|rows| - 1], g, k);
    }
  }

  /** The rows that fall in some group and have their revenue present. */
  function KeyedRows(rows: seq<Row>, g: string): (n: nat)
  {
    if rows == [] then 0
    else
      var last := rows[|rows| - 1];
      KeyedRows(rows[..|rows| - 1], g) +
        (if KeyOf(Cell(last, g)).Some? && Counted(Cell(last, REVENUE)) then 1 else 0)
  }

  /** The rows that fall in some group, whatever their revenue. */
  function LabelledRows(rows: seq<Row>, g: string): (n: nat)
  {
    if rows == [] then 0
    else LabelledRows(rows[..|rows| - 1], g) + (if KeyOf(Cell(rows[|rows| - 1], g)).Some? then 1 else 0)
  }

  /** The rows labelled `k`, whatever their revenue. */
  function Occurrences(rows: seq<Row>, g: string, k: Key): (n: nat)
  {
    if rows == [] then 0
    else Occurrences(rows[..|rows| - 1], g, k) + (if KeyOf(Cell(rows[|rows| - 1], g)) == Some(k) then 1 else 0)
  }

  /** Where every revenue is present, `count` counts every labelled row. */
  lemma {:induction false} AllCounted(rows: seq<Row>, g: string)
    requires forall row :: row in rows ==> Counted(Cell(row, REVENUE))
    ensures KeyedRows(rows, g) == LabelledRows(rows, g)
    ensures forall k :: CountKey(rows, g, k) == Occurrences(rows, g, k)
  {
    if rows != [] {
      var init := rows[..|rows| - 1];
      assert rows == init + [rows[|rows| - 1]];
      AllCounted(init, g);
    }
  }

  // ---------------------------------------------------------------------------
  // The group-by itself.
  // ---------------------------------------------------------------------------

  /** An aggregate as a panel plots it: a count per label and the order of the bars. */
  datatype Groups = Groups(counts: map<Key, nat>, order: seq<Key>)

  /** The sum of the counts of the given labels. */
  function Total(keys: seq<Key>, counts: map<Key, nat>): nat
    requires forall i :: 0 <= i < |keys| ==> keys[i] in counts
  {
    if keys == [] then 0 else counts[keys[0]] + Total(keys[1..], counts)
  }

  /**
   * One pass over the rows: every labelled row opens its group if it is the
   * first of its label and adds one when its revenue is present. The labels
   * come out in ascending order, as `groupby` sorts its index.
   */
  function Tally(rows: seq<Row>, g: string): (r: Groups)
    ensures Ascending(r.order)
    ensures forall k :: k in r.counts <==> k in r.order
    ensures forall k :: k in r.counts <==> exists row :: row in rows && KeyOf(Cell(row, g)) == Some(k)
    ensures forall k :: k in r.counts ==> r.counts[k] == CountKey(rows, g, k)
  {
    if rows == [] then Groups(map[], [])
    else
      var init := rows[..|rows| - 1];
      var last := rows[|rows| - 1];
      assert rows == init + [last];
      var prev := Tally(init, g);
      TallyStepCounts(init, last, g, prev);
      TallyStep(prev, last, g)
  }

  /** Adding one row: a new label is inserted in order, its count grows when revenue is present. */
  function TallyStep(prev: Groups, last: Row, g: string): Groups
    requires Ascending(prev.order)
  {
    match KeyOf(Cell(last, g))
    case None => prev
    case Some(k) =>
      var before := if k in prev.counts then prev.counts[k] else 0;
      var add := if Counted(Cell(last, REVENUE)) then 1 else 0;
      Groups(prev.counts[k := before + add], Insert(prev.order, k))
  }

  /** One step of the tally keeps the order ascending and the counts those of the rows so far. */
  lemma TallyStepCounts(init: seq<Row>, last: Row, g: string, prev: Groups)
    requires Ascending(prev.order)
    requires forall k :: k in prev.counts <==> k in prev.order
    requires forall k :: k in prev.counts <==> exists row :: row in init && KeyOf(Cell(row, g)) == Some(k)
    requires forall k :: k in prev.counts ==> prev.counts[k] == CountKey(init, g, k)
    ensures var r := TallyStep(prev, last, g);
      && Ascending(r.order)
      && (forall k :: k in r.counts <==> k in r.order)
      && (forall k :: k in r.counts <==> exists row :: row in init + [last] && KeyOf(Cell(row, g)) == Some(k))
      && (forall k :: k in r.counts ==> r.counts[k] == CountKey(init + [last], g, k))
  {
    var rows := init + [last];
    assert forall row :: row in rows <==> row in init || row == last;
    TallyStepValues(init, last, g, prev);
  }

  /** The counting half of `TallyStepCounts`. */
  lemma TallyStepValues(init: seq<Row>, last: Row, g: string, prev: Groups)
    requires Ascending(prev.order)
    requires forall k :: k in prev.counts <==> exists row :: row in init && KeyOf(Cell(row, g)) == Some(k)
    requires forall k :: k in prev.counts ==> prev.counts[k] == CountKey(init, g, k)
    ensures var r := TallyStep(prev, last, g);
      forall k :: k in r.counts ==> r.counts[k] == CountKey(init + [last], g, k)
  {
    var rows := init + [last];
    assert rows[..|rows| - 1] == init && rows[|rows| - 1] == last;
    assert forall x :: CountKey(rows, g, x) == CountKey(init, g, x) + (if Hit(last, g, x) then 1 else 0);
    var key := KeyOf(Cell(last, g));
    if key.Some? && key.value !in prev.counts {
      CountKeyAbsent(init, g, key.value);
    }
  }

  // ---------------------------------------------------------------------------
  // The counts add up to the counted rows.
  // ---------------------------------------------------------------------------

  /** The counts of the given labels, read from the rows rather than from a map. */
  function SumCounts(keys: seq<Key>, rows: seq<Row>, g: string): nat
  {
    if keys == [] then 0 else CountKey(rows, g, keys[0]) + SumCounts(keys[1..], rows, g)
  }

  /** How many of the given labels one row adds to. */
  function HitsIn(keys: seq<Key>, row: Row, g: string): nat
  {
    if keys == [] then 0 else (if Hit(row, g, keys[0]) then 1 else 0) + HitsIn(keys[1..], row, g)
  }

  lemma {:induction false} TotalIsSumCounts(keys: seq<Key>, counts: map<Key, nat>, rows: seq<Row>, g: string)
    requires forall i :: 0 <= i < |keys| ==> keys[i] in counts && counts[keys[i]] == CountKey(rows, g, keys[i])
    ensures Total(keys, counts) == SumCounts(keys, rows, g)
  {
    if keys != [] {
      TotalIsSumCounts(keys[1..], counts, rows, g);
    }
  }

  lemma {:induction false} SumCountsStep(keys: seq<Key>, rows: seq<Row>, g: string)
    requires rows != []
    ensures SumCounts(keys, rows, g) ==
      SumCounts(keys, rows[..|rows| - 1], g) + HitsIn(keys, rows[|rows| - 1], g)
  {
    if keys != [] {
      SumCountsStep(keys[1..], rows, g);
    }
  }

  /** Among distinct labels, a row adds to at most one: its own, if listed and its revenue is present. */
  lemma {:induction false} HitsInDistinct(keys: seq<Key>, row: Row, g: string)
    requires Distinct(keys)
    ensures HitsIn(keys, row, g) ==
      if KeyOf(Cell(row, g)).Some? && KeyOf(Cell(row, g)).value in keys && Counted(Cell(row, REVENUE)) then 1 else 0
  {
    if keys != [] {
      assert Distinct(keys[1..]) by {
        forall i, j | 0 <= i < j < |keys| - 1
          ensures keys[1..][i] != keys[1..][j]
        {
          assert keys[1..][i] == keys[i + 1] && keys[1..][j] == keys[j + 1];
        }
      }
      HitsInDistinct(keys[1..], row, g);
      if Hit(row, g, keys[0]) {
        assert keys[0] !in keys[1..] by {
          forall j | 0 <= j < |keys| - 1
            ensures keys[1..][j] != keys[0]
          {
            assert keys[1..][j] == keys[j + 1];
          }
        }
      }
    }
  }

  /**
   * Summed over a list of distinct labels that includes every label of the
   * rows, the counts are the number of labelled rows with revenue present.
   */
  lemma {:induction false} SumCountsCoversRows(keys: seq<Key>, rows: seq<Row>, g: string)
    requires Distinct(keys)
    requires forall row :: row in rows && KeyOf(Cell(row, g)).Some? ==> KeyOf(Cell(row, g)).value in keys
    ensures SumCounts(keys, rows, g) == KeyedRows(rows, g)
  {
    if rows == [] {
      SumCountsEmpty(keys, g);
    } else {
      var init := rows[..|rows| - 1];
      assert rows == init + [rows[|rows| - 1]];
      SumCountsCoversRows(keys, init, g);
      SumCountsStep(keys, rows, g);
      HitsInDistinct(keys, rows[|rows| - 1], g);
    }
  }

  lemma {:induction false} SumCountsEmpty(keys: seq<Key>, g: string)
    ensures SumCounts(keys, [], g) == 0
  {
    if keys != [] {
      SumCountsEmpty(keys[1..], g);
    }
  }

  /** The counts of one pass add up to the labelled rows whose revenue is present. */
  lemma TallyTotal(rows: seq<Row>, g: string)
    ensures var r := Tally(rows, g);
      (forall i :: 0 <= i < |r.order| ==> r.order[i] in r.counts) && Total(r.order, r.counts) == KeyedRows(rows, g)
  {
    var r := Tally(rows, g);
    AscendingDistinct(r.order);
    TotalIsSumCounts(r.order, r.counts, rows, g);
    SumCountsCoversRows(r.order, rows, g);
  }

  // ---------------------------------------------------------------------------
  // sort_values(by='count', ascending=False)
  // ---------------------------------------------------------------------------

  /** Every label has a count, and the counts never increase along the list. */
  predicate Ranked(s: seq<Key>, counts: map<Key, nat>)
  {
    && (forall i :: 0 <= i < |s| ==> s[i] in counts)
    && (forall i, j :: 0 <= i < j < |s| ==> counts[s[i]] >= counts[s[j]])
  }

  /** A label at least as large as every label of a ranked list can go in front of it. */
  lemma RankedCons(x: Key, s: seq<Key>, counts: map<Key, nat>)
    requires x in counts && Ranked(s, counts)
    requires forall j :: 0 <= j < |s| ==> counts[x] >= counts[s[j]]
    ensures Ranked([x] + s, counts)
  {
    var r := [x] + s;
    assert forall j :: 1 <= j < |r| ==> r[j] == s[j - 1];
  }

  /** The head of a ranked list outranks what inserting a smaller label into its tail gives. */
  lemma HeadAboveRest(k: Key, s: seq<Key>, rest: seq<Key>, counts: map<Key, nat>)
    requires s != [] && k in counts && Ranked(s, counts) && counts[k] < counts[s[0]]
    requires multiset(rest) == multiset(s[1..]) + multiset{k}
    requires forall j :: 0 <= j < |rest| ==> rest[j] in counts
    ensures forall j :: 0 <= j < |rest| ==> counts[s[0]] >= counts[rest[j]]
  {
    forall j | 0 <= j < |rest|
      ensures counts[s[0]] >= counts[rest[j]]
    {
      var x := rest[j];
      assert x in multiset(rest);
      if x != k {
        assert x in multiset(s[1..]);
        var m :| 0 <= m < |s[1..]| && s[1..][m] == x;
        assert s[m + 1] == x;
      }
    }
  }

  /** Placing one label in front of the first label whose count is not larger. */
  function InsertByCount(k: Key, s: seq<Key>, counts: map<Key, nat>): (r: seq<Key>)
    requires k in counts && Ranked(s, counts)
    ensures Ranked(r, counts)
    ensures multiset(r) == multiset(s) + multiset{k}
  {
    if s == [] then [k]
    else if counts[k] >= counts[s[0]] then
      RankedCons(k, s, counts);
      [k] + s
    else
      var rest := InsertByCount(k, s[1..], counts);
      assert s == [s[0]] + s[1..];
      HeadAboveRest(k, s, rest, counts);
      RankedCons(s[0], rest, counts);
      [s[0]] + rest
  }

  /** The bars of a count panel: all labels, largest count first, ties in label order. */
  function Rank(keys: seq<Key>, counts: map<Key, nat>): (r: seq<Key>)
    requires forall i :: 0 <= i < |keys| ==> keys[i] in counts
    ensures Ranked(r, counts)
    ensures multiset(r) == multiset(keys)
  {
    if keys == [] then []
    else
      assert keys == [keys[0]] + keys[1..];
      InsertByCount(keys[0], Rank(keys[1..], counts), counts)
  }

  lemma {:induction false} InsertByCountTotal(k: Key, s: seq<Key>, counts: map<Key, nat>)
    requires k in counts && Ranked(s, counts)
    ensures Total(InsertByCount(k, s, counts), counts) == counts[k] + Total(s, counts)
  {
    if s != [] && counts[k] < counts[s[0]] {
      var rest := InsertByCount(k, s[1..], counts);
      InsertByCountTotal(k, s[1..], counts);
      assert ([s[0]] + rest)[1..] == rest;
    } else {
      assert ([k] + s)[1..] == s;
    }
  }

  /** Reordering the bars does not change what they add up to. */
  lemma {:induction false} RankTotal(keys: seq<Key>, counts: map<Key, nat>)
    requires forall i :: 0 <= i < |keys| ==> keys[i] in counts
    ensures Total(Rank(keys, counts), counts) == Total(keys, counts)
  {
    if keys != [] {
      RankTotal(keys[1..], counts);
      InsertByCountTotal(keys[0], Rank(keys[1..], counts), counts);
    }
  }

  /** In a list without repetitions each label occurs once or not at all. */
  lemma {:induction false} DistinctMultiplicity(s: seq<Key>)
    requires Distinct(s)
    ensures forall x :: multiset(s)[x] == if x in s then 1 else 0
  {
    if s != [] {
      assert s == [s[0]] + s[1..];
      assert Distinct(s[1..]) by {
        forall i, j | 0 <= i < j < |s| - 1
          ensures s[1..][i] != s[1..][j]
        {
          assert s[1..][i] == s[i + 1] && s[1..][j] == s[j + 1];
        }
      }
      assert s[0] !in s[1..] by {
        forall j | 0 <= j < |s| - 1
          ensures s[1..][j] != s[0]
        {
          assert s[1..][j] == s[j + 1];
        }
      }
      DistinctMultiplicity(s[1..]);
    }
  }

  // ---------------------------------------------------------------------------
  // The panels' aggregates.
  // ---------------------------------------------------------------------------

  /**
   * What a count aggregate holds, whatever the order of its bars: one group
   * per label that some row carries, each counting the rows labelled with it
   * whose revenue is present, every label listed exactly once, and the counts
   * adding up to all labelled rows with revenue present.
   */
  ghost predicate Tallies(rows: seq<Row>, g: string, r: Groups)
  {
    && (forall k :: k in r.counts <==> exists row :: row in rows && KeyOf(Cell(row, g)) == Some(k))
    && (forall k :: k in r.counts ==> r.counts[k] == CountKey(rows, g, k))
    && (forall k :: multiset(r.order)[k] == if k in r.counts then 1 else 0)
    && (forall i :: 0 <= i < |r.order| ==> r.order[i] in r.counts)
    && Total(r.order, r.counts) == KeyedRows(rows, g)
  }

  /** `groupby(g)['totals.transactionRevenue']` can be aggregated. */
  predicate Groupable(t: Frame, g: string)
  {
    g in t.columns && REVENUE in t.columns && forall i :: 0 <= i < |t.rows| ==> !Cell(t.rows[i], g).Object?
  }

  /** Why it cannot: the first of the missing label, the missing revenue, an unhashable label. */
  function GroupError(t: Frame, g: string): Error
  {
    if g !in t.columns then MissingColumn(g)
    else if REVENUE !in t.columns then MissingColumn(REVENUE)
    else UnhashableKey(g)
  }

  /**
   * `df.groupby(g)['totals.transactionRevenue'].agg(['count'])`: the groups in
   * ascending label order, which is also the order the date panel plots,
   * since its `sort_index()` result is discarded.
   */
  function GroupBy(t: Frame, g: string): (r: Result<Groups, Error>)
    ensures r.Ok? <==> Groupable(t, g)
    ensures r.Err? ==> r.error == GroupError(t, g)
    ensures r.Ok? ==> Tallies(t.rows, g, r.value) && Ascending(r.value.order)
  {
    if !Groupable(t, g) then Err(GroupError(t, g))
    else
      var gr := Tally(t.rows, g);
      TallyTotal(t.rows, g);
      AscendingDistinct(gr.order);
      DistinctMultiplicity(gr.order);
      Ok(gr)
  }

  /** `sort_values(by='count', ascending=False)` on an aggregate. */
  function RankGroups(gr: Groups): (r: Groups)
    requires forall i :: 0 <= i < |gr.order| ==> gr.order[i] in gr.counts
    ensures r.counts == gr.counts
    ensures multiset(r.order) == multiset(gr.order)
    ensures Ranked(r.order, r.counts)
    ensures Total(r.order, r.counts) == Total(gr.order, gr.counts)
  {
    RankTotal(gr.order, gr.counts);
    Groups(gr.counts, Rank(gr.order, gr.counts))
  }

  /** A visit-count panel: the groups by label, largest count first. */
  function VisitCounts(t: Frame, g: string): (r: Result<Groups, Error>)
    ensures r.Ok? <==> Groupable(t, g)
    ensures r.Err? ==> r.error == GroupError(t, g)
    ensures r.Ok? ==> Tallies(t.rows, g, r.value) && Ranked(r.value.order, r.value.counts)
  {
    match GroupBy(t, g)
    case Err(e) => Err(e)
    case Ok(gr) => Ok(RankGroups(gr))
  }

  // ---------------------------------------------------------------------------
  // df[df['totals.transactionRevenue'] > 0]
  // ---------------------------------------------------------------------------

  /** A cell `> 0` can compare: a number, or missing (NaN compares false). */
  predicate Comparable(v: Value)
  {
    v.Missing? || v.Number?
  }

  predicate IsPurchase(v: Value)
  {
    v.Number? && v.n > 0
  }

  /** The rows the boolean mask keeps, in their order. */
  function PurchaseRows(rows: seq<Row>): (r: seq<Row>)
    ensures forall row :: row in r <==> row in rows && IsPurchase(Cell(row, REVENUE))
  {
    if rows == [] then []
    else
      var init := rows[..|rows| - 1];
      var last := rows[|rows| - 1];
      assert rows == init + [last];
      PurchaseRows(init) + (if IsPurchase(Cell(last, REVENUE)) then [last] else [])
  }

  /** The filter keeps each purchasing row as many times as it occurs, and no other row. */
  lemma {:induction false} PurchaseRowsMultiset(rows: seq<Row>)
    ensures forall row :: multiset(PurchaseRows(rows))[row] == if IsPurchase(Cell(row, REVENUE)) then multiset(rows)[row] else 0
  {
    if rows != [] {
      var init := rows[..|rows| - 1];
      var last := rows[|rows| - 1];
      assert rows == init + [last];
      PurchaseRowsMultiset(init);
    }
  }

  /** Filtering a concatenation filters each part and keeps them in order. */
  lemma {:induction false} PurchaseRowsConcat(a: seq<Row>, b: seq<Row>)
    ensures PurchaseRows(a + b) == PurchaseRows(a) + PurchaseRows(b)
  {
    if b == [] {
      assert a + b == a;
    } else {
      var init := b[..|b| - 1];
      var last := b[|b| - 1];
      assert (a + b)[..|a + b| - 1] == a + init;
      assert (a + b)[|a + b| - 1] == last;
      PurchaseRowsConcat(a, init);
    }
  }

  /** The rows labelled `k` whose revenue is positive. */
  function Purchasers(rows: seq<Row>, g: string, k: Key): (n: nat)
  {
    if rows == [] then 0
    else
      var last := rows[|rows| - 1];
      Purchasers(rows[..|rows| - 1], g, k) +
        (if KeyOf(Cell(last, g)) == Some(k) && IsPurchase(Cell(last, REVENUE)) then 1 else 0)
  }

  /**
   * Filtering the frame to its purchasing sessions. It fails when the revenue
   * column is absent or holds a value `> 0` cannot compare; otherwise it keeps
   * the columns and exactly the rows with positive revenue.
   */
  function Purchases(t: Frame): (r: Result<Frame, Error>)
    ensures r.Ok? <==> REVENUE in t.columns && forall i :: 0 <= i < |t.rows| ==> Comparable(Cell(t.rows[i], REVENUE))
    ensures r.Err? ==> r.error == if REVENUE !in t.columns then MissingColumn(REVENUE) else ComparisonError(REVENUE)
    ensures r.Ok? ==>
      && r.value.columns == t.columns
      && r.value.rows == PurchaseRows(t.rows)
      && (forall row :: row in r.value.rows <==> row in t.rows && IsPurchase(Cell(row, REVENUE)))
  {
    if REVENUE !in t.columns then Err(MissingColumn(REVENUE))
    else if exists i :: 0 <= i < |t.rows| && !Comparable(Cell(t.rows[i], REVENUE)) then Err(ComparisonError(REVENUE))
    else
      var rows := PurchaseRows(t.rows);
      assert forall i :: 0 <= i < |rows| ==> rows[i] in t.rows;
      Ok(Grid(t.columns, rows))
  }

  /** Counting a label among the kept rows is counting its purchasing rows. */
  lemma {:induction false} PurchaseRowsCount(rows: seq<Row>, g: string)
    ensures forall k :: CountKey(PurchaseRows(rows), g, k) == Purchasers(rows, g, k)
    ensures forall k :: Purchasers(rows, g, k) <= CountKey(rows, g, k)
  {
    if rows != [] {
      var init := rows[..|rows| - 1];
      var last := rows[|rows| - 1];
      PurchaseRowsCount(init, g);
      if IsPurchase(Cell(last, REVENUE)) {
        var kept := PurchaseRows(init) + [last];
        assert PurchaseRows(rows) == kept;
        assert kept[..|kept| - 1] == PurchaseRows(init);
      } else {
        assert PurchaseRows(rows) == PurchaseRows(init) + [] == PurchaseRows(init);
        assert forall k :: Purchasers(rows, g, k) == Purchasers(init, g, k);
      }
    }
  }

  /** A label carried by a row that it counts has a count of at least one. */
  lemma {:induction false} HitPositive(rows: seq<Row>, g: string)
    ensures forall k, row :: row in rows && Hit(row, g, k) ==> CountKey(rows, g, k) >= 1
  {
    if rows != [] {
      var init := rows[..|rows| - 1];
      assert rows == init + [rows[|rows| - 1]];
      HitPositive(init, g);
    }
  }

  /**
   * What a purchase-count aggregate holds: one group per label that some
   * purchasing row carries (no group for a label without purchases), each
   * counting that label's purchasing rows, and every label listed once.
   */
  ghost predicate PurchaseTallies(rows: seq<Row>, g: string, r: Groups)
  {
    && (forall k :: k in r.counts <==>
          exists row :: row in rows && IsPurchase(Cell(row, REVENUE)) && KeyOf(Cell(row, g)) == Some(k))
    && (forall k :: k in r.counts ==> r.counts[k] == Purchasers(rows, g, k) && r.counts[k] >= 1)
    && (forall k :: multiset(r.order)[k] == if k in r.counts then 1 else 0)
  }

  /** The filter and then the group-by can both run. */
  predicate PurchaseGroupable(t: Frame, g: string)
  {
    && REVENUE in t.columns
    && (forall i :: 0 <= i < |t.rows| ==> Comparable(Cell(t.rows[i], REVENUE)))
    && g in t.columns
    && forall i :: 0 <= i < |t.rows| && IsPurchase(Cell(t.rows[i], REVENUE)) ==> !Cell(t.rows[i], g).Object?
  }

  /** The first failure, in the order pandas evaluates the expression. */
  function PurchaseError(t: Frame, g: string): Error
  {
    if REVENUE !in t.columns then MissingColumn(REVENUE)
    else if exists i :: 0 <= i < |t.rows| && !Comparable(Cell(t.rows[i], REVENUE)) then ComparisonError(REVENUE)
    else if g !in t.columns then MissingColumn(g)
    else UnhashableKey(g)
  }

  /**
   * `df[df['totals.transactionRevenue'] > 0].groupby(g)['totals.transactionRevenue'].count()`,
   * in ascending label order, as the date panel plots it.
   */
  function PurchaseGroupBy(t: Frame, g: string): (r: Result<Groups, Error>)
    ensures r.Ok? <==> PurchaseGroupable(t, g)
    ensures r.Err? ==> r.error == PurchaseError(t, g)
    ensures r.Ok? ==> PurchaseTallies(t.rows, g, r.value) && Ascending(r.value.order)
  {
    match Purchases(t)
    case Err(e) => Err(e)
    case Ok(p) =>
      PurchasesGroupable(t, p, g);
      match GroupBy(p, g)
      case Err(e) => Err(e)
      case Ok(gr) =>
        PurchasesTallies(t, p, g);
        Ok(gr)
  }

  /** The filtered frame can be grouped exactly when no purchasing row has an object label. */
  lemma PurchasesGroupable(t: Frame, p: Frame, g: string)
    requires Purchases(t) == Ok(p)
    ensures Groupable(p, g) <==> PurchaseGroupable(t, g)
    ensures !Groupable(p, g) ==> GroupError(p, g) == PurchaseError(t, g)
  {
    assert forall i :: 0 <= i < |p.rows| ==> p.rows[i] in t.rows;
    assert forall i :: 0 <= i < |t.rows| && IsPurchase(Cell(t.rows[i], REVENUE)) ==> t.rows[i] in p.rows;
  }

  /** Grouping the purchasing rows gives the purchase tallies of the whole frame. */
  lemma PurchasesTallies(t: Frame, p: Frame, g: string)
    requires Purchases(t) == Ok(p) && GroupBy(p, g).Ok?
    ensures PurchaseTallies(t.rows, g, GroupBy(p, g).value)
  {
    var gr := GroupBy(p, g).value;
    PurchaseRowsCount(t.rows, g);
    HitPositive(p.rows, g);
    assert p.rows == PurchaseRows(t.rows);
    forall k | k in gr.counts
      ensures gr.counts[k] >= 1
    {
      var row :| row in p.rows && KeyOf(Cell(row, g)) == Some(k);
      assert Hit(row, g, k);
    }
  }

  /** A purchase-count panel: the purchasing groups by label, largest count first. */
  function PurchaseCounts(t: Frame, g: string): (r: Result<Groups, Error>)
    ensures r.Ok? <==> PurchaseGroupable(t, g)
    ensures r.Err? ==> r.error == PurchaseError(t, g)
    ensures r.Ok? ==> PurchaseTallies(t.rows, g, r.value) && Ranked(r.value.order, r.value.counts)
  {
    match PurchaseGroupBy(t, g)
    case Err(e) => Err(e)
    case Ok(gr) =>
      assert forall i :: 0 <= i < |gr.order| ==> gr.order[i] in gr.counts by {
        forall i | 0 <= i < |gr.order|
          ensures gr.order[i] in gr.counts
        {
          assert multiset(gr.order)[gr.order[i]] > 0;
        }
      }
      Ok(RankGroups(gr))
  }

  // ---------------------------------------------------------------------------
  // How the two aggregates of a panel relate.
  // ---------------------------------------------------------------------------

  /** Every purchase group is a visit group, with between one and that many rows. */
  lemma TalliesBound(rows: seq<Row>, g: string, visits: Groups, purchases: Groups)
    requires Tallies(rows, g, visits) && PurchaseTallies(rows, g, purchases)
    ensures forall k :: k in purchases.counts ==>
      k in visits.counts && 1 <= purchases.counts[k] <= visits.counts[k]
  {
    PurchaseRowsCount(rows, g);
  }

  /**
   * On any frame where both can be computed, each panel's purchase counts sit
   * under its visit counts: a purchasing label is a visiting label, and its
   * purchase count is at least one and at most its visit count.
   */
  lemma PurchasesWithinVisits(t: Frame, g: string)
    ensures VisitCounts(t, g).Ok? && PurchaseCounts(t, g).Ok? ==>
      var visits, purchases := VisitCounts(t, g).value, PurchaseCounts(t, g).value;
      forall k :: k in purchases.counts ==> k in visits.counts && 1 <= purchases.counts[k] <= visits.counts[k]
    ensures GroupBy(t, g).Ok? && PurchaseGroupBy(t, g).Ok? ==>
      var visits, purchases := GroupBy(t, g).value, PurchaseGroupBy(t, g).value;
      forall k :: k in purchases.counts ==> k in visits.counts && 1 <= purchases.counts[k] <= visits.counts[k]
  {
    if VisitCounts(t, g).Ok? && PurchaseCounts(t, g).Ok? {
      TalliesBound(t.rows, g, VisitCounts(t, g).value, PurchaseCounts(t, g).value);
    }
    if GroupBy(t, g).Ok? && PurchaseGroupBy(t, g).Ok? {
      TalliesBound(t.rows, g, GroupBy(t, g).value, PurchaseGroupBy(t, g).value);
    }
  }

  // ---------------------------------------------------------------------------
  // The panels on the output of preprocess_json.
  // ---------------------------------------------------------------------------

  /** After preprocessing, every revenue value is a number. */
  lemma NormalizedRevenue(raw: Frame)
    ensures Normalize(raw).Ok? ==>
      var u := Normalize(raw).value;
      REVENUE in u.columns && forall i :: 0 <= i < |u.rows| ==> u.rows[i][REVENUE].Number?
  {
    assert REVENUE == NUMERIC_COLUMNS[4];
    NormalizeShape(raw);
  }

  /**
   * On a preprocessed frame a visit panel fails only on an absent or
   * unhashable label, counts every labelled row exactly once under its label,
   * and its counts add up to the number of labelled rows.
   */
  lemma NormalizedVisitCounts(raw: Frame, g: string)
    ensures Normalize(raw).Ok? ==>
      var u := Normalize(raw).value;
      && (VisitCounts(u, g).Ok? <==> g in u.columns && forall i :: 0 <= i < |u.rows| ==> !u.rows[i][g].Object?)
      && (VisitCounts(u, g).Ok? ==>
            var r := VisitCounts(u, g).value;
            && (forall k :: k in r.counts ==> r.counts[k] == Occurrences(u.rows, g, k))
            && (forall i :: 0 <= i < |r.order| ==> r.order[i] in r.counts)
            && Total(r.order, r.counts) == LabelledRows(u.rows, g))
  {
    if Normalize(raw).Ok? {
      var u := Normalize(raw).value;
      NormalizedRevenue(raw);
      assert forall row :: row in u.rows ==> Counted(Cell(row, REVENUE));
      AllCounted(u.rows, g);
    }
  }

  /**
   * On a preprocessed frame a purchase panel fails only on an absent label or
   * an unhashable label of a purchasing row: revenue always compares.
   */
  lemma NormalizedPurchaseCounts(raw: Frame, g: string)
    ensures Normalize(raw).Ok? ==>
      var u := Normalize(raw).value;
      PurchaseCounts(u, g).Ok? <==>
        g in u.columns && forall i :: 0 <= i < |u.rows| && IsPurchase(Cell(u.rows[i], REVENUE)) ==> !Cell(u.rows[i], g).Object?
  {
    NormalizedRevenue(raw);
    if Normalize(raw).Ok? {
      var u := Normalize(raw).value;
      assert forall i :: 0 <= i < |u.rows| ==> Comparable(Cell(u.rows[i], REVENUE));
    }
  }

  // ---------------------------------------------------------------------------
  // The date panel.
  // ---------------------------------------------------------------------------

  /** A date cell after preprocessing: missing, or the ISO form of a valid day. */
  ghost predicate IsoDateCell(v: Value)
  {
    v.Missing? || exists d :: IsValid(d) && v == Str(FormatIso(d))
  }

  lemma ConvertDateIsIso(v: Value)
    requires ConvertDate(v).Some?
    ensures IsoDateCell(ConvertDate(v).value)
  {
    match v
    case Missing =>
    case Str(s) =>
      var d :| ParseYmd(s) == Some(d);
      assert IsValid(d) && ConvertDate(v).value == Str(FormatIso(d));
    case Number(n) =>
      var d :| ParseYmd(IntToString(n)) == Some(d);
      assert IsValid(d) && ConvertDate(v).value == Str(FormatIso(d));
  }

  /** After preprocessing, every date is missing or the ISO form of a valid day. */
  lemma NormalizedDates(raw: Frame)
    ensures Normalize(raw).Ok? ==>
      var u := Normalize(raw).value;
      DATE_COLUMN in u.columns && forall i :: 0 <= i < |u.rows| ==> IsoDateCell(u.rows[i][DATE_COLUMN])
  {
    NormalizeShape(raw);
    if Normalize(raw).Ok? {
      var u := Normalize(raw).value;
      forall i | 0 <= i < |u.rows|
        ensures IsoDateCell(u.rows[i][DATE_COLUMN])
      {
        NormalizeDateCell(raw, i);
        ConvertDateIsIso(Cell(raw.rows[i], DATE_COLUMN));
      }
    }
  }

  /**
   * Labels that are the ISO dates of valid days, listed in chronological order.
   */
  ghost predicate Chronological(order: seq<Key>)
  {
    && (forall i :: 0 <= i < |order| ==> exists d :: IsValid(d) && order[i] == StrKey(FormatIso(d)))
    && forall i, j, a, b ::
         (0 <= i < j < |order| && IsValid(a) && IsValid(b) &&
          order[i] == StrKey(FormatIso(a)) && order[j] == StrKey(FormatIso(b))) ==> Before(a, b)
  }

  /** Ascending labels taken from ISO date cells are valid days in chronological order. */
  lemma DateLabels(rows: seq<Row>, r: Groups)
    requires forall row :: row in rows ==> IsoDateCell(Cell(row, DATE_COLUMN))
    requires forall k :: k in r.counts ==> exists row :: row in rows && KeyOf(Cell(row, DATE_COLUMN)) == Some(k)
    requires forall k :: multiset(r.order)[k] == if k in r.counts then 1 else 0
    requires Ascending(r.order)
    ensures Chronological(r.order)
  {
    forall i | 0 <= i < |r.order|
      ensures exists d :: IsValid(d) && r.order[i] == StrKey(FormatIso(d))
    {
      var k := r.order[i];
      assert multiset(r.order)[k] > 0;
      DateLabel(rows, r, k);
    }
    AscendingChronological(r.order);
  }

  lemma DateLabel(rows: seq<Row>, r: Groups, k: Key)
    requires forall row :: row in rows ==> IsoDateCell(Cell(row, DATE_COLUMN))
    requires forall k :: k in r.counts ==> exists row :: row in rows && KeyOf(Cell(row, DATE_COLUMN)) == Some(k)
    requires k in r.counts
    ensures exists d :: IsValid(d) && k == StrKey(FormatIso(d))
  {
    var row :| row in rows && KeyOf(Cell(row, DATE_COLUMN)) == Some(k);
    var d :| IsValid(d) && Cell(row, DATE_COLUMN) == Str(FormatIso(d));
  }

  lemma AscendingChronological(order: seq<Key>)
    requires Ascending(order)
    ensures forall i, j, a, b ::
      (0 <= i < j < |order| && IsValid(a) && IsValid(b) &&
       order[i] == StrKey(FormatIso(a)) && order[j] == StrKey(FormatIso(b))) ==> Before(a, b)
  {
    forall i, j, a, b |
      0 <= i < j < |order| && IsValid(a) && IsValid(b) &&
      order[i] == StrKey(FormatIso(a)) && order[j] == StrKey(FormatIso(b))
      ensures Before(a, b)
    {
      IsoOrderIsChronological(a, b);
    }
  }

  /** A frame whose dates are ISO days and whose revenues are numbers, as preprocessing leaves it. */
  ghost predicate DatedFrame(u: Frame)
  {
    && DATE_COLUMN in u.columns && REVENUE in u.columns
    && forall i :: 0 <= i < |u.rows| ==> IsoDateCell(u.rows[i][DATE_COLUMN]) && u.rows[i][REVENUE].Number?
  }

  /** The date panel's visit curve on such a frame can be computed and runs in chronological order. */
  lemma DateVisitCurve(u: Frame)
    requires DatedFrame(u)
    ensures GroupBy(u, DATE_COLUMN).Ok? && Chronological(GroupBy(u, DATE_COLUMN).value.order)
  {
    assert forall i :: 0 <= i < |u.rows| ==> !Cell(u.rows[i], DATE_COLUMN).Object?;
    assert Groupable(u, DATE_COLUMN);
    var r := GroupBy(u, DATE_COLUMN).value;
    assert forall row :: row in u.rows ==> IsoDateCell(Cell(row, DATE_COLUMN));
    DateLabels(u.rows, r);
  }

  /** So does its purchase curve. */
  lemma DatePurchaseCurve(u: Frame)
    requires DatedFrame(u)
    ensures PurchaseGroupBy(u, DATE_COLUMN).Ok? && Chronological(PurchaseGroupBy(u, DATE_COLUMN).value.order)
  {
    assert forall i :: 0 <= i < |u.rows| ==> !Cell(u.rows[i], DATE_COLUMN).Object?;
    assert forall i :: 0 <= i < |u.rows| ==> Comparable(Cell(u.rows[i], REVENUE));
    assert PurchaseGroupable(u, DATE_COLUMN);
    var r := PurchaseGroupBy(u, DATE_COLUMN).value;
    assert forall row :: row in u.rows ==> IsoDateCell(Cell(row, DATE_COLUMN));
    assert forall k :: k in r.counts ==> exists row :: row in u.rows && KeyOf(Cell(row, DATE_COLUMN)) == Some(k);
    DateLabels(u.rows, r);
  }

  /**
   * The date panel on a preprocessed frame: both curves can always be
   * computed, and their points are valid days in chronological order,
   * because `groupby` sorts its ISO labels and the later `sort_index()`
   * results are discarded.
   */
  lemma DatePanelChronological(raw: Frame)
    ensures Normalize(raw).Ok? ==>
      var u := Normalize(raw).value;
      && GroupBy(u, DATE_COLUMN).Ok? && Chronological(GroupBy(u, DATE_COLUMN).value.order)
      && PurchaseGroupBy(u, DATE_COLUMN).Ok? && Chronological(PurchaseGroupBy(u, DATE_COLUMN).value.order)
  {
    if Normalize(raw).Ok? {
      NormalizedDates(raw);
      NormalizedRevenue(raw);
      var u := Normalize(raw).value;
      assert DatedFrame(u);
      DateVisitCurve(u);
      DatePurchaseCurve(u);
    }
  }

  // ---------------------------------------------------------------------------
  // A worked example.
  // ---------------------------------------------------------------------------

  /**
   * Three sessions from Chrome, Chrome and Firefox, each with a revenue
   * value: the browser panel shows Chrome with 2 visits, then Firefox with 1.
   */
  lemma ExampleBrowserCounts(t: Frame, g: string)
    requires g in t.columns && REVENUE in t.columns && |t.rows| == 3
    requires Cell(t.rows[0], g) == Str("Chrome") && Cell(t.rows[1], g) == Str("Chrome")
    requires Cell(t.rows[2], g) == Str("Firefox")
    requires forall i :: 0 <= i < 3 ==> Counted(Cell(t.rows[i], REVENUE))
    ensures VisitCounts(t, g).Ok?
    ensures VisitCounts(t, g).value.counts == map[StrKey("Chrome") := 2, StrKey("Firefox") := 1]
    ensures VisitCounts(t, g).value.order == [StrKey("Chrome"), StrKey("Firefox")]
  {
    assert "Chrome" != "Firefox" by {
      assert "Chrome"[0] != "Firefox"[0];
    }
    TwoGroups(t, g, StrKey("Chrome"), StrKey("Firefox"));
  }

  /** Two rows labelled `a` and then one labelled `b`. */
  lemma TwoGroups(t: Frame, g: string, a: Key, b: Key)
    requires g in t.columns && REVENUE in t.columns && |t.rows| == 3 && a != b
    requires KeyOf(Cell(t.rows[0], g)) == Some(a) && KeyOf(Cell(t.rows[1], g)) == Some(a)
    requires KeyOf(Cell(t.rows[2], g)) == Some(b)
    requires forall i :: 0 <= i < 3 ==> Counted(Cell(t.rows[i], REVENUE))
    ensures VisitCounts(t, g).Ok?
    ensures VisitCounts(t, g).value.counts == map[a := 2, b := 1]
    ensures VisitCounts(t, g).value.order == [a, b]
  {
    assert Groupable(t, g);
    TwoGroupsResult(t.rows, g, a, b, VisitCounts(t, g).value);
  }

  lemma TwoGroupsResult(rows: seq<Row>, g: string, a: Key, b: Key, r: Groups)
    requires |rows| == 3 && a != b
    requires KeyOf(Cell(rows[0], g)) == Some(a) && KeyOf(Cell(rows[1], g)) == Some(a)
    requires KeyOf(Cell(rows[2], g)) == Some(b)
    requires forall i :: 0 <= i < 3 ==> Counted(Cell(rows[i], REVENUE))
    requires Tallies(rows, g, r) && Ranked(r.order, r.counts)
    ensures r.counts == map[a := 2, b := 1] && r.order == [a, b]
  {
    ExampleRows(rows, g, a, b);
    assert forall k :: k in r.counts <==> k == a || k == b;
    TwoCounts(r.counts, a, b);
    TwoLabelOrder(r.order, r.counts, a, b);
  }

  /** A map on exactly two labels is the two-entry display of its values. */
  lemma TwoCounts(counts: map<Key, nat>, a: Key, b: Key)
    requires forall k :: k in counts <==> k == a || k == b
    requires a in counts && b in counts && counts[a] == 2 && counts[b] == 1
    ensures counts.Keys == {a, b}
    ensures counts == map[a := 2, b := 1]
  {
    assert counts.Keys == {a, b};
  }

  lemma ExampleRows(rows: seq<Row>, g: string, a: Key, b: Key)
    requires |rows| == 3 && a != b
    requires KeyOf(Cell(rows[0], g)) == Some(a) && KeyOf(Cell(rows[1], g)) == Some(a)
    requires KeyOf(Cell(rows[2], g)) == Some(b)
    requires forall i :: 0 <= i < 3 ==> Counted(Cell(rows[i], REVENUE))
    ensures CountKey(rows, g, a) == 2 && CountKey(rows, g, b) == 1
    ensures forall k :: (exists row :: row in rows && KeyOf(Cell(row, g)) == Some(k)) <==> k == a || k == b
  {
    assert rows == [rows[0], rows[1], rows[2]];
    var two, one := rows[..2], rows[..2][..1];
    assert two == [rows[0], rows[1]] && one == [rows[0]] && one[..0] == [];
    assert CountKey(one, g, a) == 1 && CountKey(one, g, b) == 0;
    assert CountKey(two, g, a) == 2 && CountKey(two, g, b) == 0;
  }

  /** Two labels, each listed once, the larger count first: the order is fixed. */
  lemma TwoLabelOrder(order: seq<Key>, counts: map<Key, nat>, a: Key, b: Key)
    requires a != b && a in counts && b in counts && counts[a] > counts[b]
    requires forall k :: multiset(order)[k] == if k in counts then 1 else 0
    requires counts.Keys == {a, b}
    requires Ranked(order, counts)
    ensures order == [a, b]
  {
    assert multiset(order) == multiset{a, b};
    assert |order| == 2 by {
      assert |multiset(order)| == |order|;
    }
    assert order[0] in multiset(order) && order[1] in multiset(order);
    assert order == [order[0], order[1]];
  }
}
