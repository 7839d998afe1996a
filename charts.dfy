/**
 * The 3x2 chart grid of the analysis script: which of the six panels is
 * drawn, from which columns, and the value counts the pie and bar panels
 * show.  Drawing itself is not modelled; a panel is a `Slot` value.
 */
module Charts {
  import opened Wrappers
  import opened Table

  /** One panel of the grid, or an empty panel when its columns are missing. */
  datatype Slot =
    | Blank
    | Histogram(column: string, bins: nat)
    | Pie(column: string, top: Option<nat>)
    | Bar(column: string, limit: nat)
    | MeanBar(group: string, value: string)

  /** The columns a panel reads. */
  function SlotColumns(s: Slot): set<string> {
    match s
    case Blank => {}
    case Histogram(c, _) => {c}
    case Pie(c, _) => {c}
    case Bar(c, _) => {c}
    case MeanBar(g, v) => {g, v}
  }

  /** The column that panels 5 and 6 count: `city` when present, else `category`. */
  function BreakdownColumn(labels: seq<string>): (r: Option<string>)
    ensures r.Some? <==> "city" in labels || "category" in labels
    ensures r.Some? ==> r.value in labels
    ensures "city" in labels ==> r == Some("city")
    ensures "city" !in labels && "category" in labels ==> r == Some("category")
  {
    if "city" in labels then Some("city")
    else if "category" in labels then Some("category")
    else None
  }

  /**
   * The six panels, in grid order, for a table with the given header.
   * A panel is blank exactly when a column it needs is missing, and a
   * drawn panel only reads columns the table has.
   */
  function Layout(labels: seq<string>): (r: seq<Slot>)
    ensures |r| == 6
    ensures forall i :: 0 <= i < |r| ==> forall c :: c in SlotColumns(r[i]) ==> c in labels
    ensures r[0].Blank? <==> "age" !in labels
    ensures r[1].Blank? <==> "gender" !in labels
    ensures r[2].Blank? <==> "annual_spend" !in labels
    ensures r[3].Blank? <==> "age_group" !in labels || "annual_spend" !in labels
    ensures r[4].Blank? <==> "city" !in labels && "category" !in labels
    ensures r[5].Blank? <==> "city" !in labels && "category" !in labels
    ensures "age" in labels ==> r[0] == Histogram("age", 24)
    ensures "gender" in labels ==> r[1] == Pie("gender", None)
    ensures "annual_spend" in labels ==> r[2] == Histogram("annual_spend", 30)
    ensures "age_group" in labels && "annual_spend" in labels ==> r[3] == MeanBar("age_group", "annual_spend")
    ensures "city" in labels ==> r[4] == Bar("city", 10) && r[5] == Pie("city", Some(5))
    ensures "city" !in labels && "category" in labels ==> r[4] == Bar("category", 8) && r[5] == Pie("category", Some(5))
    ensures !r[4].Blank? ==> r[4].Bar? && r[4].column in labels
    ensures !r[5].Blank? ==> r[5].Pie? && r[5].column in labels && r[5].top == Some(5)
  {
    var breakdown := BreakdownColumn(labels);
    [ if "age" in labels then Histogram("age", 24) else Blank,
      if "gender" in labels then Pie("gender", None) else Blank,
      if "annual_spend" in labels then Histogram("annual_spend", 30) else Blank,
      if "age_group" in labels && "annual_spend" in labels then MeanBar("age_group", "annual_spend") else Blank,
      if breakdown.None? then Blank else Bar(breakdown.value, if breakdown.value == "city" then 10 else 8),
      if breakdown.None? then Blank else Pie(breakdown.value, Some(5)) ]
  }

  /** Panels 5 and 6 always break down the same column. */
  lemma BreakdownPanelsAgree(labels: seq<string>)
    ensures var r := Layout(labels);
      (r[4].Blank? <==> r[5].Blank?) && (r[4].Bar? ==> r[5].Pie? && r[4].column == r[5].column)
  {
  }

  // ---------------------------------------------------------------------
  // value_counts, head and sort_values
  // ---------------------------------------------------------------------

  /** One row of a value count: a value and how many cells hold it. */
  type Entry = (Value, nat)

  /** How many cells of a column hold `v`. */
  function Count(cells: seq<Cell>, v: Value): nat {
    multiset(cells)[Some(v)]
  }

  /** No element twice. */
  predicate NoDuplicates<T(==)>(s: seq<T>) {
    forall i, j :: 0 <= i < j < |s| ==> s[i] != s[j]
  }

  /** Counts never increase along the sequence. */
  predicate Descending(s: seq<Entry>) {
    forall i, j :: 0 <= i < j < |s| ==> s[i].1 >= s[j].1
  }

  /** The non-null values of a column, each once, in order of first appearance. */
  function Distinct(cells: seq<Cell>): (r: seq<Value>)
    ensures forall v :: v in r <==> Some(v) in cells
    ensures NoDuplicates(r)
  {
    if cells == [] then []
    else
      var init := cells[..|cells| - 1];
      var last := cells[|cells| - 1];
      assert cells == init + [last];
      var d := Distinct(init);
      if last.None? || last.value in d then d else d + [last.value]
  }

  /**
   * Places `x` before the first entry whose count is not larger, so that
   * an earlier entry stays ahead of later entries with the same count.
   */
  function Insert(x: Entry, s: seq<Entry>): (r: seq<Entry>)
    ensures multiset(r) == multiset(s) + multiset{x}
  {
    if s == [] || x.1 >= s[0].1 then [x] + s
    else
      assert s == [s[0]] + s[1..];
      [s[0]] + Insert(x, s[1..])
  }

  /** What `Insert` returns is `x` or an entry of `s`. */
  lemma InsertMembers(x: Entry, s: seq<Entry>, y: Entry)
    requires y in Insert(x, s)
    ensures y == x || y in s
  {
    assert y in multiset(Insert(x, s));
  }

  /** Inserting into a descending count keeps it descending. */
  lemma {:induction false} InsertDescending(x: Entry, s: seq<Entry>)
    requires Descending(s)
    ensures Descending(Insert(x, s))
  {
    if s != [] && x.1 < s[0].1 {
      var rest := Insert(x, s[1..]);
      InsertDescending(x, s[1..]);
      forall y | y in rest ensures y.1 <= s[0].1 {
        InsertMembers(x, s[1..], y);
      }
      var r := [s[0]] + rest;
      forall i, j | 0 <= i < j < |r| ensures r[i].1 >= r[j].1 {
        if i == 0 {
          assert r[j] == rest[j - 1];
        } else {
          assert r[i] == rest[i - 1] && r[j] == rest[j - 1];
        }
      }
    }
  }

  /** Inserting a new entry into a list without repeats gives one without repeats. */
  lemma {:induction false} InsertNoDuplicates(x: Entry, s: seq<Entry>)
    requires NoDuplicates(s) && x !in s
    ensures NoDuplicates(Insert(x, s))
  {
    if s != [] && x.1 < s[0].1 {
      var rest := Insert(x, s[1..]);
      InsertNoDuplicates(x, s[1..]);
      forall y | y in rest ensures y != s[0] {
        InsertMembers(x, s[1..], y);
      }
      var r := [s[0]] + rest;
      forall i, j | 0 <= i < j < |r| ensures r[i] != r[j] {
        if i == 0 {
          assert r[j] == rest[j - 1] && rest[j - 1] in rest;
        } else {
          assert r[i] == rest[i - 1] && r[j] == rest[j - 1];
        }
      }
    }
  }

  /** A sort by descending count that keeps the order of equal counts. */
  function SortDescending(s: seq<Entry>): (r: seq<Entry>)
    ensures multiset(r) == multiset(s)
    ensures Descending(r)
  {
    if s == [] then []
    else
      assert s == [s[0]] + s[1..];
      var sorted := SortDescending(s[1..]);
      InsertDescending(s[0], sorted);
      Insert(s[0], sorted)
  }

  /** Sorting a list without repeats gives a list without repeats. */
  lemma {:induction false} SortNoDuplicates(s: seq<Entry>)
    requires NoDuplicates(s)
    ensures NoDuplicates(SortDescending(s))
  {
    if s != [] {
      var tail := s[1..];
      assert NoDuplicates(tail) by {
        forall i, j | 0 <= i < j < |tail| ensures tail[i] != tail[j] {
          assert tail[i] == s[i + 1] && tail[j] == s[j + 1];
        }
      }
      SortNoDuplicates(tail);
      var sorted := SortDescending(tail);
      assert s[0] !in sorted by {
        assert s[0] in sorted <==> s[0] in multiset(tail);
        assert s[0] !in tail;
      }
      InsertNoDuplicates(s[0], sorted);
    }
  }

  /** Sorting what is already in descending order changes nothing. */
  lemma {:induction false} SortSortedIsIdentity(s: seq<Entry>)
    requires Descending(s)
    ensures SortDescending(s) == s
  {
    if s != [] {
      DescendingTail(s);
      SortSortedIsIdentity(s[1..]);
      InsertAtFront(s[0], s[1..]);
      assert s == [s[0]] + s[1..];
    }
  }

  /** The tail of a descending count is descending and starts no higher than the head. */
  lemma DescendingTail(s: seq<Entry>)
    requires Descending(s) && s != []
    ensures Descending(s[1..])
    ensures |s| > 1 ==> s[0].1 >= s[1..][0].1
  {
    var tail := s[1..];
    forall i, j | 0 <= i < j < |tail| ensures tail[i].1 >= tail[j].1 {
      assert tail[i] == s[i + 1] && tail[j] == s[j + 1];
    }
  }

  /** An entry whose count is not below the first one goes to the front. */
  lemma InsertAtFront(x: Entry, s: seq<Entry>)
    requires s == [] || x.1 >= s[0].1
    ensures Insert(x, s) == [x] + s
  {
  }

  /** The entries before sorting: each distinct value with its count. */
  function Tally(cells: seq<Cell>): (r: seq<Entry>)
    ensures NoDuplicates(r)
    ensures forall e :: e in r <==> Some(e.0) in cells && e.1 == Count(cells, e.0)
  {
    var d := Distinct(cells);
    var r := seq(|d|, i requires 0 <= i < |d| => (d[i], Count(cells, d[i])));
    assert forall e :: e in r ==> e.0 in d by {
      forall e | e in r ensures e.0 in d {
        var i :| 0 <= i < |r| && r[i] == e;
      }
    }
    assert forall v :: v in d ==> (v, Count(cells, v)) in r by {
      forall v | v in d ensures (v, Count(cells, v)) in r {
        var i :| 0 <= i < |d| && d[i] == v;
        assert r[i] == (v, Count(cells, v));
      }
    }
    r
  }

  /**
   * `column.value_counts()`: every non-null value once, with the number of
   * cells that hold it, the most frequent first.
   */
  function ValueCounts(cells: seq<Cell>): (r: seq<Entry>)
    ensures Descending(r)
    ensures forall i :: 0 <= i < |r| ==> r[i].1 == Count(cells, r[i].0) && r[i].1 >= 1
    ensures forall v :: Some(v) in cells <==> (v, Count(cells, v)) in r
    ensures forall i, j :: 0 <= i < j < |r| ==> r[i].0 != r[j].0
  {
    var r := SortDescending(Tally(cells));
    SortedTally(cells, r);
    TallyEntries(cells, r);
    r
  }

  /** Sorting keeps the tally's entries and its lack of repeats. */
  lemma SortedTally(cells: seq<Cell>, r: seq<Entry>)
    requires r == SortDescending(Tally(cells))
    ensures NoDuplicates(r)
    ensures forall e :: e in r <==> Some(e.0) in cells && e.1 == Count(cells, e.0)
  {
    var tally := Tally(cells);
    SortNoDuplicates(tally);
    forall e ensures e in r <==> e in tally {
      assert e in r <==> e in multiset(r);
      assert e in tally <==> e in multiset(tally);
    }
  }

  /** A list of exactly the tally's entries, without repeats, pairs each value once with its count. */
  lemma TallyEntries(cells: seq<Cell>, r: seq<Entry>)
    requires NoDuplicates(r)
    requires forall e :: e in r <==> Some(e.0) in cells && e.1 == Count(cells, e.0)
    ensures forall i :: 0 <= i < |r| ==> r[i].1 == Count(cells, r[i].0) && r[i].1 >= 1
    ensures forall v :: Some(v) in cells <==> (v, Count(cells, v)) in r
    ensures forall i, j :: 0 <= i < j < |r| ==> r[i].0 != r[j].0
  {
    forall i | 0 <= i < |r| ensures r[i].1 == Count(cells, r[i].0) && r[i].1 >= 1 {
      assert r[i] in r;
      assert Some(r[i].0) in multiset(cells);
    }
    forall i, j | 0 <= i < j < |r| ensures r[i].0 != r[j].0 {
      assert r[i] in r && r[j] in r;
    }
  }

  /** `head(k)`: the first `k` entries, or all of them when there are fewer. */
  function Head(s: seq<Entry>, k: nat): (r: seq<Entry>)
    ensures |r| == if |s| < k then |s| else k
    ensures r == s[..|r|]
  {
    if |s| < k then s else s[..k]
  }

  /** Truncating a descending count keeps the largest counts. */
  lemma HeadKeepsLargest(s: seq<Entry>, k: nat)
    requires Descending(s)
    ensures var r := Head(s, k);
      Descending(r) && forall i, j :: 0 <= i < |r| <= j < |s| ==> s[j].1 <= r[i].1
  {
  }

  /** The column a panel counts; the first such column when the label repeats. */
  function Column(t: Table, l: string): (r: seq<Cell>)
    requires |t.labels| == |t.columns| && l in t.labels
    ensures exists i :: 0 <= i < |t.labels| && t.labels[i] == l && r == t.columns[i]
  {
    t.columns[IndexOf(t.labels, l)]
  }

  /** The bars or wedges of a counting panel; `None` for the other kinds. */
  function Counted(t: Table, s: Slot): (r: Option<seq<Entry>>)
    requires |t.labels| == |t.columns|
    requires forall c :: c in SlotColumns(s) ==> c in t.labels
    ensures r.Some? <==> s.Pie? || s.Bar?
    ensures r.Some? ==> Descending(r.value)
    ensures s.Bar? ==> |r.value| <= s.limit
    ensures s.Pie? && s.top.Some? ==> |r.value| <= s.top.value
    ensures s.Pie? && s.top.None? ==> r.value == ValueCounts(Column(t, s.column))
  {
    match s
    case Pie(c, top) =>
      var counts := ValueCounts(Column(t, c));
      if top.None? then Some(counts)
      else
        HeadKeepsLargest(SortDescending(counts), top.value);
        Some(Head(SortDescending(counts), top.value))
    case Bar(c, top) =>
      var counts := ValueCounts(Column(t, c));
      HeadKeepsLargest(counts, top);
      Some(Head(counts, top))
    case _ => None
  }

  /** The counts panel `i` (0-based) of the grid shows; empty for a panel that counts nothing. */
  function Shown(t: Table, i: nat): (r: seq<Entry>)
    requires |t.labels| == |t.columns| && i < 6
    ensures Descending(r)
  {
    var panel := Layout(t.labels)[i];
    var counted := Counted(t, panel);
    if counted.Some? then counted.value else []
  }

  /**
   * In a drawn grid, panel 5 shows at most 10 (city) or 8 (category)
   * bars and panel 6 at most 5 wedges, and the wedges are the first bars
   * of panel 5 (re-sorting a value count that is already sorted changes
   * nothing).
   */
  lemma {:induction false} BreakdownCounts(t: Table)
    requires |t.labels| == |t.columns|
    ensures |Shown(t, 4)| <= (if "city" in t.labels then 10 else 8) && |Shown(t, 5)| <= 5
    ensures |Shown(t, 5)| <= |Shown(t, 4)| && Shown(t, 5) == Shown(t, 4)[..|Shown(t, 5)|]
  {
    if "city" in t.labels || "category" in t.labels {
      var c := BreakdownColumn(t.labels).value;
      var k := if "city" in t.labels then 10 else 8;
      var counts := ValueCounts(Column(t, c));
      BreakdownShown(t, c, k);
      SortSortedIsIdentity(counts);
      HeadOfHead(counts, 5, k);
    } else {
      BreakdownBlank(t);
    }
  }

  /** What panels 5 and 6 show when the grid has a breakdown column. */
  lemma BreakdownShown(t: Table, c: string, k: nat)
    requires |t.labels| == |t.columns|
    requires BreakdownColumn(t.labels) == Some(c) && k == if "city" in t.labels then 10 else 8
    ensures c in t.labels
    ensures Shown(t, 4) == Head(ValueCounts(Column(t, c)), k)
    ensures Shown(t, 5) == Head(SortDescending(ValueCounts(Column(t, c))), 5)
  {
    var r := Layout(t.labels);
    assert r[4] == Bar(c, k) && r[5] == Pie(c, Some(5));
  }

  /** Without a breakdown column panels 5 and 6 show nothing. */
  lemma BreakdownBlank(t: Table)
    requires |t.labels| == |t.columns| && "city" !in t.labels && "category" !in t.labels
    ensures Shown(t, 4) == [] && Shown(t, 5) == []
  {
    var r := Layout(t.labels);
    assert r[4] == Blank && r[5] == Blank;
  }

  /** A shorter head is a prefix of a longer one. */
  lemma HeadOfHead(s: seq<Entry>, k: nat, m: nat)
    requires k <= m
    ensures Head(s, k) == Head(s, m)[..|Head(s, k)|]
  {
  }

  /** The gender pie shows every gender that occurs, with its exact count. */
  lemma GenderPieComplete(t: Table, v: Value)
    requires |t.labels| == |t.columns| && "gender" in t.labels
    ensures var wedges := Counted(t, Layout(t.labels)[1]).value;
      Some(v) in Column(t, "gender") <==> (v, Count(Column(t, "gender"), v)) in wedges
  {
  }
}
