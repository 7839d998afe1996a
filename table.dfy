/**
 * The customer table: an ordered header row and one value sequence per
 * column, with `None` for a pandas null.  `Frame` is the mutable table the
 * script works on; `Table` is its value, used by the specification.
 */
module Table {
  import opened Wrappers

  /** The six buckets of the `age_group` column, in bin order. */
  datatype AgeGroup = Under18 | Age18To24 | Age25To34 | Age35To44 | Age45To54 | Age55Plus

  /** A non-null cell: raw text as read, a number, a date (as a day number) or an age bucket. */
  datatype Value = Text(text: string) | Number(x: real) | Date(day: int) | Group(group: AgeGroup)

  type Cell = Option<Value>

  datatype Table = Table(labels: seq<string>, columns: seq<seq<Cell>>)

  /** Every column has one cell per row. */
  ghost predicate Shaped(t: Table, rows: nat) {
    |t.labels| == |t.columns| && forall i :: 0 <= i < |t.columns| ==> |t.columns[i]| == rows
  }

  /** What `df[l]` denotes: no column, exactly one, or several (pandas then returns a sub-frame). */
  datatype Lookup = Missing | Unique(index: nat) | Duplicated

  /** Position of the first column labelled `l`. */
  function IndexOf(labels: seq<string>, l: string): (i: nat)
    requires l in labels
    ensures i < |labels| && labels[i] == l
    ensures forall k :: 0 <= k < i ==> labels[k] != l
  {
    if labels[0] == l then 0 else 1 + IndexOf(labels[1..], l)
  }

  function Find(labels: seq<string>, l: string): (r: Lookup)
    ensures r.Missing? <==> l !in labels
    ensures r.Unique? ==> r.index < |labels| && labels[r.index] == l
    ensures r.Unique? ==> forall k :: 0 <= k < |labels| && k != r.index ==> labels[k] != l
    ensures r.Duplicated? <==> multiset(labels)[l] >= 2
  {
    if l !in labels then Missing
    else
      var i := IndexOf(labels, l);
      assert labels == labels[..i] + [l] + labels[i + 1..];
      assert l !in labels[..i];
      assert multiset(labels)[l] == 1 + multiset(labels[i + 1..])[l];
      if l in labels[i + 1..] then Duplicated
      else
        assert forall k :: i < k < |labels| ==> labels[k] == labels[i + 1..][k - i - 1];
        Unique(i)
  }

  /** `n` rows holding the same cell. */
  function Repeat(n: nat, c: Cell): (r: seq<Cell>)
    ensures |r| == n && forall k :: 0 <= k < n ==> r[k] == c
  {
    seq(n, k => c)
  }

  /** The number of columns labelled `l` before column `i`; copy `i` is that copy of `l`, counting from 0. */
  function CopyRank(labels: seq<string>, l: string, i: nat): (r: nat)
    requires i < |labels| && labels[i] == l
    ensures r < multiset(labels)[l]
  {
    assert labels == labels[..i] + [labels[i]] + labels[i + 1..];
    multiset(labels[..i])[l]
  }

  /** Copies further to the right have higher ranks, so the ranks number the copies in order. */
  lemma CopyRankIncreasing(labels: seq<string>, l: string, i: nat, j: nat)
    requires i < j < |labels| && labels[i] == l && labels[j] == l
    ensures CopyRank(labels, l, i) < CopyRank(labels, l, j)
  {
    assert labels[..j] == labels[..i] + labels[i..j];
    assert labels[i..j][0] == l;
  }

  /**
   * pandas' separate path for a duplicated label: when `l` labels exactly
   * as many columns as there are values, and at least two, the values are
   * spread over the copies instead of copied into each.
   */
  predicate Spreads(labels: seq<string>, l: string, values: seq<Cell>) {
    multiset(labels)[l] == |values| >= 2
  }

  /**
   * `df[l] = values`: append a new column at the right end when no column
   * is labelled `l`.  Otherwise every column labelled `l` is overwritten:
   * with `values` itself, or, on the spreading path, copy number `k` with
   * the single cell `values[k]` in every row.
   */
  function Assign(t: Table, l: string, values: seq<Cell>): (r: Table)
    requires |t.labels| == |t.columns|
    ensures |r.labels| == |r.columns|
    ensures l in t.labels ==> r.labels == t.labels
    ensures l !in t.labels ==> r.labels == t.labels + [l] && r.columns == t.columns + [values]
    ensures forall i :: 0 <= i < |t.labels| && t.labels[i] != l ==> r.columns[i] == t.columns[i]
    ensures !Spreads(t.labels, l, values) ==>
              forall i :: 0 <= i < |t.labels| && t.labels[i] == l ==> r.columns[i] == values
    ensures Spreads(t.labels, l, values) ==>
              forall i :: 0 <= i < |t.labels| && t.labels[i] == l ==>
                |r.columns[i]| == |values| &&
                forall k :: 0 <= k < |values| ==> r.columns[i][k] == values[CopyRank(t.labels, l, i)]
  {
    if l in t.labels then
      Table(t.labels, seq(|t.columns|, i requires 0 <= i < |t.columns| =>
                             if t.labels[i] != l then t.columns[i]
                             else if Spreads(t.labels, l, values) then Repeat(|values|, values[CopyRank(t.labels, l, i)])
                             else values))
    else Table(t.labels + [l], t.columns + [values])
  }

  /** Two columns labelled `l` and two rows: the first copy gets the first value twice, the second the second. */
  lemma AssignSpreadsTwoCopies(t: Table, l: string, a: Cell, b: Cell)
    requires t.labels == [l, l] && |t.columns| == 2
    ensures Assign(t, l, [a, b]).columns == [[a, a], [b, b]]
  {
    assert multiset(t.labels)[l] == 2;
    assert CopyRank(t.labels, l, 0) == 0 by {
      assert t.labels[..0] == [];
    }
    assert CopyRank(t.labels, l, 1) == 1 by {
      assert t.labels[..1] == [l];
    }
    var r := Assign(t, l, [a, b]);
    assert r.columns[0] == [a, a] && r.columns[1] == [b, b];
  }

  /** Assigning keeps the table rectangular. */
  lemma AssignShaped(t: Table, rows: nat, l: string, values: seq<Cell>)
    requires Shaped(t, rows) && |values| == rows
    ensures Shaped(Assign(t, l, values), rows)
  {
  }

  /** Reading a column back after assigning it gives the assigned cells. */
  lemma AssignThenFind(t: Table, l: string, values: seq<Cell>)
    requires |t.labels| == |t.columns| && Find(t.labels, l) != Duplicated
    ensures var r := Assign(t, l, values);
            Find(r.labels, l).Unique? && r.columns[Find(r.labels, l).index] == values
  {
    var r := Assign(t, l, values);
    if l !in t.labels {
      assert r.labels[|t.labels|] == l;
      assert forall k :: 0 <= k < |t.labels| ==> r.labels[k] == t.labels[k];
      assert multiset(r.labels)[l] == multiset(t.labels)[l] + 1;
    }
  }

  /** Assigning one label leaves what every other label names untouched. */
  lemma AssignKeepsOthers(t: Table, l: string, values: seq<Cell>, m: string)
    requires |t.labels| == |t.columns| && l != m
    ensures Find(Assign(t, l, values).labels, m) == Find(t.labels, m)
    ensures Find(t.labels, m).Unique? ==>
              Assign(t, l, values).columns[Find(t.labels, m).index] == t.columns[Find(t.labels, m).index]
  {
    var r := Assign(t, l, values);
    if l !in t.labels {
      assert forall k :: 0 <= k < |t.labels| ==> r.labels[k] == t.labels[k];
      assert r.labels[|t.labels|] == l;
      assert multiset(r.labels)[m] == multiset(t.labels)[m];
    }
  }

  /** The mutable table of the script (`df`). */
  class Frame {
    var labels: seq<string>
    var columns: seq<seq<Cell>>
    var rows: nat

    ghost predicate Valid()
      reads this
    {
      Shaped(Table(labels, columns), rows)
    }

    /** The table's current value. */
    function Snapshot(): (t: Table)
      reads this
      ensures t.labels == labels && t.columns == columns
    {
      Table(labels, columns)
    }

    constructor (t: Table, rows: nat)
      requires Shaped(t, rows)
      ensures Valid() && Snapshot() == t && this.rows == rows
    {
      labels, columns, this.rows := t.labels, t.columns, rows;
    }

    /** `df.columns = newLabels`. */
    method Relabel(newLabels: seq<string>)
      requires Valid() && |newLabels| == |labels|
      modifies this
      ensures Valid() && rows == old(rows)
      ensures labels == newLabels && columns == old(columns)
    {
      labels := newLabels;
    }

    /** `df[l] = values`. */
    method SetColumn(l: string, values: seq<Cell>)
      requires Valid() && |values| == rows
      modifies this
      ensures Valid() && rows == old(rows)
      ensures Snapshot() == Assign(old(Snapshot()), l, values)
    {
      AssignShaped(Snapshot(), rows, l, values);
      var t := Assign(Snapshot(), l, values);
      labels, columns := t.labels, t.columns;
    }
  }
}
