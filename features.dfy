/**
 * The preparation and feature-derivation steps of the analysis script as
 * functions on table values: guessing and parsing the date column, the
 * numeric allow-list, tenure in days and age buckets.  Library parsing
 * (`pd.to_datetime`, `pd.to_numeric`) is an opaque partial parser passed in
 * as a function; its failure is a null cell, never an exception.
 */
module Features {
  import opened Wrappers
  import opened Labels
  import opened Table

  /** Why the script stops with an uncaught exception. */
  datatype Failure =
    | NotASingleColumn(column: string)   // `df[col]` named several columns
    | NotDates(column: string)           // date arithmetic on a column that holds other values
    | NotNumbers(column: string)         // `pd.cut` on a column that holds other values
    | EmptyReduction(column: string)     // `np.nanmin` of a column with no rows

  datatype Outcome = Done(table: Table) | Raised(failure: Failure)

  // ---------------------------------------------------------------------
  // Guessing the date column
  // ---------------------------------------------------------------------

  /** The test of line 35: the label contains `date`, `joined` or `signup` somewhere. */
  predicate IsDateLabel(l: string)
    ensures IsDateLabel(l) <==>
              exists i: nat :: OccursAt(l, "date", i) || OccursAt(l, "joined", i) || OccursAt(l, "signup", i)
  {
    Contains(l, "date") || Contains(l, "joined") || Contains(l, "signup")
  }

  /** `update` contains `date`, so `last_update` is taken for a date column. */
  lemma LastUpdateIsDateLabel(l: string)
    requires l == "last_update"
    ensures IsDateLabel(l)
  {
    assert l[7..11] == "date";
    assert OccursAt(l, "date", 7);
  }

  /** A label shorter than every keyword is never date-like. */
  lemma AgeIsNotDateLabel(l: string)
    requires l == "age"
    ensures !IsDateLabel(l)
  {
    assert forall i: nat :: !OccursAt(l, "date", i) && !OccursAt(l, "joined", i) && !OccursAt(l, "signup", i);
  }

  /** `date_cols[0]`: the first label, in column order, that looks like a date. */
  function FirstDateColumn(labels: seq<string>): (r: Option<nat>)
    ensures r.None? <==> forall k :: 0 <= k < |labels| ==> !IsDateLabel(labels[k])
    ensures r.Some? ==> r.value < |labels| && IsDateLabel(labels[r.value])
    ensures r.Some? ==> forall k :: 0 <= k < r.value ==> !IsDateLabel(labels[k])
  {
    if labels == [] then None
    else if IsDateLabel(labels[0]) then Some(0)
    else match FirstDateColumn(labels[1..])
      case None => None
      case Some(i) => Some(i + 1)
  }

  function ParseDateCell(c: Cell, parseDate: Value -> Option<int>): Cell {
    match c
    case None => None
    case Some(v) => if parseDate(v).Some? then Some(Date(parseDate(v).value)) else None
  }

  /** `pd.to_datetime(col, errors='coerce')`. */
  function DateCells(cells: seq<Cell>, parseDate: Value -> Option<int>): (r: seq<Cell>)
    ensures |r| == |cells|
    ensures forall i :: 0 <= i < |r| ==> r[i].None? || r[i].value.Date?
    ensures forall i :: 0 <= i < |r| ==> (r[i].Some? <==> cells[i].Some? && parseDate(cells[i].value).Some?)
    ensures forall i :: 0 <= i < |r| && r[i].Some? ==> r[i] == Some(Date(parseDate(cells[i].value).value))
  {
    seq(|cells|, i requires 0 <= i < |cells| => ParseDateCell(cells[i], parseDate))
  }

  /**
   * Lines 35-40: parse the first date-like column in place.  When its label
   * names several columns pandas raises and the bare `except` swallows it.
   */
  function ParseDateColumn(t: Table, parseDate: Value -> Option<int>): (r: Table)
    requires |t.labels| == |t.columns|
    ensures r.labels == t.labels && |r.columns| == |t.columns|
    ensures forall i :: 0 <= i < |t.columns| ==> |r.columns[i]| == |t.columns[i]|
  {
    match FirstDateColumn(t.labels)
    case None => t
    case Some(i) =>
      if Find(t.labels, t.labels[i]).Duplicated? then t
      else Assign(t, t.labels[i], DateCells(t.columns[i], parseDate))
  }

  /** Only the guessed date column changes, and it then holds dates or nulls. */
  lemma ParseDateColumnEffect(t: Table, parseDate: Value -> Option<int>)
    requires |t.labels| == |t.columns|
    ensures var r := ParseDateColumn(t, parseDate);
            match FirstDateColumn(t.labels)
            case None => r == t
            case Some(i) =>
              if multiset(t.labels)[t.labels[i]] >= 2 then r == t
              else
                && r.columns[i] == DateCells(t.columns[i], parseDate)
                && forall j :: 0 <= j < |t.columns| && j != i ==> r.columns[j] == t.columns[j]
  {
    match FirstDateColumn(t.labels)
    case None =>
    case Some(i) =>
      var f := Find(t.labels, t.labels[i]);
      if !f.Duplicated? {
        assert f == Unique(i);
      }
  }

  /**
   * The label whose column lines 35-40 convert to dates: none when no label
   * is date-like, or when the conversion raised and was swallowed.
   */
  function ParsedDateLabel(labels: seq<string>): (r: Option<string>)
    ensures r.Some? ==> r.value in labels && IsDateLabel(r.value) && Find(labels, r.value).Unique?
    ensures r.None? <==>
              FirstDateColumn(labels).None? || multiset(labels)[labels[FirstDateColumn(labels).value]] >= 2
    ensures r.Some? ==> r.value == labels[FirstDateColumn(labels).value]
  {
    match FirstDateColumn(labels)
    case None => None
    case Some(i) => if Find(labels, labels[i]).Duplicated? then None else Some(labels[i])
  }

  /** The column of the parsed label holds dates or nulls afterwards. */
  lemma ParsedLabelHoldsDates(t: Table, parseDate: Value -> Option<int>)
    requires |t.labels| == |t.columns| && ParsedDateLabel(t.labels).Some?
    ensures var r := ParseDateColumn(t, parseDate);
            var i := Find(t.labels, ParsedDateLabel(t.labels).value).index;
            r.columns[i] == DateCells(t.columns[i], parseDate) && DatesOrNulls(r.columns[i])
  {
    ParseDateColumnEffect(t, parseDate);
    var i := FirstDateColumn(t.labels).value;
    assert Find(t.labels, t.labels[i]) == Unique(i);
  }

  // ---------------------------------------------------------------------
  // Numeric allow-list
  // ---------------------------------------------------------------------

  const NumericColumns: seq<string> :=
    ["age", "annual_spend", "spend", "total_spend", "orders", "purchases", "tenure", "days_as_customer"]

  function ParseNumberCell(c: Cell, parseNumber: Value -> Option<real>): Cell {
    match c
    case None => None
    case Some(v) => if parseNumber(v).Some? then Some(Number(parseNumber(v).value)) else None
  }

  /** `pd.to_numeric(col, errors='coerce')`. */
  function NumberCells(cells: seq<Cell>, parseNumber: Value -> Option<real>): (r: seq<Cell>)
    ensures |r| == |cells|
    ensures forall i :: 0 <= i < |r| ==> r[i].None? || r[i].value.Number?
    ensures forall i :: 0 <= i < |r| ==> (r[i].Some? <==> cells[i].Some? && parseNumber(cells[i].value).Some?)
    ensures forall i :: 0 <= i < |r| && r[i].Some? ==> r[i] == Some(Number(parseNumber(cells[i].value).value))
  {
    seq(|cells|, i requires 0 <= i < |cells| => ParseNumberCell(cells[i], parseNumber))
  }

  /** One turn of the loop on lines 44-46. */
  function CoerceStep(t: Table, col: string, parseNumber: Value -> Option<real>): (r: Outcome)
    requires |t.labels| == |t.columns|
    ensures col !in t.labels ==> r == Done(t)
    ensures r.Raised? ==> r.failure == NotASingleColumn(col) && col in t.labels
    ensures r.Done? ==> r.table.labels == t.labels && |r.table.columns| == |t.columns|
  {
    match Find(t.labels, col)
    case Missing => Done(t)
    case Duplicated => Raised(NotASingleColumn(col))
    case Unique(i) => Done(Assign(t, col, NumberCells(t.columns[i], parseNumber)))
  }

  /** The loop on lines 44-46 over the names `cols`, in order, stopping at the first exception. */
  function CoerceAll(t: Table, cols: seq<string>, parseNumber: Value -> Option<real>): (r: Outcome)
    requires |t.labels| == |t.columns|
    ensures r.Done? ==> r.table.labels == t.labels && |r.table.columns| == |t.columns|
    ensures r.Done? ==> forall i :: 0 <= i < |t.columns| ==> |r.table.columns[i]| == |t.columns[i]|
    ensures r.Raised? ==> r.failure.NotASingleColumn? && r.failure.column in cols && r.failure.column in t.labels
  {
    if cols == [] then Done(t)
    else match CoerceAll(t, cols[..|cols| - 1], parseNumber)
      case Raised(f) => Raised(f)
      case Done(t') => CoerceStep(t', cols[|cols| - 1], parseNumber)
  }

  predicate DistinctNames(cols: seq<string>) {
    forall i, j :: 0 <= i < j < |cols| ==> cols[i] != cols[j]
  }

  lemma NumericColumnsDistinct()
    ensures DistinctNames(NumericColumns)
  {
  }

  /** Some name of `cols` labels two or more columns. */
  predicate SomeDuplicated(labels: seq<string>, cols: seq<string>) {
    exists j :: 0 <= j < |cols| && multiset(labels)[cols[j]] >= 2
  }

  /**
   * Numeric coercion changes exactly the listed columns that are present,
   * keeps the header row, and raises exactly when a listed name labels
   * several columns.
   */
  lemma {:induction false} CoerceAllEffect(t: Table, cols: seq<string>, parseNumber: Value -> Option<real>)
    requires |t.labels| == |t.columns| && DistinctNames(cols)
    ensures CoerceAll(t, cols, parseNumber).Raised? <==> SomeDuplicated(t.labels, cols)
    ensures CoerceAll(t, cols, parseNumber).Done? ==>
              forall i :: 0 <= i < |t.columns| ==>
                CoerceAll(t, cols, parseNumber).table.columns[i] ==
                  if t.labels[i] in cols then NumberCells(t.columns[i], parseNumber) else t.columns[i]
  {
    if cols != [] {
      var n := |cols| - 1;
      var pre, c := cols[..n], cols[n];
      assert cols == pre + [c];
      assert DistinctNames(pre);
      CoerceAllEffect(t, pre, parseNumber);
      SomeDuplicatedSnoc(t.labels, pre, c);
      var prev := CoerceAll(t, pre, parseNumber);
      if prev.Done? {
        CoerceStepEffect(prev.table, c, parseNumber);
        assert c !in pre;
        var r := CoerceAll(t, cols, parseNumber);
        forall i | 0 <= i < |t.columns|
          ensures r.Done? ==>
                    r.table.columns[i] == if t.labels[i] in cols then NumberCells(t.columns[i], parseNumber) else t.columns[i]
        {
          assert t.labels[i] in cols <==> t.labels[i] in pre || t.labels[i] == c;
        }
      }
    }
  }

  lemma SomeDuplicatedSnoc(labels: seq<string>, pre: seq<string>, c: string)
    ensures SomeDuplicated(labels, pre + [c]) <==> SomeDuplicated(labels, pre) || multiset(labels)[c] >= 2
  {
    var cols := pre + [c];
    assert forall j :: 0 <= j < |pre| ==> cols[j] == pre[j];
    assert cols[|pre|] == c;
  }

  /** One iteration of the loop: it raises exactly on a duplicated name, else coerces that name's column only. */
  lemma CoerceStepEffect(t: Table, c: string, parseNumber: Value -> Option<real>)
    requires |t.labels| == |t.columns|
    ensures CoerceStep(t, c, parseNumber).Raised? <==> multiset(t.labels)[c] >= 2
    ensures CoerceStep(t, c, parseNumber).Done? ==>
              var r := CoerceStep(t, c, parseNumber).table;
              r.labels == t.labels &&
              forall i :: 0 <= i < |t.columns| ==>
                r.columns[i] == if t.labels[i] == c then NumberCells(t.columns[i], parseNumber) else t.columns[i]
  {
  }

  /** With distinct labels the numeric loop runs to the end and coerces exactly the allow-listed columns. */
  lemma CoerceDistinct(t: Table, parseNumber: Value -> Option<real>)
    requires |t.labels| == |t.columns| && DistinctNames(t.labels)
    ensures CoerceAll(t, NumericColumns, parseNumber).Done?
    ensures forall i :: 0 <= i < |t.columns| ==>
              CoerceAll(t, NumericColumns, parseNumber).table.columns[i] ==
                if t.labels[i] in NumericColumns then NumberCells(t.columns[i], parseNumber) else t.columns[i]
  {
    NumericColumnsDistinct();
    CoerceAllEffect(t, NumericColumns, parseNumber);
    assert !SomeDuplicated(t.labels, NumericColumns) by {
      forall j | 0 <= j < |NumericColumns| ensures multiset(t.labels)[NumericColumns[j]] <= 1 {
        DistinctCount(t.labels, NumericColumns[j]);
      }
    }
  }

  // ---------------------------------------------------------------------
  // Tenure
  // ---------------------------------------------------------------------

  const TenureCandidates: seq<string> := ["joindate", "join_date", "signup_date"]

  /** `next((c for c in cands if c in labels), None)`, as an index into `cands`. */
  function FirstPresent(cands: seq<string>, labels: seq<string>): (r: Option<nat>)
    ensures r.None? <==> forall k :: 0 <= k < |cands| ==> cands[k] !in labels
    ensures r.Some? ==> r.value < |cands| && cands[r.value] in labels
    ensures r.Some? ==> forall k :: 0 <= k < r.value ==> cands[k] !in labels
  {
    if cands == [] then None
    else if cands[0] in labels then Some(0)
    else match FirstPresent(cands[1..], labels)
      case None => None
      case Some(i) => Some(i + 1)
  }

  /** Line 56: the column tenure is computed from. */
  function TenureSource(labels: seq<string>): (r: Option<string>)
    ensures r.Some? ==> r.value in labels && r.value in TenureCandidates
  {
    match FirstPresent(TenureCandidates, labels)
    case None => None
    case Some(i) => Some(TenureCandidates[i])
  }

  /** The guard on line 55. */
  predicate AnyTenureCandidate(labels: seq<string>) {
    exists k :: 0 <= k < |TenureCandidates| && TenureCandidates[k] in labels
  }

  /** The `any` guard holds exactly when `next` finds a column, so line 57's check never fails. */
  lemma TenureGuardAgrees(labels: seq<string>)
    ensures AnyTenureCandidate(labels) <==> TenureSource(labels).Some?
  {
  }

  /** The priority order of the tenure source. */
  lemma TenureSourcePriority(labels: seq<string>)
    ensures "joindate" in labels ==> TenureSource(labels) == Some("joindate")
    ensures "joindate" !in labels && "join_date" in labels ==> TenureSource(labels) == Some("join_date")
    ensures "joindate" !in labels && "join_date" !in labels && "signup_date" in labels ==>
              TenureSource(labels) == Some("signup_date")
    ensures "joindate" !in labels && "join_date" !in labels && "signup_date" !in labels ==>
              TenureSource(labels) == None
  {
    assert TenureCandidates[0] == "joindate" && TenureCandidates[1] == "join_date";
    assert TenureCandidates[2] == "signup_date" && |TenureCandidates| == 3;
  }

  /** `(today - d).days.clip(lower=0)` for whole-day dates. */
  function ClippedDays(today: int, day: int): (r: nat)
    ensures today >= day ==> r == today - day
    ensures today < day ==> r == 0
  {
    if today - day < 0 then 0 else today - day
  }

  predicate DatesOrNulls(cells: seq<Cell>) {
    forall i :: 0 <= i < |cells| ==> cells[i].None? || cells[i].value.Date?
  }

  function TenureCell(c: Cell, today: int): Cell
    requires c.None? || c.value.Date?
  {
    match c
    case None => None
    case Some(v) => Some(Number(ClippedDays(today, v.day) as real))
  }

  /** Line 59 on a column of dates: nulls stay null, every day count is at least 0. */
  function TenureCells(cells: seq<Cell>, today: int): (r: seq<Cell>)
    requires DatesOrNulls(cells)
    ensures |r| == |cells|
    ensures forall i :: 0 <= i < |r| ==> (r[i].None? <==> cells[i].None?)
    ensures forall i :: 0 <= i < |r| && r[i].Some? ==>
              r[i].value.Number? && r[i].value.x >= 0.0 && r[i].value.x.Floor as real == r[i].value.x
    ensures forall i :: 0 <= i < |r| && cells[i].Some? ==>
              r[i] == Some(Number(ClippedDays(today, cells[i].value.day) as real))
  {
    seq(|cells|, i requires 0 <= i < |cells| => TenureCell(cells[i], today))
  }

  /**
   * Lines 55-59.  `parsed` is the label lines 35-40 converted to dates.
   * The subtraction only works on that column: any other source still has
   * the type `read_csv` gave it (text, or floats when it is all empty),
   * and the subtraction or `.dt` raises whatever its cells hold.
   */
  function AddTenure(t: Table, parsed: Option<string>, today: int): (r: Outcome)
    requires |t.labels| == |t.columns|
    ensures TenureSource(t.labels).None? ==> r == Done(t)
    ensures r.Raised? ==>
              TenureSource(t.labels).Some? && r.failure.column == TenureSource(t.labels).value &&
              (r.failure.NotASingleColumn? || r.failure.NotDates?)
    ensures r.Done? && TenureSource(t.labels).Some? ==> parsed == TenureSource(t.labels)
    ensures r.Done? ==> r.table.labels == t.labels || r.table.labels == t.labels + ["days_as_customer"]
    ensures r.Done? ==> |r.table.labels| == |r.table.columns|
  {
    match TenureSource(t.labels)
    case None => Done(t)
    case Some(l) =>
      match Find(t.labels, l)
      case Missing => assert false; Done(t)
      case Duplicated => Raised(NotASingleColumn(l))
      case Unique(i) =>
        if parsed == Some(l) && DatesOrNulls(t.columns[i]) then
          Done(Assign(t, "days_as_customer", TenureCells(t.columns[i], today)))
        else Raised(NotDates(l))
  }

  /**
   * Tenure is added exactly when a source column exists, then holds
   * whole non-negative day counts, one per row.
   */
  lemma AddTenureEffect(t: Table, parsed: Option<string>, today: int)
    requires |t.labels| == |t.columns| && Find(t.labels, "days_as_customer") != Duplicated
    ensures TenureSource(t.labels).None? ==> AddTenure(t, parsed, today) == Done(t)
    ensures AddTenure(t, parsed, today).Done? && TenureSource(t.labels).Some? ==>
              var r := AddTenure(t, parsed, today).table;
              && Find(r.labels, "days_as_customer").Unique?
              && var col := r.columns[Find(r.labels, "days_as_customer").index];
                 && col == TenureCells(t.columns[Find(t.labels, TenureSource(t.labels).value).index], today)
                 && forall k :: 0 <= k < |col| && col[k].Some? ==> col[k].value.Number? && col[k].value.x >= 0.0
  {
    match TenureSource(t.labels)
    case None =>
    case Some(l) =>
      match Find(t.labels, l)
      case Missing =>
      case Duplicated =>
      case Unique(i) =>
        if parsed == Some(l) && DatesOrNulls(t.columns[i]) {
          AssignThenFind(t, "days_as_customer", TenureCells(t.columns[i], today));
        }
  }

  // ---------------------------------------------------------------------
  // Age groups
  // ---------------------------------------------------------------------

  /** `bins` on line 75: the six half-open intervals [AgeBins[k], AgeBins[k + 1]). */
  const AgeBins: seq<int> := [0, 18, 25, 35, 45, 55, 999]
  const AgeGroups: seq<AgeGroup> := [Under18, Age18To24, Age25To34, Age35To44, Age45To54, Age55Plus]
  /** `labels` on line 76. */
  const AgeLabels: seq<string> := ["<18", "18-24", "25-34", "35-44", "45-54", "55+"]

  /** Position of a bucket in bin order. */
  function Rank(g: AgeGroup): (r: nat)
    ensures r < |AgeGroups| && AgeGroups[r] == g
  {
    match g
    case Under18 => 0
    case Age18To24 => 1
    case Age25To34 => 2
    case Age35To44 => 3
    case Age45To54 => 4
    case Age55Plus => 5
  }

  function GroupLabel(g: AgeGroup): string {
    AgeLabels[Rank(g)]
  }

  /** The first bin, from `k` on, whose interval holds `x`. */
  function BinFrom(x: real, k: nat): (r: Option<nat>)
    requires k < |AgeGroups| && AgeBins[k] as real <= x
    ensures r.Some? <==> x < 999.0
    ensures r.Some? ==> k <= r.value < |AgeGroups| && AgeBins[r.value] as real <= x < AgeBins[r.value + 1] as real
    decreases |AgeGroups| - k
  {
    if x < AgeBins[k + 1] as real then Some(k)
    else if k + 1 == |AgeGroups| then None
    else BinFrom(x, k + 1)
  }

  /** `pd.cut(age, bins, labels, right=False)` for one non-null age. */
  function AgeBucket(x: real): (r: Option<AgeGroup>)
    ensures r.Some? <==> 0.0 <= x < 999.0
    ensures r.Some? ==> AgeBins[Rank(r.value)] as real <= x < AgeBins[Rank(r.value) + 1] as real
  {
    if x < 0.0 then None
    else match BinFrom(x, 0)
      case None => None
      case Some(k) => Some(AgeGroups[k])
  }

  /** Bucketing is monotone in age. */
  lemma AgeBucketMonotone(x: real, y: real)
    requires x <= y && AgeBucket(x).Some? && AgeBucket(y).Some?
    ensures Rank(AgeBucket(x).value) <= Rank(AgeBucket(y).value)
  {
  }

  /** The boundary cases: the lower bound of a bin is in it, the upper bound is not. */
  lemma AgeBucketBoundaries()
    ensures AgeBucket(17.0) == Some(Under18)
    ensures AgeBucket(18.0) == Some(Age18To24)
    ensures AgeBucket(24.5) == Some(Age18To24)
    ensures AgeBucket(55.0) == Some(Age55Plus)
    ensures AgeBucket(998.0) == Some(Age55Plus)
    ensures AgeBucket(999.0) == None
    ensures AgeBucket(-1.0) == None
    ensures GroupLabel(Under18) == "<18" && GroupLabel(Age55Plus) == "55+"
  {
  }

  predicate NumbersOrNulls(cells: seq<Cell>) {
    forall i :: 0 <= i < |cells| ==> cells[i].None? || cells[i].value.Number?
  }

  function AgeCell(c: Cell): Cell
    requires c.None? || c.value.Number?
  {
    match c
    case None => None
    case Some(v) => if AgeBucket(v.x).Some? then Some(Group(AgeBucket(v.x).value)) else None
  }

  /** Line 77 on a numeric column: null, negative and out-of-range ages get no bucket. */
  function AgeCells(cells: seq<Cell>): (r: seq<Cell>)
    requires NumbersOrNulls(cells)
    ensures |r| == |cells|
    ensures forall i :: 0 <= i < |r| ==>
              (r[i].Some? <==> cells[i].Some? && 0.0 <= cells[i].value.x < 999.0)
    ensures forall i :: 0 <= i < |r| && r[i].Some? ==>
              r[i].value.Group? && r[i].value == Group(AgeBucket(cells[i].value.x).value)
  {
    seq(|cells|, i requires 0 <= i < |cells| => AgeCell(cells[i]))
  }

  /** Lines 74-77. */
  function AddAgeGroup(t: Table): (r: Outcome)
    requires |t.labels| == |t.columns|
    ensures "age" !in t.labels ==> r == Done(t)
    ensures r.Raised? ==> "age" in t.labels && (r.failure == NotASingleColumn("age") || r.failure == NotNumbers("age"))
    ensures r.Done? ==> |r.table.labels| == |r.table.columns|
  {
    match Find(t.labels, "age")
    case Missing => Done(t)
    case Duplicated => Raised(NotASingleColumn("age"))
    case Unique(i) =>
      if NumbersOrNulls(t.columns[i]) then Done(Assign(t, "age_group", AgeCells(t.columns[i])))
      else Raised(NotNumbers("age"))
  }

  /**
   * Without an `age` column nothing changes; the step raises exactly when
   * `age` is duplicated or holds something other than numbers and nulls;
   * otherwise `age_group` names one column holding the bucket of each age.
   */
  lemma AddAgeGroupEffect(t: Table)
    requires |t.labels| == |t.columns| && Find(t.labels, "age_group") != Duplicated
    ensures "age" !in t.labels ==> AddAgeGroup(t) == Done(t)
    ensures AddAgeGroup(t).Raised? <==>
              Find(t.labels, "age").Duplicated? ||
              (Find(t.labels, "age").Unique? && !NumbersOrNulls(t.columns[Find(t.labels, "age").index]))
    ensures AddAgeGroup(t).Done? && "age" in t.labels ==>
              var r := AddAgeGroup(t).table;
              var age := t.columns[IndexOf(t.labels, "age")];
              && Find(r.labels, "age_group").Unique?
              && NumbersOrNulls(age)
              && r.columns[Find(r.labels, "age_group").index] == AgeCells(age)
  {
    match Find(t.labels, "age")
    case Missing =>
    case Duplicated =>
    case Unique(i) =>
      if NumbersOrNulls(t.columns[i]) {
        AssignThenFind(t, "age_group", AgeCells(t.columns[i]));
      }
  }

  /**
   * When `age_group` already labels several columns, line 77 writes the
   * buckets into every copy, except on the spreading path of `Assign`:
   * with as many copies as rows, copy `k` gets the bucket of row `k` in
   * every row.
   */
  lemma AddAgeGroupDuplicatedTarget(t: Table, rows: nat)
    requires Shaped(t, rows) && Find(t.labels, "age").Unique? && multiset(t.labels)["age_group"] >= 2
    requires NumbersOrNulls(t.columns[Find(t.labels, "age").index])
    ensures AddAgeGroup(t).Done? && AddAgeGroup(t).table.labels == t.labels
    ensures var groups := AgeCells(t.columns[Find(t.labels, "age").index]);
            forall j :: 0 <= j < |t.labels| && t.labels[j] == "age_group" ==>
              AddAgeGroup(t).table.columns[j] ==
                if rows == multiset(t.labels)["age_group"] then Repeat(rows, groups[CopyRank(t.labels, "age_group", j)])
                else groups
  {
  }

  // ---------------------------------------------------------------------
  // The RFM block
  // ---------------------------------------------------------------------

  /**
   * Lines 62-71, as far as they decide whether the script goes on.  The
   * score columns themselves are not modelled.  `df[l].fillna(0)` on a
   * duplicated label is a sub-frame that cannot be stored in one column,
   * and `np.nanmin` of an array with no elements raises `ValueError`.
   * When `monetary` or `frequency` labels several columns, lines 63-64
   * fill all of them, `.values` on lines 66-67 is two-dimensional, and the
   * score of line 71 either fails to broadcast or cannot be stored in the
   * single column `rfm_score`.
   */
  function RfmScore(t: Table): (r: Outcome)
    requires |t.labels| == |t.columns|
    ensures r.Done? ==> r.table == t
    ensures r.Raised? ==> "orders" in t.labels && "annual_spend" in t.labels
    ensures r.Raised? ==> r.failure.column in t.labels
    ensures r.Raised? ==> r.failure.column in ["annual_spend", "orders", "monetary", "frequency"]
  {
    if "orders" in t.labels && "annual_spend" in t.labels then
      match Find(t.labels, "annual_spend")
      case Missing => assert false; Done(t)
      case Duplicated => Raised(NotASingleColumn("annual_spend"))
      case Unique(i) =>
        if Find(t.labels, "orders").Duplicated? then Raised(NotASingleColumn("orders"))
        else if t.columns[i] == [] then Raised(EmptyReduction("annual_spend"))
        else if Find(t.labels, "monetary").Duplicated? then Raised(NotASingleColumn("monetary"))
        else if Find(t.labels, "frequency").Duplicated? then Raised(NotASingleColumn("frequency"))
        else Done(t)
    else Done(t)
  }

  /**
   * The block stops the script exactly when both columns exist and the
   * table has no rows, or one of the four labels it reads or writes is
   * duplicated.
   */
  lemma RfmScoreEffect(t: Table, rows: nat)
    requires Shaped(t, rows)
    ensures RfmScore(t).Raised? <==>
              && "orders" in t.labels && "annual_spend" in t.labels
              && (|| rows == 0
                  || multiset(t.labels)["annual_spend"] >= 2 || multiset(t.labels)["orders"] >= 2
                  || multiset(t.labels)["monetary"] >= 2 || multiset(t.labels)["frequency"] >= 2)
  {
  }

  // ---------------------------------------------------------------------
  // The whole preparation
  // ---------------------------------------------------------------------

  /** Lines 35-77 on a table whose header is already normalised. */
  function Derive(t: Table, parseDate: Value -> Option<int>, parseNumber: Value -> Option<real>, today: int): (r: Outcome)
    requires |t.labels| == |t.columns|
    ensures r.Raised? ==> r.failure.column in t.labels
    ensures r.Done? ==> |r.table.labels| == |r.table.columns|
  {
    var t2 := ParseDateColumn(t, parseDate);
    match CoerceAll(t2, NumericColumns, parseNumber)
    case Raised(f) => Raised(f)
    case Done(t3) =>
      match AddTenure(t3, ParsedDateLabel(t.labels), today)
      case Raised(f) => Raised(f)
      case Done(t4) =>
        var r := Finish(t4);
        TenureKeepsLabel(t3, t4, if r.Raised? then r.failure.column else "");
        r
  }

  /** Lines 62-77: the RFM block, then the age groups. */
  function Finish(t: Table): (r: Outcome)
    requires |t.labels| == |t.columns|
    ensures r.Raised? ==> r.failure.column in t.labels && r.failure.column in ["annual_spend", "orders", "monetary", "frequency", "age"]
    ensures r.Done? ==> |r.table.labels| == |r.table.columns|
  {
    match RfmScore(t)
    case Raised(f) => Raised(f)
    case Done(t5) => AddAgeGroup(t5)
  }

  /** The tenure step appends at most `days_as_customer`, so a label the later steps raise on was there before it. */
  lemma TenureKeepsLabel(t3: Table, t4: Table, l: string)
    requires t4.labels == t3.labels || t4.labels == t3.labels + ["days_as_customer"]
    ensures l in t4.labels && l in ["annual_spend", "orders", "monetary", "frequency", "age"] ==> l in t3.labels
  {
    if l in t4.labels && l in ["annual_spend", "orders", "monetary", "frequency", "age"] {
      assert l != "days_as_customer";
    }
  }

  /** Lines 31-77: from the loaded table to the derived one. */
  function Prepare(t: Table, parseDate: Value -> Option<int>, parseNumber: Value -> Option<real>, today: int): (r: Outcome)
    requires |t.labels| == |t.columns|
    ensures r.Raised? ==> r.failure.column in NormaliseAll(t.labels) && IsCanonical(r.failure.column)
    ensures r.Done? ==> |t.labels| <= |r.table.labels| && r.table.labels[..|t.labels|] == NormaliseAll(t.labels)
  {
    var n := Table(NormaliseAll(t.labels), t.columns);
    DeriveHeader(n, parseDate, parseNumber, today);
    Derive(n, parseDate, parseNumber, today)
  }

  /** The columns the derivation may append, in the order it appends them. */
  const DerivedColumns: seq<string> := ["days_as_customer", "age_group"]

  lemma {:induction false} DistinctCount(labels: seq<string>, l: string)
    requires DistinctNames(labels)
    ensures multiset(labels)[l] <= 1
  {
    if labels != [] {
      var n := |labels| - 1;
      assert labels == labels[..n] + [labels[n]];
      assert DistinctNames(labels[..n]);
      DistinctCount(labels[..n], l);
      if labels[n] == l {
        assert l !in labels[..n];
      }
    }
  }

  /** Header effect of the tenure step. */
  lemma AddTenureLabels(t: Table, parsed: Option<string>, today: int)
    requires |t.labels| == |t.columns|
    ensures AddTenure(t, parsed, today).Done? ==>
              var r := AddTenure(t, parsed, today).table;
              && (r.labels == t.labels || r.labels == t.labels + ["days_as_customer"])
              && ("days_as_customer" in r.labels <==> "days_as_customer" in t.labels || TenureSource(t.labels).Some?)
  {
  }

  /** Header effect of the age step. */
  lemma AddAgeGroupLabels(t: Table)
    requires |t.labels| == |t.columns|
    ensures AddAgeGroup(t).Done? ==>
              var r := AddAgeGroup(t).table;
              && (r.labels == t.labels || r.labels == t.labels + ["age_group"])
              && ("age_group" in r.labels <==> "age_group" in t.labels || "age" in t.labels)
  {
  }

  /** The derivation keeps the header and appends at most `days_as_customer` and `age_group`. */
  lemma DeriveHeader(t: Table, parseDate: Value -> Option<int>, parseNumber: Value -> Option<real>, today: int)
    requires |t.labels| == |t.columns|
    ensures Derive(t, parseDate, parseNumber, today).Done? ==>
              var r := Derive(t, parseDate, parseNumber, today).table;
              && |t.labels| <= |r.labels| <= |t.labels| + 2
              && r.labels[..|t.labels|] == t.labels
              && (forall k :: |t.labels| <= k < |r.labels| ==> r.labels[k] in DerivedColumns)
              && ("days_as_customer" in r.labels <==> "days_as_customer" in t.labels || TenureSource(t.labels).Some?)
              && ("age_group" in r.labels <==> "age_group" in t.labels || "age" in t.labels)
  {
    var d := Derive(t, parseDate, parseNumber, today);
    if d.Done? {
      var t2 := ParseDateColumn(t, parseDate);
      var c := CoerceAll(t2, NumericColumns, parseNumber);
      assert c.Done?;
      var t3 := c.table;
      assert t3.labels == t.labels;
      var a := AddTenure(t3, ParsedDateLabel(t.labels), today);
      assert a.Done?;
      var t4 := a.table;
      assert d == Finish(t4);
      assert RfmScore(t4) == Done(t4);
      assert d == AddAgeGroup(t4);
      AddTenureLabels(t3, ParsedDateLabel(t.labels), today);
      AddAgeGroupLabels(t4);
      var l1, l2 := t4.labels, d.table.labels;
      assert l1 == t.labels || l1 == t.labels + ["days_as_customer"];
      assert l2 == l1 || l2 == l1 + ["age_group"];
      HeaderGrowth(t.labels, l1, l2);
    }
  }

  /** Two appends of derived columns, seen from the original header. */
  lemma HeaderGrowth(l0: seq<string>, l1: seq<string>, l2: seq<string>)
    requires l1 == l0 || l1 == l0 + ["days_as_customer"]
    requires l2 == l1 || l2 == l1 + ["age_group"]
    ensures |l0| <= |l2| <= |l0| + 2 && l2[..|l0|] == l0
    ensures forall k :: |l0| <= k < |l2| ==> l2[k] in DerivedColumns
    ensures "age" in l1 <==> "age" in l0
    ensures "age_group" in l1 <==> "age_group" in l0
    ensures "days_as_customer" in l2 <==> "days_as_customer" in l1
  {
    assert l2[..|l0|] == l0 by {
      assert l1[..|l0|] == l0;
      assert l2[..|l1|] == l1;
    }
  }

  lemma AddTenureShaped(t: Table, rows: nat, parsed: Option<string>, today: int)
    requires Shaped(t, rows)
    ensures AddTenure(t, parsed, today).Done? ==> Shaped(AddTenure(t, parsed, today).table, rows)
  {
    match TenureSource(t.labels)
    case None =>
    case Some(l) =>
      match Find(t.labels, l)
      case Missing =>
      case Duplicated =>
      case Unique(i) =>
        if parsed == Some(l) && DatesOrNulls(t.columns[i]) {
          AssignShaped(t, rows, "days_as_customer", TenureCells(t.columns[i], today));
        }
  }

  lemma AddAgeGroupShaped(t: Table, rows: nat)
    requires Shaped(t, rows)
    ensures AddAgeGroup(t).Done? ==> Shaped(AddAgeGroup(t).table, rows)
  {
    match Find(t.labels, "age")
    case Missing =>
    case Duplicated =>
    case Unique(i) =>
      if NumbersOrNulls(t.columns[i]) {
        AssignShaped(t, rows, "age_group", AgeCells(t.columns[i]));
      }
  }

  /** Parsing and coercion keep the header and one cell per row in every column. */
  lemma CoerceStageShaped(t: Table, t3: Table, rows: nat, parseDate: Value -> Option<int>, parseNumber: Value -> Option<real>)
    requires Shaped(t, rows) && CoerceAll(ParseDateColumn(t, parseDate), NumericColumns, parseNumber) == Done(t3)
    ensures Shaped(t3, rows) && t3.labels == t.labels
  {
    assert Shaped(ParseDateColumn(t, parseDate), rows);
  }

  /** Parsing, coercion and tenure keep one cell per row in every column, and the original header is kept. */
  lemma TenureStageShaped(t: Table, t3: Table, t4: Table, rows: nat, parseDate: Value -> Option<int>,
                          parseNumber: Value -> Option<real>, today: int)
    requires Shaped(t, rows) && CoerceAll(ParseDateColumn(t, parseDate), NumericColumns, parseNumber) == Done(t3)
    requires AddTenure(t3, ParsedDateLabel(t.labels), today) == Done(t4)
    ensures Shaped(t4, rows) && (t4.labels == t.labels || t4.labels == t.labels + ["days_as_customer"])
  {
    CoerceStageShaped(t, t3, rows, parseDate, parseNumber);
    AddTenureShaped(t3, rows, ParsedDateLabel(t.labels), today);
  }

  /** The derivation keeps one cell per row in every column. */
  lemma DeriveShaped(t: Table, rows: nat, parseDate: Value -> Option<int>, parseNumber: Value -> Option<real>, today: int)
    requires Shaped(t, rows)
    ensures Derive(t, parseDate, parseNumber, today).Done? ==>
              Shaped(Derive(t, parseDate, parseNumber, today).table, rows)
  {
    var c := CoerceAll(ParseDateColumn(t, parseDate), NumericColumns, parseNumber);
    if c.Done? {
      var a := AddTenure(c.table, ParsedDateLabel(t.labels), today);
      if a.Done? {
        TenureStageShaped(t, c.table, a.table, rows, parseDate, parseNumber, today);
        AddAgeGroupShaped(a.table, rows);
      }
    }
  }

  /** A name of the numeric allow-list that labels two columns stops the script. */
  lemma DeriveRaisesOnDuplicateNumericLabel(t: Table, parseDate: Value -> Option<int>, parseNumber: Value -> Option<real>, today: int)
    requires |t.labels| == |t.columns| && SomeDuplicated(t.labels, NumericColumns)
    ensures Derive(t, parseDate, parseNumber, today).Raised?
  {
    NumericColumnsDistinct();
    CoerceAllEffect(ParseDateColumn(t, parseDate), NumericColumns, parseNumber);
  }

  /** A table with no rows that has both RFM inputs stops the script: `np.nanmin` meets an empty array. */
  lemma DeriveRaisesOnEmptyTable(t: Table, parseDate: Value -> Option<int>, parseNumber: Value -> Option<real>, today: int)
    requires Shaped(t, 0) && "orders" in t.labels && "annual_spend" in t.labels
    ensures Derive(t, parseDate, parseNumber, today).Raised?
  {
    var c := CoerceAll(ParseDateColumn(t, parseDate), NumericColumns, parseNumber);
    if c.Done? {
      var a := AddTenure(c.table, ParsedDateLabel(t.labels), today);
      if a.Done? {
        TenureStageShaped(t, c.table, a.table, 0, parseDate, parseNumber, today);
        var l := a.table.labels;
        assert "orders" in l && "annual_spend" in l;
        RfmScoreEffect(a.table, 0);
      }
    }
  }

  /** Distinct labels never make a lookup ambiguous. */
  lemma DistinctFind(labels: seq<string>, l: string)
    requires DistinctNames(labels)
    ensures Find(labels, l) != Duplicated
    ensures l in labels ==> Find(labels, l) == Unique(IndexOf(labels, l))
  {
    DistinctCount(labels, l);
  }

  /** None of the tenure sources is on the numeric allow-list. */
  lemma TenureSourceNotNumeric(labels: seq<string>)
    requires TenureSource(labels).Some?
    ensures TenureSource(labels).value !in NumericColumns
  {
  }

  /** The condition under which tenure can be computed: no source, or the source is the column parsed as dates. */
  predicate TenureFromParsed(labels: seq<string>)
    requires TenureSource(labels).Some? ==> TenureSource(labels).value in labels
  {
    TenureSource(labels).Some? ==> FirstDateColumn(labels) == Some(IndexOf(labels, TenureSource(labels).value))
  }

  /**
   * With distinct labels and at least one row, the script runs to the end
   * whenever tenure is computed from the column that was parsed as dates
   * (or not at all).
   */
  lemma DeriveSucceeds(t: Table, rows: nat, parseDate: Value -> Option<int>, parseNumber: Value -> Option<real>, today: int)
    requires Shaped(t, rows) && rows > 0 && DistinctNames(t.labels) && TenureFromParsed(t.labels)
    ensures Derive(t, parseDate, parseNumber, today).Done?
  {
    var t2 := ParseDateColumn(t, parseDate);
    CoerceDistinct(t2, parseNumber);
    var t3 := CoerceAll(t2, NumericColumns, parseNumber).table;
    TenureStepSucceeds(t, t2, t3, parseDate, parseNumber, today);
    var t4 := AddTenure(t3, ParsedDateLabel(t.labels), today).table;
    TenureStageShaped(t, t3, t4, rows, parseDate, parseNumber, today);
    RfmStepSucceeds(t.labels, t4, rows);
    AgeStepSucceeds(t4, t3, t2, parseNumber);
  }

  /** The RFM block after a successful tenure step on distinct labels with at least one row. */
  lemma RfmStepSucceeds(labels: seq<string>, t4: Table, rows: nat)
    requires DistinctNames(labels) && Shaped(t4, rows) && rows > 0
    requires t4.labels == labels || t4.labels == labels + ["days_as_customer"]
    ensures RfmScore(t4) == Done(t4)
  {
    DistinctCount(labels, "annual_spend");
    DistinctCount(labels, "orders");
    DistinctCount(labels, "monetary");
    DistinctCount(labels, "frequency");
    if t4.labels != labels {
      AppendKeepsCount(labels, "days_as_customer", "annual_spend");
      AppendKeepsCount(labels, "days_as_customer", "orders");
      AppendKeepsCount(labels, "days_as_customer", "monetary");
      AppendKeepsCount(labels, "days_as_customer", "frequency");
    }
    RfmScoreEffect(t4, rows);
  }

  lemma AppendKeepsCount(labels: seq<string>, x: string, y: string)
    requires x != y
    ensures multiset(labels + [x])[y] == multiset(labels)[y]
  {
    assert multiset(labels + [x]) == multiset(labels) + multiset{x};
  }

  /** The tenure step after parsing and coercion, under the conditions of `DeriveSucceeds`. */
  lemma TenureStepSucceeds(t: Table, t2: Table, t3: Table, parseDate: Value -> Option<int>,
                           parseNumber: Value -> Option<real>, today: int)
    requires |t.labels| == |t.columns| && DistinctNames(t.labels) && TenureFromParsed(t.labels)
    requires t2 == ParseDateColumn(t, parseDate)
    requires CoerceAll(t2, NumericColumns, parseNumber) == Done(t3)
    requires forall i :: 0 <= i < |t2.columns| ==>
               t3.columns[i] == if t2.labels[i] in NumericColumns then NumberCells(t2.columns[i], parseNumber) else t2.columns[i]
    ensures AddTenure(t3, ParsedDateLabel(t.labels), today).Done?
    ensures AddTenure(t3, ParsedDateLabel(t.labels), today).table == t3 ||
            exists v :: AddTenure(t3, ParsedDateLabel(t.labels), today).table == Assign(t3, "days_as_customer", v)
  {
    if TenureSource(t.labels).Some? {
      var l := TenureSource(t.labels).value;
      var j := IndexOf(t.labels, l);
      DistinctFind(t.labels, l);
      assert ParsedDateLabel(t.labels) == Some(l);
      ParsedLabelHoldsDates(t, parseDate);
      TenureSourceNotNumeric(t.labels);
      assert t3.columns[j] == t2.columns[j];
      assert Find(t3.labels, l) == Unique(j);
      assert DatesOrNulls(t3.columns[j]);
      var v := TenureCells(t3.columns[j], today);
      TenureFrom(t3, Some(l), l, j, today);
      assert AddTenure(t3, Some(l), today) == Done(Assign(t3, "days_as_customer", v));
    }
  }

  /** The tenure step once its source is known to be the single column `j`. */
  lemma TenureFrom(t: Table, parsed: Option<string>, l: string, j: nat, today: int)
    requires |t.labels| == |t.columns| && TenureSource(t.labels) == Some(l) && Find(t.labels, l) == Unique(j)
    ensures AddTenure(t, parsed, today) ==
              if parsed == Some(l) && DatesOrNulls(t.columns[j]) then
                Done(Assign(t, "days_as_customer", TenureCells(t.columns[j], today)))
              else Raised(NotDates(l))
  {
  }

  /** The age step after a successful coercion of distinct labels. */
  lemma AgeStepSucceeds(t4: Table, t3: Table, t2: Table, parseNumber: Value -> Option<real>)
    requires |t2.labels| == |t2.columns| && DistinctNames(t2.labels)
    requires CoerceAll(t2, NumericColumns, parseNumber) == Done(t3)
    requires forall i :: 0 <= i < |t2.columns| ==>
               t3.columns[i] == if t2.labels[i] in NumericColumns then NumberCells(t2.columns[i], parseNumber) else t2.columns[i]
    requires t4 == t3 || exists v :: t4 == Assign(t3, "days_as_customer", v)
    ensures |t4.labels| == |t4.columns| && AddAgeGroup(t4).Done?
  {
    DistinctCount(t2.labels, "age");
    var f := Find(t3.labels, "age");
    if t4 != t3 {
      var v :| t4 == Assign(t3, "days_as_customer", v);
      AssignKeepsOthers(t3, "days_as_customer", v, "age");
    }
    assert Find(t4.labels, "age") == f && !f.Duplicated?;
    if f.Unique? {
      var i := f.index;
      assert t2.labels[i] == "age" && "age" in NumericColumns;
      assert t4.columns[i] == t3.columns[i] == NumberCells(t2.columns[i], parseNumber);
      assert NumbersOrNulls(t4.columns[i]);
    }
  }

  /**
   * Tenure taken from a column that was not the one parsed as dates stops
   * the script, whatever that column holds: the date subtraction on line
   * 59 meets a column of text or of floats.
   */
  lemma DeriveRaisesOnUnparsedTenureSource(t: Table, parseDate: Value -> Option<int>, parseNumber: Value -> Option<real>, today: int)
    requires |t.labels| == |t.columns| && DistinctNames(t.labels) && !TenureFromParsed(t.labels)
    ensures Derive(t, parseDate, parseNumber, today) == Raised(NotDates(TenureSource(t.labels).value))
  {
    var l := TenureSource(t.labels).value;
    var j := IndexOf(t.labels, l);
    var t2 := ParseDateColumn(t, parseDate);
    var d := FirstDateColumn(t.labels);
    if d.Some? {
      DistinctFind(t.labels, t.labels[d.value]);
      assert d.value != j;
    }
    assert ParsedDateLabel(t.labels) != Some(l);
    CoerceDistinct(t2, parseNumber);
    var t3 := CoerceAll(t2, NumericColumns, parseNumber).table;
    DistinctFind(t.labels, l);
    TenureFrom(t3, ParsedDateLabel(t.labels), l, j, today);
  }

  /**
   * With distinct labels and at least one row, the script stops exactly
   * when the tenure source exists and is not the column parsed as dates.
   */
  lemma DeriveRaisesExactly(t: Table, rows: nat, parseDate: Value -> Option<int>, parseNumber: Value -> Option<real>, today: int)
    requires Shaped(t, rows) && rows > 0 && DistinctNames(t.labels)
    ensures Derive(t, parseDate, parseNumber, today).Raised? <==> !TenureFromParsed(t.labels)
  {
    if TenureFromParsed(t.labels) {
      DeriveSucceeds(t, rows, parseDate, parseNumber, today);
    } else {
      DeriveRaisesOnUnparsedTenureSource(t, parseDate, parseNumber, today);
    }
  }
}
