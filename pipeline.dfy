/**
 * The analysis script's preparation stage as it runs: statements that
 * update the one table `df` in place.  Each method is specified by the
 * function of module Features that gives the table it leaves behind, or
 * the exception that stops the script.
 */
module Pipeline {
  import opened Wrappers
  import opened Labels
  import opened Table
  import opened Features

  /** Line 32: `df.columns = df.columns.str.strip()...`. */
  method NormaliseHeader(df: Frame)
    requires df.Valid()
    modifies df
    ensures df.Valid() && df.rows == old(df.rows)
    ensures df.Snapshot() == Table(NormaliseAll(old(df.labels)), old(df.columns))
  {
    df.Relabel(NormaliseAll(df.labels));
  }

  /** Lines 35-40; `parsed` is the label whose column now holds dates, if any. */
  method ParseDates(df: Frame, parseDate: Value -> Option<int>) returns (parsed: Option<string>)
    requires df.Valid()
    modifies df
    ensures df.Valid() && df.rows == old(df.rows)
    ensures df.Snapshot() == ParseDateColumn(old(df.Snapshot()), parseDate)
    ensures parsed == ParsedDateLabel(old(df.labels))
  {
    parsed := None;
    var dateCol := FirstDateColumn(df.labels);
    if dateCol.Some? {
      var l := df.labels[dateCol.value];
      if !Find(df.labels, l).Duplicated? {
        df.SetColumn(l, DateCells(df.columns[dateCol.value], parseDate));
        parsed := Some(l);
      }
    }
  }

  /** Lines 43-46: the loop over the numeric allow-list. */
  method CoerceNumeric(df: Frame, parseNumber: Value -> Option<real>) returns (failure: Option<Failure>)
    requires df.Valid()
    modifies df
    ensures df.Valid() && df.rows == old(df.rows)
    ensures failure.None? ==> CoerceAll(old(df.Snapshot()), NumericColumns, parseNumber) == Done(df.Snapshot())
    ensures failure.Some? ==> CoerceAll(old(df.Snapshot()), NumericColumns, parseNumber) == Raised(failure.value)
  {
    ghost var start := df.Snapshot();
    for k := 0 to |NumericColumns|
      invariant df.Valid() && df.rows == old(df.rows)
      invariant CoerceAll(start, NumericColumns[..k], parseNumber) == Done(df.Snapshot())
    {
      var col := NumericColumns[k];
      ghost var prev := df.Snapshot();
      CoerceAllSnoc(start, NumericColumns, k, parseNumber);
      assert CoerceAll(start, NumericColumns[..k + 1], parseNumber) == CoerceStep(prev, col, parseNumber);
      match Find(df.labels, col)
      case Missing =>
      case Duplicated =>
        CoerceRaisedPersists(start, NumericColumns, k + 1, parseNumber);
        return Some(NotASingleColumn(col));
      case Unique(i) =>
        df.SetColumn(col, NumberCells(df.columns[i], parseNumber));
        assert df.Snapshot() == Assign(prev, col, NumberCells(prev.columns[i], parseNumber));
    }
    assert NumericColumns[..|NumericColumns|] == NumericColumns;
    return None;
  }

  /** One more name of the allow-list is one more loop turn. */
  lemma CoerceAllSnoc(t: Table, cols: seq<string>, k: nat, parseNumber: Value -> Option<real>)
    requires |t.labels| == |t.columns| && k < |cols|
    ensures CoerceAll(t, cols[..k + 1], parseNumber) ==
              match CoerceAll(t, cols[..k], parseNumber)
              case Raised(f) => Raised(f)
              case Done(t') => CoerceStep(t', cols[k], parseNumber)
  {
    assert cols[..k + 1][..k] == cols[..k];
  }

  /** An exception part-way through the loop is the outcome of the whole loop. */
  lemma {:induction false} CoerceRaisedPersists(t: Table, cols: seq<string>, k: nat, parseNumber: Value -> Option<real>)
    requires |t.labels| == |t.columns| && k <= |cols|
    requires CoerceAll(t, cols[..k], parseNumber).Raised?
    ensures CoerceAll(t, cols, parseNumber) == CoerceAll(t, cols[..k], parseNumber)
    decreases |cols| - k
  {
    if k < |cols| {
      assert cols[..k + 1][..k] == cols[..k];
      CoerceRaisedPersists(t, cols, k + 1, parseNumber);
    } else {
      assert cols[..k] == cols;
    }
  }

  /** Lines 55-59. */
  method AddTenureColumn(df: Frame, parsed: Option<string>, today: int) returns (failure: Option<Failure>)
    requires df.Valid()
    modifies df
    ensures df.Valid() && df.rows == old(df.rows)
    ensures failure.None? ==> AddTenure(old(df.Snapshot()), parsed, today) == Done(df.Snapshot())
    ensures failure.Some? ==> AddTenure(old(df.Snapshot()), parsed, today) == Raised(failure.value)
  {
    failure := None;
    var source := TenureSource(df.labels);
    if source.Some? {
      match Find(df.labels, source.value)
      case Missing =>
        assert false;
      case Duplicated =>
        return Some(NotASingleColumn(source.value));
      case Unique(i) =>
        if parsed != source || !DatesOrNulls(df.columns[i]) {
          return Some(NotDates(source.value));
        }
        df.SetColumn("days_as_customer", TenureCells(df.columns[i], today));
    }
  }

  /** Lines 62-71, as far as they decide whether the script goes on; the frame is not changed. */
  method CheckRfm(df: Frame) returns (failure: Option<Failure>)
    requires df.Valid()
    ensures failure.None? ==> RfmScore(df.Snapshot()) == Done(df.Snapshot())
    ensures failure.Some? ==> RfmScore(df.Snapshot()) == Raised(failure.value)
  {
    failure := None;
    if "orders" in df.labels && "annual_spend" in df.labels {
      match Find(df.labels, "annual_spend")
      case Missing =>
        assert false;
      case Duplicated =>
        failure := Some(NotASingleColumn("annual_spend"));
      case Unique(i) =>
        if Find(df.labels, "orders").Duplicated? {
          failure := Some(NotASingleColumn("orders"));
        } else if df.columns[i] == [] {
          failure := Some(EmptyReduction("annual_spend"));
        } else if Find(df.labels, "monetary").Duplicated? {
          failure := Some(NotASingleColumn("monetary"));
        } else if Find(df.labels, "frequency").Duplicated? {
          failure := Some(NotASingleColumn("frequency"));
        }
    }
  }

  /** Lines 74-77. */
  method AddAgeGroupColumn(df: Frame) returns (failure: Option<Failure>)
    requires df.Valid()
    modifies df
    ensures df.Valid() && df.rows == old(df.rows)
    ensures failure.None? ==> AddAgeGroup(old(df.Snapshot())) == Done(df.Snapshot())
    ensures failure.Some? ==> AddAgeGroup(old(df.Snapshot())) == Raised(failure.value)
  {
    failure := None;
    match Find(df.labels, "age")
    case Missing =>
    case Duplicated =>
      return Some(NotASingleColumn("age"));
    case Unique(i) =>
      if !NumbersOrNulls(df.columns[i]) {
        return Some(NotNumbers("age"));
      }
      df.SetColumn("age_group", AgeCells(df.columns[i]));
  }

  /** Lines 31-77: the table after preparation, or the exception that ends the script. */
  method Prepare(df: Frame, parseDate: Value -> Option<int>, parseNumber: Value -> Option<real>, today: int)
    returns (failure: Option<Failure>)
    requires df.Valid()
    modifies df
    ensures df.Valid() && df.rows == old(df.rows)
    ensures failure.None? ==> Features.Prepare(old(df.Snapshot()), parseDate, parseNumber, today) == Done(df.Snapshot())
    ensures failure.Some? ==> Features.Prepare(old(df.Snapshot()), parseDate, parseNumber, today) == Raised(failure.value)
  {
    NormaliseHeader(df);
    var parsed := ParseDates(df, parseDate);
    failure := CoerceNumeric(df, parseNumber);
    if failure.Some? { return; }
    failure := AddTenureColumn(df, parsed, today);
    if failure.Some? { return; }
    failure := CheckRfm(df);
    if failure.Some? { return; }
    failure := AddAgeGroupColumn(df);
  }
}
