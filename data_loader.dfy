/** Model of `load_cafe_data` (utils/data_loader.py): the per-row reconciliation loop that
    turns ragged CSV rows into fixed six-field rows, and the column-wise normalisation that
    turns those into typed records.  Reading the CSV file is not modelled: the input is the
    sequence of rows pandas produced, header row included. */
module DataLoader {
  import opened Wrappers
  import opened Text
  import opened Decimal

  /** A raw CSV cell as pandas reads it; `None` is a missing (NaN) cell. */
  type Cell = Option<string>

  type RawRow = seq<Cell>

  /** A point in time as pandas' date parser produces it. */
  datatype Timestamp = Timestamp(year: int, month: int, day: int, hour: nat, minute: nat, second: nat)

  /** `pd.to_datetime(..., errors='coerce')` on one string: `None` stands for NaT.
      The parser itself belongs to pandas and is a parameter of the model. */
  type DateParser = string -> Option<Timestamp>

  /** The six-field list the loop appends to `cleaned_rows`, in the order
      Location, Rating, Comment, TransactionDateTime, TransactionValue, FeedbackID.
      Only the date can be missing: the 7-cell repair may replace it with `None`. */
  datatype CleanRow = CleanRow(location: string, rating: string, comment: string,
                               dateTime: Option<string>, value: string, feedbackId: string)

  /** A row of the returned DataFrame after the type conversions; `None` is NaN / NaT. */
  datatype Record = Record(location: string, rating: Option<real>, comment: string,
                           dateTime: Option<Timestamp>, value: Option<real>, feedbackId: Option<real>)

  /** The `UnboundLocalError` raised when an unrecognised row reaches the append before
      any earlier row has assigned `cleaned`. */
  datatype LoadError = CleanedUnbound

  /** The six cells of a reconciled row, as the list the source builds. */
  function Fields(r: CleanRow): seq<Option<string>> {
    [Some(r.location), Some(r.rating), Some(r.comment), r.dateTime, Some(r.value), Some(r.feedbackId)]
  }

  // ---------------------------------------------------------------------------------
  // Row shapes

  /** `row.dropna().tolist()`: the present cells, in order, wherever the gaps are. */
  function Present(row: RawRow): (values: seq<string>)
    ensures |values| <= |row|
    ensures forall v :: v in values <==> Some(v) in row
  {
    if row == [] then []
    else (if row[0].Some? then [row[0].value] else []) + Present(row[1..])
  }

  lemma {:induction false} PresentConcat(a: RawRow, b: RawRow)
    ensures Present(a + b) == Present(a) + Present(b)
  {
    if a == [] {
      assert a + b == b;
    } else {
      assert (a + b)[1..] == a[1..] + b;
      PresentConcat(a[1..], b);
    }
  }

  /** A missing cell anywhere in the row, not only at its end, is dropped: an empty
      comment in the middle of a row makes the row one cell shorter. */
  lemma PresentDropsGap(a: RawRow, b: RawRow)
    ensures Present(a + [None] + b) == Present(a) + Present(b)
    ensures |Present(a + [None] + b)| == |Present(a)| + |Present(b)|
  {
    PresentConcat(a + [None], b);
    PresentConcat(a, [None]);
  }

  /** A row without missing cells keeps every cell, in order. */
  lemma {:induction false} PresentComplete(row: RawRow)
    requires forall k | 0 <= k < |row| :: row[k].Some?
    ensures |Present(row)| == |row|
    ensures forall k | 0 <= k < |row| :: Present(row)[k] == row[k].value
  {
    if row != [] {
      PresentComplete(row[1..]);
    }
  }

  /** The cell counts the loop has a branch for. */
  predicate Recognised(values: seq<string>) {
    5 <= |values| <= 8
  }

  // ---------------------------------------------------------------------------------
  // The repairs applied to 7-cell rows

  /** Transaction values above this are treated as entry errors in 7-cell rows. */
  const ValueOutlierLimit: real := 1000.0

  /** `str(v).replace('$', '').replace(',', '')`. */
  function StripCurrency(v: string): (r: string)
    ensures forall d :: d in r <==> d in v && d != '$' && d != ','
  {
    RemoveChar(RemoveChar(v, '$'), ',')
  }

  /** The value fails `float(...)` after stripping, or parses to more than the limit. */
  function IsValueOutlier(v: string): (outlier: bool)
    ensures !outlier <==> ParseNumber(StripCurrency(v)).Some? && ParseNumber(StripCurrency(v)).value <= ValueOutlierLimit
  {
    match ParseNumber(StripCurrency(v))
    case None => true
    case Some(x) => x > ValueOutlierLimit
  }

  /** `values[3] = None` when the default (month-first) parse gives NaT. */
  function RepairDate(date: string, parseDate: DateParser): (r: Option<string>)
    ensures r.None? <==> parseDate(date).None?
    ensures r.Some? ==> r.value == date && parseDate(r.value).Some?
  {
    if parseDate(date).None? then None else Some(date)
  }

  /** `values[4] = '0'` for an outlier; otherwise the original, unstripped string.
      Either way the result, stripped of `$` and `,`, parses to at most the limit. */
  function RepairValue(v: string): (r: string)
    ensures r == v || r == "0"
    ensures ParseNumber(StripCurrency(r)).Some?
    ensures ParseNumber(StripCurrency(r)).value <= ValueOutlierLimit
  {
    if IsValueOutlier(v) then
      assert StripCurrency("0") == "0";
      "0"
    else v
  }

  /** Repairing a value twice is repairing it once. */
  lemma RepairValueIdempotent(v: string)
    ensures RepairValue(RepairValue(v)) == RepairValue(v)
  {
  }

  /** A price written `$units.cc` converts, once its `$` is removed, to the amount. */
  lemma DollarPriceParses(c: nat)
    ensures RemoveChar("$" + FormatCents(c), '$') == FormatCents(c)
    ensures ParseNumber(FormatCents(c)) == Some(c as real / 100.0)
    ensures ',' !in FormatCents(c)
  {
    var f := FormatCents(c);
    CentsRoundTrip(c);
    ParsedHasNoSeparators(f);
    RemoveCharConcat("$", f, '$');
    RemoveCharAbsent(f, '$');
    assert RemoveChar("$", '$') == [];
  }

  /** On a price written `$units.cc` the repair keeps the original string up to and
      including exactly 1000.00, and writes `'0'` above it. */
  lemma RepairValueDollars(c: nat)
    ensures RepairValue("$" + FormatCents(c)) == if c <= 100000 then "$" + FormatCents(c) else "0"
  {
    var f := FormatCents(c);
    DollarPriceParses(c);
    RemoveCharAbsent(f, ',');
    assert StripCurrency("$" + f) == f;
    assert (c as real / 100.0 <= ValueOutlierLimit) == (c <= 100000);
  }

  // ---------------------------------------------------------------------------------
  // Per-row dispatch

  /** The `if`/`elif` chain on `len(values)`: the six-field row a recognised row becomes. */
  function ReconcileRow(values: seq<string>, parseDate: DateParser): (r: CleanRow)
    requires Recognised(values)
    ensures r.location == values[0] && r.rating == values[1]
    ensures r.comment == if |values| == 5 then "" else values[2]
    ensures r.feedbackId == if |values| == 7 then values[6] else values[|values| - 1]
    ensures r.dateTime.Some? ==> r.dateTime.value in values
    ensures r.value in values || r.value == "0"
  {
    if |values| == 6 then
      CleanRow(values[0], values[1], values[2], Some(values[3]), values[4], values[5])
    else if |values| == 5 then
      CleanRow(values[0], values[1], "", Some(values[2]), values[3], values[4])
    else if |values| == 7 then
      CleanRow(values[0], values[1], values[2], RepairDate(values[3], parseDate), RepairValue(values[4]), values[6])
    else
      CleanRow(values[0], values[1], values[2], Some(values[4]), values[5], values[7])
  }

  /** Six present cells are emitted unchanged, field for field. */
  lemma SixCellsUnchanged(values: seq<string>, parseDate: DateParser)
    requires |values| == 6
    ensures forall k | 0 <= k < 6 :: Fields(ReconcileRow(values, parseDate))[k] == Some(values[k])
  {
  }

  /** Five present cells: the comment is the empty string and the last three cells
      shift one place right. */
  lemma FiveCellsEmptyComment(values: seq<string>, parseDate: DateParser)
    requires |values| == 5
    ensures Fields(ReconcileRow(values, parseDate))
         == [Some(values[0]), Some(values[1]), Some(""), Some(values[2]), Some(values[3]), Some(values[4])]
  {
  }

  /** Seven present cells: cell 5 is discarded, the feedback id is cell 6, the date is
      kept exactly when it parses and the value exactly when it is not an outlier. */
  lemma SevenCellsRepaired(values: seq<string>, parseDate: DateParser)
    requires |values| == 7
    ensures var r := ReconcileRow(values, parseDate);
            r.location == values[0] && r.rating == values[1] && r.comment == values[2]
            && r.feedbackId == values[6]
            && (r.dateTime == None <==> parseDate(values[3]) == None)
            && (r.dateTime != None ==> r.dateTime == Some(values[3]))
            && (IsValueOutlier(values[4]) ==> r.value == "0")
            && (!IsValueOutlier(values[4]) ==> r.value == values[4])
  {
  }

  /** Eight present cells: the channel tag (cell 3) and the store code (cell 6) are
      dropped and the value is passed on without any outlier correction. */
  lemma EightCellsDropMetadata(values: seq<string>, parseDate: DateParser)
    requires |values| == 8
    ensures Fields(ReconcileRow(values, parseDate))
         == [Some(values[0]), Some(values[1]), Some(values[2]), Some(values[4]), Some(values[5]), Some(values[7])]
  {
  }

  // ---------------------------------------------------------------------------------
  // The reconciliation loop, as written

  /** `df_raw.iloc[1:]` with `dropna` applied to each row: the header row is skipped. */
  function DataRows(raw: seq<RawRow>): (data: seq<seq<string>>)
    ensures |data| == if |raw| == 0 then 0 else |raw| - 1
    ensures forall k | 0 <= k < |data| :: data[k] == Present(raw[k + 1])
  {
    if |raw| == 0 then [] else seq(|raw| - 1, k requires 0 <= k < |raw| - 1 => Present(raw[k + 1]))
  }

  function Prepend(c: CleanRow, rest: Result<seq<CleanRow>, LoadError>): Result<seq<CleanRow>, LoadError> {
    match rest
    case Ok(rows) => Ok([c] + rows)
    case Err(e) => Err(e)
  }

  function Append(done: seq<CleanRow>, rest: Result<seq<CleanRow>, LoadError>): Result<seq<CleanRow>, LoadError> {
    match rest
    case Ok(rows) => Ok(done + rows)
    case Err(e) => Err(e)
  }

  /** What the rest of the loop produces over `data` when the variable `cleaned` holds
      `cleaned` on entry: a recognised row sets `cleaned`; every row then appends it,
      and an unassigned `cleaned` raises. */
  function ReconcileFrom(data: seq<seq<string>>, cleaned: Option<CleanRow>, parseDate: DateParser)
    : (result: Result<seq<CleanRow>, LoadError>)
    ensures result.Err? <==> data != [] && !Recognised(data[0]) && cleaned.None?
    ensures result.Ok? ==> |result.value| == |data|
    decreases |data|
  {
    if data == [] then Ok([])
    else
      var next := if Recognised(data[0]) then Some(ReconcileRow(data[0], parseDate)) else cleaned;
      match next
      case None => Err(CleanedUnbound)
      case Some(c) => Prepend(c, ReconcileFrom(data[1..], next, parseDate))
  }

  /** The whole loop as the source writes it. It raises exactly when the first data row
      has an unrecognised cell count; otherwise it emits one row per data row. */
  function ReconcileAsWritten(raw: seq<RawRow>, parseDate: DateParser): (result: Result<seq<CleanRow>, LoadError>)
    ensures result.Err? <==> |raw| >= 2 && !Recognised(Present(raw[1]))
    ensures result.Ok? ==> |result.value| == |DataRows(raw)|
  {
    ReconcileFrom(DataRows(raw), None, parseDate)
  }

  lemma AppendStep(done: seq<CleanRow>, c: CleanRow, rest: Result<seq<CleanRow>, LoadError>)
    ensures Append(done, Prepend(c, rest)) == Append(done + [c], rest)
  {
    if rest.Ok? {
      assert done + ([c] + rest.value) == (done + [c]) + rest.value;
    }
  }

  /** The `for` loop over `df_raw.iloc[1:]` that builds `cleaned_rows`. */
  method ReconcileRows(raw: seq<RawRow>, parseDate: DateParser) returns (result: Result<seq<CleanRow>, LoadError>)
    ensures result == ReconcileAsWritten(raw, parseDate)
  {
    ghost var data := DataRows(raw);
    var cleanedRows: seq<CleanRow> := [];
    var cleaned: Option<CleanRow> := None;
    var i := 1;
    assert data[0..] == data;
    if ReconcileFrom(data, None, parseDate).Ok? {
      assert [] + ReconcileFrom(data, None, parseDate).value == ReconcileFrom(data, None, parseDate).value;
    }
    while i < |raw|
      invariant 1 <= i && i - 1 <= |data|
      invariant ReconcileAsWritten(raw, parseDate) == Append(cleanedRows, ReconcileFrom(data[i - 1..], cleaned, parseDate))
    {
      var values := Present(raw[i]);
      assert data[i - 1..][0] == values && data[i - 1..][1..] == data[i..];
      if Recognised(values) {
        cleaned := Some(ReconcileRow(values, parseDate));
      }
      if cleaned.None? {
        return Err(CleanedUnbound);
      }
      AppendStep(cleanedRows, cleaned.value, ReconcileFrom(data[i..], cleaned, parseDate));
      cleanedRows := cleanedRows + [cleaned.value];
      i := i + 1;
    }
    assert data[i - 1..] == [];
    assert cleanedRows + [] == cleanedRows;
    result := Ok(cleanedRows);
  }

  /** Row by row: a recognised row yields its own reconciliation; an unrecognised row
      repeats the previous output row (the stale `cleaned`). */
  lemma {:induction false} ReconcileFromRows(data: seq<seq<string>>, cleaned: Option<CleanRow>, parseDate: DateParser)
    requires ReconcileFrom(data, cleaned, parseDate).Ok?
    ensures var out := ReconcileFrom(data, cleaned, parseDate).value;
            |out| == |data|
            && (forall k | 0 <= k < |data| && Recognised(data[k]) :: out[k] == ReconcileRow(data[k], parseDate))
            && (forall k | 0 < k < |data| && !Recognised(data[k]) :: out[k] == out[k - 1])
            && (|data| > 0 && !Recognised(data[0]) ==> cleaned == Some(out[0]))
    decreases |data|
  {
    if data != [] {
      var next := if Recognised(data[0]) then Some(ReconcileRow(data[0], parseDate)) else cleaned;
      var out := ReconcileFrom(data, cleaned, parseDate).value;
      ReconcileFromRows(data[1..], next, parseDate);
      var tail := ReconcileFrom(data[1..], next, parseDate).value;
      assert out == [next.value] + tail;
      forall k | 0 < k < |data|
        ensures data[k] == data[1..][k - 1] && out[k] == tail[k - 1]
      {
      }
    }
  }

  /** The whole loop, row by row, in input order. */
  lemma AsWrittenRows(raw: seq<RawRow>, parseDate: DateParser)
    requires ReconcileAsWritten(raw, parseDate).Ok?
    ensures var data, out := DataRows(raw), ReconcileAsWritten(raw, parseDate).value;
            |out| == |data|
            && (forall k | 0 <= k < |data| && Recognised(data[k]) :: out[k] == ReconcileRow(data[k], parseDate))
            && (forall k | 0 < k < |data| && !Recognised(data[k]) :: out[k] == out[k - 1])
  {
    ReconcileFromRows(DataRows(raw), None, parseDate);
  }

  // ---------------------------------------------------------------------------------
  // The intended reconciliation: unrecognised rows are dropped

  function CountUnrecognised(data: seq<seq<string>>): (n: nat)
    ensures n <= |data|
    ensures n == 0 <==> forall k | 0 <= k < |data| :: Recognised(data[k])
  {
    if data == [] then 0
    else
      assert forall k | 1 <= k < |data| :: data[k] == data[1..][k - 1];
      (if Recognised(data[0]) then 0 else 1) + CountUnrecognised(data[1..])
  }

  /** Every recognised row reconciled, in order; a row of any other cell count yields
      nothing, so the output has one row per input row less the dropped ones. */
  function ReconcileDropping(data: seq<seq<string>>, parseDate: DateParser): (rows: seq<CleanRow>)
    ensures |rows| == |data| - CountUnrecognised(data)
    ensures (forall k | 0 <= k < |data| :: Recognised(data[k])) ==>
              forall k | 0 <= k < |data| :: rows[k] == ReconcileRow(data[k], parseDate)
  {
    if data == [] then []
    else
      var tail := ReconcileDropping(data[1..], parseDate);
      if Recognised(data[0]) then
        assert forall k | 1 <= k < |data| :: data[k] == data[1..][k - 1];
        [ReconcileRow(data[0], parseDate)] + tail
      else tail
  }

  lemma {:induction false} ReconcileDroppingConcat(a: seq<seq<string>>, b: seq<seq<string>>, parseDate: DateParser)
    ensures ReconcileDropping(a + b, parseDate) == ReconcileDropping(a, parseDate) + ReconcileDropping(b, parseDate)
  {
    if a == [] {
      assert a + b == b;
    } else {
      assert (a + b)[1..] == a[1..] + b;
      ReconcileDroppingConcat(a[1..], b, parseDate);
    }
  }

  /** A row of unrecognised shape contributes no row at all, wherever it stands. */
  lemma ReconcileDroppingSkips(a: seq<seq<string>>, bad: seq<string>, b: seq<seq<string>>, parseDate: DateParser)
    requires !Recognised(bad)
    ensures ReconcileDropping(a + [bad] + b, parseDate) == ReconcileDropping(a, parseDate) + ReconcileDropping(b, parseDate)
  {
    ReconcileDroppingConcat(a + [bad], b, parseDate);
    ReconcileDroppingConcat(a, [bad], parseDate);
  }

  /** When every data row has 5 to 8 present cells the loop as written and the intended
      reconciliation agree: one row per data row, in input order. */
  lemma {:induction false} AsWrittenAgreesWhenRecognised(data: seq<seq<string>>, cleaned: Option<CleanRow>, parseDate: DateParser)
    requires forall k | 0 <= k < |data| :: Recognised(data[k])
    ensures ReconcileFrom(data, cleaned, parseDate) == Ok(ReconcileDropping(data, parseDate))
    decreases |data|
  {
    if data != [] {
      AsWrittenAgreesWhenRecognised(data[1..], Some(ReconcileRow(data[0], parseDate)), parseDate);
    }
  }

  /** The discrepancy: a row with an unrecognised cell count (say only four present
      cells, because two fields are empty) after a six-cell row repeats the six-cell
      row's output, where the intended reconciliation emits it once. */
  lemma StaleRowRepeated(v: seq<string>, w: seq<string>, parseDate: DateParser)
    requires |v| == 6 && !Recognised(w)
    ensures ReconcileFrom([v, w], None, parseDate) == Ok([ReconcileRow(v, parseDate), ReconcileRow(v, parseDate)])
    ensures ReconcileDropping([v, w], parseDate) == [ReconcileRow(v, parseDate)]
  {
    var r := ReconcileRow(v, parseDate);
    assert [v, w][1..] == [w] && [w][1..] == [];
    assert ReconcileFrom([], Some(r), parseDate) == Ok([]);
    assert [r] + [] == [r];
    assert ReconcileFrom([w], Some(r), parseDate) == Ok([r]);
    assert [v, w][0] == v && Recognised(v);
    assert ReconcileFrom([v, w], None, parseDate) == Prepend(r, ReconcileFrom([w], Some(r), parseDate));
    assert [r] + [r] == [r, r];
  }

  // ---------------------------------------------------------------------------------
  // Normalisation (the column conversions)

  /** One row of the column-wise conversions: the date parsed day-first, the value with
      only `$` removed, rating and feedback id parsed as numbers, location stripped.
      Each field depends on its own cell only, and a cell that does not convert gives
      NaN/NaT in that field alone. */
  function NormaliseRow(row: CleanRow, parseDayFirst: DateParser): (rec: Record)
    ensures rec.location == Strip(row.location)
    ensures rec.rating == ParseNumber(row.rating)
    ensures rec.dateTime == if row.dateTime.Some? then parseDayFirst(row.dateTime.value) else None
    ensures rec.value == ParseNumber(RemoveChar(row.value, '$'))
    ensures rec.feedbackId == ParseNumber(row.feedbackId)
    ensures rec.location == [] || (!IsSpace(rec.location[0]) && !IsSpace(rec.location[|rec.location| - 1]))
    ensures rec.comment == row.comment
    ensures rec.dateTime.Some? ==> row.dateTime.Some? && parseDayFirst(row.dateTime.value) == rec.dateTime
    ensures rec.value.Some? ==> ',' !in row.value
  {
    var dollarless := RemoveChar(row.value, '$');
    var value := ParseNumber(dollarless);
    assert value.Some? ==> ',' !in row.value by {
      if value.Some? {
        ParsedHasNoSeparators(dollarless);
      }
    }
    Record(Strip(row.location),
           ParseNumber(row.rating),
           row.comment,
           match row.dateTime
           case None => None
           case Some(d) => parseDayFirst(d),
           value,
           ParseNumber(row.feedbackId))
  }

  /** The conversions never drop or reorder rows. */
  function Normalise(rows: seq<CleanRow>, parseDayFirst: DateParser): (records: seq<Record>)
    ensures |records| == |rows|
    ensures forall k | 0 <= k < |rows| :: records[k] == NormaliseRow(rows[k], parseDayFirst)
  {
    if rows == [] then []
    else [NormaliseRow(rows[0], parseDayFirst)] + Normalise(rows[1..], parseDayFirst)
  }

  /** A row whose fields are well formed converts with no missing field: the printed
      numbers come back, the location is stripped; an unparseable date nulls only the
      date. */
  lemma NormaliseRoundTrip(location: string, rating: nat, comment: string, date: string,
                           cents: nat, id: nat, parseDayFirst: DateParser)
    requires parseDayFirst(date).Some?
    ensures var row := CleanRow(location, NatToDigits(rating), comment, Some(date), "$" + FormatCents(cents), NatToDigits(id));
            NormaliseRow(row, parseDayFirst)
              == Record(Strip(location), Some(rating as real), comment, parseDayFirst(date),
                        Some(cents as real / 100.0), Some(id as real))
  {
    NatRoundTrip(rating);
    NatRoundTrip(id);
    DollarPriceParses(cents);
  }

  /** Each column converts on its own: a date that does not parse nulls the date and
      leaves every other field as it was. */
  lemma NormaliseBadDateOnly(row: CleanRow, bad: string, parseDayFirst: DateParser)
    requires parseDayFirst(bad).None?
    ensures NormaliseRow(row.(dateTime := Some(bad)), parseDayFirst)
         == NormaliseRow(row, parseDayFirst).(dateTime := None)
  {
  }

  /** The normaliser strips `$` but not `,`: a value with a thousands separator becomes
      NaN. */
  lemma CommaValueIsNull(row: CleanRow, parseDayFirst: DateParser)
    requires ',' in row.value
    ensures NormaliseRow(row, parseDayFirst).value == None
  {
    var s := RemoveChar(row.value, '$');
    assert ',' in s;
    if ParseNumber(s).Some? {
      ParsedHasNoSeparators(s);
    }
  }

  /** After the 7-cell repair the final value is either NaN (a kept value that still
      carries a `,`) or at most the outlier limit. */
  lemma SevenCellValueBounded(values: seq<string>, parseDate: DateParser, parseDayFirst: DateParser)
    requires |values| == 7
    ensures var v := NormaliseRow(ReconcileRow(values, parseDate), parseDayFirst).value;
            v.Some? ==> v.value <= ValueOutlierLimit
  {
    RepairedValueBounded(RepairValue(values[4]));
  }

  /** A value that passed the 7-cell repair, once only its `$` is removed, either fails to
      parse or parses to at most the limit. */
  lemma RepairedValueBounded(r: string)
    requires ParseNumber(StripCurrency(r)).Some? && ParseNumber(StripCurrency(r)).value <= ValueOutlierLimit
    ensures var v := ParseNumber(RemoveChar(r, '$')); v.Some? ==> v.value <= ValueOutlierLimit
  {
    var s := RemoveChar(r, '$');
    if ParseNumber(s).Some? {
      ParsedHasNoSeparators(s);
      RemoveCharAbsent(s, ',');
    }
  }

  /** An 8-cell row's price reaches the dataset however large it is: no outlier
      correction on that path. */
  lemma EightCellValueUncorrected(values: seq<string>, cents: nat, parseDate: DateParser, parseDayFirst: DateParser)
    requires |values| == 8 && values[5] == "$" + FormatCents(cents)
    ensures NormaliseRow(ReconcileRow(values, parseDate), parseDayFirst).value == Some(cents as real / 100.0)
  {
    DollarPriceParses(cents);
  }

  // ---------------------------------------------------------------------------------
  // The whole function

  /** `load_cafe_data` from the rows pandas read: reconcile, then convert. It raises
      exactly when the first data row has an unrecognised shape, and otherwise returns
      one record per data row. */
  method LoadCafeData(raw: seq<RawRow>, parseDate: DateParser, parseDayFirst: DateParser)
    returns (result: Result<seq<Record>, LoadError>)
    ensures result.Err? <==> |raw| >= 2 && !Recognised(Present(raw[1]))
    ensures result.Ok? ==> |result.value| == |DataRows(raw)|
    ensures result.Ok? ==> ReconcileAsWritten(raw, parseDate).Ok?
                           && result.value == Normalise(ReconcileAsWritten(raw, parseDate).value, parseDayFirst)
    ensures result.Ok? && (forall k | 0 <= k < |DataRows(raw)| :: Recognised(DataRows(raw)[k])) ==>
              result.value == Normalise(ReconcileDropping(DataRows(raw), parseDate), parseDayFirst)
  {
    var cleaned := ReconcileRows(raw, parseDate);
    if (forall k | 0 <= k < |DataRows(raw)| :: Recognised(DataRows(raw)[k])) {
      AsWrittenAgreesWhenRecognised(DataRows(raw), None, parseDate);
    }
    match cleaned
    case Err(e) =>
      result := Err(e);
    case Ok(rows) =>
      result := Ok(Normalise(rows, parseDayFirst));
  }
}
