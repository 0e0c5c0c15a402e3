/**
 * The deterministic parts of the REST backend: the funnel counts of
 * `get_funnel_data`, the filters and record conversion of
 * `get_applications`, and `convert_date_to_string`. Routing, the response
 * models and the HTTP error mapping are not modelled.
 */
module Backend {
  import opened Wrappers
  import opened Statuses
  import opened Schema
  import opened Statistics
  import Dashboard

  // ---------------------------------------------------------------------------
  // convert_date_to_string

  /** A cell as pandas hands it over: NULL, NaN, a date or timestamp (by its ISO text), or text. */
  datatype PyValue = PNone | PNaN | PDate(iso: string) | PText(s: string)

  /** `convert_date_to_string`: None for a missing value, the ISO form of a date, else the text unless it is empty. */
  function ConvertDateToString(v: PyValue): (r: Option<string>)
    ensures r.None? <==> v.PNone? || v.PNaN? || (v.PText? && v.s == "")
    ensures v.PDate? ==> r == Some(v.iso)
    ensures v.PText? && v.s != "" ==> r == Some(v.s)
  {
    match v
    case PNone => None
    case PNaN => None
    case PDate(iso) => Some(iso)
    case PText(s) => if s != "" then Some(s) else None
  }

  /** The conversion is idempotent: feeding a converted value back in as text gives the same value. */
  lemma ConvertIsStable(v: PyValue)
    requires v.PDate? ==> v.iso != ""
    ensures var r := ConvertDateToString(v);
      r.Some? ==> ConvertDateToString(PText(r.value)) == r
  {
  }

  // ---------------------------------------------------------------------------
  // get_applications

  /** A query parameter is applied only when it is truthy: given and non-empty. */
  predicate FilterActive(f: Option<string>) {
    f.Some? && f.value != ""
  }

  /** `df[df[column] == value]` for an active filter; a NULL cell equals nothing. */
  predicate Matches(r: Row, status: Option<string>, company: Option<string>) {
    && (FilterActive(status) ==> CellValue(r, Status) == status)
    && (FilterActive(company) ==> CellValue(r, Company) == company)
  }

  /** The rows kept by both filters, in table order. */
  function Filtered(rows: seq<Row>, status: Option<string>, company: Option<string>): (r: seq<Row>)
    ensures |r| <= |rows|
    ensures forall x :: x in r ==> x in rows && Matches(x, status, company)
    decreases |rows|
  {
    if rows == [] then []
    else
      var init, last := rows[..|rows| - 1], rows[|rows| - 1];
      assert forall x :: x in init ==> x in rows;
      Filtered(init, status, company) + (if Matches(last, status, company) then [last] else [])
  }

  /** A record as the endpoint returns it: the e-mail id and every column the load selects, with the two date columns converted to text. */
  datatype Record = Record(emailId: string, fields: map<Column, Option<string>>)

  const DateColumns: set<Column> := {Date, ApplicationDate}

  /** The value pandas holds for a cell: a date column holds a date object, the others text. */
  function PyCell(r: Row, c: Column): PyValue {
    if c !in r.cells then PNone
    else if c in DateColumns then PDate(r.cells[c])
    else PText(r.cells[c])
  }

  /** `to_dict('records')`: every column, NULL as None. */
  function RawRecord(r: Row): (rec: Record)
    ensures rec.fields.Keys == set c: Column | c in Columns
  {
    Record(r.emailId, map c | c in Columns :: CellValue(r, c))
  }

  /** A record is the conversion of a row: its key, every selected column, the date columns converted and the others as stored. */
  predicate RecordOf(app: Record, r: Row) {
    && app.emailId == r.emailId
    && app.fields.Keys == set c: Column | c in Columns
    && (forall c :: c in app.fields && c in DateColumns ==> app.fields[c] == ConvertDateToString(PyCell(r, c)))
    && (forall c :: c in app.fields && c !in DateColumns ==> app.fields[c] == CellValue(r, c))
  }

  /** One pass of the conversion loop: the record of a row with its date columns rewritten. */
  method ConvertRecord(r: Row) returns (app: Record)
    ensures RecordOf(app, r)
  {
    app := RawRecord(r);
    app := app.(fields := app.fields[ApplicationDate := ConvertDateToString(PyCell(r, ApplicationDate))]);
    app := app.(fields := app.fields[Date := ConvertDateToString(PyCell(r, Date))]);
  }

  /** `get_applications` over the loaded table, after the filters. */
  method GetApplications(rows: seq<Row>, status: Option<string>, company: Option<string>) returns (apps: seq<Record>)
    ensures rows == [] ==> apps == []
    ensures |apps| == |Filtered(rows, status, company)|
    ensures forall k :: 0 <= k < |apps| ==> RecordOf(apps[k], Filtered(rows, status, company)[k])
  {
    if rows == [] {
      return [];
    }
    var df := Filtered(rows, status, company);
    apps := [];
    for i := 0 to |df|
      invariant |apps| == i
      invariant forall k :: 0 <= k < i ==> RecordOf(apps[k], df[k])
    {
      var app := ConvertRecord(df[i]);
      apps := apps + [app];
    }
  }

  /** A row appears in the filtered table iff it is in the table and passes both filters. */
  lemma {:induction false} FilteredExactly(rows: seq<Row>, status: Option<string>, company: Option<string>, x: Row)
    ensures x in Filtered(rows, status, company) <==> x in rows && Matches(x, status, company)
    decreases |rows|
  {
    if rows != [] {
      var init, last := rows[..|rows| - 1], rows[|rows| - 1];
      assert rows == init + [last];
      FilteredExactly(init, status, company, x);
    }
  }

  /** Without active filters the table comes back whole and in order. */
  lemma {:induction false} NoFilterKeepsAll(rows: seq<Row>, status: Option<string>, company: Option<string>)
    requires !FilterActive(status) && !FilterActive(company)
    ensures Filtered(rows, status, company) == rows
    decreases |rows|
  {
    if rows != [] {
      NoFilterKeepsAll(rows[..|rows| - 1], status, company);
      assert rows == rows[..|rows| - 1] + [rows[|rows| - 1]];
    }
  }

  /** The filters commute and combine: filtering by both is filtering by status, then by company. */
  lemma {:induction false} FiltersCompose(rows: seq<Row>, status: Option<string>, company: Option<string>)
    ensures Filtered(Filtered(rows, status, None), None, company) == Filtered(rows, status, company)
    decreases |rows|
  {
    if rows != [] {
      var init, last := rows[..|rows| - 1], rows[|rows| - 1];
      FiltersCompose(init, status, company);
      var s := Filtered(init, status, None);
      assert Filtered(rows, status, None) == s + (if Matches(last, status, None) then [last] else []);
      assert Matches(last, status, company) <==> Matches(last, status, None) && Matches(last, None, company);
      assert Filtered(rows, status, company) == Filtered(init, status, company) + (if Matches(last, status, company) then [last] else []);
      if Matches(last, status, None) {
        var t := s + [last];
        assert t[..|t| - 1] == s && t[|t| - 1] == last;
        assert Filtered(t, None, company) == Filtered(s, None, company) + (if Matches(last, None, company) then [last] else []);
      } else {
        assert Filtered(rows, status, None) == s;
        assert Filtered(rows, status, company) == Filtered(init, status, company);
      }
    }
  }

  // ---------------------------------------------------------------------------
  // get_funnel_data

  const FunnelStages: seq<string> := [Applied, RecruiterScreen, Interview]
  const FunnelOutcomes: seq<string> := [Rejected, Ghosted, Dropped, Offer]

  /** `df['status'].replace(status_mapping)`: NULL stays NULL. */
  function MappedStatuses(statuses: seq<Option<string>>): (ms: seq<Option<string>>)
    ensures |ms| == |statuses|
    ensures forall j :: 0 <= j < |ms| ==> ms[j] == (if statuses[j].Some? then Some(Normalise(statuses[j].value)) else None)
  {
    seq(|statuses|, j requires 0 <= j < |statuses| => if statuses[j].Some? then Some(Normalise(statuses[j].value)) else None)
  }

  /** One funnel entry, without its (floating-point) percentage. */
  datatype FunnelEntry = FunnelEntry(stage: string, count: nat)

  /** `get_funnel_data`: one entry per stage and outcome, in pipeline order, or none for an empty table. */
  method GetFunnelData(statuses: seq<Option<string>>) returns (funnel: seq<FunnelEntry>)
    ensures statuses == [] ==> funnel == []
    ensures statuses != [] ==> |funnel| == |PipelineStatuses|
    ensures forall k :: 0 <= k < |funnel| ==>
      funnel[k].stage == PipelineStatuses[k] && funnel[k].count == Occurrences(MappedStatuses(statuses), Some(PipelineStatuses[k]))
  {
    if |statuses| == 0 {
      return [];
    }
    var df := MappedStatuses(statuses);
    assert PipelineStatuses == FunnelStages + FunnelOutcomes;
    funnel := [];
    for i := 0 to |FunnelStages|
      invariant |funnel| == i
      invariant forall k :: 0 <= k < i ==> funnel[k] == FunnelEntry(PipelineStatuses[k], Occurrences(df, Some(PipelineStatuses[k])))
    {
      var stage := FunnelStages[i];
      funnel := funnel + [FunnelEntry(stage, Occurrences(df, Some(stage)))];
    }
    for i := 0 to |FunnelOutcomes|
      invariant |funnel| == |FunnelStages| + i
      invariant forall k :: 0 <= k < |funnel| ==> funnel[k] == FunnelEntry(PipelineStatuses[k], Occurrences(df, Some(PipelineStatuses[k])))
    {
      var outcome := FunnelOutcomes[i];
      funnel := funnel + [FunnelEntry(outcome, Occurrences(df, Some(outcome)))];
    }
  }

  function FunnelTotal(funnel: seq<FunnelEntry>): nat {
    if funnel == [] then 0 else FunnelTotal(funnel[..|funnel| - 1]) + funnel[|funnel| - 1].count
  }

  function SomeNames(names: seq<string>): (r: seq<Option<string>>)
    ensures |r| == |names| && forall k :: 0 <= k < |r| ==> r[k] == Some(names[k])
  {
    seq(|names|, k requires 0 <= k < |names| => Some(names[k]))
  }

  /** Wrapping distinct names in `Some` keeps them distinct. */
  lemma SomeNamesDistinct(names: seq<string>)
    requires NoDuplicates(names)
    ensures NoDuplicates(SomeNames(names))
  {
  }

  lemma {:induction false} FunnelTotalIsOccurrenceSum(funnel: seq<FunnelEntry>, names: seq<string>, xs: seq<Option<string>>)
    requires |funnel| == |names|
    requires forall k :: 0 <= k < |funnel| ==> funnel[k].count == Occurrences(xs, Some(names[k]))
    ensures FunnelTotal(funnel) == OccurrenceSum(SomeNames(names), xs)
    decreases |funnel|
  {
    if funnel != [] {
      var n := |names| - 1;
      assert SomeNames(names)[..n] == SomeNames(names[..n]);
      FunnelTotalIsOccurrenceSum(funnel[..n], names[..n], xs);
    }
  }

  /** Every status is present and normalises to one of the seven pipeline names. */
  predicate AllInPipeline(statuses: seq<Option<string>>) {
    forall j :: 0 <= j < |statuses| ==> statuses[j].Some? && Normalise(statuses[j].value) in PipelineStatuses
  }

  /** The funnel never counts a row twice, and counts every row whose status is a pipeline name once mapped. */
  lemma FunnelCountsBounded(statuses: seq<Option<string>>, funnel: seq<FunnelEntry>)
    requires |funnel| == |PipelineStatuses|
    requires forall k :: 0 <= k < |funnel| ==> funnel[k].count == Occurrences(MappedStatuses(statuses), Some(PipelineStatuses[k]))
    ensures FunnelTotal(funnel) <= |statuses|
    ensures AllInPipeline(statuses) ==> FunnelTotal(funnel) == |statuses|
  {
    var ms := MappedStatuses(statuses);
    var ds := SomeNames(PipelineStatuses);
    Dashboard.PipelineNamesDistinct();
    SomeNamesDistinct(PipelineStatuses);
    FunnelTotalIsOccurrenceSum(funnel, PipelineStatuses, ms);
    OccurrenceSumBounded(ds, ms);
    if AllInPipeline(statuses) {
      MappedInPipeline(statuses);
    }
  }

  lemma MappedInPipeline(statuses: seq<Option<string>>)
    requires AllInPipeline(statuses)
    ensures forall i :: 0 <= i < |statuses| ==> MappedStatuses(statuses)[i] in SomeNames(PipelineStatuses)
  {
    var ms, ds := MappedStatuses(statuses), SomeNames(PipelineStatuses);
    forall i | 0 <= i < |ms| ensures ms[i] in ds {
      var k :| 0 <= k < |PipelineStatuses| && PipelineStatuses[k] == Normalise(statuses[i].value);
      assert ds[k] == ms[i];
    }
  }

  /** A NULL status is counted in no funnel entry. */
  lemma NullStatusUncounted(statuses: seq<Option<string>>, k: nat)
    requires k < |PipelineStatuses|
    ensures Occurrences(MappedStatuses(statuses + [None]), Some(PipelineStatuses[k])) ==
            Occurrences(MappedStatuses(statuses), Some(PipelineStatuses[k]))
  {
    var ms := MappedStatuses(statuses + [None]);
    assert ms[..|ms| - 1] == MappedStatuses(statuses);
  }
}
