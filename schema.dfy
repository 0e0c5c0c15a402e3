/**
 * The `job_applications` table: one row per originating e-mail, keyed by the
 * unique `email_id`, with a store-assigned serial `id` and the nullable text
 * columns. A column missing from a row's `cells` is SQL NULL; a column missing
 * from an incoming record's `values` is Python `None` (or an absent key).
 */
module Schema {
  import opened Wrappers

  /** The columns an incoming record may write (`valid_columns`). */
  datatype Column =
    | Date | JobTitle | Company | Location | Status | ApplicationDate
    | Sender | Subject | RelatedApplicationId | Confidence | Reasoning

  /** The writable columns in the order the source lists them. */
  const Columns: seq<Column> :=
    [Date, JobTitle, Company, Location, Status, ApplicationDate, Sender, Subject, RelatedApplicationId, Confidence, Reasoning]

  lemma ColumnListed(c: Column)
    ensures c in Columns
  {
  }

  datatype Row = Row(id: nat, emailId: string, cells: map<Column, string>)

  /** A parsed e-mail as handed to the store (the `application_data` dict). */
  datatype ApplicationData = ApplicationData(emailId: string, values: map<Column, string>, isNewApplication: bool)

  /** Python's truthiness test on a text column of the incoming record: present and non-empty. */
  function Given(d: ApplicationData, c: Column): (r: Option<string>)
    ensures r.Some? <==> c in d.values && d.values[c] != ""
    ensures r.Some? ==> r.value == d.values[c]
  {
    if c in d.values && d.values[c] != "" then Some(d.values[c]) else None
  }

  /** `not existing_value[0]`: the cell is NULL or empty. */
  predicate Blank(cells: map<Column, string>, c: Column) {
    c !in cells || cells[c] == ""
  }

  /**
   * The table's invariants: `email_id` is unique, the serial ids are unique and
   * below the next serial value, and every row has a status (the column
   * defaults to 'Applied' and no write stores NULL in it).
   */
  predicate TableValid(rows: seq<Row>, nextId: nat) {
    && (forall i, j :: 0 <= i < j < |rows| ==> rows[i].emailId != rows[j].emailId)
    && (forall i, j :: 0 <= i < j < |rows| ==> rows[i].id != rows[j].id)
    && (forall i :: 0 <= i < |rows| ==> Status in rows[i].cells && rows[i].id < nextId)
  }

  predicate HasEmail(rows: seq<Row>, e: string) {
    exists i :: 0 <= i < |rows| && rows[i].emailId == e
  }

  /** `SELECT id FROM job_applications WHERE email_id = e`: the position of the row with that key. */
  function IndexOfEmail(rows: seq<Row>, e: string): (r: Option<nat>)
    ensures r.Some? ==> r.value < |rows| && rows[r.value].emailId == e
    ensures r.Some? ==> forall j :: 0 <= j < r.value ==> rows[j].emailId != e
    ensures r.None? <==> !HasEmail(rows, e)
    decreases |rows|
  {
    if rows == [] then None
    else if rows[0].emailId == e then Some(0)
    else
      var r := IndexOfEmail(rows[1..], e);
      assert forall j :: 1 <= j < |rows| ==> rows[j] == rows[1..][j - 1];
      if r.Some? then Some(r.value + 1) else None
  }

  /** Two tables whose rows agree on their keys and on nothing else necessarily. */
  predicate SameKeys(rows: seq<Row>, rows': seq<Row>) {
    |rows'| == |rows| && forall j :: 0 <= j < |rows| ==> rows'[j].emailId == rows[j].emailId
  }

  lemma {:induction false} IndexOfEmailStable(rows: seq<Row>, rows': seq<Row>, e: string)
    requires SameKeys(rows, rows')
    ensures IndexOfEmail(rows', e) == IndexOfEmail(rows, e)
  {
  }
}
