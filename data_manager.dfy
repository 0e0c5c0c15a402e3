/**
 * `DataManager` over an in-memory `job_applications` table: the
 * reconciliation of one parsed e-mail (`add_application`), the manual
 * overrides, and the bulk status update the migration issues. Each method is
 * proved against the value-level definitions in module Reconciliation.
 */
module DataManager {
  import opened Wrappers
  import opened Text
  import opened Statuses
  import opened Schema
  import opened Reconciliation

  /** The loop that collects every non-None valid column (exact-match update and insert). */
  method CollectValues(d: ApplicationData) returns (upd: map<Column, string>)
    ensures upd == d.values
  {
    upd := map[];
    for k := 0 to |Columns|
      invariant forall c :: c in upd <==> c in Columns[..k] && c in d.values
      invariant forall c :: c in upd ==> upd[c] == d.values[c]
    {
      var c := Columns[k];
      if c in d.values {
        upd := upd[c := d.values[c]];
      }
    }
    forall c ensures c in upd <==> c in d.values { ColumnListed(c); }
  }

  /** The loop of the link path: every non-None column, the status only when the legacy rank allows it. */
  method LinkValues(target: Row, d: ApplicationData) returns (upd: map<Column, string>)
    ensures upd == LinkUpdate(target, d)
  {
    upd := map[];
    for k := 0 to |Columns|
      invariant forall c :: c in upd <==> c in Columns[..k] && c in LinkUpdate(target, d)
      invariant forall c :: c in upd ==> upd[c] == d.values[c]
    {
      var c := Columns[k];
      if c !in d.values {
        continue;
      }
      var value := d.values[c];
      if c == Status && value != "" {
        var current := if Status in target.cells then Some(target.cells[Status]) else None;
        if current.Some? && current.value != "" && LegacyRank(value) <= LegacyRank(current.value) {
          continue;
        }
      }
      upd := upd[c := value];
    }
    forall c ensures c in upd <==> c in LinkUpdate(target, d) { ColumnListed(c); }
  }

  /** The loop of the fuzzy path: a column is written only when the target's current value is NULL or empty. */
  method FillForwardValues(target: Row, d: ApplicationData) returns (upd: map<Column, string>)
    ensures upd == FillForward(target, d)
  {
    upd := map[];
    for k := 0 to |Columns|
      invariant forall c :: c in upd <==> c in Columns[..k] && c in d.values && Blank(target.cells, c)
      invariant forall c :: c in upd ==> upd[c] == d.values[c]
    {
      var c := Columns[k];
      if c in d.values {
        var existing := if c in target.cells then Some(target.cells[c]) else None;
        if existing.None? || existing.value == "" {
          upd := upd[c := d.values[c]];
        }
      }
    }
    forall c ensures c in upd <==> c in FillForward(target, d) { ColumnListed(c); }
  }

  /** The test the fuzzy loop applies to one candidate: same company either way round, and a shared word when both titles are non-empty. */
  method SameCompanyAndRole(m: Row, company: string, role: Option<string>) returns (same: bool)
    ensures same == SameApplication(m, company, role)
  {
    var existingCompany := LowerCell(m, Company);
    var existingRole := LowerCell(m, JobTitle);
    same := false;
    if Contains(existingCompany, company) || Contains(company, existingCompany) {
      if role.Some? && role.value != "" && existingRole != "" {
        same := SharesWord(role.value, existingRole);
      }
    }
  }

  /** The fuzzy strategy: lower-case the record's company and title, then scan the candidates. */
  method FindFuzzyTarget(rows: seq<Row>, d: ApplicationData) returns (t: Option<nat>)
    ensures t == FuzzyTarget(rows, d)
  {
    var company := if Given(d, Company).Some? then Some(Lower(d.values[Company])) else None;
    var role := if Given(d, JobTitle).Some? then Some(Lower(d.values[JobTitle])) else None;
    if company.None? {
      return None;
    }
    assert company == FuzzyCompany(d) && role == FuzzyRole(d);
    t := ScanCandidates(rows, Candidates(rows, company.value, 0), company.value, role);
  }

  /** The loop over the fuzzy query's result: the first candidate with the same company and a shared title word. */
  method ScanCandidates(rows: seq<Row>, matches: seq<nat>, company: string, role: Option<string>) returns (t: Option<nat>)
    requires forall j :: 0 <= j < |matches| ==> matches[j] < |rows|
    ensures t == match FirstSameApplication(rows, matches, company, role)
                 case Some(k) => Some(matches[k])
                 case None => None
  {
    for k := 0 to |matches|
      invariant forall j :: 0 <= j < k ==> !SameApplication(rows[matches[j]], company, role)
    {
      var m := matches[k];
      var same := SameCompanyAndRole(rows[m], company, role);
      if same {
        FirstSameApplicationAt(rows, matches, company, role, k);
        return Some(m);
      }
    }
    return None;
  }

  /** `if update_fields:` run the UPDATE on row `i`; with nothing to set, the row is left alone. */
  method MergeInto(rows: seq<Row>, i: nat, upd: map<Column, string>) returns (rows': seq<Row>)
    requires i < |rows|
    ensures rows' == UpdateRow(rows, i, upd)
  {
    if upd != map[] {
      return UpdateRow(rows, i, upd);
    }
    assert rows[i].cells + upd == rows[i].cells;
    return rows;
  }

  class ApplicationTable {
    var rows: seq<Row>
    var nextId: nat

    ghost predicate Valid()
      reads this
    {
      TableValid(rows, nextId)
    }

    constructor ()
      ensures Valid() && rows == [] && nextId == 1
    {
      rows, nextId := [], 1;
    }

    /** `add_application` on values its columns accept: `ok` is false only when the exact-match UPDATE has no column to set and is rolled back. */
    method AddApplication(d: ApplicationData) returns (ok: bool)
      requires Valid()
      modifies this
      ensures Valid()
      ensures Stored(rows, nextId, ok) == Reconcile(old(rows), old(nextId), d)
    {
      ReconcileKeepsTableValid(rows, nextId, d);
      var existing := IndexOfEmail(rows, d.emailId);
      if existing.Some? {
        var upd := CollectValues(d);
        if upd == map[] {
          return false;
        }
        assert Resolve(rows, d) == ExactMatch(existing.value);
        rows := UpdateRow(rows, existing.value, upd);
        return true;
      }
      var related := Given(d, RelatedApplicationId);
      if related.Some? {
        var link := IndexOfEmail(rows, related.value);
        if link.Some? {
          assert Resolve(rows, d) == Linked(link.value);
          var upd := LinkValues(rows[link.value], d);
          rows := MergeInto(rows, link.value, upd);
          return true;
        }
      }
      assert LinkTarget(rows, d).None?;
      var fuzzy := FindFuzzyTarget(rows, d);
      if fuzzy.Some? {
        assert Resolve(rows, d) == FuzzyMatch(fuzzy.value);
        var upd := FillForwardValues(rows[fuzzy.value], d);
        rows := MergeInto(rows, fuzzy.value, upd);
        return true;
      }
      assert Resolve(rows, d) == Insert;
      var cells := CollectValues(d);
      if Status !in cells {
        cells := cells[Status := Applied];
      }
      assert Row(nextId, d.emailId, cells) == NewRow(nextId, d);
      rows := rows + [Row(nextId, d.emailId, cells)];
      nextId := nextId + 1;
      return true;
    }

    /** `update_status`: true iff a row has the key; that row's status is replaced, with no ordering check. */
    method UpdateStatus(emailId: string, newStatus: string) returns (found: bool)
      requires Valid()
      modifies this
      ensures Valid() && nextId == old(nextId)
      ensures found <==> HasEmail(old(rows), emailId)
      ensures |rows| == |old(rows)|
      ensures forall j :: 0 <= j < |rows| ==>
        rows[j] == if old(rows)[j].emailId == emailId
                   then old(rows)[j].(cells := old(rows)[j].cells[Status := newStatus])
                   else old(rows)[j]
    {
      var old_ := rows;
      found := HasEmail(old_, emailId);
      rows := seq(|old_|, j requires 0 <= j < |old_| =>
        if old_[j].emailId == emailId then old_[j].(cells := old_[j].cells[Status := newStatus]) else old_[j]);
    }

    /** `update_location`: true iff a row has the key; that row's location is replaced (None stores NULL). */
    method UpdateLocation(emailId: string, newLocation: Option<string>) returns (found: bool)
      requires Valid()
      modifies this
      ensures Valid() && nextId == old(nextId)
      ensures found <==> HasEmail(old(rows), emailId)
      ensures |rows| == |old(rows)|
      ensures forall j :: 0 <= j < |rows| ==>
        rows[j] == if old(rows)[j].emailId != emailId then old(rows)[j]
                   else match newLocation
                        case Some(l) => old(rows)[j].(cells := old(rows)[j].cells[Location := l])
                        case None => old(rows)[j].(cells := old(rows)[j].cells - {Location})
    {
      var old_ := rows;
      found := HasEmail(old_, emailId);
      rows := seq(|old_|, j requires 0 <= j < |old_| =>
        if old_[j].emailId != emailId then old_[j]
        else match newLocation
             case Some(l) => old_[j].(cells := old_[j].cells[Location := l])
             case None => old_[j].(cells := old_[j].cells - {Location}));
    }

    /** `UPDATE job_applications SET status = to WHERE status = from`, returning the row count. */
    method SetStatusWhere(from: string, to: string) returns (count: nat)
      requires Valid()
      modifies this
      ensures Valid() && nextId == old(nextId)
      ensures rows == RemapRows(old(rows), from, to)
      ensures count == CountStatus(old(rows), from)
    {
      count := CountStatus(rows, from);
      rows := RemapRows(rows, from, to);
    }
  }

  /** Number of rows with the given status. */
  function CountStatus(rows: seq<Row>, s: string): (n: nat)
    ensures n <= |rows|
  {
    if rows == [] then 0
    else (if Status in rows[0].cells && rows[0].cells[Status] == s then 1 else 0) + CountStatus(rows[1..], s)
  }

  /** Every row's status passed through `Remap`; nothing else changes. */
  function RemapRows(rows: seq<Row>, from: string, to: string): (r: seq<Row>)
    ensures SameKeys(rows, r)
    ensures forall j :: 0 <= j < |rows| ==> r[j].id == rows[j].id && r[j].cells.Keys == rows[j].cells.Keys
    ensures forall j :: 0 <= j < |rows| ==> forall c :: c in rows[j].cells && c != Status ==> r[j].cells[c] == rows[j].cells[c]
    ensures forall j :: 0 <= j < |rows| && Status in rows[j].cells ==> r[j].cells[Status] == Remap(rows[j].cells[Status], from, to)
  {
    seq(|rows|, j requires 0 <= j < |rows| =>
      if Status in rows[j].cells && rows[j].cells[Status] == from then rows[j].(cells := rows[j].cells[Status := to]) else rows[j])
  }
}
