/**
 * The decision procedure of `DataManager.add_application`, stated on values:
 * which strategy one incoming record takes, and what the table is afterwards.
 * The strategies are tried in order and the first that applies ends the call:
 * a row with the same `email_id` (last write wins, no status check), a row
 * whose `email_id` is the record's `related_application_id` (last write wins
 * except for a legacy-rank status guard), the first fuzzy company/role
 * candidate (fill-forward only), and otherwise a new row.
 */
module Reconciliation {
  import opened Wrappers
  import opened Text
  import opened Statuses
  import opened Schema

  datatype Strategy = ExactMatch(target: nat) | Linked(target: nat) | FuzzyMatch(target: nat) | Insert

  /**
   * The table after one call, the next serial value, and whether the call
   * committed. Every value is taken to fit its column's SQL type, so the only
   * statement that can fail is the malformed exact-match UPDATE.
   */
  datatype Stored = Stored(rows: seq<Row>, nextId: nat, ok: bool)

  /** `company`: the incoming company lower-cased, when it is truthy. */
  function FuzzyCompany(d: ApplicationData): (r: Option<string>)
    ensures r.Some? ==> r.value != []
  {
    match Given(d, Company)
    case Some(c) => Some(Lower(c))
    case None => None
  }

  /** `role`: the incoming job title lower-cased, when it is truthy. */
  function FuzzyRole(d: ApplicationData): (r: Option<string>)
    ensures r.Some? ==> r.value != []
  {
    match Given(d, JobTitle)
    case Some(t) => Some(Lower(t))
    case None => None
  }

  /** `str(x).lower() if x else ''` on a cell. */
  function LowerCell(r: Row, c: Column): string {
    if c in r.cells && r.cells[c] != "" then Lower(r.cells[c]) else ""
  }

  /** The SQL filter `LOWER(company) LIKE '%company%'` (a plain substring test; NULL never matches). */
  predicate CandidateRow(r: Row, company: string) {
    Company in r.cells && Contains(Lower(r.cells[Company]), company)
  }

  /** The rows the fuzzy query returns, as positions in table order, from position `from` on. */
  function Candidates(rows: seq<Row>, company: string, from: nat): (cs: seq<nat>)
    ensures forall k :: 0 <= k < |cs| ==> from <= cs[k] < |rows| && CandidateRow(rows[cs[k]], company)
    ensures forall k1, k2 :: 0 <= k1 < k2 < |cs| ==> cs[k1] < cs[k2]
    ensures forall j :: from <= j < |rows| && CandidateRow(rows[j], company) ==> j in cs
    decreases |rows| - from
  {
    if from >= |rows| then []
    else (if CandidateRow(rows[from], company) then [from] else []) + Candidates(rows, company, from + 1)
  }

  /** The test the loop over the fuzzy candidates applies to one of them. */
  predicate SameApplication(r: Row, company: string, role: Option<string>) {
    var ec, er := LowerCell(r, Company), LowerCell(r, JobTitle);
    && (Contains(ec, company) || Contains(company, ec))
    && role.Some? && role.value != "" && er != ""
    && SharesWord(role.value, er)
  }

  /** Position in `cs` of the first candidate that passes the test. */
  function FirstSameApplication(rows: seq<Row>, cs: seq<nat>, company: string, role: Option<string>): (r: Option<nat>)
    requires forall k :: 0 <= k < |cs| ==> cs[k] < |rows|
    ensures r.Some? ==> r.value < |cs| && SameApplication(rows[cs[r.value]], company, role)
    ensures r.Some? ==> forall k :: 0 <= k < r.value ==> !SameApplication(rows[cs[k]], company, role)
    ensures r.None? ==> forall k :: 0 <= k < |cs| ==> !SameApplication(rows[cs[k]], company, role)
    decreases |cs|
  {
    if cs == [] then None
    else if SameApplication(rows[cs[0]], company, role) then Some(0)
    else
      var r := FirstSameApplication(rows, cs[1..], company, role);
      assert forall k :: 1 <= k < |cs| ==> cs[k] == cs[1..][k - 1];
      if r.Some? then Some(r.value + 1) else None
  }

  /** The row the fuzzy strategy merges into, if any. */
  function FuzzyTarget(rows: seq<Row>, d: ApplicationData): (r: Option<nat>)
    ensures r.Some? ==> r.value < |rows|
  {
    match FuzzyCompany(d)
    case None => None
    case Some(company) =>
      var cs := Candidates(rows, company, 0);
      match FirstSameApplication(rows, cs, company, FuzzyRole(d))
      case Some(k) => Some(cs[k])
      case None => None
  }

  /** The first candidate passing the test is the one found. */
  lemma FirstSameApplicationAt(rows: seq<Row>, cs: seq<nat>, company: string, role: Option<string>, k: nat)
    requires forall j :: 0 <= j < |cs| ==> cs[j] < |rows|
    requires k < |cs| && SameApplication(rows[cs[k]], company, role)
    requires forall j :: 0 <= j < k ==> !SameApplication(rows[cs[j]], company, role)
    ensures FirstSameApplication(rows, cs, company, role) == Some(k)
  {
    var r := FirstSameApplication(rows, cs, company, role);
    if r.None? {
    } else if r.value < k {
    } else if r.value > k {
    }
  }

  /** The row named by a truthy `related_application_id`, if there is one. */
  function LinkTarget(rows: seq<Row>, d: ApplicationData): (r: Option<nat>)
    ensures r.Some? ==> r.value < |rows|
  {
    match Given(d, RelatedApplicationId)
    case Some(rel) => IndexOfEmail(rows, rel)
    case None => None
  }

  /** Which strategy one call takes. */
  function Resolve(rows: seq<Row>, d: ApplicationData): (s: Strategy)
    ensures !s.Insert? ==> s.target < |rows|
    ensures s.ExactMatch? <==> HasEmail(rows, d.emailId)
    ensures s.ExactMatch? ==> rows[s.target].emailId == d.emailId
    ensures s.Linked? ==> RelatedApplicationId in d.values && rows[s.target].emailId == d.values[RelatedApplicationId]
  {
    match IndexOfEmail(rows, d.emailId)
    case Some(i) => ExactMatch(i)
    case None =>
      match LinkTarget(rows, d)
      case Some(i) => Linked(i)
      case None =>
        match FuzzyTarget(rows, d)
        case Some(i) => FuzzyMatch(i)
        case None => Insert
  }

  /** On the link path the incoming status is dropped when it is non-empty, the target's is non-empty, and it does not rank strictly higher. */
  predicate StatusGuardSkips(target: Row, d: ApplicationData) {
    && Status in d.values && d.values[Status] != ""
    && Status in target.cells && target.cells[Status] != ""
    && LegacyRank(d.values[Status]) <= LegacyRank(target.cells[Status])
  }

  /** The columns the link path writes. */
  function LinkUpdate(target: Row, d: ApplicationData): (u: map<Column, string>)
    ensures forall c :: c in u ==> c in d.values && u[c] == d.values[c]
    ensures forall c :: c in d.values && c != Status ==> c in u
    ensures Status in u <==> Status in d.values && !StatusGuardSkips(target, d)
  {
    if StatusGuardSkips(target, d) then d.values - {Status} else d.values
  }

  /** The columns the fuzzy path writes: those whose current value is NULL or empty. */
  function FillForward(target: Row, d: ApplicationData): (u: map<Column, string>)
    ensures forall c :: c in u <==> c in d.values && Blank(target.cells, c)
    ensures forall c :: c in u ==> u[c] == d.values[c]
  {
    map c | c in d.values && Blank(target.cells, c) :: d.values[c]
  }

  /** Overwrite the given columns of one row. */
  function UpdateRow(rows: seq<Row>, i: nat, upd: map<Column, string>): (r: seq<Row>)
    requires i < |rows|
    ensures SameKeys(rows, r)
    ensures r[i].id == rows[i].id
    ensures forall c :: c in upd ==> c in r[i].cells && r[i].cells[c] == upd[c]
    ensures forall c :: c !in upd ==> (c in r[i].cells <==> c in rows[i].cells)
    ensures forall c :: c !in upd && c in rows[i].cells ==> r[i].cells[c] == rows[i].cells[c]
    ensures forall j :: 0 <= j < |rows| && j != i ==> r[j] == rows[j]
  {
    rows[i := rows[i].(cells := rows[i].cells + upd)]
  }

  /** The inserted row: every non-None column, status defaulting to 'Applied'. */
  function NewRow(id: nat, d: ApplicationData): (n: Row)
    ensures n.id == id && n.emailId == d.emailId
    ensures Status in n.cells && n.cells[Status] == (if Status in d.values then d.values[Status] else Applied)
    ensures forall c :: c != Status ==> (c in n.cells <==> c in d.values)
    ensures forall c :: c in d.values ==> n.cells[c] == d.values[c]
  {
    Row(id, d.emailId, if Status in d.values then d.values else d.values[Status := Applied])
  }

  /** The effect of one `add_application` call on values its columns accept. */
  function Reconcile(rows: seq<Row>, nextId: nat, d: ApplicationData): (r: Stored)
    ensures r.ok <==> !(Resolve(rows, d).ExactMatch? && d.values == map[])
    ensures !r.ok ==> r.rows == rows && r.nextId == nextId
    ensures |r.rows| == |rows| + (if Resolve(rows, d).Insert? then 1 else 0)
    ensures r.nextId == nextId + (if Resolve(rows, d).Insert? then 1 else 0)
  {
    match Resolve(rows, d)
    case ExactMatch(i) =>
      if d.values == map[] then Stored(rows, nextId, false)  // `SET , last_updated = ...` is rejected and rolled back
      else Stored(UpdateRow(rows, i, d.values), nextId, true)
    case Linked(i) => Stored(UpdateRow(rows, i, LinkUpdate(rows[i], d)), nextId, true)
    case FuzzyMatch(i) => Stored(UpdateRow(rows, i, FillForward(rows[i], d)), nextId, true)
    case Insert => Stored(rows + [NewRow(nextId, d)], nextId + 1, true)
  }

  // ---------------------------------------------------------------------------
  // Properties of the decision procedure.

  /** The fuzzy condition in plain terms: the row's company contains the incoming one, and both titles are non-empty and share a word. */
  predicate Qualifies(r: Row, company: string, role: Option<string>) {
    && Company in r.cells && Contains(Lower(r.cells[Company]), company)
    && role.Some? && role.value != ""
    && JobTitle in r.cells && r.cells[JobTitle] != ""
    && SharesWord(role.value, Lower(r.cells[JobTitle]))
  }

  /** Selected by the query and passing the loop's test is exactly `Qualifies`: the loop's reverse containment test adds nothing. */
  lemma CandidateTestIsQualifies(r: Row, company: string, role: Option<string>)
    requires company != []
    ensures CandidateRow(r, company) && SameApplication(r, company, role) <==> Qualifies(r, company, role)
  {
    if CandidateRow(r, company) {
      ContainsBound(Lower(r.cells[Company]), company);
    }
  }

  lemma CandidateTestsAreQualifies(rows: seq<Row>, company: string, role: Option<string>)
    requires company != []
    ensures forall j :: 0 <= j < |rows| ==>
      (CandidateRow(rows[j], company) && SameApplication(rows[j], company, role) <==> Qualifies(rows[j], company, role))
  {
    forall j | 0 <= j < |rows|
      ensures CandidateRow(rows[j], company) && SameApplication(rows[j], company, role) <==> Qualifies(rows[j], company, role)
    {
      CandidateTestIsQualifies(rows[j], company, role);
    }
  }

  /** Position reasoning over the query result: the first candidate that passes is the first qualifying row. */
  lemma {:induction false} FirstCandidateIsFirstQualifying(rows: seq<Row>, company: string, role: Option<string>, k: nat)
    requires company != []
    requires FirstSameApplication(rows, Candidates(rows, company, 0), company, role) == Some(k)
    ensures Qualifies(rows[Candidates(rows, company, 0)[k]], company, role)
    ensures forall j :: 0 <= j < Candidates(rows, company, 0)[k] ==> !Qualifies(rows[j], company, role)
  {
    var cs := Candidates(rows, company, 0);
    CandidateTestsAreQualifies(rows, company, role);
    forall j | 0 <= j < cs[k]
      ensures !Qualifies(rows[j], company, role)
    {
      if CandidateRow(rows[j], company) {
        var k' :| 0 <= k' < |cs| && cs[k'] == j;
        assert k' < k;
      }
    }
  }

  /** When no candidate passes, no row qualifies. */
  lemma {:induction false} NoCandidateNoQualifying(rows: seq<Row>, company: string, role: Option<string>)
    requires company != []
    requires FirstSameApplication(rows, Candidates(rows, company, 0), company, role) == None
    ensures forall j :: 0 <= j < |rows| ==> !Qualifies(rows[j], company, role)
  {
    var cs := Candidates(rows, company, 0);
    CandidateTestsAreQualifies(rows, company, role);
    forall j | 0 <= j < |rows|
      ensures !Qualifies(rows[j], company, role)
    {
      if CandidateRow(rows[j], company) {
        var k' :| 0 <= k' < |cs| && cs[k'] == j;
      }
    }
  }

  /** The fuzzy strategy picks the first row of the table, in query order, that qualifies. */
  lemma FuzzyTargetIsFirstQualifying(rows: seq<Row>, d: ApplicationData)
    ensures FuzzyTarget(rows, d).Some? <==>
      FuzzyCompany(d).Some? && exists j :: 0 <= j < |rows| && Qualifies(rows[j], FuzzyCompany(d).value, FuzzyRole(d))
    ensures FuzzyTarget(rows, d).Some? ==>
      var t := FuzzyTarget(rows, d).value;
      && Qualifies(rows[t], FuzzyCompany(d).value, FuzzyRole(d))
      && forall j :: 0 <= j < t ==> !Qualifies(rows[j], FuzzyCompany(d).value, FuzzyRole(d))
  {
    if FuzzyCompany(d).Some? {
      var company, role := FuzzyCompany(d).value, FuzzyRole(d);
      match FirstSameApplication(rows, Candidates(rows, company, 0), company, role)
      case Some(k) => FirstCandidateIsFirstQualifying(rows, company, role, k);
      case None => NoCandidateNoQualifying(rows, company, role);
    }
  }

  /** First match wins: the strategy, and the row it targets, in the order the source tries them. */
  lemma ResolutionOrder(rows: seq<Row>, d: ApplicationData)
    ensures Resolve(rows, d).ExactMatch? <==> HasEmail(rows, d.emailId)
    ensures Resolve(rows, d).Linked? <==>
      !HasEmail(rows, d.emailId) && Given(d, RelatedApplicationId).Some? && HasEmail(rows, d.values[RelatedApplicationId])
    ensures Resolve(rows, d).FuzzyMatch? <==>
      && !HasEmail(rows, d.emailId)
      && !(Given(d, RelatedApplicationId).Some? && HasEmail(rows, d.values[RelatedApplicationId]))
      && FuzzyCompany(d).Some?
      && exists j :: 0 <= j < |rows| && Qualifies(rows[j], FuzzyCompany(d).value, FuzzyRole(d))
    ensures Resolve(rows, d).ExactMatch? ==> rows[Resolve(rows, d).target].emailId == d.emailId
    ensures Resolve(rows, d).Linked? ==> rows[Resolve(rows, d).target].emailId == d.values[RelatedApplicationId]
    ensures Resolve(rows, d).FuzzyMatch? ==>
      var t := Resolve(rows, d).target;
      && Qualifies(rows[t], FuzzyCompany(d).value, FuzzyRole(d))
      && forall j :: 0 <= j < t ==> !Qualifies(rows[j], FuzzyCompany(d).value, FuzzyRole(d))
  {
    FuzzyTargetIsFirstQualifying(rows, d);
  }

  /** The fuzzy path needs a non-empty incoming title: without one the record is inserted even when its company matches a row. */
  lemma FuzzyNeedsTitle(rows: seq<Row>, d: ApplicationData)
    requires !HasEmail(rows, d.emailId) && LinkTarget(rows, d).None?
    requires Given(d, JobTitle).None?
    ensures Resolve(rows, d) == Insert
  {
    FuzzyTargetIsFirstQualifying(rows, d);
  }

  /** Exact match: every incoming column overwrites the row, status included and unchecked; nothing else changes and nothing is inserted. */
  lemma ExactMatchOverwrites(rows: seq<Row>, nextId: nat, d: ApplicationData)
    requires Resolve(rows, d).ExactMatch?
    ensures var r, i := Reconcile(rows, nextId, d), Resolve(rows, d).target;
      && |r.rows| == |rows| && r.nextId == nextId
      && r.ok == (d.values != map[])
      && r.rows[i].emailId == rows[i].emailId && r.rows[i].id == rows[i].id
      && (forall c :: c in d.values ==> c in r.rows[i].cells && r.rows[i].cells[c] == d.values[c])
      && (forall c :: c !in d.values ==> (c in r.rows[i].cells <==> c in rows[i].cells))
      && (forall c :: c !in d.values && c in rows[i].cells ==> r.rows[i].cells[c] == rows[i].cells[c])
      && (forall j :: 0 <= j < |rows| && j != i ==> r.rows[j] == rows[j])
  {
  }

  /** Link path: the status is written exactly when it is present and is empty, or the target's is empty, or it ranks strictly higher; every other incoming column is written. */
  lemma LinkStatusGuard(rows: seq<Row>, nextId: nat, d: ApplicationData)
    requires Resolve(rows, d).Linked?
    ensures var r, i := Reconcile(rows, nextId, d), Resolve(rows, d).target;
      var written := Status in d.values &&
        (d.values[Status] == "" || Blank(rows[i].cells, Status) ||
         LegacyRank(d.values[Status]) > LegacyRank(rows[i].cells[Status]));
      && r.ok && |r.rows| == |rows| && r.nextId == nextId
      && r.rows[i].emailId == rows[i].emailId && r.rows[i].id == rows[i].id
      && (written ==> r.rows[i].cells[Status] == d.values[Status])
      && (!written ==> (Status in r.rows[i].cells <==> Status in rows[i].cells))
      && (!written && Status in rows[i].cells ==> r.rows[i].cells[Status] == rows[i].cells[Status])
      && (forall c :: c in d.values && c != Status ==> c in r.rows[i].cells && r.rows[i].cells[c] == d.values[c])
      && (forall c :: c !in d.values && c in rows[i].cells ==> r.rows[i].cells[c] == rows[i].cells[c])
      && (forall c :: c !in d.values ==> (c in r.rows[i].cells <==> c in rows[i].cells))
      && (forall j :: 0 <= j < |rows| && j != i ==> r.rows[j] == rows[j])
  {
  }

  /** Under the legacy ranking every name outside it ranks 0, so e.g. 'Offer' or 'Interview' never replaces a non-empty status on the link path. */
  lemma LinkNeverPromotesUnrankedNames(rows: seq<Row>, nextId: nat, d: ApplicationData)
    requires Resolve(rows, d).Linked?
    requires var i := Resolve(rows, d).target; Status in rows[i].cells && rows[i].cells[Status] != ""
    requires Status in d.values && d.values[Status] != "" && LegacyRank(d.values[Status]) == 0
    ensures var i := Resolve(rows, d).target; Reconcile(rows, nextId, d).rows[i].cells[Status] == rows[i].cells[Status]
  {
    LinkStatusGuard(rows, nextId, d);
  }

  /** Fuzzy path: a column takes the incoming value exactly when the row's value is NULL or empty; the call ends even when nothing is written. */
  lemma FuzzyFillForward(rows: seq<Row>, nextId: nat, d: ApplicationData)
    requires Resolve(rows, d).FuzzyMatch?
    ensures var r, i := Reconcile(rows, nextId, d), Resolve(rows, d).target;
      && r.ok && |r.rows| == |rows| && r.nextId == nextId
      && r.rows[i].emailId == rows[i].emailId && r.rows[i].id == rows[i].id
      && (forall c :: c in d.values && Blank(rows[i].cells, c) ==> c in r.rows[i].cells && r.rows[i].cells[c] == d.values[c])
      && (forall c :: !(c in d.values && Blank(rows[i].cells, c)) ==> (c in r.rows[i].cells <==> c in rows[i].cells))
      && (forall c :: !(c in d.values && Blank(rows[i].cells, c)) && c in rows[i].cells ==> r.rows[i].cells[c] == rows[i].cells[c])
      && (forall j :: 0 <= j < |rows| && j != i ==> r.rows[j] == rows[j])
  {
  }

  /** A non-empty value, the default status 'Applied' included, is never changed by the fuzzy path. */
  lemma FuzzyKeepsNonEmpty(rows: seq<Row>, nextId: nat, d: ApplicationData, c: Column)
    requires Resolve(rows, d).FuzzyMatch?
    requires var i := Resolve(rows, d).target; c in rows[i].cells && rows[i].cells[c] != ""
    ensures var i := Resolve(rows, d).target; Reconcile(rows, nextId, d).rows[i].cells[c] == rows[i].cells[c]
  {
    FuzzyFillForward(rows, nextId, d);
  }

  /** Only the insert path adds a row, and it adds exactly one, built from the incoming columns with status defaulting to 'Applied'. */
  lemma InsertAtMostOne(rows: seq<Row>, nextId: nat, d: ApplicationData)
    ensures var r := Reconcile(rows, nextId, d);
      && |r.rows| == |rows| + (if Resolve(rows, d).Insert? then 1 else 0)
      && r.nextId == nextId + (if Resolve(rows, d).Insert? then 1 else 0)
      && r.rows[..|rows|] == if Resolve(rows, d).Insert? then rows else r.rows
    ensures Resolve(rows, d).Insert? ==>
      var r, n := Reconcile(rows, nextId, d), Reconcile(rows, nextId, d).rows[|rows|];
      && r.ok && r.rows[..|rows|] == rows
      && n.emailId == d.emailId && n.id == nextId
      && n.cells[Status] == (if Status in d.values then d.values[Status] else Applied)
      && (forall c :: c != Status ==> (c in n.cells <==> c in d.values))
      && (forall c :: c in d.values ==> n.cells[c] == d.values[c])
  {
  }

  /** No path changes the key or serial id of an existing row, and every row other than the single target is unchanged. */
  lemma OnlyTargetChanges(rows: seq<Row>, nextId: nat, d: ApplicationData)
    ensures var r := Reconcile(rows, nextId, d);
      && |r.rows| >= |rows|
      && (forall j :: 0 <= j < |rows| ==> r.rows[j].emailId == rows[j].emailId && r.rows[j].id == rows[j].id)
      && (forall j :: 0 <= j < |rows| && (Resolve(rows, d).Insert? || j != Resolve(rows, d).target) ==> r.rows[j] == rows[j])
  {
  }

  /** Every call keeps the table's invariants: unique keys, unique serial ids, a status on every row. */
  lemma {:induction false} ReconcileKeepsTableValid(rows: seq<Row>, nextId: nat, d: ApplicationData)
    requires TableValid(rows, nextId)
    ensures TableValid(Reconcile(rows, nextId, d).rows, Reconcile(rows, nextId, d).nextId)
  {
    var r := Reconcile(rows, nextId, d);
    match Resolve(rows, d)
    case Insert =>
      assert !HasEmail(rows, d.emailId);
      assert r.rows == rows + [NewRow(nextId, d)];
    case ExactMatch(i) =>
      if d.values != map[] {
        UpdateRowKeepsTableValid(rows, nextId, i, d.values);
      }
    case Linked(i) =>
      UpdateRowKeepsTableValid(rows, nextId, i, LinkUpdate(rows[i], d));
    case FuzzyMatch(i) =>
      UpdateRowKeepsTableValid(rows, nextId, i, FillForward(rows[i], d));
  }

  lemma UpdateRowKeepsTableValid(rows: seq<Row>, nextId: nat, i: nat, upd: map<Column, string>)
    requires TableValid(rows, nextId) && i < |rows|
    ensures TableValid(UpdateRow(rows, i, upd), nextId)
  {
  }

  /** The fuzzy decision reads only the key, company and title of each row. */
  predicate SameMatchColumns(rows: seq<Row>, rows': seq<Row>) {
    && SameKeys(rows, rows')
    && forall j :: 0 <= j < |rows| ==>
         && (Company in rows'[j].cells <==> Company in rows[j].cells)
         && (Company in rows[j].cells ==> rows'[j].cells[Company] == rows[j].cells[Company])
         && (JobTitle in rows'[j].cells <==> JobTitle in rows[j].cells)
         && (JobTitle in rows[j].cells ==> rows'[j].cells[JobTitle] == rows[j].cells[JobTitle])
  }

  lemma {:induction false} CandidatesStable(rows: seq<Row>, rows': seq<Row>, company: string, from: nat)
    requires SameMatchColumns(rows, rows')
    ensures Candidates(rows', company, from) == Candidates(rows, company, from)
    decreases |rows| - from
  {
    if from < |rows| {
      CandidatesStable(rows, rows', company, from + 1);
    }
  }

  lemma {:induction false} FirstSameApplicationStable(rows: seq<Row>, rows': seq<Row>, cs: seq<nat>, company: string, role: Option<string>)
    requires SameMatchColumns(rows, rows')
    requires forall k :: 0 <= k < |cs| ==> cs[k] < |rows|
    ensures FirstSameApplication(rows', cs, company, role) == FirstSameApplication(rows, cs, company, role)
    decreases |cs|
  {
    if cs != [] {
      assert LowerCell(rows'[cs[0]], Company) == LowerCell(rows[cs[0]], Company);
      assert LowerCell(rows'[cs[0]], JobTitle) == LowerCell(rows[cs[0]], JobTitle);
      FirstSameApplicationStable(rows, rows', cs[1..], company, role);
    }
  }

  lemma ResolveStable(rows: seq<Row>, rows': seq<Row>, d: ApplicationData)
    requires SameMatchColumns(rows, rows')
    ensures Resolve(rows', d) == Resolve(rows, d)
  {
    IndexOfEmailStable(rows, rows', d.emailId);
    if Given(d, RelatedApplicationId).Some? {
      IndexOfEmailStable(rows, rows', d.values[RelatedApplicationId]);
    }
    if FuzzyCompany(d).Some? {
      CandidatesStable(rows, rows', FuzzyCompany(d).value, 0);
      FirstSameApplicationStable(rows, rows', Candidates(rows, FuzzyCompany(d).value, 0), FuzzyCompany(d).value, FuzzyRole(d));
    }
  }

  /** Reprocessing the same record leaves the table as the first call left it. */
  lemma ReconcileIdempotent(rows: seq<Row>, nextId: nat, d: ApplicationData)
    ensures var r1 := Reconcile(rows, nextId, d);
      var r2 := Reconcile(r1.rows, r1.nextId, d);
      r2.rows == r1.rows && r2.nextId == r1.nextId
  {
    match Resolve(rows, d)
    case ExactMatch(i) => IdempotentExact(rows, nextId, d, i);
    case Linked(i) => IdempotentLinked(rows, nextId, d, i);
    case FuzzyMatch(i) => IdempotentFuzzy(rows, nextId, d, i);
    case Insert => IdempotentInsert(rows, nextId, d);
  }

  lemma {:induction false} IdempotentExact(rows: seq<Row>, nextId: nat, d: ApplicationData, i: nat)
    requires Resolve(rows, d) == ExactMatch(i)
    ensures var r1 := Reconcile(rows, nextId, d);
      var r2 := Reconcile(r1.rows, r1.nextId, d);
      r2.rows == r1.rows && r2.nextId == r1.nextId
  {
    var r1 := Reconcile(rows, nextId, d);
    if d.values != map[] {
      IndexOfEmailStable(rows, r1.rows, d.emailId);
      assert Resolve(r1.rows, d) == ExactMatch(i);
      assert r1.rows[i].cells + d.values == r1.rows[i].cells;
      assert UpdateRow(r1.rows, i, d.values) == r1.rows;
    }
  }

  lemma {:induction false} IdempotentLinked(rows: seq<Row>, nextId: nat, d: ApplicationData, i: nat)
    requires Resolve(rows, d) == Linked(i)
    ensures var r1 := Reconcile(rows, nextId, d);
      var r2 := Reconcile(r1.rows, r1.nextId, d);
      r2.rows == r1.rows && r2.nextId == r1.nextId
  {
    var r1 := Reconcile(rows, nextId, d);
    IndexOfEmailStable(rows, r1.rows, d.emailId);
    IndexOfEmailStable(rows, r1.rows, d.values[RelatedApplicationId]);
    assert Resolve(r1.rows, d) == Linked(i);
    var t1 := r1.rows[i];
    assert t1.cells + LinkUpdate(t1, d) == t1.cells;
    assert UpdateRow(r1.rows, i, LinkUpdate(t1, d)) == r1.rows;
  }

  lemma {:induction false} IdempotentFuzzy(rows: seq<Row>, nextId: nat, d: ApplicationData, i: nat)
    requires Resolve(rows, d) == FuzzyMatch(i)
    ensures var r1 := Reconcile(rows, nextId, d);
      var r2 := Reconcile(r1.rows, r1.nextId, d);
      r2.rows == r1.rows && r2.nextId == r1.nextId
  {
    var r1 := Reconcile(rows, nextId, d);
    FuzzyTargetIsFirstQualifying(rows, d);
    assert FuzzyTarget(rows, d) == Some(i);
    var company := FuzzyCompany(d).value;
    ContainsBound(Lower(rows[i].cells[Company]), company);
    FillForwardMatchColumns(rows, i, d);
    ResolveStable(rows, r1.rows, d);
    FillForwardSettles(rows[i], d);
    var t1 := r1.rows[i];
    assert UpdateRow(r1.rows, i, FillForward(t1, d)) == r1.rows;
  }

  lemma FillForwardMatchColumns(rows: seq<Row>, i: nat, d: ApplicationData)
    requires i < |rows|
    requires !Blank(rows[i].cells, Company) && !Blank(rows[i].cells, JobTitle)
    ensures SameMatchColumns(rows, UpdateRow(rows, i, FillForward(rows[i], d)))
  {
    var fill := FillForward(rows[i], d);
    assert Company !in fill && JobTitle !in fill;
  }

  /** A second fill-forward with the same record writes nothing new. */
  lemma FillForwardSettles(target: Row, d: ApplicationData)
    ensures var t1 := target.(cells := target.cells + FillForward(target, d));
      t1.cells + FillForward(t1, d) == t1.cells
  {
  }

  lemma {:induction false} IdempotentInsert(rows: seq<Row>, nextId: nat, d: ApplicationData)
    requires Resolve(rows, d) == Insert
    ensures var r1 := Reconcile(rows, nextId, d);
      var r2 := Reconcile(r1.rows, r1.nextId, d);
      r2.rows == r1.rows && r2.nextId == r1.nextId
  {
    var r1 := Reconcile(rows, nextId, d);
    var n := |rows|;
    assert !HasEmail(rows, d.emailId);
    assert IndexOfEmail(r1.rows, d.emailId) == Some(n) by {
      assert r1.rows[n].emailId == d.emailId;
      assert forall j :: 0 <= j < n ==> r1.rows[j] == rows[j];
    }
    if d.values != map[] {
      assert r1.rows[n].cells + d.values == r1.rows[n].cells;
      assert UpdateRow(r1.rows, n, d.values) == r1.rows;
    }
  }
}
