/**
 * The ingestion driver `process_emails`: messages are handled in list order;
 * each fetched message is parsed against the most recently loaded table,
 * skipped when it names no company, classified as new or updated, saved,
 * and the table reloaded. The mail service, the parser and the store's
 * failures are parameters.
 */
module ProcessEmails {
  import opened Wrappers
  import opened Schema
  import opened Reconciliation
  import opened DataManager

  datatype Counters = Counters(processed: nat, newApplications: nat, updated: nat, skipped: nat)

  datatype ParseOutcome = Parsed(data: ApplicationData) | ParseRaised

  /**
   * What the store does with one classified message. `SaveRaises`: the
   * connection cannot be opened, `add_application` raises before its `try`
   * and nothing is committed. Otherwise the save returns, having applied the
   * resolution or rolled back a failed statement (`add_application`'s contract
   * says which), and the reload
   * gives either the table or, when loading fails, an empty frame; loading
   * itself never raises.
   */
  datatype StoreOutcome = SaveRaises | SavedReloaded | SavedReloadEmpty

  /** What the loop carries from one message to the next: the table, its serial counter, the loaded snapshot, and the counters. */
  datatype Driver = Driver(rows: seq<Row>, nextId: nat, existing: seq<Row>, counts: Counters)

  /** `email_id in existing_df['email_id'].values` (False on an empty frame), else a link to another application, else new. */
  predicate CountsAsUpdate(existing: seq<Row>, d: ApplicationData) {
    HasEmail(existing, d.emailId) || (!d.isNewApplication && Given(d, RelatedApplicationId).Some?)
  }

  function Classified(c: Counters, existing: seq<Row>, d: ApplicationData): (c': Counters)
    ensures c'.newApplications + c'.updated == c.newApplications + c.updated + 1
    ensures c'.updated == c.updated + 1 <==> CountsAsUpdate(existing, d)
    ensures c'.processed == c.processed && c'.skipped == c.skipped
  {
    if CountsAsUpdate(existing, d) then c.(updated := c.updated + 1) else c.(newApplications := c.newApplications + 1)
  }

  /** The snapshot after a save that returned. */
  function Reloaded(store: StoreOutcome, rows: seq<Row>): seq<Row> {
    if store == SavedReloadEmpty then [] else rows
  }

  /**
   * One message. `details` is the fetch result (None when the fetch gives
   * nothing) and `store` what the store does if the message gets that far.
   */
  function Step<E>(st: Driver, details: Option<E>, store: StoreOutcome, parse: (E, seq<Row>) -> ParseOutcome): (st': Driver)
    ensures st'.counts.processed + st'.counts.skipped == st.counts.processed + st.counts.skipped + (if details.Some? then 1 else 0)
    ensures st'.counts.processed >= st.counts.processed
  {
    match details
    case None => st
    case Some(email) =>
      match parse(email, st.existing)
      case ParseRaised => st.(counts := st.counts.(skipped := st.counts.skipped + 1))
      case Parsed(d) =>
        if Given(d, Company).None? then st.(counts := st.counts.(skipped := st.counts.skipped + 1))
        else
          var c := Classified(st.counts, st.existing, d);
          if store == SaveRaises then st.(counts := c.(skipped := c.skipped + 1))
          else
            var s := Reconcile(st.rows, st.nextId, d);
            Driver(s.rows, s.nextId, Reloaded(store, s.rows), c.(processed := c.processed + 1))
  }

  /** The messages handled in order. */
  function Run<E>(st: Driver, details: seq<Option<E>>, stores: seq<StoreOutcome>, parse: (E, seq<Row>) -> ParseOutcome): (r: Driver)
    requires |stores| == |details|
    ensures r.counts.processed >= st.counts.processed
    decreases |details|
  {
    if details == [] then st
    else
      var n := |details| - 1;
      Step(Run(st, details[..n], stores[..n], parse), details[n], stores[n], parse)
  }

  /**
   * `process_emails` over an open store. `connected` is false when the mail
   * service cannot be built; `details[i]` is the fetch result for the i-th
   * listed message and `stores[i]` what the store does with it;
   * `firstLoadFails` says whether the initial load gives an empty frame.
   * Returns the final counters.
   */
  method ProcessEmails<E>(store: ApplicationTable, connected: bool, firstLoadFails: bool, details: seq<Option<E>>,
                          stores: seq<StoreOutcome>, parse: (E, seq<Row>) -> ParseOutcome)
    returns (counts: Counters)
    requires store.Valid() && |stores| == |details|
    modifies store
    ensures store.Valid()
    ensures !connected || details == [] ==> counts == Counters(0, 0, 0, 0) && store.rows == old(store.rows) && store.nextId == old(store.nextId)
    ensures connected ==>
      var initial := if firstLoadFails then [] else old(store.rows);
      var final := Run(Driver(old(store.rows), old(store.nextId), initial, Counters(0, 0, 0, 0)), details, stores, parse);
      store.rows == final.rows && store.nextId == final.nextId && counts == final.counts
  {
    counts := Counters(0, 0, 0, 0);
    if !connected || details == [] {
      return;
    }
    var existing := if firstLoadFails then [] else store.rows;
    ghost var start := Driver(store.rows, store.nextId, existing, counts);
    for i := 0 to |details|
      invariant store.Valid()
      invariant Run(start, details[..i], stores[..i], parse) == Driver(store.rows, store.nextId, existing, counts)
    {
      assert details[..i + 1][..i] == details[..i] && stores[..i + 1][..i] == stores[..i];
      var email := details[i];
      if email.None? {
        continue;
      }
      var outcome := parse(email.value, existing);
      if outcome.ParseRaised? {
        counts := counts.(skipped := counts.skipped + 1);
        continue;
      }
      var d := outcome.data;
      if Given(d, Company).None? {
        counts := counts.(skipped := counts.skipped + 1);
        continue;
      }
      if HasEmail(existing, d.emailId) {
        counts := counts.(updated := counts.updated + 1);
      } else if !d.isNewApplication && Given(d, RelatedApplicationId).Some? {
        counts := counts.(updated := counts.updated + 1);
      } else {
        counts := counts.(newApplications := counts.newApplications + 1);
      }
      if stores[i] == SaveRaises {
        counts := counts.(skipped := counts.skipped + 1);
        continue;
      }
      var _ := store.AddApplication(d);
      existing := if stores[i] == SavedReloadEmpty then [] else store.rows;
      counts := counts.(processed := counts.processed + 1);
    }
    assert details[..|details|] == details && stores[..|stores|] == stores;
  }

  // ---------------------------------------------------------------------------
  // Properties

  /** Number of messages whose fetch gave something. */
  function Fetched<E>(details: seq<Option<E>>): (n: nat)
    ensures n <= |details|
  {
    if details == [] then 0 else Fetched(details[..|details| - 1]) + (if details[|details| - 1].Some? then 1 else 0)
  }

  /** A fetch that gives nothing changes neither the table nor any counter. */
  lemma FetchMissChangesNothing<E>(st: Driver, store: StoreOutcome, parse: (E, seq<Row>) -> ParseOutcome)
    ensures Step(st, None, store, parse) == st
  {
  }

  /** A parse without a company is skipped and never reaches the store. */
  lemma NoCompanySkipped<E>(st: Driver, email: E, store: StoreOutcome, parse: (E, seq<Row>) -> ParseOutcome)
    requires parse(email, st.existing).Parsed? && Given(parse(email, st.existing).data, Company).None?
    ensures var st' := Step(st, Some(email), store, parse);
      st'.rows == st.rows && st'.nextId == st.nextId && st'.existing == st.existing
      && st'.counts == st.counts.(skipped := st.counts.skipped + 1)
  {
  }

  /**
   * A message reaching classification counts once as updated or as new. It is
   * saved iff it counts as processed; when the save raises it counts as
   * skipped and the table and snapshot stay as they were.
   */
  lemma ClassifiedOnce<E>(st: Driver, email: E, store: StoreOutcome, parse: (E, seq<Row>) -> ParseOutcome)
    requires parse(email, st.existing).Parsed? && Given(parse(email, st.existing).data, Company).Some?
    ensures var d, st' := parse(email, st.existing).data, Step(st, Some(email), store, parse);
      var saved := Reconcile(st.rows, st.nextId, d);
      && st'.counts.newApplications + st'.counts.updated == st.counts.newApplications + st.counts.updated + 1
      && (st'.counts.updated == st.counts.updated + 1 <==> CountsAsUpdate(st.existing, d))
      && (store != SaveRaises <==> st'.counts.processed == st.counts.processed + 1)
      && (store == SaveRaises <==> st'.counts.skipped == st.counts.skipped + 1)
      && (store != SaveRaises ==> st'.rows == saved.rows && st'.nextId == saved.nextId)
      && (store == SaveRaises ==> st'.rows == st.rows && st'.nextId == st.nextId && st'.existing == st.existing)
      && (store == SavedReloaded ==> st'.existing == st'.rows)
      && (store == SavedReloadEmpty ==> st'.existing == [])
  {
  }

  /**
   * After a reload that came back empty, the next message's already-processed
   * check fails even when its key is in the table: unless it is a linked
   * update, it counts as new, while the store still finds its own row.
   */
  lemma EmptySnapshotCountsNew<E>(st: Driver, email: E, store: StoreOutcome, parse: (E, seq<Row>) -> ParseOutcome)
    requires st.existing == []
    requires parse(email, st.existing).Parsed? && Given(parse(email, st.existing).data, Company).Some?
    requires var d := parse(email, st.existing).data; d.isNewApplication || Given(d, RelatedApplicationId).None?
    ensures Step(st, Some(email), store, parse).counts.newApplications == st.counts.newApplications + 1
    ensures Step(st, Some(email), store, parse).counts.updated == st.counts.updated
  {
  }

  /**
   * The bookkeeping over a whole run: every fetched message ends up processed
   * or skipped, and each processed message was counted once as new or updated.
   */
  lemma {:induction false} RunAccounting<E>(st: Driver, details: seq<Option<E>>, stores: seq<StoreOutcome>,
                                            parse: (E, seq<Row>) -> ParseOutcome)
    requires |stores| == |details|
    ensures var r := Run(st, details, stores, parse);
      && r.counts.processed + r.counts.skipped == st.counts.processed + st.counts.skipped + Fetched(details)
      && r.counts.newApplications + r.counts.updated - st.counts.newApplications - st.counts.updated
         >= r.counts.processed - st.counts.processed
      && r.counts.newApplications + r.counts.updated >= st.counts.newApplications + st.counts.updated
    decreases |details|
  {
    if details != [] {
      var n := |details| - 1;
      RunAccounting(st, details[..n], stores[..n], parse);
    }
  }

  /**
   * A later message sees the writes of an earlier one whose reload gave the
   * table: once a record has been inserted or has updated its own row, a
   * later record with the same `email_id` counts as an update.
   */
  lemma SnapshotAfterSave<E>(st: Driver, email: E, parse: (E, seq<Row>) -> ParseOutcome, later: ApplicationData)
    requires parse(email, st.existing).Parsed? && Given(parse(email, st.existing).data, Company).Some?
    requires Resolve(st.rows, parse(email, st.existing).data).ExactMatch? || Resolve(st.rows, parse(email, st.existing).data).Insert?
    requires later.emailId == parse(email, st.existing).data.emailId
    ensures var st' := Step(st, Some(email), SavedReloaded, parse);
      st'.existing == st'.rows && CountsAsUpdate(st'.existing, later)
  {
    var d := parse(email, st.existing).data;
    var s := Reconcile(st.rows, st.nextId, d);
    match Resolve(st.rows, d)
    case ExactMatch(i) =>
      assert s.rows[i].emailId == d.emailId;
    case Insert =>
      assert s.rows[|st.rows|].emailId == d.emailId;
  }
}
