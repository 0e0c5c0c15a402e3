/**
 * The one-off migration `migrate_statuses`: for each entry of the legacy
 * mapping, in order, `UPDATE ... SET status = new WHERE status = old`,
 * reporting how many rows each statement changed.
 */
module MigrateStatuses {
  import opened Statuses
  import opened Schema
  import opened DataManager

  /** The table after the first `k` statements of the migration. */
  function MigratedPrefix(rows: seq<Row>, k: nat): (m: seq<Row>)
    requires k <= |StatusMapping|
    ensures SameKeys(rows, m)
    ensures forall j :: 0 <= j < |rows| ==> m[j].id == rows[j].id && m[j].cells.Keys == rows[j].cells.Keys
  {
    if k == 0 then rows
    else RemapRows(MigratedPrefix(rows, k - 1), StatusMapping[k - 1].0, StatusMapping[k - 1].1)
  }

  function Migrated(rows: seq<Row>): (m: seq<Row>)
    ensures SameKeys(rows, m)
    ensures forall j :: 0 <= j < |rows| ==> m[j].cells.Keys == rows[j].cells.Keys
  {
    MigratedPrefix(rows, |StatusMapping|)
  }

  /** `migrate_statuses` on an open connection: the table rewritten and the per-entry row counts. */
  method Migrate(t: ApplicationTable) returns (counts: seq<nat>)
    requires t.Valid()
    modifies t
    ensures t.Valid() && t.nextId == old(t.nextId)
    ensures t.rows == Migrated(old(t.rows))
    ensures |counts| == |StatusMapping|
    ensures forall k :: 0 <= k < |counts| ==> counts[k] == CountStatus(old(t.rows), StatusMapping[k].0)
  {
    ghost var start := t.rows;
    counts := [];
    for k := 0 to |StatusMapping|
      invariant t.Valid() && t.nextId == old(t.nextId)
      invariant t.rows == MigratedPrefix(start, k)
      invariant |counts| == k
      invariant forall j :: 0 <= j < k ==> counts[j] == CountStatus(MigratedPrefix(start, j), StatusMapping[j].0)
    {
      var (oldStatus, newStatus) := StatusMapping[k];
      var count := t.SetStatusWhere(oldStatus, newStatus);
      counts := counts + [count];
    }
    CountStatusRemapOther(start, InProgress, RecruiterScreen, Withdrawn);
  }

  lemma {:induction false} RemapRowsTail(rows: seq<Row>, from: string, to: string)
    requires rows != []
    ensures RemapRows(rows, from, to)[1..] == RemapRows(rows[1..], from, to)
  {
    var a, b := RemapRows(rows, from, to)[1..], RemapRows(rows[1..], from, to);
    assert |a| == |b|;
    forall j | 0 <= j < |a| ensures a[j] == b[j] {
      assert rows[1..][j] == rows[j + 1];
    }
  }

  /** A statement for one status leaves the count of any status that is neither its source nor its target unchanged. */
  lemma {:induction false} CountStatusRemapOther(rows: seq<Row>, from: string, to: string, s: string)
    requires s != from && s != to
    ensures CountStatus(RemapRows(rows, from, to), s) == CountStatus(rows, s)
    decreases |rows|
  {
    if rows != [] {
      RemapRowsTail(rows, from, to);
      CountStatusRemapOther(rows[1..], from, to, s);
    }
  }

  /** Each row keeps its key, id and every other field, and its status becomes the normalised one. */
  lemma MigratedRows(rows: seq<Row>)
    ensures var m := Migrated(rows);
      && |m| == |rows|
      && (forall j :: 0 <= j < |rows| ==> m[j].id == rows[j].id && m[j].emailId == rows[j].emailId)
      && (forall j :: 0 <= j < |rows| ==> m[j].cells.Keys == rows[j].cells.Keys)
      && (forall j, c :: 0 <= j < |rows| && c in rows[j].cells && c != Status ==> m[j].cells[c] == rows[j].cells[c])
      && (forall j :: 0 <= j < |rows| && Status in rows[j].cells ==> m[j].cells[Status] == Normalise(rows[j].cells[Status]))
  {
    var m1 := RemapRows(rows, InProgress, RecruiterScreen);
    var m := RemapRows(m1, Withdrawn, Dropped);
    assert MigratedPrefix(rows, 1) == m1;
    assert Migrated(rows) == m;
    forall j | 0 <= j < |rows| && Status in rows[j].cells
      ensures m[j].cells[Status] == Normalise(rows[j].cells[Status])
    {
      var s := rows[j].cells[Status];
      assert m1[j].cells[Status] == Remap(s, InProgress, RecruiterScreen);
      assert m[j].cells[Status] == Remap(Remap(s, InProgress, RecruiterScreen), Withdrawn, Dropped);
    }
  }

  /** After the migration no row has a legacy status. */
  lemma NoLegacyStatusLeft(rows: seq<Row>)
    ensures forall j :: 0 <= j < |Migrated(rows)| && Status in Migrated(rows)[j].cells ==>
      Migrated(rows)[j].cells[Status] != InProgress && Migrated(rows)[j].cells[Status] != Withdrawn
  {
    MigratedRows(rows);
  }

  /** A row whose status is neither legacy name is left exactly as it was. */
  lemma OtherRowsUnchanged(rows: seq<Row>, j: nat)
    requires j < |rows| && Status in rows[j].cells
    requires rows[j].cells[Status] != InProgress && rows[j].cells[Status] != Withdrawn
    ensures |Migrated(rows)| == |rows| && Migrated(rows)[j] == rows[j]
  {
    MigratedRows(rows);
    var m := Migrated(rows);
    assert m[j].cells == rows[j].cells;
  }

  /** Running the migration twice gives the table of running it once: no target of the mapping is one of its sources. */
  lemma MigrateIdempotent(rows: seq<Row>)
    ensures Migrated(Migrated(rows)) == Migrated(rows)
  {
    var m := Migrated(rows);
    var mm := Migrated(m);
    MigratedRows(rows);
    MigratedRows(m);
    assert |mm| == |m|;
    forall j | 0 <= j < |m| ensures mm[j] == m[j] {
      assert mm[j].cells.Keys == m[j].cells.Keys;
      forall c | c in m[j].cells ensures mm[j].cells[c] == m[j].cells[c] {
        if c == Status {
          NormaliseIdempotent(rows[j].cells[Status]);
        }
      }
      assert mm[j].cells == m[j].cells;
    }
  }
}
