/**
 * Status vocabularies. The seven pipeline stages are the stored values the
 * parsers and the dashboard use; the four-level legacy ranking is the only
 * ordering the reconciliation code applies; the legacy-to-pipeline mapping
 * is shared by the migration script, the Sankey diagram and the funnel.
 */
module Statuses {

  const Applied := "Applied"
  const RecruiterScreen := "Recruiter Screen"
  const Interview := "Interview"
  const Rejected := "Rejected"
  const Ghosted := "Ghosted"
  const Dropped := "Dropped"
  const Offer := "Offer"
  const InProgress := "In Progress"
  const Withdrawn := "Withdrawn"

  /** The pipeline stages in display order. */
  const PipelineStatuses: seq<string> := [Applied, RecruiterScreen, Interview, Rejected, Ghosted, Dropped, Offer]

  /** The legacy ordering `{'Applied': 0, 'In Progress': 1, 'Rejected': 2, 'Withdrawn': 3}`; any other name ranks 0. */
  function LegacyRank(s: string): (r: nat)
    ensures r <= 3
    ensures r > 0 <==> s in [InProgress, Rejected, Withdrawn]
  {
    if s == InProgress then 1
    else if s == Rejected then 2
    else if s == Withdrawn then 3
    else 0
  }

  lemma PipelineNamesMostlyRankZero(s: string)
    requires s in PipelineStatuses && s != Rejected
    ensures LegacyRank(s) == 0
  {
  }

  /** The mapping from legacy names to pipeline names, in the order the migration applies it. */
  const StatusMapping: seq<(string, string)> := [(InProgress, RecruiterScreen), (Withdrawn, Dropped)]

  /** Replacing a status by the mapping (pandas `replace` with a dict, one lookup). */
  function Normalise(s: string): (r: string)
    ensures r != InProgress && r != Withdrawn
    ensures s != InProgress && s != Withdrawn ==> r == s
    ensures s == InProgress ==> r == RecruiterScreen
    ensures s == Withdrawn ==> r == Dropped
  {
    if s == InProgress then RecruiterScreen
    else if s == Withdrawn then Dropped
    else s
  }

  /** `UPDATE ... SET status = to WHERE status = from` on one value. */
  function Remap(s: string, from: string, to: string): string {
    if s == from then to else s
  }

  /** Applying the mapping's entries one after the other, as the migration's loop does. */
  function RemapAll(s: string, mapping: seq<(string, string)>): string
    decreases |mapping|
  {
    if mapping == [] then s else RemapAll(Remap(s, mapping[0].0, mapping[0].1), mapping[1..])
  }

  /** No target of the mapping is a source of it, so sequential application equals one lookup. */
  lemma {:induction false} SequentialMappingIsNormalise(s: string)
    ensures RemapAll(s, StatusMapping) == Normalise(s)
  {
    var m := StatusMapping;
    var s1 := Remap(s, m[0].0, m[0].1);
    var s2 := Remap(s1, m[1..][0].0, m[1..][0].1);
    assert m[1..][1..] == [];
    assert RemapAll(s2, m[1..][1..]) == s2;
    assert RemapAll(s1, m[1..]) == s2;
    assert RemapAll(s, m) == s2;
  }

  lemma NormaliseIdempotent(s: string)
    ensures Normalise(Normalise(s)) == Normalise(s)
  {
  }
}
