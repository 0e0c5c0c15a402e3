/**
 * The deterministic parts of the dashboard: the flow lists of the pipeline
 * Sankey diagram (`create_sankey_diagram`, without the figure itself) and
 * the "last run" time-ago label.
 */
module Dashboard {
  import opened Wrappers
  import opened Statuses
  import opened Statistics

  /** Node positions: the three stages, then the four outcomes. */
  const AppliedNode: nat := 0
  const ScreenNode: nat := 1
  const InterviewNode: nat := 2
  const RejectedNode: nat := 3
  const GhostedNode: nat := 4
  const DroppedNode: nat := 5
  const OfferNode: nat := 6
  const StageNodes: nat := 3

  const Teal := "rgba(76, 205, 196, 0.6)"
  const Green := "rgba(46, 204, 113, 0.6)"
  const Red := "rgba(255, 107, 107, 0.6)"
  const Grey := "rgba(200, 200, 200, 0.6)"

  /** `fillna('Applied')` then the legacy mapping. */
  function Prepared(statuses: seq<Option<string>>): (ps: seq<string>)
    ensures |ps| == |statuses|
    ensures forall j :: 0 <= j < |ps| ==> ps[j] == Normalise(statuses[j].GetOr(Applied))
  {
    seq(|statuses|, j requires 0 <= j < |statuses| => Normalise(statuses[j].GetOr(Applied)))
  }

  datatype StageCounts = StageCounts(applied: nat, screen: nat, interview: nat, rejected: nat, ghosted: nat, dropped: nat, offer: nat)

  /** `len(df[df['status'] == name])` for each stage and outcome. */
  function CountStages(ps: seq<string>): StageCounts {
    StageCounts(Occurrences(ps, Applied), Occurrences(ps, RecruiterScreen), Occurrences(ps, Interview),
                Occurrences(ps, Rejected), Occurrences(ps, Ghosted), Occurrences(ps, Dropped), Occurrences(ps, Offer))
  }

  datatype Flow = Flow(source: nat, target: nat, value: nat)

  /** The candidate flows, in the order the code appends them. */
  function Edges(c: StageCounts): (e: seq<Flow>)
    ensures |e| == 6
    ensures forall k :: 0 <= k < |e| ==> e[k].source < StageNodes && e[k].source < e[k].target <= OfferNode
  {
    [Flow(AppliedNode, ScreenNode, c.screen), Flow(ScreenNode, InterviewNode, c.interview),
     Flow(InterviewNode, OfferNode, c.offer), Flow(AppliedNode, RejectedNode, c.rejected),
     Flow(AppliedNode, GhostedNode, c.ghosted), Flow(AppliedNode, DroppedNode, c.dropped)]
  }

  function PositiveFlows(fs: seq<Flow>): seq<Flow> {
    if fs == [] then [] else Keep(fs[0]) + PositiveFlows(fs[1..])
  }

  lemma PositiveFlowsArePositive(fs: seq<Flow>)
    ensures forall f :: f in PositiveFlows(fs) ==> f.value > 0
  {
    forall f | f in PositiveFlows(fs) ensures f.value > 0 {
      PositiveFlowsSubset(fs, f);
    }
  }

  /** A flow is appended only when its count is positive. */
  function Keep(f: Flow): seq<Flow> {
    if f.value > 0 then [f] else []
  }

  /** The flows drawn: the positive ones, else one Applied→Recruiter Screen flow of the applied count, else none. */
  function DrawnFlows(c: StageCounts): (fs: seq<Flow>)
    ensures forall f :: f in fs ==> f.value > 0
    ensures c.applied > 0 ==> fs != []
  {
    var fs := PositiveFlows(Edges(c));
    PositiveFlowsArePositive(Edges(c));
    if fs != [] then fs
    else if c.applied > 0 then [Flow(AppliedNode, ScreenNode, c.applied)]
    else []
  }

  /** The colour loop's choice for one link. */
  function LinkColor(source: nat, target: nat): (color: string)
    ensures color == Grey <==> source >= StageNodes
    ensures color == Teal <==> source < StageNodes && target < StageNodes
    ensures color == Green <==> source < StageNodes && target == OfferNode
    ensures color == Red <==> source < StageNodes && StageNodes <= target && target != OfferNode
  {
    if source < StageNodes then
      if target < StageNodes then Teal
      else if target - StageNodes == 3 then Green
      else Red
    else Grey
  }

  datatype Sankey = Sankey(source: seq<nat>, target: seq<nat>, value: seq<nat>, linkColors: seq<string>)

  /** The three link lists spell out the flows `fs`, position by position. */
  ghost predicate Links(source: seq<nat>, target: seq<nat>, value: seq<nat>, fs: seq<Flow>) {
    && |source| == |fs| && |target| == |fs| && |value| == |fs|
    && forall k :: 0 <= k < |fs| ==> source[k] == fs[k].source && target[k] == fs[k].target && value[k] == fs[k].value
  }

  /** One `if count > 0: append` block of the diagram code. */
  method AddFlow(source: seq<nat>, target: seq<nat>, value: seq<nat>, ghost fs: seq<Flow>, f: Flow)
    returns (source': seq<nat>, target': seq<nat>, value': seq<nat>)
    requires Links(source, target, value, fs)
    ensures Links(source', target', value', fs + Keep(f))
  {
    source', target', value' := source, target, value;
    if f.value > 0 {
      source', target', value' := source + [f.source], target + [f.target], value + [f.value];
    }
  }

  /** `create_sankey_diagram`: the link lists of the figure, or None when there is nothing to draw. */
  method CreateSankeyDiagram(statuses: seq<Option<string>>) returns (r: Option<Sankey>)
    ensures |statuses| == 0 ==> r.None?
    ensures |statuses| > 0 ==> (r.None? <==> DrawnFlows(CountStages(Prepared(statuses))) == [])
    ensures r.Some? ==>
      var fs, s := DrawnFlows(CountStages(Prepared(statuses))), r.value;
      && |s.source| == |fs| && |s.target| == |fs| && |s.value| == |fs| && |s.linkColors| == |fs|
      && forall k :: 0 <= k < |fs| ==>
           s.source[k] == fs[k].source && s.target[k] == fs[k].target && s.value[k] == fs[k].value
           && s.linkColors[k] == LinkColor(fs[k].source, fs[k].target)
  {
    if |statuses| == 0 {
      return None;
    }
    var ps := Prepared(statuses);
    var c := CountStages(ps);
    var source, target, value := CandidateLinks(c);
    ghost var fs := DrawnFlows(c);
    NoPositiveFlows(c);
    if |source| == 0 {
      if c.applied > 0 {
        source, target, value := source + [AppliedNode], target + [ScreenNode], value + [c.applied];
      } else if c.screen > 0 {
        assert false;  // a positive screen count already produced a flow
      } else if c.interview > 0 {
        assert false;
      } else if c.rejected > 0 || c.ghosted > 0 || c.dropped > 0 || c.offer > 0 {
        assert false;
      } else {
        return None;
      }
    }
    assert Links(source, target, value, fs);
    var linkColors := LinkColors(source, target);
    return Some(Sankey(source, target, value, linkColors));
  }

  /** The six `if count > 0` blocks: the positive candidate flows, in order. */
  method CandidateLinks(c: StageCounts) returns (source: seq<nat>, target: seq<nat>, value: seq<nat>)
    ensures Links(source, target, value, PositiveFlows(Edges(c)))
  {
    var e := Edges(c);
    source, target, value := [], [], [];
    ghost var kept: seq<Flow> := [];
    source, target, value := AddFlow(source, target, value, kept, e[0]);
    kept := kept + Keep(e[0]);
    source, target, value := AddFlow(source, target, value, kept, e[1]);
    kept := kept + Keep(e[1]);
    source, target, value := AddFlow(source, target, value, kept, e[2]);
    kept := kept + Keep(e[2]);
    source, target, value := AddFlow(source, target, value, kept, e[3]);
    kept := kept + Keep(e[3]);
    source, target, value := AddFlow(source, target, value, kept, e[4]);
    kept := kept + Keep(e[4]);
    source, target, value := AddFlow(source, target, value, kept, e[5]);
    kept := kept + Keep(e[5]);
    PositiveEdges(c);
    Regroup(Keep(e[0]), Keep(e[1]), Keep(e[2]), Keep(e[3]), Keep(e[4]), Keep(e[5]));
  }

  /** The colour loop: one colour per link, chosen from its endpoints. */
  method LinkColors(source: seq<nat>, target: seq<nat>) returns (linkColors: seq<string>)
    requires |target| == |source|
    ensures |linkColors| == |source|
    ensures forall k :: 0 <= k < |source| ==> linkColors[k] == LinkColor(source[k], target[k])
  {
    linkColors := [];
    for i := 0 to |source|
      invariant |linkColors| == i
      invariant forall k :: 0 <= k < i ==> linkColors[k] == LinkColor(source[k], target[k])
    {
      linkColors := linkColors + [LinkColor(source[i], target[i])];
    }
  }

  /** The positive candidate flows, in order. */
  lemma PositiveEdges(c: StageCounts)
    ensures var e := Edges(c);
      PositiveFlows(e) == Keep(e[0]) + (Keep(e[1]) + (Keep(e[2]) + (Keep(e[3]) + (Keep(e[4]) + Keep(e[5])))))
  {
    PositiveSix(Edges(c));
  }

  lemma PositiveSix(e: seq<Flow>)
    requires |e| == 6
    ensures PositiveFlows(e) == Keep(e[0]) + (Keep(e[1]) + (Keep(e[2]) + (Keep(e[3]) + (Keep(e[4]) + Keep(e[5])))))
  {
    PositiveSuffix(e, 5);
    assert e[6..] == [];
    PositiveSuffix(e, 4);
    PositiveSuffix(e, 3);
    PositiveSuffix(e, 2);
    PositiveSuffix(e, 1);
    PositiveSuffix(e, 0);
    assert e[0..] == e;
  }

  lemma Regroup(k0: seq<Flow>, k1: seq<Flow>, k2: seq<Flow>, k3: seq<Flow>, k4: seq<Flow>, k5: seq<Flow>)
    ensures [] + k0 + k1 + k2 + k3 + k4 + k5 == k0 + (k1 + (k2 + (k3 + (k4 + k5))))
  {
  }

  lemma PositiveSuffix(fs: seq<Flow>, i: nat)
    requires i < |fs|
    ensures PositiveFlows(fs[i..]) == Keep(fs[i]) + PositiveFlows(fs[i + 1..])
  {
    assert fs[i..][1..] == fs[i + 1..];
  }

  lemma {:induction false} PositiveFlowsSubset(fs: seq<Flow>, f: Flow)
    requires f in PositiveFlows(fs)
    ensures f in fs && f.value > 0
    decreases |fs|
  {
    if f !in Keep(fs[0]) {
      PositiveFlowsSubset(fs[1..], f);
    }
  }

  /** The diagram is omitted exactly when no status, after the default and the mapping, is a pipeline name. */
  lemma NothingToDraw(c: StageCounts)
    ensures DrawnFlows(c) == [] <==>
      c.applied == 0 && c.screen == 0 && c.interview == 0 && c.rejected == 0 && c.ghosted == 0 && c.dropped == 0 && c.offer == 0
  {
    PositiveEdges(c);
  }

  /** When some non-Applied count is positive, a candidate flow is drawn iff its count is positive; otherwise the single fallback flow carries the Applied count. */
  lemma DrawnIffPositive(c: StageCounts)
    ensures PositiveFlows(Edges(c)) != [] ==> forall e :: e in Edges(c) ==> (e in DrawnFlows(c) <==> e.value > 0)
    ensures PositiveFlows(Edges(c)) == [] && c.applied > 0 ==> DrawnFlows(c) == [Flow(AppliedNode, ScreenNode, c.applied)]
    ensures PositiveFlows(Edges(c)) == [] <==>
      c.screen == 0 && c.interview == 0 && c.rejected == 0 && c.ghosted == 0 && c.dropped == 0 && c.offer == 0
  {
    PositiveEdges(c);
    NoPositiveFlows(c);
  }

  lemma NoPositiveFlows(c: StageCounts)
    ensures PositiveFlows(Edges(c)) == [] <==>
      c.screen == 0 && c.interview == 0 && c.rejected == 0 && c.ghosted == 0 && c.dropped == 0 && c.offer == 0
  {
    PositiveEdges(c);
  }

  /** What a drawn flow looks like: it leaves a stage node, has a positive value, and is coloured by its target, never grey. */
  predicate WellFormedFlow(f: Flow) {
    && f.value > 0 && f.source < StageNodes && ScreenNode <= f.target <= OfferNode
    && LinkColor(f.source, f.target) != Grey
    && (LinkColor(f.source, f.target) == Teal <==> f.target < StageNodes)
    && (LinkColor(f.source, f.target) == Green <==> f.target == OfferNode)
    && (LinkColor(f.source, f.target) == Red <==> RejectedNode <= f.target <= DroppedNode)
  }

  lemma DrawnFlowsWellFormed(c: StageCounts, f: Flow)
    requires f in DrawnFlows(c)
    ensures WellFormedFlow(f)
  {
    assert Teal != Green && Teal != Red && Teal != Grey && Green != Red && Green != Grey && Red != Grey by {
      assert Teal[5] != Green[5] && Teal[5] != Red[5] && Teal[5] != Grey[5];
      assert Green[5] != Red[5] && Green[5] != Grey[5] && Red[6] != Grey[6];
    }
    if f in PositiveFlows(Edges(c)) {
      PositiveFlowsSubset(Edges(c), f);
    }
  }

  /** The seven counts never exceed the rows, and cover them all when every mapped status is a pipeline name. */
  lemma StageCountsBounded(statuses: seq<Option<string>>)
    ensures var c, n := CountStages(Prepared(statuses)), |statuses|;
      && c.applied + c.screen + c.interview + c.rejected + c.ghosted + c.dropped + c.offer <= n
      && ((forall j :: 0 <= j < n ==> Prepared(statuses)[j] in PipelineStatuses) ==>
            c.applied + c.screen + c.interview + c.rejected + c.ghosted + c.dropped + c.offer == n)
  {
    var ps := Prepared(statuses);
    var c := CountStages(ps);
    PipelineNamesDistinct();
    OccurrenceSumBounded(PipelineStatuses, ps);
    PipelineOccurrenceSum(ps);
  }

  lemma PipelineNamesDistinct()
    ensures NoDuplicates(PipelineStatuses)
  {
    var p := PipelineStatuses;
    assert p[0][0] == 'A' && p[1][2] == 'c' && p[2][0] == 'I' && p[3][2] == 'j' && p[4][0] == 'G' && p[5][0] == 'D' && p[6][0] == 'O';
    assert p[1][0] == 'R' && p[3][0] == 'R';
  }

  lemma PipelineOccurrenceSum(ps: seq<string>)
    ensures var c := CountStages(ps);
      OccurrenceSum(PipelineStatuses, ps) == c.applied + c.screen + c.interview + c.rejected + c.ghosted + c.dropped + c.offer
  {
    var p := PipelineStatuses;
    assert p[..1][..0] == [];
    assert OccurrenceSum(p[..1], ps) == Occurrences(ps, Applied);
    assert p[..2][..1] == p[..1];
    assert OccurrenceSum(p[..2], ps) == OccurrenceSum(p[..1], ps) + Occurrences(ps, RecruiterScreen);
    assert p[..3][..2] == p[..2];
    assert OccurrenceSum(p[..3], ps) == OccurrenceSum(p[..2], ps) + Occurrences(ps, Interview);
    assert p[..4][..3] == p[..3];
    assert OccurrenceSum(p[..4], ps) == OccurrenceSum(p[..3], ps) + Occurrences(ps, Rejected);
    assert p[..5][..4] == p[..4];
    assert OccurrenceSum(p[..5], ps) == OccurrenceSum(p[..4], ps) + Occurrences(ps, Ghosted);
    assert p[..6][..5] == p[..5];
    assert OccurrenceSum(p[..6], ps) == OccurrenceSum(p[..5], ps) + Occurrences(ps, Dropped);
    assert p[..7][..6] == p[..6] && p[..7] == p;
  }

  datatype TimeAgo = DaysAgo(days: int) | HoursAgo(hours: nat) | MinutesAgo(minutes: nat) | JustNow

  /** The label beside the last-run timestamp, from the `days` and `seconds` parts of `now - last_run`. */
  function LastRunLabel(days: int, seconds: nat): (r: TimeAgo)
    requires seconds < 86400
    ensures r.DaysAgo? <==> days > 0
    ensures r.DaysAgo? ==> r.days == days
    ensures r.HoursAgo? <==> days <= 0 && seconds > 3600
    ensures r.MinutesAgo? <==> days <= 0 && 60 < seconds <= 3600
    ensures r.HoursAgo? ==> 1 <= r.hours < 24 && r.hours * 3600 <= seconds < (r.hours + 1) * 3600
    ensures r.MinutesAgo? ==> 1 <= r.minutes <= 60 && r.minutes * 60 <= seconds < (r.minutes + 1) * 60
    ensures r == JustNow <==> days <= 0 && seconds <= 60
  {
    if days > 0 then DaysAgo(days)
    else if seconds > 3600 then HoursAgo(seconds / 3600)
    else if seconds > 60 then MinutesAgo(seconds / 60)
    else JustNow
  }

  /** Exactly one hour is still reported in minutes, since the hour test is strict. */
  lemma OneHourReadsAsMinutes()
    ensures LastRunLabel(0, 3600) == MinutesAgo(60)
  {
  }
}
