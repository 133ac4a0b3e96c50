/**
  The report printed by `main`: one line per pipeline, showing the last run
  of the published variant for a published pipeline and of the draft variant
  otherwise. The date formatter (`SimpleDateFormat` in the local time zone)
  is a parameter `fmt`.
 */
module Report {
  import opened Options
  import opened Names
  import opened Pipelines
  import opened Join

  /** The variant whose run the report shows: the `published` flag picks it. */
  function ShownVariant(p: Pipeline): Variant {
    if p.published then Public else Draft
  }

  function Label(v: Variant): string {
    match v
    case Draft => "(draft)"
    case Public => "(published)"
  }

  /** One status segment: a space, the state, the variant label, a space, the start time. */
  function Segment(f: RunFact, v: Variant, fmt: int -> string): string {
    " " + f.state + Label(v) + " " + fmt(f.startTime)
  }

  /** True when the shown variant has a start time after 0. */
  predicate HasShownRun(p: Pipeline) {
    Facet(p, ShownVariant(p)).startTime > 0
  }

  /**
    The status text of `main`: at most one segment, for the variant the
    `published` flag selects, and empty when that variant has not run.
   */
  function Status(p: Pipeline, fmt: int -> string): (r: string)
    ensures r == "" <==> !HasShownRun(p)
    ensures HasShownRun(p) ==> r == Segment(Facet(p, ShownVariant(p)), ShownVariant(p), fmt)
  {
    var draft :=
      if !p.published && p.draftRun.startTime > 0 then
        " " + p.draftRun.state + "(draft) " + fmt(p.draftRun.startTime)
      else "";
    var public :=
      if p.published && p.publicRun.startTime > 0 then
        " " + p.publicRun.state + "(published) " + fmt(p.publicRun.startTime)
      else "";
    draft + public
  }

  /** The status ignores the run fact of the variant the `published` flag does not select. */
  lemma StatusIgnoresHiddenRun(p: Pipeline, q: Pipeline, fmt: int -> string)
    requires p.published == q.published
    requires Facet(p, ShownVariant(p)) == Facet(q, ShownVariant(q))
    ensures Status(p, fmt) == Status(q, fmt)
  {
  }

  /**
    The line `main` prints for a pipeline, if any: with `onlyActive` a
    pipeline without a shown run is skipped. The status already starts with a
    space, so the name is followed by two spaces when there is a status.
   */
  function ReportLine(p: Pipeline, onlyActive: bool, fmt: int -> string): (r: Option<string>)
    ensures r.Some? <==> !onlyActive || HasShownRun(p)
    ensures r.Some? && HasShownRun(p) ==>
      r.value == p.name + "  " + Facet(p, ShownVariant(p)).state + Label(ShownVariant(p)) + " "
        + fmt(Facet(p, ShownVariant(p)).startTime)
    ensures r.Some? && !HasShownRun(p) ==> r.value == p.name + " "
  {
    var status := Status(p, fmt);
    if !onlyActive || |status| > 0 then Some(p.name + " " + status) else None
  }

  /** The whole report, as the line printed for each pipeline id (the map's iteration order is not modelled). */
  function Report(pipes: map<string, Pipeline>, onlyActive: bool, fmt: int -> string): (r: map<string, string>)
    ensures r.Keys == set k | k in pipes && (!onlyActive || HasShownRun(pipes[k]))
    ensures forall k :: k in r ==> Some(r[k]) == ReportLine(pipes[k], onlyActive, fmt)
  {
    map k | k in pipes && ReportLine(pipes[k], onlyActive, fmt).Some? :: ReportLine(pipes[k], onlyActive, fmt).value
  }

  /**
    With `onlyActive`, a listed pipeline appears in the report of the join
    exactly when some job, active or completed, of the variant its listing
    `published` flag selects started after time 0.
   */
  lemma ActiveReportOfJoin(listing: seq<ListingEntry>, status: SparkStatus, k: string, fmt: int -> string)
    requires k in ListingIds(listing)
    ensures k in Report(JoinPipelines(listing, status), true, fmt) <==>
      exists i :: 0 <= i < |AllJobs(status)|
        && Matches(AllJobs(status)[i], k, ShownVariant(BuildMap(listing)[k]))
        && AllJobs(status)[i].startTime > 0
  {
    var pipes := JoinPipelines(listing, status);
    assert ShownVariant(pipes[k]) == ShownVariant(BuildMap(listing)[k]);
    JoinStartPositive(listing, status, k, ShownVariant(pipes[k]));
  }

  /** The line printed for a draft pipeline whose draft variant has run. */
  lemma DraftLine(p: Pipeline, onlyActive: bool, fmt: int -> string)
    requires !p.published && p.draftRun.startTime > 0
    ensures ReportLine(p, onlyActive, fmt)
      == Some(p.name + "  " + p.draftRun.state + "(draft) " + fmt(p.draftRun.startTime))
  {
    var a := p.name + "  " + p.draftRun.state;
    assert "(draft)" + " " == "(draft) ";
    assert a + "(draft)" + " " == a + "(draft) ";
  }

  /**
    A draft pipeline listed alone, with one job started at `t > 0` whose name
    decodes to its id as a draft run (see `GetIdOfJobName`), reports `name`,
    two spaces, the job's state, `(draft)` and the formatted time.
   */
  lemma SingleDraftRunReport(jobName: string, id: string, name: string, state: string, t: int, fmt: int -> string)
    requires GetId(jobName) == Some(id) && NameVariant(jobName) == Some(Draft) && t > 0
    ensures var listing := [ListingEntry(id, name, "", "", "", false)];
      var status := SparkStatus([Job(jobName, state, t)], []);
      Report(JoinPipelines(listing, status), false, fmt) == map[id := name + "  " + state + "(draft) " + fmt(t)]
  {
    var listing := [ListingEntry(id, name, "", "", "", false)];
    var status := SparkStatus([Job(jobName, state, t)], []);
    var pipes := JoinPipelines(listing, status);
    SingleDraftRunJoin(jobName, id, name, state, t);
    DraftLine(pipes[id], false, fmt);
    var r := Report(pipes, false, fmt);
    assert r.Keys == {id};
    assert Some(r[id]) == ReportLine(pipes[id], false, fmt);
  }
}
