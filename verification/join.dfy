/**
  The join of `getPipelines`: a map from pipeline id to pipeline built from
  the listing, then updated by every job of `activeapps` followed by every
  job of `completedapps`, keeping per variant the run that started last.
 */
module Join {
  import opened Options
  import opened Names
  import opened Pipelines

  /** True when `job` is a run of variant `v` of the pipeline with id `k`. */
  predicate Matches(job: Job, k: string, v: Variant) {
    Encodes(job.name, k, v)
  }

  /** A job runs at most one variant of at most one pipeline. */
  lemma MatchesUnique(job: Job, k: string, v: Variant, k': string, v': Variant)
    requires Matches(job, k, v) && Matches(job, k', v')
    ensures k == k' && v == v'
  {
    GetIdFindsEncoded(job.name, k, v);
    GetIdFindsEncoded(job.name, k', v');
  }

  /**
    The record update inside `updatePipe`: a draft job advances the draft
    run fact; a public job advances the published one unless the draft test
    already took the job (see `BothFlagsOnlyForDraftSuffix` for when both
    tests hold).
   */
  function UpdateRecord(pipe: Pipeline, job: Job, isDraft: bool, isPublic: bool): (r: Pipeline)
    ensures SameIdentity(r, pipe)
    ensures r.draftRun == if isDraft then Advance(pipe.draftRun, job) else pipe.draftRun
    ensures r.publicRun ==
      if isPublic && !(isDraft && pipe.draftRun.startTime < job.startTime)
      then Advance(pipe.publicRun, job) else pipe.publicRun
  {
    if isDraft && pipe.draftRun.startTime < job.startTime then
      pipe.(draftRun := RunFact(job.startTime, job.state))
    else if isPublic && pipe.publicRun.startTime < job.startTime then
      pipe.(publicRun := RunFact(job.startTime, job.state))
    else
      pipe
  }

  /**
    `updatePipe`: a job whose name yields the id of a known pipeline advances
    that pipeline's run fact for the job's variant; anything else is ignored.
   */
  function UpdatePipe(pipes: map<string, Pipeline>, job: Job): (r: map<string, Pipeline>)
    ensures r.Keys == pipes.Keys
    ensures forall k :: k in pipes ==> SameIdentity(r[k], pipes[k])
    ensures GetId(job.name).None? || GetId(job.name).value !in pipes ==> r == pipes
  {
    var isDraft := EndsWith(job.name, DraftSuffix);
    var isPublic := EndsWith(job.name, PublicSuffix);
    match GetId(job.name)
    case None => pipes
    case Some(id) =>
      if id !in pipes then pipes
      else pipes[id := UpdateRecord(pipes[id], job, isDraft, isPublic)]
  }

  /**
    `updatePipe` advances the run fact of variant `v` of pipeline `k` exactly
    when the job is a run of that variant of that pipeline, and leaves it
    untouched otherwise: a draft job never changes a published run fact, nor
    the other way round, and no other pipeline changes.
   */
  lemma UpdatePipeFacet(pipes: map<string, Pipeline>, job: Job, k: string, v: Variant)
    requires k in pipes
    ensures k in UpdatePipe(pipes, job)
    ensures Facet(UpdatePipe(pipes, job)[k], v)
      == if Matches(job, k, v) then Advance(Facet(pipes[k], v), job) else Facet(pipes[k], v)
  {
    var r := UpdatePipe(pipes, job);
    match GetId(job.name)
    case None =>
      if Matches(job, k, v) {
        GetIdFindsEncoded(job.name, k, v);
        assert false;
      }
    case Some(id) =>
      var w := NameVariant(job.name).value;
      GetIdFindsEncoded(job.name, id, w);
      GetIdFindsEncoded(job.name, k, v);
      if id == k {
        EndsWithOnIdName(job.name);
      }
  }

  /** The jobs applied one after the other, in sequence order. */
  function ApplyJobs(pipes: map<string, Pipeline>, jobs: seq<Job>): (r: map<string, Pipeline>)
    ensures r.Keys == pipes.Keys
    ensures forall k :: k in pipes ==> SameIdentity(r[k], pipes[k])
    decreases |jobs|
  {
    if jobs == [] then pipes
    else UpdatePipe(ApplyJobs(pipes, jobs[..|jobs| - 1]), jobs[|jobs| - 1])
  }

  /**
    Job `i` is a run of variant `v` of pipeline `k` and started strictly later
    than every earlier such run.
   */
  ghost predicate FirstLatest(jobs: seq<Job>, i: int, k: string, v: Variant) {
    && 0 <= i < |jobs|
    && Matches(jobs[i], k, v)
    && forall j :: 0 <= j < i && Matches(jobs[j], k, v) ==> jobs[j].startTime < jobs[i].startTime
  }

  /** No run of variant `v` of pipeline `k` among `jobs` started after `t`. */
  ghost predicate NoneLater(jobs: seq<Job>, k: string, v: Variant, t: int) {
    forall i :: 0 <= i < |jobs| && Matches(jobs[i], k, v) ==> jobs[i].startTime <= t
  }

  /** `f` is the time and state of the first run among `jobs` with the latest start. */
  ghost predicate FromFirstLatest(jobs: seq<Job>, k: string, v: Variant, f: RunFact) {
    exists i :: FirstLatest(jobs, i, k, v) && f == RunFact(jobs[i].startTime, jobs[i].state)
  }

  /**
    `f` is the run fact for variant `v` of pipeline `k` after `jobs`, starting
    from `f0`: its start time is the greatest of `f0`'s and of the matching
    jobs' start times; it is `f0` itself when no matching job started later,
    and otherwise the state of the FIRST matching job with that start time.
   */
  ghost predicate LatestRun(f0: RunFact, jobs: seq<Job>, k: string, v: Variant, f: RunFact) {
    && f0.startTime <= f.startTime
    && NoneLater(jobs, k, v, f.startTime)
    && (f.startTime == f0.startTime ==> f == f0)
    && (f.startTime > f0.startTime ==> FromFirstLatest(jobs, k, v, f))
  }

  lemma NoneLaterAppend(pre: seq<Job>, last: Job, k: string, v: Variant, t0: int, t: int)
    requires NoneLater(pre, k, v, t0) && t0 <= t
    requires Matches(last, k, v) ==> last.startTime <= t
    ensures NoneLater(pre + [last], k, v, t)
  {
    var jobs := pre + [last];
    forall i | 0 <= i < |jobs| && Matches(jobs[i], k, v)
      ensures jobs[i].startTime <= t
    {
      if i < |pre| {
        assert jobs[i] == pre[i];
      }
    }
  }

  lemma FromFirstLatestAppend(pre: seq<Job>, last: Job, k: string, v: Variant, f: RunFact)
    requires FromFirstLatest(pre, k, v, f)
    ensures FromFirstLatest(pre + [last], k, v, f)
  {
    var jobs := pre + [last];
    var i :| FirstLatest(pre, i, k, v) && f == RunFact(pre[i].startTime, pre[i].state);
    forall j | 0 <= j < i
      ensures jobs[j] == pre[j]
    {
    }
    assert jobs[i] == pre[i];
    assert FirstLatest(jobs, i, k, v);
  }

  /** A job that leaves the run fact as it was keeps `LatestRun`, provided it did not start later. */
  lemma LatestRunKeep(f0: RunFact, pre: seq<Job>, last: Job, k: string, v: Variant, g: RunFact)
    requires LatestRun(f0, pre, k, v, g)
    requires Matches(last, k, v) ==> last.startTime <= g.startTime
    ensures LatestRun(f0, pre + [last], k, v, g)
  {
    NoneLaterAppend(pre, last, k, v, g.startTime, g.startTime);
    if g.startTime > f0.startTime {
      FromFirstLatestAppend(pre, last, k, v, g);
    }
  }

  /** A matching job that started strictly later becomes the run fact and keeps `LatestRun`. */
  lemma LatestRunTake(f0: RunFact, pre: seq<Job>, last: Job, k: string, v: Variant, g: RunFact)
    requires LatestRun(f0, pre, k, v, g)
    requires Matches(last, k, v) && g.startTime < last.startTime
    ensures LatestRun(f0, pre + [last], k, v, RunFact(last.startTime, last.state))
  {
    var jobs := pre + [last];
    NoneLaterAppend(pre, last, k, v, g.startTime, last.startTime);
    forall j | 0 <= j < |pre| && Matches(jobs[j], k, v)
      ensures jobs[j].startTime < last.startTime
    {
      assert jobs[j] == pre[j];
    }
    assert FirstLatest(jobs, |pre|, k, v);
  }

  /** One more job keeps `LatestRun`: the step of the fold in `FacetAfterJobs`. */
  lemma LatestRunStep(f0: RunFact, jobs: seq<Job>, k: string, v: Variant, g: RunFact, f: RunFact)
    requires jobs != []
    requires LatestRun(f0, jobs[..|jobs| - 1], k, v, g)
    requires f == if Matches(jobs[|jobs| - 1], k, v) then Advance(g, jobs[|jobs| - 1]) else g
    ensures LatestRun(f0, jobs, k, v, f)
  {
    var pre, last := jobs[..|jobs| - 1], jobs[|jobs| - 1];
    assert jobs == pre + [last];
    if Matches(last, k, v) && g.startTime < last.startTime {
      LatestRunTake(f0, pre, last, k, v, g);
    } else {
      LatestRunKeep(f0, pre, last, k, v, g);
    }
  }

  /** The fold keeps, per pipeline and variant, the first run with the latest start time. */
  lemma {:induction false} FacetAfterJobs(pipes: map<string, Pipeline>, jobs: seq<Job>, k: string, v: Variant)
    requires k in pipes
    ensures k in ApplyJobs(pipes, jobs)
    ensures LatestRun(Facet(pipes[k], v), jobs, k, v, Facet(ApplyJobs(pipes, jobs)[k], v))
    decreases |jobs|
  {
    if jobs != [] {
      var n := |jobs| - 1;
      FacetAfterJobs(pipes, jobs[..n], k, v);
      var m := ApplyJobs(pipes, jobs[..n]);
      var r := UpdatePipe(m, jobs[n]);
      assert ApplyJobs(pipes, jobs) == r;
      UpdatePipeFacet(m, jobs[n], k, v);
      LatestRunStep(Facet(pipes[k], v), jobs, k, v, Facet(m[k], v), Facet(r[k], v));
    }
  }

  /** Applying `a ++ b` is applying `a`, then `b`. */
  lemma {:induction false} ApplyJobsAppend(pipes: map<string, Pipeline>, a: seq<Job>, b: seq<Job>)
    ensures ApplyJobs(pipes, a + b) == ApplyJobs(ApplyJobs(pipes, a), b)
    decreases |b|
  {
    if b == [] {
      assert a + b == a;
    } else {
      var n := |b| - 1;
      assert (a + b)[..|a + b| - 1] == a + b[..n];
      assert (a + b)[|a + b| - 1] == b[n];
      ApplyJobsAppend(pipes, a, b[..n]);
    }
  }

  /** A pipeline no job can name (its id is not 36 characters free of `_`) is never changed. */
  lemma UnnameablePipelineUntouched(pipes: map<string, Pipeline>, jobs: seq<Job>, k: string)
    requires k in pipes
    requires |k| != IdLength || '_' in k
    ensures k in ApplyJobs(pipes, jobs) && ApplyJobs(pipes, jobs)[k] == pipes[k]
  {
    var p, q := pipes[k], ApplyJobs(pipes, jobs)[k];
    FacetAfterJobs(pipes, jobs, k, Draft);
    FacetAfterJobs(pipes, jobs, k, Public);
    assert Facet(q, Draft) == Facet(p, Draft);
    assert Facet(q, Public) == Facet(p, Public);
  }

  /** The ids of the listing's elements. */
  function ListingIds(listing: seq<ListingEntry>): set<string> {
    set e | e in listing :: e.id
  }

  /** Element `i` is the last element of the listing with id `k`. */
  ghost predicate LastEntry(listing: seq<ListingEntry>, i: int, k: string) {
    && 0 <= i < |listing|
    && listing[i].id == k
    && forall j :: i < j < |listing| ==> listing[j].id != k
  }

  /**
    The first loop of `getPipelines`: one fresh pipeline per listing element,
    keyed by its id; a later element with the same id replaces an earlier one.
   */
  function BuildMap(listing: seq<ListingEntry>): (r: map<string, Pipeline>)
    ensures r.Keys == ListingIds(listing)
    ensures forall k, v :: k in r ==> Facet(r[k], v) == NoRun
    decreases |listing|
  {
    if listing == [] then map[]
    else
      var n := |listing| - 1;
      assert listing == listing[..n] + [listing[n]];
      BuildMap(listing[..n])[listing[n].id := NewPipeline(listing[n])]
  }

  /** Each key of `BuildMap` holds the pipeline of the LAST listing element with that id. */
  lemma {:induction false} BuildMapLastWins(listing: seq<ListingEntry>, k: string)
    requires k in BuildMap(listing)
    ensures exists i :: LastEntry(listing, i, k) && BuildMap(listing)[k] == NewPipeline(listing[i])
    decreases |listing|
  {
    var n := |listing| - 1;
    if listing[n].id == k {
      assert LastEntry(listing, n, k);
    } else {
      var pre := listing[..n];
      assert listing == pre + [listing[n]];
      BuildMapLastWins(pre, k);
      var i :| LastEntry(pre, i, k) && BuildMap(pre)[k] == NewPipeline(pre[i]);
      assert LastEntry(listing, i, k);
    }
  }

  /** The pure part of `getPipelines`: listing, then active jobs, then completed jobs. */
  function JoinPipelines(listing: seq<ListingEntry>, status: SparkStatus): (r: map<string, Pipeline>)
    ensures r.Keys == ListingIds(listing)
    ensures forall k :: k in r ==> SameIdentity(r[k], BuildMap(listing)[k])
  {
    ApplyJobs(ApplyJobs(BuildMap(listing), status.activeApps), status.completedApps)
  }

  /**
    The join keeps exactly the listed ids, and each pipeline carries the
    descriptive fields of the last listing element with its id.
   */
  lemma JoinDescribesLastEntry(listing: seq<ListingEntry>, status: SparkStatus, k: string)
    requires k in ListingIds(listing)
    ensures k in JoinPipelines(listing, status)
    ensures exists i :: LastEntry(listing, i, k) && Describes(JoinPipelines(listing, status)[k], listing[i])
  {
    BuildMapLastWins(listing, k);
  }

  /** All jobs of the status document, in the order the join sees them. */
  function AllJobs(status: SparkStatus): seq<Job> {
    status.activeApps + status.completedApps
  }

  /**
    Each variant's run fact in the join result is the first run with the
    latest start time among all jobs, active ones first, and no run at all
    when no job started after time 0.
   */
  lemma JoinRunFacts(listing: seq<ListingEntry>, status: SparkStatus, k: string, v: Variant)
    requires k in JoinPipelines(listing, status)
    ensures LatestRun(NoRun, AllJobs(status), k, v, Facet(JoinPipelines(listing, status)[k], v))
  {
    var m := BuildMap(listing);
    ApplyJobsAppend(m, status.activeApps, status.completedApps);
    FacetAfterJobs(m, AllJobs(status), k, v);
  }

  /** A variant shows a positive start time exactly when some job of it started after 0. */
  lemma JoinStartPositive(listing: seq<ListingEntry>, status: SparkStatus, k: string, v: Variant)
    requires k in JoinPipelines(listing, status)
    ensures Facet(JoinPipelines(listing, status)[k], v).startTime > 0 <==>
      exists i :: 0 <= i < |AllJobs(status)| && Matches(AllJobs(status)[i], k, v) && AllJobs(status)[i].startTime > 0
  {
    JoinRunFacts(listing, status, k, v);
    var jobs := AllJobs(status);
    var f := Facet(JoinPipelines(listing, status)[k], v);
    if f.startTime > 0 {
      var i :| FirstLatest(jobs, i, k, v) && f == RunFact(jobs[i].startTime, jobs[i].state);
      assert jobs[i].startTime > 0;
    }
  }

  /** The listing loop of `getPipelines`. */
  method ListPipelines(listing: seq<ListingEntry>) returns (pipes: map<string, Pipeline>)
    ensures pipes == BuildMap(listing)
    ensures pipes.Keys == ListingIds(listing)
  {
    pipes := map[];
    var i := 0;
    while i < |listing|
      invariant 0 <= i <= |listing|
      invariant pipes == BuildMap(listing[..i])
    {
      var pipe := NewPipeline(listing[i]);
      pipes := pipes[pipe.id := pipe];
      assert listing[..i + 1][..i] == listing[..i];
      i := i + 1;
    }
    assert listing[..i] == listing;
  }

  /** One job loop of `getPipelines`: `updatePipe` on every element of `apps`, in order. */
  method UpdateAll(start: map<string, Pipeline>, apps: seq<Job>) returns (pipes: map<string, Pipeline>)
    ensures pipes == ApplyJobs(start, apps)
    ensures pipes.Keys == start.Keys
  {
    pipes := start;
    var i := 0;
    while i < |apps|
      invariant 0 <= i <= |apps|
      invariant pipes == ApplyJobs(start, apps[..i])
    {
      pipes := UpdatePipe(pipes, apps[i]);
      assert apps[..i + 1][..i] == apps[..i];
      i := i + 1;
    }
    assert apps[..i] == apps;
  }

  /** A draft pipeline listed alone takes the run of a single job that names it. */
  lemma SingleDraftRunJoin(jobName: string, id: string, name: string, state: string, t: int)
    requires GetId(jobName) == Some(id) && NameVariant(jobName) == Some(Draft) && t > 0
    ensures var listing := [ListingEntry(id, name, "", "", "", false)];
      var pipes := JoinPipelines(listing, SparkStatus([Job(jobName, state, t)], []));
      && pipes.Keys == {id}
      && pipes[id].name == name && !pipes[id].published
      && pipes[id].draftRun == RunFact(t, state)
  {
    var listing := [ListingEntry(id, name, "", "", "", false)];
    var job := Job(jobName, state, t);
    var status := SparkStatus([job], []);
    assert Matches(job, id, Draft);
    assert ListingIds(listing) == {id};
    var pipes := JoinPipelines(listing, status);
    JoinRunFacts(listing, status, id, Draft);
    assert AllJobs(status) == [job];
    var f := Facet(pipes[id], Draft);
    var i :| FirstLatest(AllJobs(status), i, id, Draft) && f == RunFact(AllJobs(status)[i].startTime, AllJobs(status)[i].state);
    BuildMapLastWins(listing, id);
  }

  /** `getPipelines` without its two HTTP fetches: listing, then active, then completed jobs. */
  method GetPipelines(listing: seq<ListingEntry>, status: SparkStatus) returns (pipes: map<string, Pipeline>)
    ensures pipes == JoinPipelines(listing, status)
    ensures pipes.Keys == ListingIds(listing)
  {
    pipes := ListPipelines(listing);
    pipes := UpdateAll(pipes, status.activeApps);
    pipes := UpdateAll(pipes, status.completedApps);
  }
}
