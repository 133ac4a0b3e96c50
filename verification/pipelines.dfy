/**
  Records of the report tool: pipelines from the pipeline-management
  listing and jobs from the Spark status document, both already decoded from
  JSON with Jackson's defaults applied (a missing text field reads as `""`, a
  missing number as `0`, a missing flag as `false`).
 */
module Pipelines {
  import opened Names

  /** The latest known run of one variant: its start time (epoch ms) and state. */
  datatype RunFact = RunFact(startTime: int, state: string)

  /** The run fact of a pipeline no job has touched: Java's field defaults. */
  const NoRun: RunFact := RunFact(0, "")

  /** One element of the pipeline listing. */
  datatype ListingEntry = ListingEntry(
    id: string,
    name: string,
    displayName: string,
    description: string,
    createdBy: string,
    published: bool)

  /** A pipeline with the latest draft and published run facts joined in. */
  datatype Pipeline = Pipeline(
    id: string,
    name: string,
    displayName: string,
    description: string,
    createdBy: string,
    published: bool,
    draftRun: RunFact,
    publicRun: RunFact)

  /** One element of `activeapps` or `completedapps`. */
  datatype Job = Job(name: string, state: string, startTime: int)

  /** The Spark status document: active jobs, then completed jobs. */
  datatype SparkStatus = SparkStatus(activeApps: seq<Job>, completedApps: seq<Job>)

  /** The descriptive fields of `p`, as the listing entry they came from. */
  function Entry(p: Pipeline): ListingEntry {
    ListingEntry(p.id, p.name, p.displayName, p.description, p.createdBy, p.published)
  }

  /** True when `p` carries exactly the descriptive fields of listing entry `e`. */
  predicate Describes(p: Pipeline, e: ListingEntry) {
    Entry(p) == e
  }

  /** True when `p` and `q` agree on every field other than the run facts. */
  predicate SameIdentity(p: Pipeline, q: Pipeline) {
    Entry(p) == Entry(q)
  }

  /** The run fact of the given variant. */
  function Facet(p: Pipeline, v: Variant): RunFact {
    match v
    case Draft => p.draftRun
    case Public => p.publicRun
  }

  /** The pipeline built from a listing entry, before any job is seen. */
  function NewPipeline(e: ListingEntry): (p: Pipeline)
    ensures Describes(p, e)
    ensures forall v :: Facet(p, v) == NoRun
  {
    Pipeline(e.id, e.name, e.displayName, e.description, e.createdBy, e.published, NoRun, NoRun)
  }

  /**
    The run fact after a job of that variant is seen: replaced by the job's
    start time and state only when the job started strictly later.
   */
  function Advance(f: RunFact, job: Job): (r: RunFact)
    ensures r.startTime >= f.startTime && r.startTime >= job.startTime
    ensures r.startTime == f.startTime || r.startTime == job.startTime
    ensures r == f || r == RunFact(job.startTime, job.state)
    ensures r != f ==> f.startTime < job.startTime
    ensures job.startTime <= f.startTime ==> r == f
  {
    if f.startTime < job.startTime then RunFact(job.startTime, job.state) else f
  }
}
