# osaListPipes — a Dafny model of the pipeline status join

`OsaListPipelines` lists the pipelines of a GoldenGate Stream Analytics
server, reads the Spark scheduler's list of active and completed
applications, and prints one status line per pipeline. Each Spark
application is named after the pipeline it runs: a prefix, the
36-character pipeline id with `-` written as `_`, and `_draft` or
`_public` for the variant.

This project models the part of that program that is pure logic:

- `Names` (`names.dfy`) covers job-name decoding. `endsWith` is modelled on
  Java's `lastIndexOf`, with its quirk kept: it also answers true when the
  string is one character shorter than the suffix. `getId` takes the 36
  characters in front of the suffix and turns `_` back into `-`. `Encodes`
  is an independent description of a well-formed job name, and
  `GetIdFindsEncoded` ties `getId` to it.
- `Pipelines` (`pipelines.dfy`) holds the records. These are pipeline
  listing entries and Spark jobs, already decoded from JSON with Jackson's
  defaults applied (`""`, `0`, `false`), and the pipeline record with a
  draft run fact and a published run fact.
- `Join` (`join.dfy`) covers `updatePipe` and the three loops of
  `getPipelines`. They are written as a map built from the listing, then a
  fold of `updatePipe` over `activeapps` followed by `completedapps`. A
  method version with the loops is proved equal to the fold.
- `Report` (`report.dfy`) covers the status text and the line filter of
  `main`. The date formatter is a parameter `fmt: int -> string`.

The central property is `Join.FacetAfterJobs`. For each pipeline and
variant, the fold keeps the largest start time seen, counting the starting
value. A run fact is only replaced by a strictly later start, so the fact
stays as it was when no matching job started later; otherwise it holds the
state of the first matching job with the largest start time. Jobs never
add pipelines, never change the descriptive fields, and a draft job never
touches the published run fact.

Two behaviours of the code are worth stating directly:

- The printed line is `name + " " + status`. The status starts with a
  space, so a line with a status has two spaces after the name, and a line
  without one ends in a single space.
- `endsWith` is not a plain suffix test, as described above. The quirk
  does not change `getId` or `updatePipe`: both act only on names of at
  least 44 characters, and `Names.EndsWithOnIdName` proves that on those
  names `endsWith` is an exact suffix test. Both `endsWith` tests of
  `updatePipe` hold only for the name `_draft`, which `getId` rejects.

## Model

| member | source | states |
|---|---|---|
| Names.LastFrom | src/osaListPipes/OsaListPipelines.java:258 | the backward search of `lastIndexOf` returns -1 or a start index no greater than where it began; `Names.LastFromFindsLast` states that it is the last occurrence |
| Names.LastIndexOf | src/osaListPipes/OsaListPipelines.java:258 | `lastIndexOf` is -1 or a start index at which the needle still fits; `Names.LastIndexOfIsLast` states that it is the last occurrence |
| Names.EndsWith | src/osaListPipes/OsaListPipelines.java:255-259 | `endsWith` can only hold when the needle is at most one character longer than the string; `Names.EndsWithCharacterization` states exactly when it holds |
| Names.LastFromFindsLast | src/osaListPipes/OsaListPipelines.java:258 | the backward search returns -1 or an occurrence of the needle, and no occurrence starts between it and the search start |
| Names.LastIndexOfIsLast | src/osaListPipes/OsaListPipelines.java:258 | `lastIndexOf` is -1 or the start of an occurrence, and no occurrence starts later |
| Names.EndsWithCharacterization | src/osaListPipes/OsaListPipelines.java:255-259 | `endsWith(s, t)` holds exactly when `t` is a suffix of `s` or `|s| + 1 == |t|` (the -1 of a missing occurrence equals `|s| - |t|`) |
| Names.EndsWithTooShort | src/osaListPipes/OsaListPipelines.java:255-259 | a needle two or more characters longer than the string never matches |
| Names.ReplaceChar | src/osaListPipes/OsaListPipelines.java:281 | `replace('_', '-')` keeps the length and changes exactly the `_` characters |
| Names.IdBefore | src/osaListPipes/OsaListPipelines.java:276-283 | the span is absent exactly when fewer than two characters precede the 36 in front of the suffix; otherwise it is 36 long, has no `_`, and is that span with `_` turned into `-` |
| Names.GetId | src/osaListPipes/OsaListPipelines.java:267-284 | an id comes back exactly when the name ends in `_draft` and has at least 44 characters, or ends in `_public` and has at least 45; it is 36 long, free of `_`, and read from the span in front of the suffix |
| Names.BothFlagsOnlyForDraftSuffix | src/osaListPipes/OsaListPipelines.java:158-171 | `isDraft` and `isPublic` both hold exactly for the name `_draft`, and `getId` returns no id for it |
| Names.EndsWithOnIdName | src/osaListPipes/OsaListPipelines.java:158-161 | on a name that yields an id, `isDraft` and `isPublic` are true suffix tests and agree with the variant the name carries |
| Names.GetIdFindsEncoded | src/osaListPipes/OsaListPipelines.java:267-284 | `getId` and the suffix test return id `k` and variant `v` exactly when the name is a well-formed job name for `k` and `v` |
| Names.GetIdOfSpan | src/osaListPipes/OsaListPipelines.java:276-283 | for any prefix of two or more characters, any 36-character span and either suffix, `getId` returns the span with `_` turned into `-`; the prefix does not matter |
| Names.ReplaceRoundTrip | src/osaListPipes/OsaListPipelines.java:281 | turning `_` into `-` undoes turning `-` into `_` on a string without `_` |
| Names.GetIdOfJobName | src/osaListPipes/OsaListPipelines.java:267-284 | round trip: the job name built from a 36-character id without `_` decodes to that id and to the variant it was built with |
| Pipelines.NewPipeline | src/osaListPipes/OsaListPipelines.java:117-126 | a listing entry becomes a pipeline with the same descriptive fields and both run facts at start time 0 and state "" |
| Pipelines.Advance | src/osaListPipes/OsaListPipelines.java:165-171 | the new start time is the max of the old one and the job's; the fact changes only on a strictly later start, and then to the job's time and state |
| Join.UpdateRecord | src/osaListPipes/OsaListPipelines.java:165-171 | a draft job advances the draft fact; a public job advances the published fact unless the draft test already took the job with a later start (the `else if`); descriptive fields never change |
| Join.UpdatePipe | src/osaListPipes/OsaListPipelines.java:153-175 | the key set and every pipeline's descriptive fields are unchanged; when `getId` fails or names no known pipeline, the map is unchanged |
| Join.UpdatePipeFacet | src/osaListPipes/OsaListPipelines.java:161-171 | the run fact of pipeline `k`, variant `v` advances exactly when the job encodes `k` and `v`, and otherwise stays as it was |
| Join.MatchesUnique | src/osaListPipes/OsaListPipelines.java:158-163 | a job is a run of at most one variant of at most one pipeline |
| Join.ApplyJobs | src/osaListPipes/OsaListPipelines.java:134-144 | applying jobs in order never adds or removes a key and never changes descriptive fields |
| Join.FacetAfterJobs | src/osaListPipes/OsaListPipelines.java:134-144 | after a run of jobs, each variant's start time is the max of its starting value and the start times of the matching jobs; the fact is unchanged when no match is later, and otherwise holds the first matching job with that latest time |
| Join.ApplyJobsAppend | src/osaListPipes/OsaListPipelines.java:132-144 | running the active jobs and then the completed jobs equals one run over their concatenation |
| Join.UnnameablePipelineUntouched | src/osaListPipes/OsaListPipelines.java:161-164 | a pipeline whose id is not 36 characters free of `_` is never changed by any job |
| Join.BuildMap | src/osaListPipes/OsaListPipelines.java:112-128 | the listing map's keys are exactly the listed ids, and every pipeline starts with no run |
| Join.BuildMapLastWins | src/osaListPipes/OsaListPipelines.java:116-128 | each key holds the pipeline built from the last listing element with that id (`put` replaces) |
| Join.JoinPipelines | src/osaListPipes/OsaListPipelines.java:112-145 | the joined map has exactly the listed ids, with the listing's descriptive fields |
| Join.JoinDescribesLastEntry | src/osaListPipes/OsaListPipelines.java:116-128 | every listed id is in the join and carries the fields of its last listing element |
| Join.JoinRunFacts | src/osaListPipes/OsaListPipelines.java:130-144 | each variant's joined run fact is the first run with the latest start time among active then completed jobs, and is (0, "") when no job started after 0 |
| Join.JoinStartPositive | src/osaListPipes/OsaListPipelines.java:130-144 | a variant's joined start time is positive exactly when some matching job started after 0 |
| Join.SingleDraftRunJoin | src/osaListPipes/OsaListPipelines.java:112-145 | a draft pipeline listed alone, with one job naming it that started at `t > 0`, takes that job's start time and state |
| Join.ListPipelines | src/osaListPipes/OsaListPipelines.java:112-128 | the listing loop builds the same map as the functional listing map, keyed by the listed ids |
| Join.UpdateAll | src/osaListPipes/OsaListPipelines.java:134-137 | the job loop calls `updatePipe` on each job in order and keeps the key set |
| Join.GetPipelines | src/osaListPipes/OsaListPipelines.java:110-146 | the three loops compute the functional join, keyed by the listed ids |
| Report.Status | src/osaListPipes/OsaListPipelines.java:71-77 | the status has at most one segment, for the variant the `published` flag selects, and is empty exactly when that variant's start time is not positive |
| Report.StatusIgnoresHiddenRun | src/osaListPipes/OsaListPipelines.java:72-77 | the run fact of the variant not selected by `published` never affects the status |
| Report.ReportLine | src/osaListPipes/OsaListPipelines.java:78-79 | a line is printed exactly when `onlyActive` is off or the selected variant has run; it is the name, two spaces, state, label, a space and the date, or the name and one space |
| Report.Report | src/osaListPipes/OsaListPipelines.java:69-80 | the report prints a line for exactly the pipelines that pass the filter, each being that pipeline's line |
| Report.ActiveReportOfJoin | src/osaListPipes/OsaListPipelines.java:69-80 | with `onlyActive`, a listed pipeline is reported exactly when some active or completed job of the variant its `published` flag selects started after 0 |
| Report.DraftLine | src/osaListPipes/OsaListPipelines.java:72-79 | the line for an unpublished pipeline with a draft run is name, two spaces, state, `(draft) ` and the date |
| Report.SingleDraftRunReport | src/osaListPipes/OsaListPipelines.java:69-80 | a lone draft pipeline with one job naming it, started at `t > 0`, is reported as `name  state(draft) fmt(t)` |

## Left out

- `restGet` (HTTPS client, the trust-all TLS context, basic authentication, the status-code check, Jackson parsing) is I/O in foreign libraries. The two parsed documents are inputs: a sequence of `ListingEntry` and a `SparkStatus`.
- JSON navigation (`path`, `asText`, `asLong`, `asBoolean`) is not modelled. The records hold the decoded values with Jackson's defaults already applied.
- `dateToString` depends on `SimpleDateFormat` and the local time zone. It is the parameter `fmt` of the report functions.
- The definition of the `Pipeline` class is not in the source, so the initial values of its run fields are assumed to be Java's defaults: 0 for start times and `""` for states. A Java string field really starts as `null`, but a state is only printed after a job has set it.
- The argument-count check, `Boolean.parseBoolean` and the printing to standard output and standard error are command-line plumbing. The report is a map from pipeline id to line, because `HashMap` iteration order is unspecified.
- `null` arguments to `endsWith` are not modelled: `asText` never yields `null`.
- Start times are unbounded integers. Java `long` overflow is not modelled.
- Join.UpdatePipe: its own contract states the key set, the frame and the ignored-job cases; the per-variant update is stated by `Join.UpdatePipeFacet`.
- Names.GetId: job names are sequences of Unicode scalar values, while Java counts `length`, `lastIndexOf` and `substring` in UTF-16 code units. A name holding a character outside the Basic Multilingual Plane is therefore measured and cut differently: Java may return an id where the model returns none, or split such a character in half.
