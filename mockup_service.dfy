/**
 * Mockup generation for a task: the in-memory job table the progress page
 * polls, the generation run that fills the task's mockup slots template by
 * template, and the guard that runs it automatically once per design.
 */
module MockupService {
  import opened Wrappers
  import Models
  import Sorting

  // ---------------------------------------------------------------------
  // The job table
  // ---------------------------------------------------------------------

  datatype JobStatus = Running | Done | Error

  /** `MockupJob`; `updatedAt` is in seconds, as `time.time()` gives it. */
  datatype MockupJob = MockupJob(jobId: string, taskId: nat, total: int, done: int, status: JobStatus, error: string,
                                 updatedAt: real)

  /** Finished jobs are forgotten this many seconds after their last update. */
  const ExpirySeconds: real := 900.0

  /** The keyword arguments of one `_update_job` call; `None` is a field not given. */
  datatype JobUpdate = JobUpdate(total: Option<int>, done: Option<int>, status: Option<JobStatus>, error: Option<string>)

  /** The job after `setattr` of the given fields and a fresh `updated_at`. */
  function Applied(job: MockupJob, u: JobUpdate, now: real): (j: MockupJob)
    ensures j.jobId == job.jobId && j.taskId == job.taskId && j.updatedAt == now
    ensures j.total == (if u.total.Some? then u.total.value else job.total)
    ensures j.done == (if u.done.Some? then u.done.value else job.done)
    ensures j.status == (if u.status.Some? then u.status.value else job.status)
    ensures j.error == (if u.error.Some? then u.error.value else job.error)
  {
    MockupJob(job.jobId, job.taskId, u.total.GetOr(job.total), u.done.GetOr(job.done), u.status.GetOr(job.status),
              u.error.GetOr(job.error), now)
  }

  /** A finished or failed job whose last update is more than 900 seconds old. */
  predicate Expired(job: MockupJob, now: real) {
    (job.status == Done || job.status == Error) && now - job.updatedAt > ExpirySeconds
  }

  /** The module-level `_mockup_jobs` dictionary. */
  class JobTable {
    var jobs: map<string, MockupJob>

    /** Every job is stored under its own id. */
    predicate Valid()
      reads this
    {
      forall id :: id in jobs ==> jobs[id].jobId == id
    }

    constructor()
      ensures jobs == map[] && Valid()
    {
      jobs := map[];
    }

    /** `_set_job(job)`. */
    method SetJob(job: MockupJob)
      requires Valid()
      modifies this
      ensures jobs == old(jobs)[job.jobId := job]
      ensures Valid()
    {
      jobs := jobs[job.jobId := job];
    }

    /** `_update_job(job_id, **updates)`: an unknown id changes nothing. */
    method UpdateJob(jobId: string, u: JobUpdate, now: real)
      requires Valid()
      modifies this
      ensures jobId !in old(jobs) ==> jobs == old(jobs)
      ensures jobId in old(jobs) ==> jobs == old(jobs)[jobId := Applied(old(jobs)[jobId], u, now)]
      ensures jobs.Keys == old(jobs).Keys
      ensures Valid()
    {
      if jobId !in jobs {
        return;
      }
      jobs := jobs[jobId := Applied(jobs[jobId], u, now)];
    }

    /** `get_mockup_job(job_id)`: the stored job, unless it is unknown or has expired, in which case it is dropped. */
    method GetJob(jobId: string, now: real) returns (r: Option<MockupJob>)
      requires Valid()
      modifies this
      ensures jobId !in old(jobs) ==> r.None? && jobs == old(jobs)
      ensures jobId in old(jobs) && Expired(old(jobs)[jobId], now) ==> r.None? && jobs == old(jobs) - {jobId}
      ensures jobId in old(jobs) && !Expired(old(jobs)[jobId], now) ==> r == Some(old(jobs)[jobId]) && jobs == old(jobs)
      ensures r.Some? ==> r.value.jobId == jobId
      ensures Valid()
    {
      if jobId !in jobs {
        return None;
      }
      var job := jobs[jobId];
      if Expired(job, now) {
        jobs := jobs - {jobId};
        return None;
      }
      r := Some(job);
    }

    /**
     * The synchronous part of `start_mockup_generation_job(task_id)`: a
     * running job with nothing done yet; `jobId` is the fresh `uuid4().hex`.
     */
    method StartJob(jobId: string, taskId: nat, now: real) returns (id: string)
      requires Valid()
      modifies this
      ensures id == jobId && jobs == old(jobs)[jobId := MockupJob(jobId, taskId, 0, 0, Running, "", now)]
      ensures Valid()
    {
      SetJob(MockupJob(jobId, taskId, 0, 0, Running, "", now));
      id := jobId;
    }
  }

  // ---------------------------------------------------------------------
  // Mockup slots
  // ---------------------------------------------------------------------

  /** What the generation reads of a mockup template: its order and label. */
  datatype TemplateRef = TemplateRef(order: nat, caption: string)

  /**
   * An attachment row created for a generated mockup. Attachments keep the
   * file id as given: unlike slots, their `save()` does not normalise it.
   */
  datatype Attachment = Attachment(kind: string, driveFileId: string, filename: string)

  /** `Attachment.KIND_MOCKUP`. */
  const KindMockup := "MOCKUP"

  /** The position of the first slot with that order (`get_or_create(order=...)`). */
  function SlotIndex(slots: seq<Models.Slot>, order: nat): (r: Option<nat>)
    ensures r.Some? ==>
      r.value < |slots| && slots[r.value].order == order && forall j :: 0 <= j < r.value ==> slots[j].order != order
    ensures r.None? ==> forall j :: 0 <= j < |slots| ==> slots[j].order != order
  {
    if slots == [] then None
    else if slots[|slots| - 1].order != order then
      var r := SlotIndex(slots[..|slots| - 1], order);
      if r.None? then None else Some(r.value)
    else
      var r := SlotIndex(slots[..|slots| - 1], order);
      if r.None? then Some(|slots| - 1) else Some(r.value)
  }

  /**
   * The slot of the template's order after a mockup is stored in it: found
   * or created with the template's label, given the file (id normalised by
   * the slot's `save()`), and labelled with the template's label if it had
   * none.
   */
  function Fill(slots: seq<Models.Slot>, t: TemplateRef, fileId: string, filename: string): (r: seq<Models.Slot>)
    ensures |r| == |slots| || |r| == |slots| + 1
    ensures SlotIndex(r, t.order).Some?
    ensures var k := SlotIndex(r, t.order).value;
      r[k].driveFileId == Models.NormaliseId(fileId) && r[k].filename == filename
    ensures forall j :: 0 <= j < |slots| && slots[j].order != t.order ==> r[j] == slots[j]
  {
    match SlotIndex(slots, t.order)
    case None =>
      var r := slots + [Models.Slot(t.order, t.caption, Models.NormaliseId(fileId), filename)];
      assert SlotIndex(r, t.order) == Some(|slots|);
      r
    case Some(i) =>
      var s := slots[i];
      var caption := if t.caption != [] && s.caption == [] then t.caption else s.caption;
      var r := slots[i := Models.Slot(s.order, caption, Models.NormaliseId(fileId), filename)];
      assert r[..i] == slots[..i];
      assert SlotIndex(r, t.order) == Some(i) by { SlotIndexAt(r, t.order, i); }
      r
  }

  /** The first slot with an order is where that order first occurs. */
  lemma {:induction false} SlotIndexAt(slots: seq<Models.Slot>, order: nat, i: nat)
    requires i < |slots| && slots[i].order == order && forall j :: 0 <= j < i ==> slots[j].order != order
    ensures SlotIndex(slots, order) == Some(i)
  {
    var r := SlotIndex(slots, order);
    assert r.Some?;
    assert !(r.value < i);
    assert !(r.value > i);
  }

  /** A slot with another order keeps its position and contents when a mockup is stored. */
  lemma FillKeepsOthers(slots: seq<Models.Slot>, t: TemplateRef, fileId: string, filename: string, o: nat)
    requires o != t.order
    ensures SlotIndex(Fill(slots, t, fileId, filename), o) == SlotIndex(slots, o)
    ensures SlotIndex(slots, o).Some? ==>
      Fill(slots, t, fileId, filename)[SlotIndex(slots, o).value] == slots[SlotIndex(slots, o).value]
  {
    var r := Fill(slots, t, fileId, filename);
    match SlotIndex(slots, o)
    case Some(k) =>
      SlotIndexAt(r, o, k);
    case None =>
      assert forall j :: 0 <= j < |r| ==> r[j].order != o by {
        forall j | 0 <= j < |r| ensures r[j].order != o {
          if j < |slots| && slots[j].order == t.order {
            assert r[j].order == t.order by {
              var k := SlotIndex(r, t.order).value;
              if |r| == |slots| + 1 {
                assert SlotIndex(slots, t.order).Some?;
              }
            }
          }
        }
      }
  }

  /** The slots after storing, in order, the mockup of every template whose generation succeeded. */
  function FillAll(slots: seq<Models.Slot>, ts: seq<TemplateRef>, generate: TemplateRef -> Result<(string, string), string>)
    : seq<Models.Slot>
  {
    if ts == [] then slots
    else
      var before := FillAll(slots, ts[..|ts| - 1], generate);
      var t := ts[|ts| - 1];
      match generate(t)
      case Ok(out) => Fill(before, t, out.0, out.1)
      case Err(_) => before
  }

  /**
   * After the run every template that produced a mockup has a slot of its
   * order, and when no two templates share an order that slot holds the
   * template's mockup.
   */
  lemma {:induction false} FillAllCovers(slots: seq<Models.Slot>, ts: seq<TemplateRef>,
                                         generate: TemplateRef -> Result<(string, string), string>, k: nat)
    requires k < |ts| && generate(ts[k]).Ok?
    requires forall i, j :: 0 <= i < j < |ts| ==> ts[i].order != ts[j].order
    ensures var r := FillAll(slots, ts, generate);
      SlotIndex(r, ts[k].order).Some?
      && r[SlotIndex(r, ts[k].order).value].driveFileId == Models.NormaliseId(generate(ts[k]).value.0)
      && r[SlotIndex(r, ts[k].order).value].filename == generate(ts[k]).value.1
  {
    var init := ts[..|ts| - 1];
    var t := ts[|ts| - 1];
    if k < |ts| - 1 {
      assert init[k] == ts[k];
      FillAllCovers(slots, init, generate, k);
      if generate(t).Ok? {
        FillKeepsOthers(FillAll(slots, init, generate), t, generate(t).value.0, generate(t).value.1, ts[k].order);
      }
    }
  }

  // ---------------------------------------------------------------------
  // The generation run
  // ---------------------------------------------------------------------

  /** Templates compared by their `order` field. */
  predicate TemplateLe(a: TemplateRef, b: TemplateRef) {
    a.order <= b.order
  }

  /** `order_by("order")`. */
  function Ordered(templates: seq<TemplateRef>): (r: seq<TemplateRef>)
    ensures |r| == |templates| && multiset(r) == multiset(templates)
  {
    Sorting.SortBy(templates, TemplateLe)
  }

  /** The templates are run in ascending `order`. */
  lemma OrderedAscending(templates: seq<TemplateRef>, i: nat, j: nat)
    requires i < j < |templates|
    ensures Ordered(templates)[i].order <= Ordered(templates)[j].order
  {
    Sorting.SortBySorted(templates, TemplateLe);
  }

  /** The progress calls of `n` generated mockups out of `total`: (1, total), ..., (n, total). */
  function Progress(n: nat, total: nat): (p: seq<(nat, nat)>)
    ensures |p| == n && forall k :: 0 <= k < n ==> p[k] == (k + 1, total)
  {
    seq(n, k requires 0 <= k < n => (k + 1, total))
  }

  /** When every generation succeeds, the i-th attachment holds the i-th upload's id and name, as returned. */
  lemma {:induction false} MockupAttachmentsAllOk(ts: seq<TemplateRef>, generate: TemplateRef -> Result<(string, string), string>)
    requires forall j :: 0 <= j < |ts| ==> generate(ts[j]).Ok?
    ensures |MockupAttachments(ts, generate)| == |ts|
    ensures forall i :: 0 <= i < |ts| ==>
      MockupAttachments(ts, generate)[i] == Attachment(KindMockup, generate(ts[i]).value.0, generate(ts[i]).value.1)
  {
    if ts != [] {
      var n := |ts| - 1;
      assert forall j :: 0 <= j < n ==> ts[..n][j] == ts[j];
      MockupAttachmentsAllOk(ts[..n], generate);
    }
  }

  /** The attachments created for the successful generations among `ts`, in order. */
  function MockupAttachments(ts: seq<TemplateRef>, generate: TemplateRef -> Result<(string, string), string>)
    : (a: seq<Attachment>)
    ensures |a| <= |ts|
    ensures forall i :: 0 <= i < |a| ==> a[i].kind == KindMockup
  {
    if ts == [] then []
    else
      var before := MockupAttachments(ts[..|ts| - 1], generate);
      match generate(ts[|ts| - 1])
      case Ok(out) => before + [Attachment(KindMockup, out.0, out.1)]
      case Err(_) => before
  }

  /** Whether the run has nothing to do: no template, no mockup templates or no design. */
  predicate NothingToRun(task: Models.Task, templates: seq<TemplateRef>)
    reads task
  {
    task.template.None? || templates == [] || task.driveDesignFileId == []
  }

  /** The first position of `ts` whose generation fails, if any. */
  function FirstFailure(ts: seq<TemplateRef>, generate: TemplateRef -> Result<(string, string), string>): (r: Option<nat>)
    ensures r.Some? ==>
      r.value < |ts| && generate(ts[r.value]).Err? && forall j :: 0 <= j < r.value ==> generate(ts[j]).Ok?
    ensures r.None? ==> forall j :: 0 <= j < |ts| ==> generate(ts[j]).Ok?
  {
    if ts == [] then None
    else if generate(ts[0]).Err? then Some(0)
    else
      var r := FirstFailure(ts[1..], generate);
      assert forall j :: 1 <= j < |ts| ==> ts[j] == ts[1..][j - 1];
      if r.None? then None else Some(r.value + 1)
  }

  /**
   * `run_mockup_generation(task, progress_cb)`. `templates` are the mockup
   * templates of the task's template and `generate` renders and uploads one
   * mockup, giving its Drive id and file name or the message of the
   * exception it raised. The calls to the progress callback are returned in
   * `progress`, the attachment rows created in `attachments`, and an
   * exception that ends the run in `failure`.
   */
  method RunMockupGeneration(task: Models.Task, templates: seq<TemplateRef>,
                             generate: TemplateRef -> Result<(string, string), string>)
    returns (generated: nat, progress: seq<(nat, nat)>, attachments: seq<Attachment>, failure: Option<string>)
    modifies task
    ensures old(NothingToRun(task, templates)) ==>
      generated == 0 && progress == [] && attachments == [] && failure.None? && unchanged(task)
    ensures !old(NothingToRun(task, templates)) ==>
      var ordered := Ordered(templates);
      var slots := if |old(task.mockupSlots)| >= Max6(|templates|) then old(task.mockupSlots)
                   else old(task.mockupSlots) + Models.NewSlots(|old(task.mockupSlots)|, Max6(|templates|));
      var n := if FirstFailure(ordered, generate).Some? then FirstFailure(ordered, generate).value else |ordered|;
      && generated == n
      && progress == Progress(n, |templates|)
      && attachments == MockupAttachments(ordered[..n], generate)
      && task.mockupSlots == FillAll(slots, ordered[..n], generate)
      && (failure.None? <==> FirstFailure(ordered, generate).None?)
      && (failure.Some? ==>
            failure.value == generate(ordered[n]).error
            && task.mockupsGeneratedDesignId == old(task.mockupsGeneratedDesignId)
            && task.status == old(task.status))
      && (failure.None? ==>
            task.mockupsGeneratedDesignId == old(task.driveDesignFileId)
            && task.driveDesignFileId == Models.NormaliseId(old(task.driveDesignFileId))
            && task.status == Models.StatusFor(task.steps))
      && task.steps == old(task.steps)
  {
    if task.template.None? || templates == [] || task.driveDesignFileId == [] {
      return 0, [], [], None;
    }
    var ordered := Ordered(templates);
    task.EnsureMockupSlots(Max6(|templates|));
    generated, progress, attachments, failure := GenerateAll(task, ordered, |templates|, generate);
    if failure.Some? {
      return;
    }
    task.mockupsGeneratedDesignId := task.driveDesignFileId;
    task.Save();
    task.RefreshStatus();
    Models.NormaliseIdIdempotent(old(task.driveDesignFileId));
  }

  /** The loop of `run_mockup_generation` over the ordered templates, up to the first exception. */
  method GenerateAll(task: Models.Task, ordered: seq<TemplateRef>, total: nat,
                     generate: TemplateRef -> Result<(string, string), string>)
    returns (generated: nat, progress: seq<(nat, nat)>, attachments: seq<Attachment>, failure: Option<string>)
    modifies task
    ensures var n := if FirstFailure(ordered, generate).Some? then FirstFailure(ordered, generate).value else |ordered|;
      && generated == n
      && progress == Progress(n, total)
      && attachments == MockupAttachments(ordered[..n], generate)
      && task.mockupSlots == FillAll(old(task.mockupSlots), ordered[..n], generate)
      && (failure.None? <==> FirstFailure(ordered, generate).None?)
      && (failure.Some? ==> failure.value == generate(ordered[n]).error)
    ensures task.steps == old(task.steps) && task.status == old(task.status) && task.template == old(task.template)
    ensures task.mockupsGeneratedDesignId == old(task.mockupsGeneratedDesignId)
    ensures task.driveDesignFileId == old(task.driveDesignFileId)
  {
    ghost var slots := task.mockupSlots;
    generated, progress, attachments, failure := 0, [], [], None;
    while generated < |ordered|
      invariant generated <= |ordered|
      invariant FirstFailure(ordered, generate).None? || FirstFailure(ordered, generate).value >= generated
      invariant progress == Progress(generated, total)
      invariant attachments == MockupAttachments(ordered[..generated], generate)
      invariant task.mockupSlots == FillAll(slots, ordered[..generated], generate)
      invariant task.steps == old(task.steps) && task.status == old(task.status) && task.template == old(task.template)
      invariant task.mockupsGeneratedDesignId == old(task.mockupsGeneratedDesignId)
      invariant task.driveDesignFileId == old(task.driveDesignFileId)
    {
      var t := ordered[generated];
      match generate(t)
      case Err(message) =>
        failure := Some(message);
        FirstFailureAt(ordered, generate, generated);
        return;
      case Ok(out) =>
        PrefixStep(slots, ordered, generate, generated, total);
        task.mockupSlots := Fill(task.mockupSlots, t, out.0, out.1);
        attachments := attachments + [Attachment(KindMockup, out.0, out.1)];
        generated := generated + 1;
        progress := progress + [(generated, total)];
    }
    assert ordered[..generated] == ordered;
  }

  /** One more successful template: its mockup stored, its attachment and its progress call appended. */
  lemma PrefixStep(slots: seq<Models.Slot>, ordered: seq<TemplateRef>,
                   generate: TemplateRef -> Result<(string, string), string>, i: nat, total: nat)
    requires i < |ordered| && generate(ordered[i]).Ok?
    ensures var out := generate(ordered[i]).value;
      && FillAll(slots, ordered[..i + 1], generate) == Fill(FillAll(slots, ordered[..i], generate), ordered[i], out.0, out.1)
      && MockupAttachments(ordered[..i + 1], generate)
         == MockupAttachments(ordered[..i], generate) + [Attachment(KindMockup, out.0, out.1)]
      && Progress(i + 1, total) == Progress(i, total) + [(i + 1, total)]
  {
    FillAllStep(slots, ordered, generate, i);
    AttachmentsStep(ordered, generate, i);
    ProgressStep(i, total);
  }

  lemma FillAllStep(slots: seq<Models.Slot>, ordered: seq<TemplateRef>,
                    generate: TemplateRef -> Result<(string, string), string>, i: nat)
    requires i < |ordered| && generate(ordered[i]).Ok?
    ensures var out := generate(ordered[i]).value;
      FillAll(slots, ordered[..i + 1], generate) == Fill(FillAll(slots, ordered[..i], generate), ordered[i], out.0, out.1)
  {
    var ts := ordered[..i + 1];
    assert ts[..|ts| - 1] == ordered[..i] && ts[|ts| - 1] == ordered[i];
  }

  lemma AttachmentsStep(ordered: seq<TemplateRef>, generate: TemplateRef -> Result<(string, string), string>, i: nat)
    requires i < |ordered| && generate(ordered[i]).Ok?
    ensures var out := generate(ordered[i]).value;
      MockupAttachments(ordered[..i + 1], generate)
      == MockupAttachments(ordered[..i], generate) + [Attachment(KindMockup, out.0, out.1)]
  {
    var ts := ordered[..i + 1];
    assert ts[..|ts| - 1] == ordered[..i] && ts[|ts| - 1] == ordered[i];
  }

  lemma ProgressStep(i: nat, total: nat)
    ensures Progress(i + 1, total) == Progress(i, total) + [(i + 1, total)]
  {
  }

  /** `max(6, n)`: the slot count the run makes sure of. */
  function Max6(n: nat): (m: nat)
    ensures m >= 6 && m >= n && (m == 6 || m == n)
  {
    if n >= 6 then n else 6
  }

  /** The first failure is the first position whose generation fails. */
  lemma FirstFailureAt(ts: seq<TemplateRef>, generate: TemplateRef -> Result<(string, string), string>, i: nat)
    requires i < |ts| && generate(ts[i]).Err? && forall j :: 0 <= j < i ==> generate(ts[j]).Ok?
    ensures FirstFailure(ts, generate) == Some(i)
  {
    var r := FirstFailure(ts, generate);
    assert r.Some?;
    assert !(r.value < i);
  }

  /** The guards of `maybe_autogenerate_mockups` under which nothing is run. */
  predicate AutogenerateSkips(task: Models.Task, autoSetting: Option<bool>, templates: seq<TemplateRef>)
    reads task
  {
    || autoSetting == Some(false)
    || task.driveDesignFileId == []
    || task.template.None?
    || templates == []
    || task.mockupsGeneratedDesignId == task.driveDesignFileId
  }

  /**
   * `maybe_autogenerate_mockups(task)`. `autoSetting` is the
   * `auto_generate_mockups` flag of the settings row, `None` when there is
   * none. Returns the number generated and the message of an exception.
   */
  method MaybeAutogenerate(task: Models.Task, autoSetting: Option<bool>, templates: seq<TemplateRef>,
                           generate: TemplateRef -> Result<(string, string), string>)
    returns (generated: nat, error: Option<string>)
    modifies task
    ensures old(AutogenerateSkips(task, autoSetting, templates)) ==> generated == 0 && error.None? && unchanged(task)
    ensures !old(AutogenerateSkips(task, autoSetting, templates)) ==>
      var failed := FirstFailure(Ordered(templates), generate);
      && (error.Some? <==> failed.Some?)
      && (error.Some? ==>
            error.value == generate(Ordered(templates)[failed.value]).error
            && generated == 0
            && task.mockupsGeneratedDesignId == old(task.mockupsGeneratedDesignId))
      && (error.None? ==>
            generated == |templates|
            && task.mockupsGeneratedDesignId == old(task.driveDesignFileId))
  {
    if autoSetting == Some(false) {
      return 0, None;
    }
    if task.driveDesignFileId == [] {
      return 0, None;
    }
    if task.template.None? || templates == [] {
      return 0, None;
    }
    if task.mockupsGeneratedDesignId == task.driveDesignFileId {
      return 0, None;
    }
    var n, _, _, failure := RunMockupGeneration(task, templates, generate);
    if failure.Some? {
      return 0, failure;
    }
    generated, error := n, None;
  }

  // ---------------------------------------------------------------------
  // The background worker
  // ---------------------------------------------------------------------

  /** The message of Django's `DoesNotExist` for a missing task. */
  const TaskMissing := "Task matching query does not exist."

  /** `progress_cb`: each (done, total) report of the run sets the job running with those counts. */
  method ReportProgress(table: JobTable, jobId: string, progress: seq<(nat, nat)>, now: real)
    requires table.Valid()
    modifies table
    ensures table.Valid() && table.jobs.Keys == old(table.jobs.Keys)
    ensures forall id :: id in old(table.jobs) && id != jobId ==> table.jobs[id] == old(table.jobs[id])
    ensures progress != [] && jobId in table.jobs ==>
      table.jobs[jobId].done == progress[|progress| - 1].0 && table.jobs[jobId].total == progress[|progress| - 1].1
  {
    var k := 0;
    while k < |progress|
      invariant k <= |progress|
      invariant table.Valid() && table.jobs.Keys == old(table.jobs.Keys)
      invariant forall id :: id in old(table.jobs) && id != jobId ==> table.jobs[id] == old(table.jobs[id])
      invariant k > 0 && jobId in table.jobs ==>
        table.jobs[jobId].done == progress[k - 1].0 && table.jobs[jobId].total == progress[k - 1].1
    {
      table.UpdateJob(jobId, JobUpdate(Some(progress[k].1), Some(progress[k].0), Some(Running), None), now);
      k := k + 1;
    }
  }

  /**
   * The worker thread of `start_mockup_generation_job`, run to completion:
   * the task is looked up (`None` when it is missing), generated with the
   * job's progress updated on every mockup, and the job then marked done,
   * or failed with the exception's message.
   */
  method RunJob(table: JobTable, jobId: string, task: Option<Models.Task>, templates: seq<TemplateRef>,
                generate: TemplateRef -> Result<(string, string), string>, now: real)
    requires table.Valid()
    modifies table, if task.Some? then {task.value} else {}
    ensures table.Valid() && table.jobs.Keys == old(table.jobs.Keys)
    ensures forall id :: id in old(table.jobs) && id != jobId ==> table.jobs[id] == old(table.jobs[id])
    ensures jobId in old(table.jobs) && task.None? ==>
      table.jobs[jobId].status == Error && table.jobs[jobId].error == TaskMissing
    ensures jobId in old(table.jobs) && task.Some? ==>
      (table.jobs[jobId].status == Done <==> FirstFailure(Ordered(templates), generate).None? || old(NothingToRun(task.value, templates)))
    ensures jobId in old(table.jobs) && task.Some? && table.jobs[jobId].status == Done && !old(NothingToRun(task.value, templates))
      ==> table.jobs[jobId].done == |templates| && table.jobs[jobId].total == |templates|
  {
    if task.None? {
      table.UpdateJob(jobId, JobUpdate(None, None, Some(Error), Some(TaskMissing)), now);
      return;
    }
    var n, progress, _, failure := RunMockupGeneration(task.value, templates, generate);
    ReportProgress(table, jobId, progress, now);
    if failure.None? {
      table.UpdateJob(jobId, JobUpdate(None, None, Some(Done), None), now);
    } else {
      table.UpdateJob(jobId, JobUpdate(None, None, Some(Error), failure), now);
    }
  }
}
