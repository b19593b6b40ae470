/**
 * The task records: a task's checklist status, seeding its steps from a
 * template, its mockup slots, toggling one step, the id normalisation done on
 * save, and the recurring tasks that turn into dated tasks.
 */
module Models {
  import opened Wrappers
  import Text
  import Json
  import Dates
  import DriveIds

  /** `Task.STATUS_*`. */
  datatype Status = New | InProgress | Done

  /** A task template: its name, its `default_steps` JSON and a sample design id. */
  datatype TaskTemplate = TaskTemplate(name: string, defaultSteps: Json.Json, sampleDesignId: string)

  /** A stored checklist step of a task. */
  datatype Step = Step(order: nat, text: string, done: bool, doneAt: Option<int>)

  /** A stored mockup slot of a task. */
  datatype Slot = Slot(order: nat, caption: string, driveFileId: string, filename: string)

  /** `bool(v)` for a decoded JSON value. */
  predicate JsonTruthy(j: Json.Json) {
    match j
    case List(items) => items != []
    case Atom(item) => Json.Truthy(item)
  }

  /** `if self.x: self.x = extract_drive_id(self.x)`. */
  function NormaliseId(id: string): (r: string)
    ensures id == [] ==> r == []
  {
    if id != [] then DriveIds.ExtractDriveId(id) else id
  }

  /** Normalising a saved id again changes nothing. */
  lemma NormaliseIdIdempotent(id: string)
    ensures NormaliseId(NormaliseId(id)) == NormaliseId(id)
  {
    DriveIds.ExtractDriveIdIdempotent(id);
  }

  // ---------------------------------------------------------------------
  // Status from step counts
  // ---------------------------------------------------------------------

  /** The number of done steps. */
  function DoneCount(steps: seq<Step>): (n: nat)
    ensures n <= |steps|
  {
    if steps == [] then 0 else DoneCount(steps[..|steps| - 1]) + (if steps[|steps| - 1].done then 1 else 0)
  }

  /** All steps are done exactly when the done count is the step count. */
  lemma {:induction false} DoneCountAll(steps: seq<Step>)
    ensures DoneCount(steps) == |steps| <==> forall i :: 0 <= i < |steps| ==> steps[i].done
  {
    if steps != [] {
      var init := steps[..|steps| - 1];
      DoneCountAll(init);
      if DoneCount(steps) == |steps| {
        forall i | 0 <= i < |steps|
          ensures steps[i].done
        {
          if i < |steps| - 1 {
            assert steps[i] == init[i];
          }
        }
      }
      if forall i :: 0 <= i < |steps| ==> steps[i].done {
        assert forall i :: 0 <= i < |init| ==> init[i].done by {
          forall i | 0 <= i < |init|
            ensures init[i].done
          {
            assert init[i] == steps[i];
          }
        }
      }
    }
  }

  /** No step is done exactly when the done count is zero. */
  lemma {:induction false} DoneCountNone(steps: seq<Step>)
    ensures DoneCount(steps) == 0 <==> forall i :: 0 <= i < |steps| ==> !steps[i].done
  {
    if steps != [] {
      var init := steps[..|steps| - 1];
      DoneCountNone(init);
      if DoneCount(steps) == 0 {
        forall i | 0 <= i < |steps|
          ensures !steps[i].done
        {
          if i < |steps| - 1 {
            assert steps[i] == init[i];
          }
        }
      }
      if forall i :: 0 <= i < |steps| ==> !steps[i].done {
        assert forall i :: 0 <= i < |init| ==> !init[i].done by {
          forall i | 0 <= i < |init|
            ensures !init[i].done
          {
            assert init[i] == steps[i];
          }
        }
      }
    }
  }

  /** `all_steps_done`: some steps, every one done. */
  predicate AllStepsDone(steps: seq<Step>): (b: bool)
    ensures b <==> steps != [] && forall i :: 0 <= i < |steps| ==> steps[i].done
  {
    DoneCountAll(steps);
    |steps| > 0 && DoneCount(steps) == |steps|
  }

  /** The status `refresh_status` derives from the step counts. */
  function StatusFor(steps: seq<Step>): Status {
    if AllStepsDone(steps) then Done
    else if DoneCount(steps) > 0 then InProgress
    else New
  }

  /**
   * DONE exactly when there are steps and all are done; NEW exactly when no
   * step is done (so a task without steps is NEW); IN_PROGRESS otherwise.
   */
  lemma StatusForMeaning(steps: seq<Step>)
    ensures StatusFor(steps) == Done <==> steps != [] && forall i :: 0 <= i < |steps| ==> steps[i].done
    ensures StatusFor(steps) == New <==> forall i :: 0 <= i < |steps| ==> !steps[i].done
    ensures StatusFor(steps) == InProgress <==>
      (exists i :: 0 <= i < |steps| && steps[i].done) && (exists i :: 0 <= i < |steps| && !steps[i].done)
  {
    DoneCountAll(steps);
    DoneCountNone(steps);
  }

  /** A task without steps is NEW. */
  lemma NoStepsIsNew()
    ensures StatusFor([]) == New
  {
  }

  // ---------------------------------------------------------------------
  // Seeding steps
  // ---------------------------------------------------------------------

  /**
   * The steps `seed_steps_from_template` creates from a template list: one for
   * each truthy item, numbered by its one-based position in the list.
   */
  function SeedRows(items: seq<Json.Item>): (rows: seq<Step>)
    ensures |rows| <= |items|
    ensures forall i :: 0 <= i < |rows| ==> 1 <= rows[i].order <= |items| && !rows[i].done && rows[i].doneAt.None?
  {
    if items == [] then [] else SeedRows(items[..|items| - 1]) + SeedOne(items[|items| - 1], |items|)
  }

  /** `str(v).strip()`: the text of the step made from item `v`. */
  function StepText(v: Json.Item): string {
    Text.Strip(Json.PyStr(v))
  }

  /** The step for item `x` at position `order`, if it is truthy. */
  function SeedOne(x: Json.Item, order: nat): (r: seq<Step>)
    ensures |r| == (if Json.Truthy(x) then 1 else 0)
    ensures Json.Truthy(x) ==> r[0].order == order
  {
    if Json.Truthy(x) then [Step(order, StepText(x), false, None)] else []
  }

  /** The number of truthy items. */
  function TruthyCount(items: seq<Json.Item>): nat {
    if items == [] then 0 else TruthyCount(items[..|items| - 1]) + (if Json.Truthy(items[|items| - 1]) then 1 else 0)
  }

  /** One seeded step per truthy item. */
  lemma {:induction false} SeedRowsCount(items: seq<Json.Item>)
    ensures |SeedRows(items)| == TruthyCount(items)
  {
    if items != [] {
      SeedRowsCount(items[..|items| - 1]);
    }
  }

  /** Each seeded step comes from the truthy item at its position, with that item's stripped text. */
  lemma {:induction false} SeedRowsSource(items: seq<Json.Item>)
    ensures forall i :: 0 <= i < |SeedRows(items)| ==>
      Json.Truthy(items[SeedRows(items)[i].order - 1])
      && SeedRows(items)[i].text == StepText(items[SeedRows(items)[i].order - 1])
  {
    if items != [] {
      var init := items[..|items| - 1];
      SeedRowsSource(init);
      var head := SeedRows(init);
      var rows := SeedRows(items);
      var n := |items|;
      assert rows == head + SeedOne(items[n - 1], n);
      forall i | 0 <= i < |rows|
        ensures Json.Truthy(items[rows[i].order - 1]) && rows[i].text == StepText(items[rows[i].order - 1])
      {
        if i < |head| {
          assert rows[i] == head[i];
          assert items[head[i].order - 1] == init[head[i].order - 1];
        } else {
          assert rows[i] == SeedOne(items[n - 1], n)[0];
        }
      }
    }
  }

  /** The orders of the seeded steps strictly increase. */
  lemma {:induction false} SeedRowsIncreasing(items: seq<Json.Item>)
    ensures forall i, j :: 0 <= i < j < |SeedRows(items)| ==> SeedRows(items)[i].order < SeedRows(items)[j].order
  {
    if items != [] {
      var init := items[..|items| - 1];
      SeedRowsIncreasing(init);
      var head := SeedRows(init);
      var rows := SeedRows(items);
      var n := |items|;
      assert rows == head + SeedOne(items[n - 1], n);
      forall i, j | 0 <= i < j < |rows|
        ensures rows[i].order < rows[j].order
      {
        assert rows[i] == head[i];
        if j < |head| {
          assert rows[j] == head[j];
          assert head[i].order < head[j].order;
        } else {
          assert head[i].order <= n - 1;
          assert rows[j] == SeedOne(items[n - 1], n)[0];
          assert rows[j].order == n;
        }
      }
    }
  }

  /** Every truthy item gives a step numbered by its position. */
  lemma {:induction false} SeedRowsComplete(items: seq<Json.Item>, j: nat) returns (i: nat)
    requires j < |items| && Json.Truthy(items[j])
    ensures i < |SeedRows(items)| && SeedRows(items)[i].order == j + 1
  {
    var n := |items|;
    var init := items[..n - 1];
    var head := SeedRows(init);
    assert SeedRows(items) == head + SeedOne(items[n - 1], n);
    if j < n - 1 {
      assert init[j] == items[j];
      i := SeedRowsComplete(init, j);
      assert SeedRows(items)[i] == head[i];
    } else {
      i := |head|;
      assert SeedRows(items)[i] == SeedOne(items[n - 1], n)[0];
    }
  }

  /** A falsy item is skipped but keeps its position, so the orders have a gap. */
  lemma SeedRowsGap(a: Json.Item, f: Json.Item, b: Json.Item)
    requires Json.Truthy(a) && !Json.Truthy(f) && Json.Truthy(b)
    ensures |SeedRows([a, f, b])| == 2 && SeedRows([a, f, b])[0].order == 1 && SeedRows([a, f, b])[1].order == 3
  {
    var af := [a] + [f];
    var afb := af + [b];
    assert |SeedRows(af)| == 1 && SeedRows(af)[0].order == 1 by {
      SeedRowsSingle(a);
      SeedRowsStep([a], f);
    }
    assert |SeedRows(afb)| == 2 && SeedRows(afb)[0].order == 1 && SeedRows(afb)[1].order == 3 by {
      SeedRowsStep(af, b);
    }
    assert afb == [a, f, b];
  }

  lemma SeedRowsSingle(a: Json.Item)
    ensures SeedRows([a]) == SeedOne(a, 1)
  {
    assert [a][..0] == [];
  }

  /** Appending an item appends its step, if any. */
  lemma SeedRowsStep(init: seq<Json.Item>, x: Json.Item)
    ensures SeedRows(init + [x]) == SeedRows(init) + SeedOne(x, |init| + 1)
  {
    assert (init + [x])[..|init|] == init;
  }

  /** The steps seeded from the task's template: none without a template, with a falsy or non-list `default_steps`. */
  function SeedFor(template: Option<TaskTemplate>): seq<Step> {
    if template.None? || !JsonTruthy(template.value.defaultSteps) then []
    else match template.value.defaultSteps
      case List(items) => SeedRows(items)
      case Atom(_) => []
  }

  /** The loop of `seed_steps_from_template` that collects the steps to create. */
  method CollectSeed(items: seq<Json.Item>) returns (created: seq<Step>)
    ensures created == SeedRows(items)
  {
    created := [];
    var k := 0;
    while k < |items|
      invariant 0 <= k <= |items|
      invariant created == SeedRows(items[..k])
    {
      assert items[..k + 1][..k] == items[..k];
      var text := items[k];
      if Json.Truthy(text) {
        created := created + [Step(k + 1, StepText(text), false, None)];
      }
      k := k + 1;
    }
    assert items[..k] == items;
  }

  // ---------------------------------------------------------------------
  // Mockup slots
  // ---------------------------------------------------------------------

  /** Empty slots numbered `from + 1` .. `count`. */
  function NewSlots(from: nat, count: nat): (slots: seq<Slot>)
    requires from <= count
    ensures |slots| == count - from
    ensures forall i :: 0 <= i < |slots| ==> slots[i] == Slot(from + i + 1, "", "", "")
  {
    seq(count - from, i requires 0 <= i < count - from => Slot(from + i + 1, "", "", ""))
  }

  // ---------------------------------------------------------------------
  // Tasks
  // ---------------------------------------------------------------------

  /** A task as loaded in memory; `steps` and `mockupSlots` are its stored related rows. */
  class Task {
    var title: string
    var dueDate: Dates.Date
    var status: Status
    var driveDesignFileId: string
    var driveMockupFolderId: string
    var mockupsGeneratedDesignId: string
    var template: Option<TaskTemplate>
    var recurringId: Option<nat>
    var steps: seq<Step>
    var mockupSlots: seq<Slot>

    constructor(title: string, dueDate: Dates.Date, template: Option<TaskTemplate>)
      ensures this.title == title && this.dueDate == dueDate && this.template == template
      ensures status == New && steps == [] && mockupSlots == [] && recurringId.None?
      ensures driveDesignFileId == [] && driveMockupFolderId == [] && mockupsGeneratedDesignId == []
    {
      this.title := title;
      this.dueDate := dueDate;
      this.template := template;
      status := New;
      steps := [];
      mockupSlots := [];
      recurringId := None;
      driveDesignFileId := [];
      driveMockupFolderId := [];
      mockupsGeneratedDesignId := [];
    }

    /** `all_steps_done`. */
    predicate AllDone()
      reads this
    {
      AllStepsDone(steps)
    }

    /** `save()`: both Drive ids are normalised. */
    method Save()
      modifies this
      ensures driveDesignFileId == NormaliseId(old(driveDesignFileId))
      ensures driveMockupFolderId == NormaliseId(old(driveMockupFolderId))
      ensures title == old(title) && dueDate == old(dueDate) && status == old(status)
      ensures mockupsGeneratedDesignId == old(mockupsGeneratedDesignId) && template == old(template)
      ensures recurringId == old(recurringId) && steps == old(steps) && mockupSlots == old(mockupSlots)
    {
      if driveDesignFileId != [] {
        driveDesignFileId := DriveIds.ExtractDriveId(driveDesignFileId);
      }
      if driveMockupFolderId != [] {
        driveMockupFolderId := DriveIds.ExtractDriveId(driveMockupFolderId);
      }
    }

    /** `refresh_status`: the status from the step counts, then `save()`. */
    method RefreshStatus()
      modifies this
      ensures status == StatusFor(steps)
      ensures driveDesignFileId == NormaliseId(old(driveDesignFileId))
      ensures driveMockupFolderId == NormaliseId(old(driveMockupFolderId))
      ensures title == old(title) && dueDate == old(dueDate)
      ensures mockupsGeneratedDesignId == old(mockupsGeneratedDesignId) && template == old(template)
      ensures recurringId == old(recurringId) && steps == old(steps) && mockupSlots == old(mockupSlots)
    {
      if AllStepsDone(steps) {
        status := Done;
      } else if DoneCount(steps) > 0 {
        status := InProgress;
      } else {
        status := New;
      }
      Save();
    }

    /** `seed_steps_from_template`: creates the template's steps and returns how many. */
    method SeedStepsFromTemplate() returns (n: nat)
      modifies this
      ensures steps == old(steps) + SeedFor(template)
      ensures n == |SeedFor(template)|
      ensures title == old(title) && dueDate == old(dueDate) && status == old(status) && template == old(template)
      ensures driveDesignFileId == old(driveDesignFileId) && driveMockupFolderId == old(driveMockupFolderId)
      ensures mockupsGeneratedDesignId == old(mockupsGeneratedDesignId)
      ensures recurringId == old(recurringId) && mockupSlots == old(mockupSlots)
    {
      if template.None? || !JsonTruthy(template.value.defaultSteps) {
        return 0;
      }
      if !template.value.defaultSteps.List? {
        return 0;
      }
      var created := CollectSeed(template.value.defaultSteps.items);
      if created != [] {
        steps := steps + created;
      }
      n := |created|;
    }

    /** `ensure_mockup_slots(count)`: tops the slots up to `count`, numbering the new ones after the existing count. */
    method EnsureMockupSlots(count: nat)
      modifies this
      ensures |old(mockupSlots)| >= count ==> mockupSlots == old(mockupSlots)
      ensures |old(mockupSlots)| < count ==> mockupSlots == old(mockupSlots) + NewSlots(|old(mockupSlots)|, count)
      ensures title == old(title) && dueDate == old(dueDate) && status == old(status) && template == old(template)
      ensures driveDesignFileId == old(driveDesignFileId) && driveMockupFolderId == old(driveMockupFolderId)
      ensures mockupsGeneratedDesignId == old(mockupsGeneratedDesignId)
      ensures recurringId == old(recurringId) && steps == old(steps)
    {
      var existing := |mockupSlots|;
      if existing >= count {
        return;
      }
      mockupSlots := mockupSlots + NewSlots(existing, count);
    }
  }

  /** After `ensure_mockup_slots(count)` there are at least `count` slots, exactly `count` if there were fewer. */
  lemma EnsureSlotsCount(existing: seq<Slot>, count: nat)
    ensures var after := if |existing| >= count then existing else existing + NewSlots(|existing|, count);
      |after| == (if |existing| >= count then |existing| else count)
      && forall i :: |existing| <= i < |after| ==> after[i].order == i + 1
  {
  }

  // ---------------------------------------------------------------------
  // Steps
  // ---------------------------------------------------------------------

  /** The saved state of a step: done, and when (`None` when not done). */
  datatype StepState = StepState(done: bool, doneAt: Option<int>)

  /** The state after `toggle` at time `now`. */
  function Toggled(s: StepState, now: int): (t: StepState)
    ensures t.done == !s.done
    ensures t.doneAt.Some? <==> t.done
    ensures t.done ==> t.doneAt == Some(now)
  {
    StepState(!s.done, if !s.done then Some(now) else None)
  }

  /** Toggling twice restores `done`; the time is cleared or refreshed. */
  lemma ToggleTwice(s: StepState, t1: int, t2: int)
    ensures Toggled(Toggled(s, t1), t2).done == s.done
    ensures Toggled(Toggled(s, t1), t2) == (if s.done then StepState(true, Some(t2)) else StepState(false, None))
  {
  }

  class TaskStep {
    var order: nat
    var text: string
    var done: bool
    var doneAt: Option<int>

    constructor(order: nat, text: string)
      ensures this.order == order && this.text == text && !done && doneAt.None?
    {
      this.order := order;
      this.text := text;
      done := false;
      doneAt := None;
    }

    function State(): StepState
      reads this
    {
      StepState(done, doneAt)
    }

    /** `toggle`: flips `done`; `done_at` is the time now when done and cleared otherwise. `now` is the clock. */
    method Toggle(now: int)
      modifies this
      ensures State() == Toggled(old(State()), now)
      ensures order == old(order) && text == old(text)
    {
      done := !done;
      doneAt := if done then Some(now) else None;
    }
  }

  // ---------------------------------------------------------------------
  // Recurring tasks
  // ---------------------------------------------------------------------

  /** A recurring task (the fields used; `id` is its primary key). */
  datatype RecurringTask = RecurringTask(
    id: nat, title: string, assignedTo: string, notes: string, driveDesignFileId: string,
    videoUrl: string, template: Option<TaskTemplate>, defaultSteps: Json.Json,
    startDate: Dates.Date, active: bool)

  /** `[str(step).strip() for step in items if step]`. */
  function TruthyTexts(items: seq<Json.Item>): (r: seq<string>)
    ensures |r| <= |items|
  {
    if items == [] then []
    else
      var last := items[|items| - 1];
      TruthyTexts(items[..|items| - 1]) + (if Json.Truthy(last) then [StepText(last)] else [])
  }

  /** The texts of the steps seeded from a template list are exactly its truthy, stripped texts. */
  lemma {:induction false} SeedRowsTexts(items: seq<Json.Item>)
    ensures var rows := SeedRows(items);
      |rows| == |TruthyTexts(items)| && forall i :: 0 <= i < |rows| ==> rows[i].text == TruthyTexts(items)[i]
  {
    if items != [] {
      SeedRowsTexts(items[..|items| - 1]);
    }
  }

  /** `step_list`: the task's own non-empty list first, then a template list, else none. */
  function StepList(rt: RecurringTask): (steps: seq<string>)
    ensures rt.defaultSteps.List? && rt.defaultSteps.items != [] ==> steps == TruthyTexts(rt.defaultSteps.items)
    ensures !(rt.defaultSteps.List? && rt.defaultSteps.items != []) && rt.template.Some? && rt.template.value.defaultSteps.List?
      ==> steps == TruthyTexts(rt.template.value.defaultSteps.items)
  {
    if rt.defaultSteps.List? && rt.defaultSteps.items != [] then TruthyTexts(rt.defaultSteps.items)
    else if rt.template.Some? && rt.template.value.defaultSteps.List? then TruthyTexts(rt.template.value.defaultSteps.items)
    else []
  }

  /** With neither an own list nor a template list there are no steps. */
  lemma StepListEmpty(rt: RecurringTask)
    requires !(rt.defaultSteps.List? && rt.defaultSteps.items != [])
    requires rt.template.None? || !rt.template.value.defaultSteps.List?
    ensures StepList(rt) == []
  {
  }

  /** Steps numbered 1, 2, … in list order. */
  function Numbered(texts: seq<string>): (rows: seq<Step>)
    ensures |rows| == |texts|
    ensures forall i :: 0 <= i < |rows| ==> rows[i] == Step(i + 1, texts[i], false, None)
  {
    seq(|texts|, i requires 0 <= i < |texts| => Step(i + 1, texts[i], false, None))
  }

  /** A stored task, as the recurring-task code sees the task table. */
  datatype TaskRow = TaskRow(
    recurringId: Option<nat>, dueDate: Dates.Date, title: string, assignedTo: string, notes: string,
    driveDesignFileId: string, videoUrl: string, template: Option<TaskTemplate>, steps: seq<Step>)

  /** The task `create_task_for_date` creates: the recurring task's fields, its steps or else the template's. */
  function NewTaskRow(rt: RecurringTask, due: Dates.Date): TaskRow {
    var steps := StepList(rt);
    TaskRow(Some(rt.id), due, rt.title, rt.assignedTo, rt.notes, NormaliseId(rt.driveDesignFileId), rt.videoUrl,
      rt.template, if steps != [] then Numbered(steps) else SeedFor(rt.template))
  }

  /** The position of the task of recurring task `id` on `due`, if there is one. */
  function FindTask(rows: seq<TaskRow>, id: nat, due: Dates.Date): (r: Option<nat>)
    ensures r.Some? ==> r.value < |rows| && rows[r.value].recurringId == Some(id) && rows[r.value].dueDate == due
    ensures r.None? ==> forall i :: 0 <= i < |rows| ==> !(rows[i].recurringId == Some(id) && rows[i].dueDate == due)
  {
    if rows == [] then None
    else if rows[0].recurringId == Some(id) && rows[0].dueDate == due then Some(0)
    else match FindTask(rows[1..], id, due)
      case None => None
      case Some(i) => Some(i + 1)
  }

  /** `create_task_for_date` generates for a recurring task that is active and has started by `due`. */
  predicate Eligible(rt: RecurringTask, due: Dates.Date) {
    rt.active && !Dates.Before(due, rt.startDate)
  }

  /** The task table. */
  class TaskTable {
    var rows: seq<TaskRow>

    constructor(rows: seq<TaskRow>)
      ensures this.rows == rows
    {
      this.rows := rows;
    }

    /**
     * `create_task_for_date`: nothing for an inactive or not yet started
     * recurring task; the existing task for that day if there is one;
     * otherwise a new task with its steps.
     */
    method CreateTaskForDate(rt: RecurringTask, due: Dates.Date) returns (task: Option<nat>, created: bool)
      modifies this
      ensures !Eligible(rt, due) ==> task.None? && !created && rows == old(rows)
      ensures Eligible(rt, due) && FindTask(old(rows), rt.id, due).Some? ==>
        task == FindTask(old(rows), rt.id, due) && !created && rows == old(rows)
      ensures Eligible(rt, due) && FindTask(old(rows), rt.id, due).None? ==>
        created && task == Some(|old(rows)|) && rows == old(rows) + [NewTaskRow(rt, due)]
    {
      if !rt.active || Dates.Before(due, rt.startDate) {
        return None, false;
      }
      var found := FindTask(rows, rt.id, due);
      if found.Some? {
        return found, false;
      }
      rows := rows + [NewTaskRow(rt, due)];
      task, created := Some(|rows| - 1), true;
    }

    /**
     * `generate_for_date`: runs `create_task_for_date` for the active
     * recurring tasks started by `due` (of `assignee`, when given) and counts
     * the tasks created.
     */
    method GenerateForDate(rts: seq<RecurringTask>, due: Dates.Date, assignee: string) returns (count: nat)
      requires DistinctIds(rts)
      modifies this
      ensures var sel := Selected(rts, due, assignee);
        rows == old(rows) + NewRows(sel, due, old(rows)) && count == |NewRows(sel, due, old(rows))|
    {
      var sel := Selected(rts, due, assignee);
      SelectedDistinct(rts, due, assignee);
      ghost var start := rows;
      count := 0;
      var i := 0;
      while i < |sel|
        invariant 0 <= i <= |sel|
        invariant rows == start + NewRows(sel[..i], due, start)
        invariant count == |NewRows(sel[..i], due, start)|
      {
        SelectedEligible(rts, due, assignee, i);
        FindTaskAfterNew(sel, i, due, start);
        NewRowsStep(sel, i, due, start);
        var _, created := CreateTaskForDate(sel[i], due);
        assert created <==> FindTask(start, sel[i].id, due).None?;
        if created {
          count := count + 1;
        }
        i := i + 1;
      }
      assert sel[..i] == sel;
    }
  }

  predicate DistinctIds(rts: seq<RecurringTask>) {
    forall i, j :: 0 <= i < j < |rts| ==> rts[i].id != rts[j].id
  }

  /** The queryset of `generate_for_date`, in primary-key order. */
  function Selected(rts: seq<RecurringTask>, due: Dates.Date, assignee: string): (sel: seq<RecurringTask>)
    ensures |sel| <= |rts|
  {
    if rts == [] then []
    else
      var rt := rts[|rts| - 1];
      Selected(rts[..|rts| - 1], due, assignee)
        + (if Eligible(rt, due) && (assignee == [] || rt.assignedTo == assignee) then [rt] else [])
  }

  /** Every selected recurring task is eligible, is assigned to `assignee` when one is given, and comes from the list. */
  lemma {:induction false} SelectedMeaning(rts: seq<RecurringTask>, due: Dates.Date, assignee: string)
    ensures forall k :: 0 <= k < |Selected(rts, due, assignee)| ==>
      var rt := Selected(rts, due, assignee)[k];
      Eligible(rt, due) && (assignee == [] || rt.assignedTo == assignee) && rt in rts
  {
    if rts != [] {
      var init := rts[..|rts| - 1];
      SelectedMeaning(init, due, assignee);
      var sel := Selected(rts, due, assignee);
      var head := Selected(init, due, assignee);
      forall k | 0 <= k < |sel|
        ensures Eligible(sel[k], due) && (assignee == [] || sel[k].assignedTo == assignee) && sel[k] in rts
      {
        if k < |head| {
          assert sel[k] == head[k];
          assert head[k] in init;
        } else {
          assert sel[k] == rts[|rts| - 1];
        }
      }
    }
  }

  lemma SelectedEligible(rts: seq<RecurringTask>, due: Dates.Date, assignee: string, k: nat)
    requires k < |Selected(rts, due, assignee)|
    ensures Eligible(Selected(rts, due, assignee)[k], due)
  {
    SelectedMeaning(rts, due, assignee);
  }

  /** Selection keeps the order of the list, so distinct ids stay distinct. */
  lemma {:induction false} SelectedDistinct(rts: seq<RecurringTask>, due: Dates.Date, assignee: string)
    requires DistinctIds(rts)
    ensures DistinctIds(Selected(rts, due, assignee))
    ensures forall k :: 0 <= k < |Selected(rts, due, assignee)| ==> exists j :: 0 <= j < |rts| && rts[j] == Selected(rts, due, assignee)[k]
  {
    if rts != [] {
      var init := rts[..|rts| - 1];
      assert DistinctIds(init) by {
        forall i, j | 0 <= i < j < |init|
          ensures init[i].id != init[j].id
        {
          assert init[i] == rts[i] && init[j] == rts[j];
        }
      }
      SelectedDistinct(init, due, assignee);
      var sel := Selected(rts, due, assignee);
      var head := Selected(init, due, assignee);
      assert sel[..|head|] == head;
      forall k | 0 <= k < |sel|
        ensures exists j :: 0 <= j < |rts| && rts[j] == sel[k]
      {
        if k < |head| {
          var j :| 0 <= j < |init| && init[j] == head[k];
          assert rts[j] == sel[k];
        } else {
          assert rts[|rts| - 1] == sel[k];
        }
      }
      forall i, j | 0 <= i < j < |sel|
        ensures sel[i].id != sel[j].id
      {
        if j >= |head| {
          var a :| 0 <= a < |init| && init[a] == head[i];
          assert rts[a] == sel[i];
          assert sel[j] == rts[|rts| - 1];
        } else {
          assert sel[i] == head[i] && sel[j] == head[j];
        }
      }
    }
  }

  /** The tasks created for `sel` in turn, given the table `rows` they start from. */
  function NewRows(sel: seq<RecurringTask>, due: Dates.Date, rows: seq<TaskRow>): seq<TaskRow> {
    if sel == [] then []
    else
      var last := sel[|sel| - 1];
      NewRows(sel[..|sel| - 1], due, rows) + (if FindTask(rows, last.id, due).None? then [NewTaskRow(last, due)] else [])
  }

  /** The loop's step: one recurring task more adds its row when it had none. */
  lemma NewRowsStep(sel: seq<RecurringTask>, i: nat, due: Dates.Date, start: seq<TaskRow>)
    requires i < |sel|
    ensures NewRows(sel[..i + 1], due, start) ==
      NewRows(sel[..i], due, start) + (if FindTask(start, sel[i].id, due).None? then [NewTaskRow(sel[i], due)] else [])
  {
    assert sel[..i + 1][..i] == sel[..i];
  }

  /** The rows created for earlier recurring tasks belong to them. */
  lemma {:induction false} NewRowsOwners(sel: seq<RecurringTask>, due: Dates.Date, rows: seq<TaskRow>)
    ensures forall r :: r in NewRows(sel, due, rows) ==> exists k :: 0 <= k < |sel| && r.recurringId == Some(sel[k].id)
  {
    if sel != [] {
      var init := sel[..|sel| - 1];
      NewRowsOwners(init, due, rows);
      forall r | r in NewRows(sel, due, rows)
        ensures exists k :: 0 <= k < |sel| && r.recurringId == Some(sel[k].id)
      {
        if r in NewRows(init, due, rows) {
          var k :| 0 <= k < |init| && r.recurringId == Some(init[k].id);
          assert sel[k] == init[k];
        } else {
          assert r.recurringId == Some(sel[|sel| - 1].id);
        }
      }
    }
  }

  /** The table after the earlier creations still finds the task of the next recurring task exactly when the start table does. */
  lemma FindTaskAfterNew(sel: seq<RecurringTask>, i: nat, due: Dates.Date, start: seq<TaskRow>)
    requires i < |sel| && DistinctIds(sel)
    ensures FindTask(start + NewRows(sel[..i], due, start), sel[i].id, due).None? <==> FindTask(start, sel[i].id, due).None?
    ensures FindTask(start, sel[i].id, due).Some? ==> FindTask(start + NewRows(sel[..i], due, start), sel[i].id, due) == FindTask(start, sel[i].id, due)
  {
    var added := NewRows(sel[..i], due, start);
    NewRowsOwners(sel[..i], due, start);
    FindTaskPrefix(start, added, sel[i].id, due);
    if FindTask(start, sel[i].id, due).None? {
      forall j | 0 <= j < |added|
        ensures !(added[j].recurringId == Some(sel[i].id) && added[j].dueDate == due)
      {
        assert added[j] in added;
        var k :| 0 <= k < i && added[j].recurringId == Some(sel[..i][k].id);
      }
    }
  }

  /** A task found in a table is found first in any extension of it; a task found in neither part is not found. */
  lemma {:induction false} FindTaskPrefix(a: seq<TaskRow>, b: seq<TaskRow>, id: nat, due: Dates.Date)
    ensures FindTask(a, id, due).Some? ==> FindTask(a + b, id, due) == FindTask(a, id, due)
    ensures FindTask(a, id, due).None? && (forall j :: 0 <= j < |b| ==> !(b[j].recurringId == Some(id) && b[j].dueDate == due))
      ==> FindTask(a + b, id, due).None?
  {
    if a != [] {
      assert (a + b)[1..] == a[1..] + b;
      FindTaskPrefix(a[1..], b, id, due);
    } else {
      assert a + b == b;
    }
  }

  /** A recurring task that is inactive, or starts after `due`, never gets a task for `due`. */
  lemma IneligibleNotSelected(rts: seq<RecurringTask>, due: Dates.Date, assignee: string, rt: RecurringTask)
    requires !Eligible(rt, due)
    ensures rt !in Selected(rts, due, assignee)
  {
    SelectedMeaning(rts, due, assignee);
  }
}
