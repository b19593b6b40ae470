/**
 * The stored records the scheduling code shares: stores, design files and
 * scheduled designs, with the lookups and `update_or_create` upserts the
 * code performs on them. Tables are sequences in primary-key order.
 */
module Records {
  import opened Wrappers
  import Text
  import Dates
  import Models

  /** A shop the designs are published to. */
  datatype Store = Store(id: nat, name: string, order: nat, active: bool)

  datatype DesignStatus = Dumped | Scheduled | Active | Posted | Error | Recycled

  /**
   * A design image in the Drive buckets. `sizeCents` is `size_mb` in
   * hundredths of a mebibyte; `updatedAt` is the `auto_now` timestamp.
   */
  datatype DesignFile = DesignFile(
    id: nat, filename: string, dateAssigned: Option<Dates.Date>, status: DesignStatus,
    driveFileId: string, sizeCents: int, ext: string, store: Option<nat>, sourceFolder: string,
    updatedAt: int)

  /**
   * The design scheduled for a day: for one recurring task or, with
   * `recurringTask == None`, for all tasks; for one store or, with
   * `store == None`, for none in particular.
   */
  datatype ScheduledDesign = ScheduledDesign(
    dueDate: Dates.Date, recurringTask: Option<nat>, store: Option<nat>, driveDesignFileId: string)

  /** The row matches the exact key (a `None` part matches only `None`). */
  predicate HasKey(s: ScheduledDesign, date: Dates.Date, task: Option<nat>, store: Option<nat>) {
    s.dueDate == date && s.recurringTask == task && s.store == store
  }

  /** `ScheduledDesign.objects.filter(due_date=…, recurring_task=…, store=…).first()`, as a position. */
  function FindSchedule(table: seq<ScheduledDesign>, date: Dates.Date, task: Option<nat>, store: Option<nat>): (r: Option<nat>)
    ensures r.Some? ==> (r.value < |table| && HasKey(table[r.value], date, task, store)
      && forall i :: 0 <= i < r.value ==> !HasKey(table[i], date, task, store))
    ensures r.None? ==> forall i :: 0 <= i < |table| ==> !HasKey(table[i], date, task, store)
  {
    if table == [] then None
    else if HasKey(table[0], date, task, store) then Some(0)
    else match FindSchedule(table[1..], date, task, store)
      case None => None
      case Some(i) => Some(i + 1)
  }

  /** The design id of the first row with that key, if there is one. */
  function ScheduledId(table: seq<ScheduledDesign>, date: Dates.Date, task: Option<nat>, store: Option<nat>): Option<string> {
    match FindSchedule(table, date, task, store)
    case None => None
    case Some(i) => Some(table[i].driveDesignFileId)
  }

  /** No id exactly when no row has the key; otherwise the id of a row with the key that no earlier row shares. */
  lemma ScheduledIdMeaning(table: seq<ScheduledDesign>, date: Dates.Date, task: Option<nat>, store: Option<nat>)
    ensures ScheduledId(table, date, task, store).None? <==> forall i :: 0 <= i < |table| ==> !HasKey(table[i], date, task, store)
    ensures ScheduledId(table, date, task, store).Some? ==>
      exists i :: (0 <= i < |table| && HasKey(table[i], date, task, store)
                   && ScheduledId(table, date, task, store).value == table[i].driveDesignFileId
                   && forall j :: 0 <= j < i ==> !HasKey(table[j], date, task, store))
  {
  }

  /**
   * `ScheduledDesign.objects.update_or_create(due_date=…, recurring_task=…,
   * store=…, defaults={"drive_design_file_id": id})`: the first row with the
   * key gets the id, or a new row is appended; `save()` normalises the id.
   */
  function UpsertSchedule(table: seq<ScheduledDesign>, date: Dates.Date, task: Option<nat>, store: Option<nat>, id: string)
    : (r: seq<ScheduledDesign>)
    ensures FindSchedule(table, date, task, store).Some? ==> |r| == |table|
    ensures FindSchedule(table, date, task, store).None? ==> |r| == |table| + 1
    ensures ScheduledId(r, date, task, store) == Some(Models.NormaliseId(id))
  {
    var row := ScheduledDesign(date, task, store, Models.NormaliseId(id));
    match FindSchedule(table, date, task, store)
    case Some(i) =>
      var r := table[i := row];
      assert FindSchedule(r, date, task, store) == Some(i) by {
        FindScheduleSame(table, r, i, date, task, store);
      }
      r
    case None =>
      var r := table + [row];
      assert FindSchedule(r, date, task, store) == Some(|table|) by {
        FindScheduleAppend(table, row, date, task, store);
      }
      r
  }

  /** Rows with other keys are untouched by an upsert. */
  lemma UpsertScheduleOthers(table: seq<ScheduledDesign>, date: Dates.Date, task: Option<nat>, store: Option<nat>, id: string,
                             k: nat)
    requires k < |table| && !HasKey(table[k], date, task, store)
    ensures k < |UpsertSchedule(table, date, task, store, id)| && UpsertSchedule(table, date, task, store, id)[k] == table[k]
  {
  }

  lemma FindScheduleSame(table: seq<ScheduledDesign>, r: seq<ScheduledDesign>, i: nat, date: Dates.Date, task: Option<nat>,
                         store: Option<nat>)
    requires |r| == |table| && i < |r| && HasKey(r[i], date, task, store)
    requires forall j :: 0 <= j < i ==> r[j] == table[j] && !HasKey(table[j], date, task, store)
    ensures FindSchedule(r, date, task, store) == Some(i)
  {
  }

  lemma FindScheduleAppend(table: seq<ScheduledDesign>, row: ScheduledDesign, date: Dates.Date, task: Option<nat>,
                           store: Option<nat>)
    requires FindSchedule(table, date, task, store).None? && HasKey(row, date, task, store)
    ensures FindSchedule(table + [row], date, task, store) == Some(|table|)
  {
    var r := table + [row];
    assert r[|table|] == row;
    assert forall j :: 0 <= j < |table| ==> r[j] == table[j];
  }

  /** The label of a schedule entry: the task title or "All tasks", then " · " and the store name, if any. */
  function EntryLabel(taskTitle: Option<string>, storeName: Option<string>): (r: string)
    ensures taskTitle.None? ==> Text.StartsWith(r, "All tasks")
    ensures taskTitle.Some? ==> Text.StartsWith(r, taskTitle.value)
    ensures storeName.None? ==> r == taskTitle.GetOr("All tasks")
    ensures storeName.Some? ==> Text.EndsWith(r, " · " + storeName.value)
  {
    var base := taskTitle.GetOr("All tasks");
    match storeName
    case None => base
    case Some(name) =>
      var r := base + " · " + name;
      assert r[..|base|] == base;
      assert r[|r| - |" · " + name|..] == " · " + name;
      r
  }

  // ---------------------------------------------------------------------
  // Design files
  // ---------------------------------------------------------------------

  /** The `defaults` of a `DesignFile.objects.update_or_create(drive_file_id=…)`; `dateAssigned` only when set. */
  datatype DesignFields = DesignFields(
    filename: string, status: DesignStatus, sizeCents: int, ext: string, store: Option<nat>, sourceFolder: string,
    dateAssigned: Option<Dates.Date>)

  /** The row with the fields of `f` set, the others kept. */
  function ApplyFields(d: DesignFile, f: DesignFields, now: int): DesignFile {
    DesignFile(d.id, f.filename, if f.dateAssigned.Some? then f.dateAssigned else d.dateAssigned, f.status, d.driveFileId,
      f.sizeCents, f.ext, f.store, f.sourceFolder, now)
  }

  /** One more than the largest id, for a new row. */
  function NextId(table: seq<DesignFile>): (n: nat)
    ensures forall i :: 0 <= i < |table| ==> table[i].id < n
  {
    if table == [] then 1
    else
      var m := NextId(table[..|table| - 1]);
      var last := table[|table| - 1].id;
      if last < m then m else last + 1
  }

  /** The position of the first design with that Drive id. */
  function FindDesign(table: seq<DesignFile>, fileId: string): (r: Option<nat>)
    ensures r.Some? ==> (r.value < |table| && table[r.value].driveFileId == fileId
      && forall i :: 0 <= i < r.value ==> table[i].driveFileId != fileId)
    ensures r.None? ==> forall i :: 0 <= i < |table| ==> table[i].driveFileId != fileId
  {
    if table == [] then None
    else if table[0].driveFileId == fileId then Some(0)
    else match FindDesign(table[1..], fileId)
      case None => None
      case Some(i) => Some(i + 1)
  }

  /** `DesignFile.objects.update_or_create(drive_file_id=fileId, defaults=f)` at time `now`. */
  function UpsertDesign(table: seq<DesignFile>, fileId: string, f: DesignFields, now: int): (r: seq<DesignFile>)
    ensures FindDesign(table, fileId).Some? ==> |r| == |table|
    ensures FindDesign(table, fileId).None? ==> |r| == |table| + 1
  {
    match FindDesign(table, fileId)
    case Some(i) => table[i := ApplyFields(table[i], f, now)]
    case None =>
      var blank := DesignFile(NextId(table), [], None, Dumped, fileId, 0, [], None, [], now);
      table + [ApplyFields(blank, f, now)]
  }

  /** Designs with other Drive ids are untouched by an upsert. */
  lemma UpsertDesignOthers(table: seq<DesignFile>, fileId: string, f: DesignFields, now: int, k: nat)
    requires k < |table| && table[k].driveFileId != fileId
    ensures k < |UpsertDesign(table, fileId, f, now)| && UpsertDesign(table, fileId, f, now)[k] == table[k]
  {
  }

  /** After the upsert the design with that id carries exactly the given fields. */
  lemma UpsertDesignSets(table: seq<DesignFile>, fileId: string, f: DesignFields, now: int)
    ensures var r := UpsertDesign(table, fileId, f, now);
      exists i :: 0 <= i < |r| && r[i].driveFileId == fileId && r[i].filename == f.filename && r[i].status == f.status
        && r[i].ext == f.ext && r[i].store == f.store && (f.dateAssigned.Some? ==> r[i].dateAssigned == f.dateAssigned)
  {
    var r := UpsertDesign(table, fileId, f, now);
    match FindDesign(table, fileId)
    case Some(i) =>
      assert r[i].driveFileId == fileId;
    case None =>
      assert r[|table|].driveFileId == fileId;
  }

  // ---------------------------------------------------------------------
  // Stores
  // ---------------------------------------------------------------------

  /** The first store with that id. */
  function StoreById(stores: seq<Store>, id: int): (r: Option<Store>)
    ensures r.Some? ==> r.value in stores && r.value.id == id
    ensures r.None? ==> forall i :: 0 <= i < |stores| ==> stores[i].id != id
  {
    if stores == [] then None
    else if stores[0].id == id then Some(stores[0])
    else StoreById(stores[1..], id)
  }

  /** The store's default ordering, `("order", "name", "id")`. */
  predicate StoreKeyLe(a: Store, b: Store) {
    a.order < b.order
    || (a.order == b.order && (Text.StrLess(a.name, b.name) || (a.name == b.name && a.id <= b.id)))
  }

  /** The store ordering compares every pair of stores and is transitive. */
  lemma StoreKeyLeTotal(a: Store, b: Store, c: Store)
    ensures StoreKeyLe(a, b) || StoreKeyLe(b, a)
    ensures StoreKeyLe(a, b) && StoreKeyLe(b, c) ==> StoreKeyLe(a, c)
  {
    Text.StrLessTotal(a.name, b.name);
    if Text.StrLess(a.name, b.name) && Text.StrLess(b.name, c.name) {
      Text.StrLessTransitive(a.name, b.name, c.name);
    }
  }

  /** `name__iexact`: the names are equal ignoring case. */
  predicate NameMatches(s: Store, name: string) {
    Text.Lower(s.name) == Text.Lower(name)
  }

  /**
   * `Store.objects.filter(name__iexact=name).first()`: `.first()` follows the
   * store ordering, so of the stores whose name matches, the least by
   * (order, name, id).
   */
  function StoreByName(stores: seq<Store>, name: string): (r: Option<Store>)
    ensures r.Some? ==> r.value in stores && NameMatches(r.value, name)
    ensures r.None? <==> forall i :: 0 <= i < |stores| ==> !NameMatches(stores[i], name)
    ensures r.Some? ==> forall s :: s in stores && NameMatches(s, name) ==> StoreKeyLe(r.value, s)
  {
    if stores == [] then None
    else
      var rest := StoreByName(stores[1..], name);
      assert forall i :: 1 <= i < |stores| ==> stores[i] == stores[1..][i - 1];
      assert forall s :: s in stores ==> s == stores[0] || s in stores[1..];
      if !NameMatches(stores[0], name) then rest
      else if rest.None? then Some(stores[0])
      else
        StoreKeyLeTotal(stores[0], rest.value, stores[0]);
        if StoreKeyLe(stores[0], rest.value) then
          assert forall s :: s in stores[1..] && NameMatches(s, name) ==> StoreKeyLe(stores[0], s) by {
            forall s | s in stores[1..] && NameMatches(s, name) ensures StoreKeyLe(stores[0], s) {
              StoreKeyLeTotal(stores[0], rest.value, s);
            }
          }
          Some(stores[0])
        else rest
  }
}
