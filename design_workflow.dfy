/**
 * `ensure_emergency_design`: when nothing is scheduled for a day, an
 * already-posted design that is not scheduled on any other day is picked at
 * random, copied into the Scheduled bucket under the day's ISO date, recorded
 * as a RECYCLED design file and made the day's store-level scheduled design.
 */
module DesignWorkflow {
  import opened Wrappers
  import Text
  import Dates
  import Records
  import IntakeDesigns

  /**
   * `_ext_from_design`: the stored extension, stripped, with a leading dot
   * added when missing; when it is blank, the extension of the fallback name,
   * or of the stored filename when the fallback is empty.
   */
  function ExtFromDesign(ext: string, filename: string, fallbackName: string): (r: string)
    ensures r == [] || r[0] == '.'
    ensures Text.Strip(ext) != [] ==> Text.EndsWith(r, Text.Strip(ext)) && |r| <= |Text.Strip(ext)| + 1
    ensures Text.Strip(ext) == [] && fallbackName != [] ==> r == Text.Ext(fallbackName)
    ensures Text.Strip(ext) == [] && fallbackName == [] ==> r == Text.Ext(filename)
  {
    var e := Text.Strip(ext);
    if e != [] then
      if Text.StartsWith(e, ".") then e
      else
        var r := "." + e;
        assert r[|r| - |e|..] == e;
        r
    else
      var name := if fallbackName != [] then fallbackName else filename;
      Text.Ext(name)
  }

  /**
   * An extension as `ExtFromDesign` gives it, stored without its dot as the
   * recycled design does, reads back as the same extension whatever the
   * names are.
   */
  lemma ExtRoundTrip(r: string, filename: string, fallbackName: string)
    requires |r| > 1 && r[0] == '.' && r[1] != '.' && Text.IsStripped(r[1..])
    ensures ExtFromDesign(IntakeDesigns.LStripChar(r, '.'), filename, fallbackName) == r
  {
    var stored := IntakeDesigns.LStripChar(r, '.');
    assert IntakeDesigns.LStripChar(r[1..], '.') == r[1..];
    assert stored == r[1..];
    Text.StripFixesStripped(stored);
    assert !Text.StartsWith(stored, ".");
    assert "." + stored == r;
  }

  /** `_scheduled_ids_excluding(date)`: the design ids scheduled on any other day. */
  function ScheduledIdsExcluding(table: seq<Records.ScheduledDesign>, date: Dates.Date): (ids: set<string>)
    ensures forall i :: 0 <= i < |table| && table[i].dueDate != date ==> table[i].driveDesignFileId in ids
    ensures forall id :: id in ids ==> exists i :: 0 <= i < |table| && table[i].dueDate != date && table[i].driveDesignFileId == id
  {
    set i | 0 <= i < |table| && table[i].dueDate != date :: table[i].driveDesignFileId
  }

  /** The guard: something is scheduled for the day — for that store when one is given, for any store otherwise. */
  predicate AlreadyScheduled(table: seq<Records.ScheduledDesign>, date: Dates.Date, store: Option<nat>) {
    exists i :: 0 <= i < |table| && table[i].dueDate == date && (store.Some? ==> table[i].store == store)
  }

  /** A design that may be recycled. */
  predicate IsCandidate(d: Records.DesignFile, scheduled: set<string>, store: Option<nat>) {
    d.status == Records.Posted && d.driveFileId !in scheduled && (store.Some? ==> d.store == store)
  }

  /** The candidate query, in table order. */
  function Candidates(designs: seq<Records.DesignFile>, scheduled: set<string>, store: Option<nat>)
    : (c: seq<Records.DesignFile>)
    ensures forall i :: 0 <= i < |c| ==> c[i] in designs && IsCandidate(c[i], scheduled, store)
    ensures forall d :: d in designs && IsCandidate(d, scheduled, store) ==> d in c
  {
    if designs == [] then []
    else
      var rest := Candidates(designs[1..], scheduled, store);
      assert forall d :: d in designs ==> d == designs[0] || d in designs[1..];
      if IsCandidate(designs[0], scheduled, store) then [designs[0]] + rest else rest
  }

  /**
   * A candidate is a posted design (of the store, if one is given) whose
   * Drive id is not scheduled on a day other than `date`.
   */
  lemma CandidateMeaning(designs: seq<Records.DesignFile>, table: seq<Records.ScheduledDesign>, date: Dates.Date,
                         store: Option<nat>, d: Records.DesignFile)
    ensures d in Candidates(designs, ScheduledIdsExcluding(table, date), store) <==>
      && d in designs && d.status == Records.Posted && (store.Some? ==> d.store == store)
      && forall i :: 0 <= i < |table| && table[i].driveDesignFileId == d.driveFileId ==> table[i].dueDate == date
  {
    var ids := ScheduledIdsExcluding(table, date);
    var c := Candidates(designs, ids, store);
    if d in c {
      var k :| 0 <= k < |c| && c[k] == d;
    }
  }

  /** The design file created for the copy. */
  function RecycledDesign(id: nat, date: Dates.Date, ext: string, newFileId: string, source: Records.DesignFile,
                          store: Option<nat>, now: int): (d: Records.DesignFile)
    requires Dates.Valid(date) && date.year >= 0
    ensures d.filename == Dates.Iso(date) + ext && d.dateAssigned == Some(date)
    ensures d.status == Records.Recycled && d.driveFileId == newFileId && d.store == store
    ensures d.sizeCents == source.sizeCents && d.sourceFolder == "Scheduled"
    ensures d.ext == IntakeDesigns.LStripChar(ext, '.')
  {
    Records.DesignFile(id, Dates.Iso(date) + ext, Some(date), Records.Recycled, newFileId, source.sizeCents,
      IntakeDesigns.LStripChar(ext, '.'), store, "Scheduled", now)
  }

  datatype Outcome =
    | NoDesign
    | Raised(message: string)
    | Recycled(design: Records.DesignFile, source: Records.DesignFile)

  /** The design files and scheduled designs the procedure reads and writes. */
  class DesignRecords {
    var designs: seq<Records.DesignFile>
    var schedules: seq<Records.ScheduledDesign>

    constructor(designs: seq<Records.DesignFile>, schedules: seq<Records.ScheduledDesign>)
      ensures this.designs == designs && this.schedules == schedules
    {
      this.designs, this.schedules := designs, schedules;
    }

    /**
     * `ensure_emergency_design(date, store)`. The Drive side is given as
     * parameters: `metaName` is the name Drive reports for a file id,
     * `rootId` the configured root folder and `copy` the id of the copy
     * made under a new name (empty when Drive returns none).
     */
    method EnsureEmergencyDesign(date: Dates.Date, store: Option<nat>, metaName: string -> string, rootId: string,
                                 copy: (string, string) -> string, now: int)
      returns (outcome: Outcome)
      requires Dates.Valid(date) && date.year >= 1
      modifies this
      ensures AlreadyScheduled(old(schedules), date, store) ==> outcome == NoDesign
      ensures outcome.Recycled? ==>
        && !AlreadyScheduled(old(schedules), date, store)
        && outcome.source in Candidates(old(designs), ScheduledIdsExcluding(old(schedules), date), store)
        && outcome.design.filename == Dates.Iso(date) + ExtFromDesign(outcome.source.ext, outcome.source.filename,
                                                                     metaName(outcome.source.driveFileId))
        && outcome.design.status == Records.Recycled && outcome.design.dateAssigned == Some(date)
        && outcome.design.store == store && outcome.design.driveFileId != []
        && designs == old(designs) + [outcome.design]
        && schedules == Records.UpsertSchedule(old(schedules), date, None, store, outcome.design.driveFileId)
      ensures !outcome.Recycled? ==> designs == old(designs) && schedules == old(schedules)
      ensures outcome.Raised? <==>
        !AlreadyScheduled(old(schedules), date, store)
        && Candidates(old(designs), ScheduledIdsExcluding(old(schedules), date), store) != [] && rootId == []
      ensures Candidates(old(designs), ScheduledIdsExcluding(old(schedules), date), store) == [] ==> outcome == NoDesign
      ensures outcome.Recycled? ==>
        var e := ExtFromDesign(outcome.source.ext, outcome.source.filename, metaName(outcome.source.driveFileId));
        outcome.design == RecycledDesign(Records.NextId(old(designs)), date, e,
                                         copy(outcome.source.driveFileId, Dates.Iso(date) + e), outcome.source, store, now)
      ensures outcome == NoDesign && !AlreadyScheduled(old(schedules), date, store)
              && Candidates(old(designs), ScheduledIdsExcluding(old(schedules), date), store) != [] ==>
        && rootId != []
        && exists p :: p in Candidates(old(designs), ScheduledIdsExcluding(old(schedules), date), store)
                       && copy(p.driveFileId, Dates.Iso(date) + ExtFromDesign(p.ext, p.filename, metaName(p.driveFileId))) == []
    {
      if exists i :: 0 <= i < |schedules| && schedules[i].dueDate == date && (store.Some? ==> schedules[i].store == store) {
        return NoDesign;
      }
      var scheduledIds := ScheduledIdsExcluding(schedules, date);
      var candidates := Candidates(designs, scheduledIds, store);
      if candidates == [] {
        return NoDesign;
      }
      assert candidates[0] in candidates;
      var picked :| picked in candidates;
      var ext := ExtFromDesign(picked.ext, picked.filename, metaName(picked.driveFileId));
      var newName := Dates.Iso(date) + ext;
      if rootId == [] {
        return Raised("GOOGLE_DRIVE_ROOT_FOLDER_ID is not set.");
      }
      var newFileId := copy(picked.driveFileId, newName);
      if newFileId == [] {
        return NoDesign;
      }
      var design := RecycledDesign(Records.NextId(designs), date, ext, newFileId, picked, store, now);
      designs := designs + [design];
      schedules := Records.UpsertSchedule(schedules, date, None, store, newFileId);
      outcome := Recycled(design, picked);
    }
  }
}
