/**
 * `backfill_scheduled_designs`: every scheduled or active design file with a
 * date and a Drive id should have a store-level scheduled design for its
 * (date, store); the missing ones are created. The design wanted for a key is
 * the last one in (date_assigned, updated_at, id) order. The `desired` dict
 * keeps Python's insertion order, so it is an association list here.
 */
module ScheduleSync {
  import opened Wrappers
  import Dates
  import Records
  import Sorting

  /** A `(due_date, store_id)` key; `None` is a store-less entry. */
  type Key = (Dates.Date, Option<nat>)

  /** One `desired[key] = drive_file_id` entry. */
  type Entry = (Key, string)

  // ---------------------------------------------------------------------
  // The design query
  // ---------------------------------------------------------------------

  /** The filters of the query: status, a date, a Drive id, the store and the inclusive date range. */
  predicate Wanted(d: Records.DesignFile, store: Option<nat>, from: Option<Dates.Date>, to: Option<Dates.Date>) {
    && (d.status == Records.Scheduled || d.status == Records.Active)
    && d.dateAssigned.Some?
    && d.driveFileId != []
    && (store.Some? ==> d.store == store)
    && (from.Some? ==> Dates.NotAfter(from.value, d.dateAssigned.value))
    && (to.Some? ==> Dates.NotAfter(d.dateAssigned.value, to.value))
  }

  function Filtered(designs: seq<Records.DesignFile>, store: Option<nat>, from: Option<Dates.Date>, to: Option<Dates.Date>)
    : (r: seq<Records.DesignFile>)
    ensures forall i :: 0 <= i < |r| ==> Wanted(r[i], store, from, to)
    ensures forall d :: d in designs && Wanted(d, store, from, to) ==> d in r
    ensures forall d :: d in r ==> d in designs
  {
    if designs == [] then []
    else
      var rest := Filtered(designs[1..], store, from, to);
      assert forall d :: d in designs ==> d == designs[0] || d in designs[1..];
      if Wanted(designs[0], store, from, to) then [designs[0]] + rest else rest
  }

  /** The date used to order a design; every design the query keeps has one. */
  function SortDate(d: Records.DesignFile): Dates.Date {
    match d.dateAssigned
    case Some(date) => date
    case None => Dates.Date(0, 0, 0)
  }

  /** `order_by("date_assigned", "updated_at", "id")`: `a` does not come after `b`. */
  predicate DesignLe(a: Records.DesignFile, b: Records.DesignFile) {
    Dates.Before(SortDate(a), SortDate(b))
    || (SortDate(a) == SortDate(b)
        && (a.updatedAt < b.updatedAt || (a.updatedAt == b.updatedAt && a.id <= b.id)))
  }

  lemma DesignLeTotalPreorder()
    ensures Sorting.TotalPreorder(DesignLe)
  {
    forall a: Records.DesignFile, b: Records.DesignFile
      ensures DesignLe(a, b) || DesignLe(b, a)
    {
      Dates.BeforeTotal(SortDate(a), SortDate(b));
    }
    forall a: Records.DesignFile, b: Records.DesignFile, c: Records.DesignFile | DesignLe(a, b) && DesignLe(b, c)
      ensures DesignLe(a, c)
    {
      Dates.BeforeTotal(SortDate(a), SortDate(c));
      if Dates.Before(SortDate(a), SortDate(b)) && Dates.Before(SortDate(b), SortDate(c)) {
        Dates.BeforeTransitive(SortDate(a), SortDate(b), SortDate(c));
      }
    }
  }

  /** The query's rows, in its order. */
  function Queryset(designs: seq<Records.DesignFile>, store: Option<nat>, from: Option<Dates.Date>, to: Option<Dates.Date>)
    : seq<Records.DesignFile>
  {
    Sorting.SortBy(Filtered(designs, store, from, to), DesignLe)
  }

  /** Every row of the query is wanted, and every wanted design is a row. */
  lemma QuerysetRows(designs: seq<Records.DesignFile>, store: Option<nat>, from: Option<Dates.Date>, to: Option<Dates.Date>)
    ensures var qs := Queryset(designs, store, from, to);
      (forall i :: 0 <= i < |qs| ==> Wanted(qs[i], store, from, to))
      && (forall d :: d in designs && Wanted(d, store, from, to) <==> d in qs)
  {
    var f := Filtered(designs, store, from, to);
    var qs := Queryset(designs, store, from, to);
    assert multiset(qs) == multiset(f);
    forall d
      ensures d in qs <==> d in f
    {
      assert d in qs <==> d in multiset(qs);
      assert d in f <==> d in multiset(f);
    }
    forall i | 0 <= i < |qs|
      ensures Wanted(qs[i], store, from, to)
    {
      assert qs[i] in f;
      var k :| 0 <= k < |f| && f[k] == qs[i];
    }
  }

  predicate AllDated(qs: seq<Records.DesignFile>) {
    forall i :: 0 <= i < |qs| ==> qs[i].dateAssigned.Some?
  }

  function KeyOf(d: Records.DesignFile): Key
    requires d.dateAssigned.Some?
  {
    (d.dateAssigned.value, d.store)
  }

  // ---------------------------------------------------------------------
  // An insertion-ordered dict
  // ---------------------------------------------------------------------

  /** The position of `k` in the dict, if it is a key. */
  function IndexOfKey(m: seq<Entry>, k: Key): (r: Option<nat>)
    ensures r.Some? ==> r.value < |m| && m[r.value].0 == k
    ensures r.None? ==> forall i :: 0 <= i < |m| ==> m[i].0 != k
  {
    if m == [] then None
    else if m[0].0 == k then Some(0)
    else match IndexOfKey(m[1..], k)
      case None => None
      case Some(i) => Some(i + 1)
  }

  predicate DistinctKeys(m: seq<Entry>) {
    forall i, j :: 0 <= i < j < |m| ==> m[i].0 != m[j].0
  }

  function KeySet(m: seq<Entry>): set<Key> {
    set i | 0 <= i < |m| :: m[i].0
  }

  /** `m.get(k)`. */
  function Lookup(m: seq<Entry>, k: Key): Option<string> {
    match IndexOfKey(m, k)
    case None => None
    case Some(i) => Some(m[i].1)
  }

  /** `m[k] = v`: an existing key keeps its place and takes the new value, a new key goes last. */
  function Put(m: seq<Entry>, k: Key, v: string): seq<Entry> {
    match IndexOfKey(m, k)
    case Some(i) => m[i := (k, v)]
    case None => m + [(k, v)]
  }

  /** Assignment keeps the keys distinct, adds `k`, maps it to `v` and leaves the other keys alone. */
  lemma PutSpec(m: seq<Entry>, k: Key, v: string)
    requires DistinctKeys(m)
    ensures DistinctKeys(Put(m, k, v))
    ensures KeySet(Put(m, k, v)) == KeySet(m) + {k}
    ensures Lookup(Put(m, k, v), k) == Some(v)
    ensures forall k' :: k' != k ==> Lookup(Put(m, k, v), k') == Lookup(m, k')
  {
    var r := Put(m, k, v);
    match IndexOfKey(m, k)
    case Some(i) =>
      assert r[i] == (k, v);
      forall k' | k' != k
        ensures Lookup(r, k') == Lookup(m, k')
      {
        LookupSameKeys(m, r, k');
      }
      assert KeySet(r) == KeySet(m) by {
        forall x | x in KeySet(m) ensures x in KeySet(r) {
          var j :| 0 <= j < |m| && m[j].0 == x;
          assert r[j].0 == x;
        }
      }
    case None =>
      assert r[|m|] == (k, v);
      assert IndexOfKey(r, k) == Some(|m|) by {
        IndexOfKeyAt(r, k, |m|);
      }
      forall k' | k' != k
        ensures Lookup(r, k') == Lookup(m, k')
      {
        IndexOfKeyAppend(m, (k, v), k');
      }
      assert KeySet(r) == KeySet(m) + {k} by {
        forall x | x in KeySet(m) ensures x in KeySet(r) {
          var j :| 0 <= j < |m| && m[j].0 == x;
          assert r[j].0 == x;
        }
      }
  }

  lemma {:induction false} IndexOfKeyAt(m: seq<Entry>, k: Key, i: nat)
    requires i < |m| && m[i].0 == k && forall j :: 0 <= j < i ==> m[j].0 != k
    ensures IndexOfKey(m, k) == Some(i)
  {
    if i > 0 {
      IndexOfKeyAt(m[1..], k, i - 1);
    }
  }

  lemma {:induction false} IndexOfKeyAppend(m: seq<Entry>, e: Entry, k: Key)
    requires e.0 != k
    ensures IndexOfKey(m + [e], k) == IndexOfKey(m, k)
  {
    if m != [] {
      assert (m + [e])[1..] == m[1..] + [e];
      IndexOfKeyAppend(m[1..], e, k);
    }
  }

  /** Two dicts with the same keys at the same places find every key at the same place. */
  lemma {:induction false} LookupSameKeys(m: seq<Entry>, r: seq<Entry>, k: Key)
    requires |m| == |r| && forall j :: 0 <= j < |m| ==> m[j].0 == r[j].0
    requires forall j :: 0 <= j < |m| && m[j].0 == k ==> r[j] == m[j]
    ensures IndexOfKey(r, k) == IndexOfKey(m, k)
    ensures Lookup(r, k) == Lookup(m, k)
  {
    if m != [] {
      LookupSameKeys(m[1..], r[1..], k);
    }
  }

  // ---------------------------------------------------------------------
  // The desired entries
  // ---------------------------------------------------------------------

  /** The dict the first loop builds from the query rows. */
  function Desired(qs: seq<Records.DesignFile>): seq<Entry>
    requires AllDated(qs)
  {
    if qs == [] then []
    else
      var last := qs[|qs| - 1];
      Put(Desired(qs[..|qs| - 1]), KeyOf(last), last.driveFileId)
  }

  /**
   * The dict has one entry per key of the rows, and the value for a key is
   * the Drive id of the LAST row with that key.
   */
  lemma DesiredSpec(qs: seq<Records.DesignFile>)
    requires AllDated(qs)
    ensures DistinctKeys(Desired(qs))
    ensures forall k :: k in KeySet(Desired(qs)) <==> exists i :: 0 <= i < |qs| && KeyOf(qs[i]) == k
    ensures forall j :: 0 <= j < |qs| && (forall i :: j < i < |qs| ==> KeyOf(qs[i]) != KeyOf(qs[j]))
                  ==> Lookup(Desired(qs), KeyOf(qs[j])) == Some(qs[j].driveFileId)
  {
    DesiredDistinct(qs);
    DesiredKeys(qs);
    DesiredLast(qs);
  }

  /** The dict's keys are distinct. */
  lemma {:induction false} DesiredDistinct(qs: seq<Records.DesignFile>)
    requires AllDated(qs)
    ensures DistinctKeys(Desired(qs))
  {
    if qs != [] {
      var init := qs[..|qs| - 1];
      var last := qs[|qs| - 1];
      assert AllDated(init);
      DesiredDistinct(init);
      PutSpec(Desired(init), KeyOf(last), last.driveFileId);
    }
  }

  /** The dict's keys are the rows' keys. */
  lemma {:induction false} DesiredKeys(qs: seq<Records.DesignFile>)
    requires AllDated(qs)
    ensures forall k :: k in KeySet(Desired(qs)) <==> exists i :: 0 <= i < |qs| && KeyOf(qs[i]) == k
  {
    if qs != [] {
      var init := qs[..|qs| - 1];
      var last := qs[|qs| - 1];
      assert AllDated(init);
      DesiredDistinct(init);
      DesiredKeys(init);
      PutSpec(Desired(init), KeyOf(last), last.driveFileId);
      assert KeySet(Desired(qs)) == KeySet(Desired(init)) + {KeyOf(last)};
      forall k
        ensures k in KeySet(Desired(qs)) <==> exists i :: 0 <= i < |qs| && KeyOf(qs[i]) == k
      {
        if k in KeySet(Desired(qs)) && k != KeyOf(last) {
          var i :| 0 <= i < |init| && KeyOf(init[i]) == k;
          assert qs[i] == init[i];
        }
        if exists i :: 0 <= i < |qs| && KeyOf(qs[i]) == k {
          var i :| 0 <= i < |qs| && KeyOf(qs[i]) == k;
          if i < |init| {
            assert init[i] == qs[i];
          }
        }
      }
    }
  }

  /** A row that no later row shares its key with gives its key's value. */
  lemma {:induction false} DesiredLast(qs: seq<Records.DesignFile>)
    requires AllDated(qs)
    ensures forall j :: 0 <= j < |qs| && (forall i :: j < i < |qs| ==> KeyOf(qs[i]) != KeyOf(qs[j]))
                  ==> Lookup(Desired(qs), KeyOf(qs[j])) == Some(qs[j].driveFileId)
  {
    if qs != [] {
      var init := qs[..|qs| - 1];
      var last := qs[|qs| - 1];
      assert AllDated(init);
      DesiredDistinct(init);
      DesiredLast(init);
      PutSpec(Desired(init), KeyOf(last), last.driveFileId);
      forall j | 0 <= j < |qs| && (forall i :: j < i < |qs| ==> KeyOf(qs[i]) != KeyOf(qs[j]))
        ensures Lookup(Desired(qs), KeyOf(qs[j])) == Some(qs[j].driveFileId)
      {
        if j < |init| {
          assert init[j] == qs[j];
          assert forall i :: j < i < |init| ==> init[i] == qs[i];
        }
      }
    }
  }

  /** The first loop: `desired[(date_assigned, store_id)] = drive_file_id` for each row in order. */
  method CollectDesired(qs: seq<Records.DesignFile>) returns (desired: seq<Entry>)
    requires AllDated(qs)
    ensures desired == Desired(qs)
  {
    desired := [];
    var i := 0;
    while i < |qs|
      invariant 0 <= i <= |qs|
      invariant AllDated(qs[..i])
      invariant desired == Desired(qs[..i])
    {
      assert qs[..i + 1][..i] == qs[..i];
      desired := Put(desired, KeyOf(qs[i]), qs[i].driveFileId);
      i := i + 1;
    }
    assert qs[..i] == qs;
  }

  /** The winner for a key is not before any wanted design with the same key in the query order. */
  lemma WinnerIsLatest(designs: seq<Records.DesignFile>, store: Option<nat>, from: Option<Dates.Date>,
                       to: Option<Dates.Date>, j: nat)
    requires var qs := Queryset(designs, store, from, to);
      j < |qs| && forall i :: j < i < |qs| ==> (qs[i].dateAssigned, qs[i].store) != (qs[j].dateAssigned, qs[j].store)
    ensures var qs := Queryset(designs, store, from, to);
      && AllDated(qs)
      && Lookup(Desired(qs), KeyOf(qs[j])) == Some(qs[j].driveFileId)
      && forall d :: d in designs && Wanted(d, store, from, to) && KeyOf(d) == KeyOf(qs[j]) ==> DesignLe(d, qs[j])
  {
    var qs := Queryset(designs, store, from, to);
    QuerysetRows(designs, store, from, to);
    DesiredSpec(qs);
    DesignLeTotalPreorder();
    Sorting.SortBySorted(Filtered(designs, store, from, to), DesignLe);
    forall d | d in designs && Wanted(d, store, from, to) && KeyOf(d) == KeyOf(qs[j])
      ensures DesignLe(d, qs[j])
    {
      LastOfKeyIsGreatest(qs, j, d);
    }
  }

  /** In a sorted list, a row with no later row of the same key is not before any row of that key. */
  lemma LastOfKeyIsGreatest(qs: seq<Records.DesignFile>, j: nat, d: Records.DesignFile)
    requires Sorting.SortedBy(qs, DesignLe) && j < |qs| && d in qs
    requires forall i :: j < i < |qs| ==> (qs[i].dateAssigned, qs[i].store) != (qs[j].dateAssigned, qs[j].store)
    requires (d.dateAssigned, d.store) == (qs[j].dateAssigned, qs[j].store)
    ensures DesignLe(d, qs[j])
  {
    var i :| 0 <= i < |qs| && qs[i] == d;
    assert i <= j;
  }

  // ---------------------------------------------------------------------
  // Existing entries and the rows to create
  // ---------------------------------------------------------------------

  function DesiredDates(m: seq<Entry>): set<Dates.Date> {
    set i | 0 <= i < |m| :: m[i].0.0
  }

  function DesiredStores(m: seq<Entry>): set<nat> {
    set i | 0 <= i < |m| && m[i].0.1.Some? :: m[i].0.1.value
  }

  function StorelessDates(m: seq<Entry>): set<Dates.Date> {
    set i | 0 <= i < |m| && m[i].0.1.None? :: m[i].0.0
  }

  predicate HasStoreless(m: seq<Entry>) {
    exists i :: 0 <= i < |m| && m[i].0.1.None?
  }

  /**
   * The `existing` set: the (date, store) pairs of the task-less entries on a
   * desired date for a desired store and, when a desired key is store-less,
   * the store-less entries on a store-less desired date.
   */
  function Existing(rows: seq<Records.ScheduledDesign>, m: seq<Entry>): set<Key> {
    var withStore := set r | r in rows && r.recurringTask.None? && r.dueDate in DesiredDates(m)
                             && r.store.Some? && r.store.value in DesiredStores(m) :: (r.dueDate, r.store);
    var storeless := set r | r in rows && r.recurringTask.None? && r.dueDate in StorelessDates(m)
                             && r.store.None? :: (r.dueDate, r.store);
    if HasStoreless(m) then withStore + storeless else withStore
  }

  /** A task-less entry with exactly that date and store (store-less against store-less). */
  predicate Present(rows: seq<Records.ScheduledDesign>, k: Key) {
    exists r :: r in rows && Records.HasKey(r, k.0, None, k.1)
  }

  /** For a desired key, membership in `existing` means exactly that its entry is present. */
  lemma ExistingMeaning(rows: seq<Records.ScheduledDesign>, m: seq<Entry>, k: Key)
    requires k in KeySet(m)
    ensures k in Existing(rows, m) <==> Present(rows, k)
  {
    var i :| 0 <= i < |m| && m[i].0 == k;
    assert k.0 in DesiredDates(m);
    if k.1.Some? {
      assert k.1.value in DesiredStores(m);
    } else {
      assert k.0 in StorelessDates(m);
      assert HasStoreless(m);
    }
    if Present(rows, k) {
      var r :| r in rows && Records.HasKey(r, k.0, None, k.1);
      assert (r.dueDate, r.store) == k;
    }
  }

  function NewEntry(e: Entry): Records.ScheduledDesign {
    Records.ScheduledDesign(e.0.0, None, e.0.1, e.1)
  }

  /** The `to_create` list: the desired entries whose key is not in `existing`, in dict order. */
  function ToCreate(m: seq<Entry>, existing: set<Key>): (r: seq<Records.ScheduledDesign>)
    ensures |r| <= |m|
  {
    if m == [] then []
    else
      var rest := ToCreate(m[..|m| - 1], existing);
      var e := m[|m| - 1];
      if e.0 in existing then rest else rest + [NewEntry(e)]
  }

  /** The third loop. */
  method CollectToCreate(m: seq<Entry>, existing: set<Key>) returns (toCreate: seq<Records.ScheduledDesign>)
    ensures toCreate == ToCreate(m, existing)
  {
    toCreate := [];
    var i := 0;
    while i < |m|
      invariant 0 <= i <= |m|
      invariant toCreate == ToCreate(m[..i], existing)
    {
      assert m[..i + 1][..i] == m[..i];
      if m[i].0 !in existing {
        toCreate := toCreate + [NewEntry(m[i])];
      }
      i := i + 1;
    }
    assert m[..i] == m;
  }

  /** The rows to create are exactly the desired entries whose keys are not in `existing`, each once. */
  lemma {:induction false} ToCreateSpec(m: seq<Entry>, existing: set<Key>)
    requires DistinctKeys(m)
    ensures forall i :: 0 <= i < |ToCreate(m, existing)| ==>
      (ToCreate(m, existing)[i].dueDate, ToCreate(m, existing)[i].store) !in existing
      && ToCreate(m, existing)[i].recurringTask.None?
      && (exists j :: 0 <= j < |m| && ToCreate(m, existing)[i] == NewEntry(m[j]))
    ensures forall j :: 0 <= j < |m| && m[j].0 !in existing ==> NewEntry(m[j]) in ToCreate(m, existing)
    ensures forall i, i' :: 0 <= i < i' < |ToCreate(m, existing)| ==>
      (ToCreate(m, existing)[i].dueDate, ToCreate(m, existing)[i].store)
        != (ToCreate(m, existing)[i'].dueDate, ToCreate(m, existing)[i'].store)
  {
    if m != [] {
      var init := m[..|m| - 1];
      var e := m[|m| - 1];
      ToCreateSpec(init, existing);
      var rest := ToCreate(init, existing);
      var r := ToCreate(m, existing);
      forall j | 0 <= j < |init|
        ensures init[j] == m[j] && init[j].0 != e.0
      {
      }
      forall i | 0 <= i < |rest|
        ensures (rest[i].dueDate, rest[i].store) != e.0
      {
        var j :| 0 <= j < |init| && rest[i] == NewEntry(init[j]);
      }
      forall i | 0 <= i < |r|
        ensures exists j :: 0 <= j < |m| && r[i] == NewEntry(m[j])
      {
        if i < |rest| {
          var j :| 0 <= j < |init| && rest[i] == NewEntry(init[j]);
          assert r[i] == NewEntry(m[j]);
        } else {
          assert r[i] == NewEntry(m[|m| - 1]);
        }
      }
    }
  }

  /** Every desired key is present after the missing rows are added. */
  lemma AllKeysPresentAfter(rows: seq<Records.ScheduledDesign>, m: seq<Entry>)
    requires DistinctKeys(m)
    ensures forall k :: k in KeySet(m) ==> Present(rows + ToCreate(m, Existing(rows, m)), k)
  {
    var existing := Existing(rows, m);
    var after := rows + ToCreate(m, existing);
    ToCreateSpec(m, existing);
    forall k | k in KeySet(m)
      ensures Present(after, k)
    {
      var j :| 0 <= j < |m| && m[j].0 == k;
      ExistingMeaning(rows, m, k);
      if k in existing {
        var r :| r in rows && Records.HasKey(r, k.0, None, k.1);
        assert r in after;
      } else {
        assert NewEntry(m[j]) in after;
        assert Records.HasKey(NewEntry(m[j]), k.0, None, k.1);
      }
    }
  }

  /** No created row repeats a key that was already present. */
  lemma CreatedWereMissing(rows: seq<Records.ScheduledDesign>, m: seq<Entry>)
    requires DistinctKeys(m)
    ensures forall r :: r in ToCreate(m, Existing(rows, m)) ==> !Present(rows, (r.dueDate, r.store))
  {
    var existing := Existing(rows, m);
    ToCreateSpec(m, existing);
    forall r | r in ToCreate(m, existing)
      ensures !Present(rows, (r.dueDate, r.store))
    {
      var i :| 0 <= i < |ToCreate(m, existing)| && ToCreate(m, existing)[i] == r;
      var j :| 0 <= j < |m| && r == NewEntry(m[j]);
      ExistingMeaning(rows, m, m[j].0);
    }
  }

  /** With every key present, nothing is left to create: a second backfill creates nothing. */
  lemma {:induction false} NothingWhenAllPresent(rows: seq<Records.ScheduledDesign>, m: seq<Entry>)
    requires forall k :: k in KeySet(m) ==> Present(rows, k)
    ensures ToCreate(m, Existing(rows, m)) == []
  {
    forall i | 0 <= i < |m|
      ensures m[i].0 in Existing(rows, m)
    {
      ExistingMeaning(rows, m, m[i].0);
    }
    NothingMissing(m, Existing(rows, m));
  }

  lemma {:induction false} NothingMissing(m: seq<Entry>, existing: set<Key>)
    requires forall i :: 0 <= i < |m| ==> m[i].0 in existing
    ensures ToCreate(m, existing) == []
  {
    if m != [] {
      NothingMissing(m[..|m| - 1], existing);
    }
  }

  // ---------------------------------------------------------------------
  // The command
  // ---------------------------------------------------------------------

  /** The scheduled designs table. */
  class ScheduleTable {
    var rows: seq<Records.ScheduledDesign>

    constructor(rows: seq<Records.ScheduledDesign>)
      ensures this.rows == rows
    {
      this.rows := rows;
    }

    /**
     * `backfill_scheduled_designs(store=…, date_from=…, date_to=…)`: appends
     * the missing store-level entries (`bulk_create` bypasses `save()`, so
     * their ids are not normalised) and returns how many.
     */
    method Backfill(designs: seq<Records.DesignFile>, store: Option<nat>, from: Option<Dates.Date>, to: Option<Dates.Date>)
      returns (n: nat)
      modifies this
      ensures AllDated(Queryset(designs, store, from, to))
      ensures var m := Desired(Queryset(designs, store, from, to));
        && rows == old(rows) + ToCreate(m, Existing(old(rows), m))
        && n == |ToCreate(m, Existing(old(rows), m))|
      ensures Queryset(designs, store, from, to) == [] ==> n == 0 && rows == old(rows)
    {
      var qs := Queryset(designs, store, from, to);
      QuerysetRows(designs, store, from, to);
      var desired := CollectDesired(qs);
      if desired == [] {
        assert ToCreate(desired, Existing(rows, desired)) == [];
        assert rows + [] == rows;
        return 0;
      }
      var existing := Existing(rows, desired);
      var toCreate := CollectToCreate(desired, existing);
      if toCreate == [] {
        assert rows + [] == rows;
        return 0;
      }
      rows := rows + toCreate;
      n := |toCreate|;
    }
  }

  /**
   * After a backfill: every wanted design's key has a task-less entry, no
   * created entry duplicates one that was there, and a second backfill over
   * the same designs creates nothing.
   */
  lemma BackfillSpec(rows: seq<Records.ScheduledDesign>, designs: seq<Records.DesignFile>, store: Option<nat>,
                     from: Option<Dates.Date>, to: Option<Dates.Date>)
    ensures var qs := Queryset(designs, store, from, to);
      AllDated(qs) &&
      var m := Desired(qs);
      var created := ToCreate(m, Existing(rows, m));
      && (forall d :: d in designs && Wanted(d, store, from, to) ==> Present(rows + created, KeyOf(d)))
      && (forall r :: r in created ==> !Present(rows, (r.dueDate, r.store)))
      && ToCreate(m, Existing(rows + created, m)) == []
  {
    var qs := Queryset(designs, store, from, to);
    QuerysetRows(designs, store, from, to);
    var m := Desired(qs);
    DesiredSpec(qs);
    var after := rows + ToCreate(m, Existing(rows, m));
    AllKeysPresentAfter(rows, m);
    CreatedWereMissing(rows, m);
    forall d | d in designs && Wanted(d, store, from, to)
      ensures Present(after, KeyOf(d))
    {
      var i :| 0 <= i < |qs| && qs[i] == d;
    }
    NothingWhenAllPresent(after, m);
  }
}
