/**
 * The `intake_designs` command: designs dropped in the Dump_Zone bucket are
 * checked, moved to Scheduled under the next free date (or to Error), and
 * recorded as design files and scheduled designs.
 */
module IntakeDesigns {
  import opened Wrappers
  import Text
  import Dates
  import Models
  import Records

  /** `MAX_BYTES`: 20 MiB. */
  const MaxBytes := 20 * 1024 * 1024

  /** The MIME type Drive gives folders. */
  const FolderMime := "application/vnd.google-apps.folder"

  // ---------------------------------------------------------------------
  // File name helpers
  // ---------------------------------------------------------------------

  /** `DATE_RE` (`20\d{2}-\d{2}-\d{2}`) matches the ten characters at `i`. */
  predicate DateAt(s: string, i: nat) {
    i + 10 <= |s| && s[i] == '2' && s[i + 1] == '0' && Text.IsDigit(s[i + 2]) && Text.IsDigit(s[i + 3])
    && s[i + 4] == '-' && Text.IsDigit(s[i + 5]) && Text.IsDigit(s[i + 6])
    && s[i + 7] == '-' && Text.IsDigit(s[i + 8]) && Text.IsDigit(s[i + 9])
  }

  /** The leftmost match of `DATE_RE` at or after `i`. */
  function FindDate(s: string, i: nat): (r: Option<nat>)
    ensures r.Some? ==> (i <= r.value && DateAt(s, r.value) && forall j :: i <= j < r.value ==> !DateAt(s, j))
    ensures r.None? ==> forall j :: i <= j ==> !DateAt(s, j)
    decreases |s| - i
  {
    if i + 10 > |s| then None
    else if DateAt(s, i) then Some(i)
    else FindDate(s, i + 1)
  }

  /**
   * `_parse_date_from_name`: the first match of `DATE_RE` read as a date;
   * `None` without a match or when that match is not a calendar date.
   */
  function ParseDateFromName(name: string): (r: Option<Dates.Date>)
    ensures r.Some? ==> Dates.Valid(r.value) && r.value.year >= 0
    ensures r.Some? ==> exists i: nat :: DateAt(name, i) && Dates.ParseIso(name[i..i + 10]) == r
    ensures (forall i :: !DateAt(name, i)) ==> r.None?
  {
    match FindDate(name, 0)
    case None => None
    case Some(i) => Dates.ParseIso(name[i..i + 10])
  }

  /** A date is read from a name exactly when some match exists and the first one is a calendar date. */
  lemma ParseDateFirstMatchOnly(name: string, i: nat)
    requires DateAt(name, i) && forall j :: 0 <= j < i ==> !DateAt(name, j)
    ensures ParseDateFromName(name) == Dates.ParseIso(name[i..i + 10])
  {
  }

  /** A first match that is no calendar date hides a later, valid one. */
  lemma InvalidFirstMatch()
    ensures ParseDateFromName("2024-13-01 2024-01-05.png").None?
  {
    var name := "2024-13-01 2024-01-05.png";
    assert DateAt(name, 0);
    assert name[0..10] == "2024-13-01";
    assert name[0..10][5..7] == "13";
    assert Text.DigitsValue("13") == 13 by {
      assert "13"[..1] == "1";
      assert "1"[..0] == "";
    }
  }

  /** The extensions the command accepts, lower-cased. */
  predicate ImageExt(e: string) {
    e == ".png" || e == ".jpg" || e == ".jpeg"
  }

  /** `VALID_MIME`. */
  predicate ImageMime(m: string) {
    m == "image/png" || m == "image/jpeg" || m == "image/jpg"
  }

  /** The lower-cased extension of a file name. */
  function LowerExt(filename: string): string {
    Text.Lower(Text.Ext(filename))
  }

  /** `_is_valid_image`. */
  predicate IsValidImage(mime: string, filename: string) {
    ImageMime(mime) || ImageExt(LowerExt(filename))
  }

  /** `_file_ext`: the file's own image extension, else one from the MIME type, else "". */
  function FileExt(mime: string, filename: string): (e: string)
    ensures ImageExt(LowerExt(filename)) ==> e == LowerExt(filename)
    ensures !ImageExt(LowerExt(filename)) && (mime == "image/jpeg" || mime == "image/jpg") ==> e == ".jpg"
    ensures !ImageExt(LowerExt(filename)) && mime == "image/png" ==> e == ".png"
  {
    var ext := LowerExt(filename);
    if ImageExt(ext) then ext
    else if mime == "image/jpeg" || mime == "image/jpg" then ".jpg"
    else if mime == "image/png" then ".png"
    else ""
  }

  /** A file is a valid image exactly when it gets an image extension, and otherwise it gets none. */
  lemma FileExtIffValid(mime: string, filename: string)
    ensures IsValidImage(mime, filename) <==> ImageExt(FileExt(mime, filename))
    ensures !IsValidImage(mime, filename) <==> FileExt(mime, filename) == []
  {
  }

  /** `s.lstrip(c)`. */
  function LStripChar(s: string, c: char): (r: string)
    ensures r == [] || r[0] != c
    ensures |r| <= |s| && r == s[|s| - |r|..]
  {
    if s != [] && s[0] == c then LStripChar(s[1..], c) else s
  }

  /** 1 MiB. */
  const Mebibyte := 1024 * 1024

  /**
   * `_size_mb`: the size in MiB in hundredths, rounded half away from zero
   * (`ROUND_HALF_UP` of `Decimal`).
   */
  function SizeCents(bytes: int): (c: int)
    ensures bytes >= 0 ==> c * Mebibyte - Mebibyte / 2 <= bytes * 100 < c * Mebibyte + Mebibyte / 2
    ensures bytes < 0 ==> c * Mebibyte - Mebibyte / 2 < bytes * 100 <= c * Mebibyte + Mebibyte / 2
  {
    if bytes >= 0 then RoundHalfUp(bytes) else -(RoundHalfUp(-bytes) as int)
  }

  /** A non-negative size in hundredths of a MiB, rounded to nearest with halves up. */
  function RoundHalfUp(n: nat): (c: nat)
    ensures c * Mebibyte - Mebibyte / 2 <= n * 100 < c * Mebibyte + Mebibyte / 2
  {
    var a := n * 100 + 524288;
    var c := a / 1048576;
    assert a == c * 1048576 + a % 1048576;
    c
  }

  /** The 20 MiB limit is 2000 hundredths of a MiB. */
  lemma MaxBytesCents()
    ensures SizeCents(MaxBytes) == 2000
  {
  }

  // ---------------------------------------------------------------------
  // Store and root folder
  // ---------------------------------------------------------------------

  /**
   * The `--store` option: the store with that primary key when the value
   * is an integer naming one, else the first store, in the store ordering,
   * with that name ignoring case.
   */
  function ResolveStore(value: string, stores: seq<Records.Store>): (r: Option<Records.Store>)
    ensures r.Some? ==> r.value in stores
    ensures Text.ParseInt(value).Some? && (exists i :: 0 <= i < |stores| && stores[i].id == Text.ParseInt(value).value) ==>
              r.Some? && r.value.id == Text.ParseInt(value).value
    ensures (Text.ParseInt(value).None? || forall i :: 0 <= i < |stores| ==> stores[i].id != Text.ParseInt(value).value) ==>
              && (r.None? <==> forall i :: 0 <= i < |stores| ==> !Records.NameMatches(stores[i], Text.Strip(value)))
              && (r.Some? ==> Records.NameMatches(r.value, Text.Strip(value))
                              && forall s :: s in stores && Records.NameMatches(s, Text.Strip(value)) ==> Records.StoreKeyLe(r.value, s))
  {
    var byId := match Text.ParseInt(value)
      case Some(n) => Records.StoreById(stores, n)
      case None => None;
    if byId.Some? then byId else Records.StoreByName(stores, Text.Strip(value))
  }

  /** Two stores whose names differ only in case: the one first in the store ordering is taken, not the older one. */
  lemma ResolveStoreNameTie()
    ensures ResolveStore("shop", [Records.Store(1, "shop", 2, true), Records.Store(2, "SHOP", 1, true)])
            == Some(Records.Store(2, "SHOP", 1, true))
  {
    var stores := [Records.Store(1, "shop", 2, true), Records.Store(2, "SHOP", 1, true)];
    ShopFacts("shop", "SHOP");
    assert Records.NameMatches(stores[0], "shop") && Records.NameMatches(stores[1], "shop");
    assert !Records.StoreKeyLe(stores[0], stores[1]);
  }

  /** The example's name: stripped, not a number, and the same as its upper-case spelling ignoring case. */
  lemma ShopFacts(lower: string, upper: string)
    requires lower == "shop" && upper == "SHOP"
    ensures Text.Strip(lower) == lower && Text.ParseInt(lower).None?
    ensures Text.Lower(lower) == lower && Text.Lower(upper) == lower
  {
    assert Text.Strip(lower) == lower by { Text.StripFixesStripped(lower); }
    assert !Text.IsDigitGroups(lower) by { assert lower[0] == 's'; }
    var l := Text.Lower(upper);
    assert l[0] == 's' && l[1] == 'h' && l[2] == 'o' && l[3] == 'p';
    var m := Text.Lower(lower);
    assert m[0] == 's' && m[1] == 'h' && m[2] == 'o' && m[3] == 'p';
  }

  /** `_get_root_id`: the settings row's id when set, else the setting, else the environment. */
  function RootId(rowRootId: Option<string>, setting: string, env: string): (r: string)
    ensures rowRootId.Some? && rowRootId.value != [] ==> r == rowRootId.value
    ensures (rowRootId.None? || rowRootId.value == []) && setting != [] ==> r == setting
    ensures (rowRootId.None? || rowRootId.value == []) && setting == [] ==> r == env
  {
    if rowRootId.Some? && rowRootId.value != [] then rowRootId.value
    else if setting != [] then setting
    else env
  }

  // ---------------------------------------------------------------------
  // The first free date
  // ---------------------------------------------------------------------

  /** The date each name gives. */
  function NameDates(names: seq<string>): (ds: seq<Option<Dates.Date>>)
    ensures |ds| == |names|
    ensures forall i :: 0 <= i < |names| ==> ds[i] == ParseDateFromName(names[i])
    ensures forall i :: 0 <= i < |ds| && ds[i].Some? ==> Dates.Valid(ds[i].value) && ds[i].value.year >= 0
  {
    seq(|names|, i requires 0 <= i < |names| => ParseDateFromName(names[i]))
  }

  /** The latest date so far, after a name giving `found`: `found > latest_date` replaces it. */
  function NextLatest(latest: Option<Dates.Date>, found: Option<Dates.Date>): Option<Dates.Date> {
    if found.Some? && (latest.None? || Dates.Before(latest.value, found.value)) then found else latest
  }

  /** One more date keeps `latest` the latest of the dates so far. */
  lemma LatestStep(ds: seq<Option<Dates.Date>>, k: nat, latest: Option<Dates.Date>)
    requires k < |ds| && LatestOf(ds, k, latest)
    requires ds[k].Some? ==> Dates.Valid(ds[k].value) && ds[k].value.year >= 0
    ensures LatestOf(ds, k + 1, NextLatest(latest, ds[k]))
  {
    var found := ds[k];
    if found.Some? && latest.Some? {
      Dates.BeforeTotal(latest.value, found.value);
      if Dates.Before(latest.value, found.value) {
        forall i | 0 <= i < k && ds[i].Some?
          ensures Dates.NotAfter(ds[i].value, found.value)
        {
          if ds[i].value != latest.value {
            Dates.BeforeTransitive(ds[i].value, latest.value, found.value);
          }
        }
      }
    }
  }

  /** The loop over the Scheduled names: the latest date any of them gives. */
  method LatestDate(names: seq<string>) returns (latest: Option<Dates.Date>)
    ensures LatestOf(NameDates(names), |names|, latest)
  {
    ghost var ds := NameDates(names);
    latest := None;
    var k := 0;
    while k < |names|
      invariant 0 <= k <= |names| && LatestOf(ds, k, latest)
    {
      var found := ParseDateFromName(names[k]);
      LatestStep(ds, k, latest);
      if found.Some? && (latest.None? || Dates.Before(latest.value, found.value)) {
        latest := found;
      }
      k := k + 1;
    }
  }

  /** `next_date` before the loop: the day after the latest scheduled date, or today. */
  function FirstDate(latest: Option<Dates.Date>, today: Dates.Date): (d: Dates.Date)
    requires latest.Some? ==> Dates.Valid(latest.value) && latest.value.year >= 0
    requires Dates.Valid(today) && today.year >= 1
    ensures Dates.Valid(d) && d.year >= 0
    ensures latest.Some? ==> Dates.Before(latest.value, d)
  {
    if latest.Some? then Dates.NextDay(latest.value) else today
  }

  // ---------------------------------------------------------------------
  // The file loop
  // ---------------------------------------------------------------------

  /** A file listed in Dump_Zone: its id, name, MIME type and `int(size or 0)`. */
  datatype DriveFile = DriveFile(id: string, name: string, mimeType: string, sizeBytes: int)

  /** What happens to one file. */
  datatype Disposition = SkipFolder | ToError | ToScheduled

  /** Folders are skipped; invalid types and files over 20 MiB go to Error; the rest are scheduled. */
  function Classify(f: DriveFile): (d: Disposition)
    ensures d == ToScheduled <==> f.mimeType != FolderMime && IsValidImage(f.mimeType, f.name) && f.sizeBytes <= MaxBytes
  {
    if f.mimeType == FolderMime then SkipFolder
    else if !IsValidImage(f.mimeType, f.name) then ToError
    else if f.sizeBytes > MaxBytes then ToError
    else ToScheduled
  }

  /** The bucket a file is moved to. */
  datatype Bucket = ErrorBucket | ScheduledBucket

  /** A Drive move of a file into a bucket, renaming it when `newName` is set. */
  datatype Move = Move(fileId: string, target: Bucket, newName: Option<string>)

  /** The intake decision for one file: nothing, to Error, or scheduled on a date under a new name. */
  datatype Action = Skip | Reject(file: DriveFile) | Assign(file: DriveFile, date: Dates.Date, newName: string)

  /** `f"{next_date.isoformat()}{ext}"`. */
  function NewName(date: Dates.Date, f: DriveFile): string
    requires Dates.Valid(date) && date.year >= 0
  {
    Dates.Iso(date) + FileExt(f.mimeType, f.name)
  }

  /** The action for file `f` when `next` is the next free date. */
  function ActionFor(f: DriveFile, next: Dates.Date): Action
    requires Dates.Valid(next) && next.year >= 0
  {
    match Classify(f)
    case SkipFolder => Skip
    case ToError => Reject(f)
    case ToScheduled => Assign(f, next, NewName(next, f))
  }

  /** The next free date after file `f`: only a scheduled file uses one up. */
  function DateAfter(f: DriveFile, next: Dates.Date): (d: Dates.Date)
    requires Dates.Valid(next) && next.year >= 0
    ensures Dates.Valid(d) && d.year >= 0
  {
    if Classify(f) == ToScheduled then Dates.NextDay(next) else next
  }

  /** The actions for the files, handing out dates from `next` on to the scheduled ones. */
  function Plan(files: seq<DriveFile>, next: Dates.Date): (plan: seq<Action>)
    requires Dates.Valid(next) && next.year >= 0
    ensures |plan| == |files|
  {
    if files == [] then [] else [ActionFor(files[0], next)] + Plan(files[1..], DateAfter(files[0], next))
  }

  /** The number of files that are scheduled. */
  function ScheduledCount(files: seq<DriveFile>): nat {
    if files == [] then 0 else (if Classify(files[0]) == ToScheduled then 1 else 0) + ScheduledCount(files[1..])
  }

  /** Counting from the next day is counting one more day. */
  lemma {:induction false} AddDaysShift(d: Dates.Date, n: nat)
    requires Dates.Valid(d)
    ensures Dates.AddDays(Dates.NextDay(d), n) == Dates.AddDays(d, n + 1)
  {
    if n > 0 {
      AddDaysShift(d, n - 1);
    }
  }

  /** The first file's count, then the rest of the prefix. */
  lemma CountPrefix(files: seq<DriveFile>, i: nat)
    requires 0 < i <= |files|
    ensures ScheduledCount(files[..i]) == (if Classify(files[0]) == ToScheduled then 1 else 0) + ScheduledCount(files[1..][..i - 1])
  {
    assert files[..i][1..] == files[1..][..i - 1];
  }

  /** Action `i` of a plan is the action file `i` gets on the date `ScheduledCount(files[..i])` days on. */
  /** Starting a day later and counting `c` days is counting one day more. */
  lemma ShiftBy(next: Dates.Date, later: bool, c: nat, total: nat)
    requires Dates.Valid(next) && total == (if later then 1 else 0) + c
    ensures Dates.AddDays(if later then Dates.NextDay(next) else next, c) == Dates.AddDays(next, total)
  {
    if later {
      AddDaysShift(next, c);
    }
  }

  /** Scheduling from the date after the first file is scheduling from the prefix count. */
  lemma ShiftAfterFirst(files: seq<DriveFile>, next: Dates.Date, i: nat)
    requires Dates.Valid(next) && next.year >= 0 && 0 < i <= |files|
    ensures Dates.AddDays(DateAfter(files[0], next), ScheduledCount(files[1..][..i - 1]))
         == Dates.AddDays(next, ScheduledCount(files[..i]))
  {
    CountPrefix(files, i);
    ShiftBy(next, Classify(files[0]) == ToScheduled, ScheduledCount(files[1..][..i - 1]), ScheduledCount(files[..i]));
  }


  lemma {:induction false} PlanAt(files: seq<DriveFile>, next: Dates.Date, i: nat)
    requires Dates.Valid(next) && next.year >= 0 && i < |files|
    ensures Plan(files, next)[i] == ActionFor(files[i], Dates.AddDays(next, ScheduledCount(files[..i])))
  {
    if i == 0 {
      assert files[..0] == [];
    } else {
      var rest := files[1..];
      var step := DateAfter(files[0], next);
      assert Plan(files, next)[i] == Plan(rest, step)[i - 1] by {
        assert Plan(files, next) == [ActionFor(files[0], next)] + Plan(rest, step);
      }
      PlanAt(rest, step, i - 1);
      ShiftAfterFirst(files, next, i);
      assert rest[i - 1] == files[i];
    }
  }


  /**
   * File `i` is scheduled exactly when it is accepted, on the date `m` days
   * after the first, where `m` counts the accepted files before it: dates
   * are consecutive and folders and rejected files use none. It is renamed
   * to that date in ISO form with its image extension.
   */
  lemma PlanDates(files: seq<DriveFile>, next: Dates.Date, i: nat)
    requires Dates.Valid(next) && next.year >= 0 && i < |files|
    ensures Plan(files, next)[i].Skip? <==> files[i].mimeType == FolderMime
    ensures Plan(files, next)[i].Reject? <==> Classify(files[i]) == ToError
    ensures Plan(files, next)[i].Reject? ==> Plan(files, next)[i].file == files[i]
    ensures Plan(files, next)[i].Assign? ==>
      var date := Dates.AddDays(next, ScheduledCount(files[..i]));
      Plan(files, next)[i] == Assign(files[i], date, Dates.Iso(date) + FileExt(files[i].mimeType, files[i].name))
  {
    PlanAt(files, next, i);
  }

  /** Two different scheduled files get different dates, the earlier file the earlier date. */
  lemma AssignedDatesIncrease(files: seq<DriveFile>, next: Dates.Date, i: nat, j: nat)
    requires Dates.Valid(next) && next.year >= 0 && i < j < |files|
    requires Classify(files[i]) == ToScheduled && Classify(files[j]) == ToScheduled
    ensures Plan(files, next)[i].Assign? && Plan(files, next)[j].Assign?
    ensures Dates.Before(Plan(files, next)[i].date, Plan(files, next)[j].date)
  {
    PlanAt(files, next, i);
    PlanAt(files, next, j);
    CountGrows(files, i, j);
    Dates.AddDaysMonotone(next, ScheduledCount(files[..i]), ScheduledCount(files[..j]));
  }

  /** A scheduled file counts towards every later prefix. */
  lemma CountGrows(files: seq<DriveFile>, i: nat, j: nat)
    requires i < j <= |files| && Classify(files[i]) == ToScheduled
    ensures ScheduledCount(files[..i]) < ScheduledCount(files[..j])
  {
    CountSnoc(files, i);
    CountMono(files, i + 1, j);
  }

  /** The count of a prefix one longer adds the weight of the next file. */
  lemma CountSnoc(files: seq<DriveFile>, k: nat)
    requires k < |files|
    ensures ScheduledCount(files[..k + 1]) == ScheduledCount(files[..k]) + Weight(files[k])
  {
    assert files[..k + 1] == files[..k] + [files[k]];
    CountAppend(files[..k], files[k]);
  }

  /** Longer prefixes count no fewer files. */
  lemma {:induction false} CountMono(files: seq<DriveFile>, k: nat, j: nat)
    requires k <= j <= |files|
    ensures ScheduledCount(files[..k]) <= ScheduledCount(files[..j])
    decreases j - k
  {
    if k < j {
      CountSnoc(files, k);
      CountMono(files, k + 1, j);
    }
  }

  /** One scheduled file counts one. */
  function Weight(f: DriveFile): nat {
    if Classify(f) == ToScheduled then 1 else 0
  }

  /** Counting a list with one more file at the end adds that file's weight. */
  lemma {:induction false} CountAppend(s: seq<DriveFile>, f: DriveFile)
    ensures ScheduledCount(s + [f]) == ScheduledCount(s) + Weight(f)
  {
    if s == [] {
      assert s + [f] == [f];
    } else {
      assert (s + [f])[1..] == s[1..] + [f];
      CountAppend(s[1..], f);
    }
  }

  /** The design-file fields a rejected file is recorded with. */
  function ErrorFields(f: DriveFile, store: Option<nat>): Records.DesignFields {
    Records.DesignFields(f.name, Records.Error, SizeCents(f.sizeBytes), LStripChar(FileExt(f.mimeType, f.name), '.'),
      store, "Error", None)
  }

  /** The design-file fields a scheduled file is recorded with. */
  function ScheduledFields(f: DriveFile, date: Dates.Date, newName: string, store: Option<nat>): Records.DesignFields {
    Records.DesignFields(newName, Records.Scheduled, SizeCents(f.sizeBytes), LStripChar(FileExt(f.mimeType, f.name), '.'),
      store, "Scheduled", Some(date))
  }

  /** The design files after one action, at time `now`. */
  function DesignStep(table: seq<Records.DesignFile>, a: Action, store: Option<nat>, now: int): seq<Records.DesignFile> {
    match a
    case Skip => table
    case Reject(f) => Records.UpsertDesign(table, f.id, ErrorFields(f, store), now)
    case Assign(f, date, newName) => Records.UpsertDesign(table, f.id, ScheduledFields(f, date, newName, store), now)
  }

  /** The design files after the actions, at time `now`. */
  function DesignsAfter(table: seq<Records.DesignFile>, plan: seq<Action>, store: Option<nat>, now: int)
    : seq<Records.DesignFile>
    decreases |plan|
  {
    if plan == [] then table else DesignsAfter(DesignStep(table, plan[0], store, now), plan[1..], store, now)
  }

  /** The scheduled designs after one action: a scheduled file becomes the store's entry for all tasks on its date. */
  function ScheduleStep(table: seq<Records.ScheduledDesign>, a: Action, store: Option<nat>): seq<Records.ScheduledDesign> {
    if a.Assign? then Records.UpsertSchedule(table, a.date, None, store, a.file.id) else table
  }

  /** The scheduled designs after the actions. */
  function SchedulesAfter(table: seq<Records.ScheduledDesign>, plan: seq<Action>, store: Option<nat>)
    : seq<Records.ScheduledDesign>
    decreases |plan|
  {
    if plan == [] then table else SchedulesAfter(ScheduleStep(table, plan[0], store), plan[1..], store)
  }

  /** The Drive move of one action. */
  function MoveOf(a: Action): (m: seq<Move>)
    ensures |m| == if a.Skip? then 0 else 1
  {
    match a
    case Skip => []
    case Reject(f) => [Move(f.id, ErrorBucket, None)]
    case Assign(f, _, newName) => [Move(f.id, ScheduledBucket, Some(newName))]
  }

  /** The Drive moves of the actions, in order. */
  function Moves(plan: seq<Action>): seq<Move> {
    if plan == [] then [] else MoveOf(plan[0]) + Moves(plan[1..])
  }

  /** The number of folders among the actions. */
  function SkipCount(plan: seq<Action>): (n: nat)
    ensures n <= |plan|
  {
    if plan == [] then 0 else (if plan[0].Skip? then 1 else 0) + SkipCount(plan[1..])
  }

  /** Every file but the folders is moved, once. */
  lemma {:induction false} MovesCount(plan: seq<Action>)
    ensures |Moves(plan)| == |plan| - SkipCount(plan)
  {
    if plan != [] {
      MovesCount(plan[1..]);
    }
  }

  /** Every scheduled file leaves the store's entry for its date naming it. */
  lemma ScheduledEntryNamesFile(table: seq<Records.ScheduledDesign>, a: Action, store: Option<nat>)
    requires a.Assign?
    ensures Records.ScheduledId(ScheduleStep(table, a, store), a.date, None, store) == Some(Models.NormaliseId(a.file.id))
  {
  }

  /** The plan from file `k` on starts with the action for file `k`. */
  lemma PlanUnfold(dump: seq<DriveFile>, k: nat, next: Dates.Date)
    requires k < |dump| && Dates.Valid(next) && next.year >= 0
    ensures Plan(dump[k..], next) == [ActionFor(dump[k], next)] + Plan(dump[k + 1..], DateAfter(dump[k], next))
  {
    assert dump[k..][1..] == dump[k + 1..];
  }

  /** Applying the action for file `k` leaves the rest of the plan to reach the same design files. */
  lemma DesignsStep(dump: seq<DriveFile>, k: nat, next: Dates.Date, before: seq<Records.DesignFile>,
                    after: seq<Records.DesignFile>, sid: Option<nat>, now: int, goal: seq<Records.DesignFile>)
    requires k < |dump| && Dates.Valid(next) && next.year >= 0
    requires goal == DesignsAfter(before, Plan(dump[k..], next), sid, now)
    requires after == DesignStep(before, ActionFor(dump[k], next), sid, now)
    ensures goal == DesignsAfter(after, Plan(dump[k + 1..], DateAfter(dump[k], next)), sid, now)
  {
    PlanUnfold(dump, k, next);
    var p := [ActionFor(dump[k], next)] + Plan(dump[k + 1..], DateAfter(dump[k], next));
    assert p[1..] == Plan(dump[k + 1..], DateAfter(dump[k], next));
  }

  /** The same for the scheduled designs. */
  lemma SchedulesStep(dump: seq<DriveFile>, k: nat, next: Dates.Date, before: seq<Records.ScheduledDesign>,
                      after: seq<Records.ScheduledDesign>, sid: Option<nat>, goal: seq<Records.ScheduledDesign>)
    requires k < |dump| && Dates.Valid(next) && next.year >= 0
    requires goal == SchedulesAfter(before, Plan(dump[k..], next), sid)
    requires after == ScheduleStep(before, ActionFor(dump[k], next), sid)
    ensures goal == SchedulesAfter(after, Plan(dump[k + 1..], DateAfter(dump[k], next)), sid)
  {
    PlanUnfold(dump, k, next);
    var p := [ActionFor(dump[k], next)] + Plan(dump[k + 1..], DateAfter(dump[k], next));
    assert p[1..] == Plan(dump[k + 1..], DateAfter(dump[k], next));
  }

  /** The same for the Drive moves. */
  lemma MovesStep(dump: seq<DriveFile>, k: nat, next: Dates.Date, before: seq<Move>, after: seq<Move>, goal: seq<Move>)
    requires k < |dump| && Dates.Valid(next) && next.year >= 0
    requires goal == before + Moves(Plan(dump[k..], next))
    requires after == before + MoveOf(ActionFor(dump[k], next))
    ensures goal == after + Moves(Plan(dump[k + 1..], DateAfter(dump[k], next)))
  {
    PlanUnfold(dump, k, next);
    var p := [ActionFor(dump[k], next)] + Plan(dump[k + 1..], DateAfter(dump[k], next));
    assert p[1..] == Plan(dump[k + 1..], DateAfter(dump[k], next));
    AppendAssoc(before, MoveOf(ActionFor(dump[k], next)), Moves(p[1..]));
  }

  lemma AppendAssoc<T>(a: seq<T>, b: seq<T>, c: seq<T>)
    ensures (a + b) + c == a + (b + c)
  {
  }

  /** How a run of the command ends. */
  datatype Outcome = StoreNotFound | RootNotSet | NoNewFiles | Completed

  /** The records and the Drive side the command changes. */
  class Intake {
    var designs: seq<Records.DesignFile>
    var schedules: seq<Records.ScheduledDesign>
    var moves: seq<Move>

    constructor(designs: seq<Records.DesignFile>, schedules: seq<Records.ScheduledDesign>)
      ensures this.designs == designs && this.schedules == schedules && moves == []
    {
      this.designs, this.schedules, moves := designs, schedules, [];
    }

    /** One file of the loop: the move (none on a dry run), the design file and, unless dry, the scheduled design. */
    method Apply(a: Action, store: Option<nat>, dryRun: bool, now: int)
      modifies this
      ensures designs == DesignStep(old(designs), a, store, now)
      ensures schedules == if dryRun then old(schedules) else ScheduleStep(old(schedules), a, store)
      ensures moves == if dryRun then old(moves) else old(moves) + MoveOf(a)
    {
      designs := DesignStep(designs, a, store, now);
      if !dryRun {
        schedules := ScheduleStep(schedules, a, store);
        moves := moves + MoveOf(a);
      }
    }

    /** The loop over the Dump_Zone files, handing out dates from `first` on. */
    method ProcessAll(dump: seq<DriveFile>, first: Dates.Date, sid: Option<nat>, dryRun: bool, now: int)
      requires Dates.Valid(first) && first.year >= 0
      modifies this
      ensures designs == DesignsAfter(old(designs), Plan(dump, first), sid, now)
      ensures schedules == if dryRun then old(schedules) else SchedulesAfter(old(schedules), Plan(dump, first), sid)
      ensures moves == old(moves) + if dryRun then [] else Moves(Plan(dump, first))
    {
      ghost var finalDesigns := DesignsAfter(designs, Plan(dump, first), sid, now);
      ghost var finalSchedules := SchedulesAfter(schedules, Plan(dump, first), sid);
      ghost var finalMoves := moves + Moves(Plan(dump, first));
      var next := first;
      var k := 0;
      assert dump[k..] == dump;
      while k < |dump|
        invariant 0 <= k <= |dump| && Dates.Valid(next) && next.year >= 0
        invariant finalDesigns == DesignsAfter(designs, Plan(dump[k..], next), sid, now)
        invariant dryRun ==> schedules == old(schedules) && moves == old(moves)
        invariant !dryRun ==> finalSchedules == SchedulesAfter(schedules, Plan(dump[k..], next), sid)
        invariant !dryRun ==> finalMoves == moves + Moves(Plan(dump[k..], next))
      {
        var a := ActionFor(dump[k], next);
        ghost var designs0, schedules0, moves0 := designs, schedules, moves;
        Apply(a, sid, dryRun, now);
        DesignsStep(dump, k, next, designs0, designs, sid, now, finalDesigns);
        if !dryRun {
          SchedulesStep(dump, k, next, schedules0, schedules, sid, finalSchedules);
          MovesStep(dump, k, next, moves0, moves, finalMoves);
        }
        next := DateAfter(dump[k], next);
        k := k + 1;
      }
      assert dump[k..] == [];
      assert moves + [] == moves;
    }

    /**
     * `Command.handle`, from the store lookup on. `latest` is the latest
     * date a Scheduled file's name gives and `first` the date handed to the
     * first accepted file. On a dry run no file is moved and no scheduled
     * design is written, but the design files are still recorded.
     */
    method Handle(storeValue: string, stores: seq<Records.Store>, rootId: string,
                  scheduledNames: seq<string>, dump: seq<DriveFile>, today: Dates.Date, dryRun: bool, now: int)
      returns (outcome: Outcome, store: Option<Records.Store>, latest: Option<Dates.Date>, first: Dates.Date)
      requires Dates.Valid(today) && today.year >= 1
      modifies this
      ensures outcome == StoreNotFound <==> storeValue != [] && ResolveStore(storeValue, stores).None?
      ensures store == (if storeValue == [] then None else ResolveStore(storeValue, stores))
      ensures outcome == RootNotSet <==> outcome != StoreNotFound && rootId == []
      ensures outcome == NoNewFiles <==> outcome != StoreNotFound && rootId != [] && dump == []
      ensures outcome != Completed ==> designs == old(designs) && schedules == old(schedules) && moves == old(moves)
      ensures outcome == Completed ==> LatestOf(NameDates(scheduledNames), |scheduledNames|, latest) && first == FirstDate(latest, today)
      ensures outcome == Completed ==>
        var sid := if store.Some? then Some(store.value.id) else None;
        designs == DesignsAfter(old(designs), Plan(dump, first), sid, now)
        && schedules == (if dryRun then old(schedules) else SchedulesAfter(old(schedules), Plan(dump, first), sid))
        && moves == old(moves) + (if dryRun then [] else Moves(Plan(dump, first)))
    {
      first, latest := today, None;
      store := None;
      if storeValue != [] {
        store := ResolveStore(storeValue, stores);
        if store.None? {
          return StoreNotFound, store, latest, first;
        }
      }
      if rootId == [] {
        return RootNotSet, store, latest, first;
      }
      latest := LatestDate(scheduledNames);
      first := FirstDate(latest, today);
      if dump == [] {
        return NoNewFiles, store, latest, first;
      }
      var sid := if store.Some? then Some(store.value.id) else None;
      ProcessAll(dump, first, sid, dryRun, now);
      outcome := Completed;
    }
  }

  /** `latest` is the latest of the first `k` dates, `None` when all of them are `None`. */
  ghost predicate LatestOf(ds: seq<Option<Dates.Date>>, k: nat, latest: Option<Dates.Date>)
    requires k <= |ds|
  {
    (latest.None? <==> forall i :: 0 <= i < k ==> ds[i].None?)
    && (latest.Some? ==>
          Dates.Valid(latest.value) && latest.value.year >= 0
          && (exists i :: 0 <= i < k && ds[i] == latest)
          && (forall i :: 0 <= i < k && ds[i].Some? ==> Dates.NotAfter(ds[i].value, latest.value)))
  }
}
