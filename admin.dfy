/**
 * The admin screens' logic: the schedule calendar's month parameter and
 * month navigation, the schedule form's remove-or-save POST, the calendar's
 * entries per day, the "Move up"/"Move down" actions on mockup templates and
 * the "Apply today's scheduled design" action.
 */
module Admin {
  import opened Wrappers
  import Text
  import Dates
  import Records
  import Models
  import Views

  // ---------------------------------------------------------------------
  // Months
  // ---------------------------------------------------------------------

  /** `datetime.date` accepts years 1 to 9999. */
  predicate DateYear(y: int) {
    1 <= y <= 9999
  }

  /**
   * The calendar's month: the 1st of the `YYYY-MM` month parameter, or of
   * today's month without one. `None` is the `ValueError` the view raises
   * for a parameter that is not two integers separated by "-" or not a month.
   */
  function CurrentMonth(monthParam: Option<string>, today: Dates.Date): (r: Option<Dates.Date>)
    requires Dates.Valid(today)
    ensures monthParam.None? || monthParam.value == [] ==> r == Some(Dates.FirstOfMonth(today.year, today.month))
    ensures r.Some? ==> Dates.Valid(r.value) && r.value.day == 1
    ensures r.Some? && monthParam.Some? && monthParam.value != [] ==> DateYear(r.value.year)
  {
    if monthParam.None? || monthParam.value == [] then Some(Dates.FirstOfMonth(today.year, today.month))
    else
      var parts := Text.Split(monthParam.value, '-');
      if |parts| != 2 then None
      else match (Text.ParseInt(parts[0]), Text.ParseInt(parts[1]))
        case (Some(year), Some(month)) =>
          if DateYear(year) && 1 <= month <= 12 then Some(Dates.FirstOfMonth(year, month)) else None
        case _ => None
  }

  /** `f"{d.year}-{d.month:02d}"`, the month value the page links with. */
  function MonthValue(d: Dates.Date): string
    requires Dates.Valid(d)
  {
    Text.IntToString(d.year) + "-" + Text.ZeroPad(d.month, 2)
  }

  /** A month value the page produced reads back as the 1st of that month. */
  lemma MonthValueRoundTrip(d: Dates.Date, today: Dates.Date)
    requires Dates.Valid(d) && DateYear(d.year) && Dates.Valid(today)
    ensures CurrentMonth(Some(MonthValue(d)), today) == Some(Dates.FirstOfMonth(d.year, d.month))
  {
    var y := Text.IntToString(d.year);
    var m := Text.ZeroPad(d.month, 2);
    MonthValueSplits(d);
    Text.ParseIntOfString(d.year);
    MonthDigits(d.month);
    MonthOfParts(MonthValue(d), today, y, m, d.year, d.month);
  }

  /** The month value splits at its dash into the year and the padded month. */
  lemma MonthValueSplits(d: Dates.Date)
    requires Dates.Valid(d) && DateYear(d.year)
    ensures MonthValue(d) != [] && Text.Split(MonthValue(d), '-') == [Text.IntToString(d.year), Text.ZeroPad(d.month, 2)]
  {
    var y := Text.IntToString(d.year);
    var m := Text.ZeroPad(d.month, 2);
    assert '-' !in y by { assert y == Text.NatToString(d.year); }
    assert '-' !in m;
    assert Text.Join([y, m], ['-']) == MonthValue(d);
    Text.SplitJoin([y, m], '-');
  }

  /** A padded month number parses back to the month. */
  lemma MonthDigits(month: nat)
    requires 1 <= month <= 12
    ensures Text.ParseInt(Text.ZeroPad(month, 2)) == Some(month)
  {
    Text.ZeroPadValue(month, 2);
    Text.ParseIntOfDigits(Text.ZeroPad(month, 2));
  }

  /** A parameter that splits into a year and a month in range is the 1st of that month. */
  lemma MonthOfParts(s: string, today: Dates.Date, ys: string, ms: string, year: int, month: int)
    requires Dates.Valid(today) && s != [] && Text.Split(s, '-') == [ys, ms]
    requires Text.ParseInt(ys) == Some(year) && Text.ParseInt(ms) == Some(month)
    requires DateYear(year) && 1 <= month <= 12
    ensures CurrentMonth(Some(s), today) == Some(Dates.FirstOfMonth(year, month))
  {
  }

  /** A parameter with no "-" is not a month. */
  lemma MonthWithoutDash(s: string, today: Dates.Date)
    requires s != [] && '-' !in s && Dates.Valid(today)
    ensures CurrentMonth(Some(s), today).None?
  {
    assert Text.IndexOf(s, '-').None?;
  }

  /** `prev_month`: the day before the 1st, moved to the 1st of its month. */
  function PrevMonth(d: Dates.Date): (r: Dates.Date)
    requires Dates.Valid(d)
    ensures Dates.Valid(r)
    ensures r == if d.month == 1 then Dates.Date(d.year - 1, 12, 1) else Dates.Date(d.year, d.month - 1, 1)
  {
    var p := Dates.PrevDay(Dates.Date(d.year, d.month, 1));
    Dates.Date(p.year, p.month, 1)
  }

  /** `next_month`: four days after the 28th, moved to the 1st of its month. */
  function NextMonth(d: Dates.Date): (r: Dates.Date)
    requires Dates.Valid(d)
    ensures Dates.Valid(r)
    ensures r == if d.month == 12 then Dates.Date(d.year + 1, 1, 1) else Dates.Date(d.year, d.month + 1, 1)
  {
    var d28 := Dates.Date(d.year, d.month, 28);
    var n := Dates.AddDays(d28, 4);
    assert Dates.AddDays(d28, 1) == Dates.NextDay(d28);
    assert Dates.AddDays(d28, 2) == Dates.NextDay(Dates.AddDays(d28, 1));
    assert Dates.AddDays(d28, 3) == Dates.NextDay(Dates.AddDays(d28, 2));
    assert n == Dates.NextDay(Dates.AddDays(d28, 3));
    Dates.Date(n.year, n.month, 1)
  }

  /** The navigation links are inverse: forward then back, or back then forward, returns to the month shown. */
  lemma MonthNavigationInverse(d: Dates.Date)
    requires Dates.Valid(d)
    ensures PrevMonth(NextMonth(d)) == Dates.Date(d.year, d.month, 1)
    ensures NextMonth(PrevMonth(d)) == Dates.Date(d.year, d.month, 1)
  {
  }

  // ---------------------------------------------------------------------
  // Schedule entries
  // ---------------------------------------------------------------------

  /** `RecurringTask.objects.get(pk=id)`, `None` for `DoesNotExist`. */
  function TaskById(tasks: seq<Models.RecurringTask>, id: int): (r: Option<Models.RecurringTask>)
    ensures r.Some? ==> r.value in tasks && r.value.id == id
    ensures r.None? ==> forall i :: 0 <= i < |tasks| ==> tasks[i].id != id
  {
    if tasks == [] then None
    else if tasks[0].id == id then Some(tasks[0])
    else TaskById(tasks[1..], id)
  }

  /** A posted primary key: a missing or blank value, a non-integer or an unknown key all give `None`. */
  function PostedTask(tasks: seq<Models.RecurringTask>, param: Option<string>): (r: Option<Models.RecurringTask>)
    ensures r.Some? ==> r.value in tasks && param.Some? && Text.ParseInt(param.value) == Some(r.value.id as int)
  {
    if param.None? || param.value == [] then None
    else match Text.ParseInt(param.value)
      case None => None
      case Some(n) => TaskById(tasks, n)
  }

  function PostedStore(stores: seq<Records.Store>, param: Option<string>): (r: Option<Records.Store>)
    ensures r.Some? ==> r.value in stores && param.Some? && Text.ParseInt(param.value) == Some(r.value.id as int)
  {
    if param.None? || param.value == [] then None
    else match Text.ParseInt(param.value)
      case None => None
      case Some(n) => Records.StoreById(stores, n)
  }

  /** `ScheduledDesign.objects.filter(key).delete()`: every row with the exact key goes, the rest stay in order. */
  function RemoveKey(table: seq<Records.ScheduledDesign>, date: Dates.Date, task: Option<nat>, store: Option<nat>)
    : (r: seq<Records.ScheduledDesign>)
    ensures forall i :: 0 <= i < |r| ==> r[i] in table && !Records.HasKey(r[i], date, task, store)
    ensures forall s :: s in table && !Records.HasKey(s, date, task, store) ==> s in r
    ensures |r| <= |table|
  {
    if table == [] then []
    else
      var rest := RemoveKey(table[1..], date, task, store);
      assert forall s :: s in table ==> s == table[0] || s in table[1..];
      if Records.HasKey(table[0], date, task, store) then rest else [table[0]] + rest
  }

  /** Every row without the key stays exactly as often as it was there. */
  lemma {:induction false} RemoveKeyKeepsCount(table: seq<Records.ScheduledDesign>, date: Dates.Date, task: Option<nat>,
                                               store: Option<nat>)
    ensures forall s :: !Records.HasKey(s, date, task, store) ==>
      multiset(RemoveKey(table, date, task, store))[s] == multiset(table)[s]
  {
    if table != [] {
      RemoveKeyKeepsCount(table[1..], date, task, store);
      assert table == [table[0]] + table[1..];
    }
  }

  /** A table without a row of the key is left as it is. */
  lemma {:induction false} RemoveKeyAbsent(table: seq<Records.ScheduledDesign>, date: Dates.Date, task: Option<nat>,
                                           store: Option<nat>)
    requires forall i :: 0 <= i < |table| ==> !Records.HasKey(table[i], date, task, store)
    ensures RemoveKey(table, date, task, store) == table
  {
    if table != [] {
      var rest := table[1..];
      forall i | 0 <= i < |rest|
        ensures !Records.HasKey(rest[i], date, task, store)
      {
        assert rest[i] == table[i + 1];
      }
      RemoveKeyAbsent(rest, date, task, store);
      assert !Records.HasKey(table[0], date, task, store);
      assert table == [table[0]] + rest;
    }
  }

  /** Removing a key from two tables one after the other keeps the rows of the first before those of the second. */
  lemma {:induction false} RemoveKeyAppend(a: seq<Records.ScheduledDesign>, b: seq<Records.ScheduledDesign>,
                                           date: Dates.Date, task: Option<nat>, store: Option<nat>)
    ensures RemoveKey(a + b, date, task, store) == RemoveKey(a, date, task, store) + RemoveKey(b, date, task, store)
  {
    if a == [] {
      assert a + b == b;
    } else {
      RemoveKeyAppend(a[1..], b, date, task, store);
      RemoveKeyFront(a, b, date, task, store);
      if !Records.HasKey(a[0], date, task, store) {
        ConsAppend(a[0], RemoveKey(a[1..], date, task, store), RemoveKey(b, date, task, store));
      }
    }
  }

  /** The first row of a non-empty front part stays in front unless it has the key. */
  lemma RemoveKeyFront(a: seq<Records.ScheduledDesign>, b: seq<Records.ScheduledDesign>, date: Dates.Date,
                       task: Option<nat>, store: Option<nat>)
    requires a != []
    ensures RemoveKey(a + b, date, task, store)
            == if Records.HasKey(a[0], date, task, store) then RemoveKey(a[1..] + b, date, task, store)
               else [a[0]] + RemoveKey(a[1..] + b, date, task, store)
  {
    assert (a + b)[0] == a[0] && (a + b)[1..] == a[1..] + b;
  }

  lemma ConsAppend<T>(x: T, p: seq<T>, q: seq<T>)
    ensures [x] + (p + q) == ([x] + p) + q
  {
  }

  /** What the schedule form posts. */
  datatype SchedulePost = SchedulePost(
    dueDate: Option<string>, designId: string, recurringTaskId: Option<string>, storeId: Option<string>,
    removeDesign: Option<string>, ajax: bool)

  datatype Response =
    | Redirect(url: string)
    | Deleted(dueDate: string, taskId: string, storeId: string)
    | Saved(dueDate: string, designId: string, taskId: string, storeId: string, caption: string)

  datatype PostOutcome = PostOutcome(table: seq<Records.ScheduledDesign>, response: Response)

  function OptId(id: Option<nat>): string {
    if id.Some? then Text.NatToString(id.value) else ""
  }

  /** The `&name=id` part of the redirect, empty without an id. */
  function ParamText(name: string, id: Option<nat>): string {
    if id.Some? then "&" + name + "=" + Text.NatToString(id.value) else ""
  }

  /** The redirect back to the calendar: the posted date as given, then the task and store, if any. */
  function ScheduleRedirect(dueDate: Option<string>, task: Option<nat>, store: Option<nat>): (url: string)
    ensures Text.StartsWith(url, "/admin/handoff/schedule/?date=")
  {
    var base := "/admin/handoff/schedule/?date=";
    var url := base + dueDate.GetOr("None") + (ParamText("task", task) + ParamText("store", store));
    assert url[..|base|] == base;
    url
  }

  /** The query string of a URL: the text after its first `?`, empty without one. */
  function QueryOf(url: string): (q: string)
    ensures '?' in url ==> |q| < |url| && Text.EndsWith(url, q)
    ensures '?' !in url ==> q == []
  {
    match Text.IndexOf(url, '?')
    case None => []
    case Some(i) => url[i + 1..]
  }

  /**
   * `request.GET.get(name)` on a query string: the value of the last
   * `name=` parameter, if any. Percent-decoding is not modelled.
   */
  function QueryParam(query: string, name: string): Option<string> {
    ParamIn(Text.Split(query, '&'), name)
  }

  /** The value of the last of `parts` that starts with `name=`. */
  function ParamIn(parts: seq<string>, name: string): (r: Option<string>)
    ensures r.Some? ==> exists i :: 0 <= i < |parts| && parts[i] == name + "=" + r.value
    ensures r.None? ==> forall i :: 0 <= i < |parts| ==> !Text.StartsWith(parts[i], name + "=")
  {
    if parts == [] then None
    else
      var n := |parts| - 1;
      var last := parts[n];
      assert forall i :: 0 <= i < n ==> parts[..n][i] == parts[i];
      if Text.StartsWith(last, name + "=") then
        assert last == name + "=" + last[|name| + 1..];
        Some(last[|name| + 1..])
      else ParamIn(parts[..n], name)
  }

  /** The text after the first `?` of a path without one. */
  lemma QueryOfPath(path: string, q: string)
    requires '?' !in path
    ensures QueryOf(path + ("?" + q)) == q
  {
    Text.IndexOfAppend(path, '?', q);
    assert (path + ("?" + q))[|path| + 1..] == q;
  }

  /** The redirect's query string: the date part, then the task and store parts that are given. */
  lemma RedirectQuery(dueDate: Option<string>, task: Option<nat>, store: Option<nat>)
    ensures QueryOf(ScheduleRedirect(dueDate, task, store))
            == "date=" + dueDate.GetOr("None") + (ParamText("task", task) + ParamText("store", store))
  {
    var q := "date=" + dueDate.GetOr("None") + (ParamText("task", task) + ParamText("store", store));
    var path := "/admin/handoff/schedule/";
    assert ScheduleRedirect(dueDate, task, store) == path + ("?" + q);
    assert '?' !in path;
    QueryOfPath(path, q);
  }

  /** A first part without `&` splits off before the first `&`. */
  lemma SplitCons(a: string, rest: string)
    requires '&' !in a
    ensures Text.Split(a + ("&" + rest), '&') == [a] + Text.Split(rest, '&')
  {
    var s := a + ("&" + rest);
    Text.IndexOfAppend(a, '&', rest);
    assert s[..|a|] == a && s[|a| + 1..] == rest;
  }

  /** The parameter part `name=id` of a number holds no `&`. */
  lemma NumberParamPart(name: string, id: Option<nat>)
    requires '&' !in name && id.Some?
    ensures '&' !in name + "=" + Text.NatToString(id.value)
    ensures ParamText(name, id) == "&" + (name + "=" + Text.NatToString(id.value))
  {
    var digits := Text.NatToString(id.value);
    assert forall i :: 0 <= i < |digits| ==> Text.IsDigit(digits[i]);
  }

  lemma Assoc(a: string, b: string, c: string)
    ensures (a + b) + c == a + (b + c)
  {
  }

  /** The parameter part of a given id, as a list of at most one part. */
  function ParamPart(name: string, id: Option<nat>): seq<string> {
    if id.Some? then [name + "=" + Text.NatToString(id.value)] else []
  }

  /** A text without `&`, followed by the parameter of an id, splits into the text and that parameter's part. */
  lemma SplitParam(a: string, name: string, id: Option<nat>)
    requires '&' !in a && '&' !in name
    ensures Text.Split(a + ParamText(name, id), '&') == [a] + ParamPart(name, id)
  {
    if id.Some? {
      var p := name + "=" + Text.NatToString(id.value);
      NumberParamPart(name, id);
      SplitCons(a, p);
      assert Text.Split(p, '&') == [p] by { SplitNoSep(p); }
    } else {
      assert a + [] == a;
      SplitNoSep(a);
    }
  }

  /** A text without `&` is one part. */
  lemma SplitNoSep(a: string)
    requires '&' !in a
    ensures Text.Split(a, '&') == [a]
  {
  }

  /** A first part without `&`, then `&` and a second part with its tail, splits off the first part. */
  lemma SplitTwo(a: string, b: string, tail: string)
    requires '&' !in a
    ensures Text.Split(a + (("&" + b) + tail), '&') == [a] + Text.Split(b + tail, '&')
  {
    Assoc("&", b, tail);
    SplitCons(a, b + tail);
  }

  /** A part without `&` followed by a given parameter and another, optional one, splits into those parts. */
  lemma SplitGiven(a: string, name: string, id: Option<nat>, other: string, otherId: Option<nat>)
    requires '&' !in a && '&' !in name && '&' !in other && id.Some?
    ensures Text.Split(a + (ParamText(name, id) + ParamText(other, otherId)), '&')
            == [a] + ParamPart(name, id) + ParamPart(other, otherId)
  {
    var p := name + "=" + Text.NatToString(id.value);
    var st := ParamText(other, otherId);
    var ps := ParamPart(other, otherId);
    var rest := Text.Split(p + st, '&');
    NumberParamPart(name, id);
    assert rest == [p] + ps by {
      SplitParam(p, other, otherId);
    }
    assert Text.Split(a + (ParamText(name, id) + st), '&') == [a] + rest by {
      SplitTwo(a, p, st);
    }
    ConsAssoc(Text.Split(a + (ParamText(name, id) + st), '&'), a, rest, ParamPart(name, id), ps);
  }

  /** A part without `&` followed by a task parameter and the store's splits into those parts. */
  lemma SplitTaskGiven(a: string, task: Option<nat>, store: Option<nat>)
    requires '&' !in a && task.Some?
    ensures Text.Split(a + (ParamText("task", task) + ParamText("store", store)), '&')
            == [a] + ParamPart("task", task) + ParamPart("store", store)
  {
    SplitGiven(a, "task", task, "store", store);
  }

  lemma ConsAssoc(parts: seq<string>, a: string, rest: seq<string>, first: seq<string>, ps: seq<string>)
    requires parts == [a] + rest && rest == first + ps
    ensures parts == [a] + first + ps
  {
  }

  /** A part without `&` followed by no task parameter and the store's splits into those parts. */
  lemma SplitTaskMissing(a: string, task: Option<nat>, store: Option<nat>)
    requires '&' !in a && task.None?
    ensures Text.Split(a + (ParamText("task", task) + ParamText("store", store)), '&')
            == [a] + ParamPart("task", task) + ParamPart("store", store)
  {
    var st := ParamText("store", store);
    assert ParamText("task", task) + st == st;
    SplitParam(a, "store", store);
    assert ParamPart("task", task) == [];
    assert [a] + [] == [a];
  }

  /** The query string splits into the date part and the parameter parts that are given. */
  lemma RedirectParts(d: string, task: Option<nat>, store: Option<nat>)
    requires '&' !in d
    ensures Text.Split("date=" + d + (ParamText("task", task) + ParamText("store", store)), '&')
            == ["date=" + d] + ParamPart("task", task) + ParamPart("store", store)
  {
    assert '&' !in "date=";
    assert '&' !in "date=" + d;
    if task.Some? {
      SplitTaskGiven("date=" + d, task, store);
    } else {
      SplitTaskMissing("date=" + d, task, store);
    }
  }

  /** Looking a parameter up after one more part: that part wins when it is named so. */
  lemma ParamInSnoc(parts: seq<string>, p: string, name: string)
    ensures ParamIn(parts + [p], name)
            == if Text.StartsWith(p, name + "=") then Some(p[|name| + 1..]) else ParamIn(parts, name)
  {
    assert (parts + [p])[..|parts|] == parts;
  }

  /** `name=value` is found under `name` with its value, and not under a name of a different first letter. */
  lemma NamedPart(name: string, other: string, v: string)
    requires name != [] && other != [] && name[0] != other[0]
    ensures Text.StartsWith(name + "=" + v, name + "=") && (name + "=" + v)[|name| + 1..] == v
    ensures !Text.StartsWith(name + "=" + v, other + "=")
  {
    assert (name + "=" + v)[..|name| + 1] == name + "=";
    assert (name + "=" + v)[0] == name[0];
  }

  /** The date, task and store parts read back as the values they hold. */
  lemma ParamsOf(d: string, task: Option<nat>, store: Option<nat>)
    ensures var parts := ["date=" + d] + ParamPart("task", task) + ParamPart("store", store);
            && ParamIn(parts, "date") == Some(d)
            && ParamIn(parts, "task") == (if task.Some? then Some(Text.NatToString(task.value)) else None)
            && ParamIn(parts, "store") == (if store.Some? then Some(Text.NatToString(store.value)) else None)
  {
    var first := ["date=" + d];
    assert "date" + "=" == "date=";
    NamedPart("date", "task", d);
    NamedPart("date", "store", d);
    ParamInSnoc([], "date=" + d, "date");
    ParamInSnoc([], "date=" + d, "task");
    ParamInSnoc([], "date=" + d, "store");
    assert [] + ["date=" + d] == first;
    var mid := first + ParamPart("task", task);
    if task.Some? {
      var v := Text.NatToString(task.value);
      assert mid == first + ["task" + "=" + v];
      NamedPart("task", "date", v);
      NamedPart("task", "store", v);
      ParamInSnoc(first, "task" + "=" + v, "date");
      ParamInSnoc(first, "task" + "=" + v, "task");
      ParamInSnoc(first, "task" + "=" + v, "store");
    } else {
      assert mid == first;
    }
    if store.Some? {
      var v := Text.NatToString(store.value);
      assert mid + ParamPart("store", store) == mid + ["store" + "=" + v];
      NamedPart("store", "date", v);
      NamedPart("store", "task", v);
      ParamInSnoc(mid, "store" + "=" + v, "date");
      ParamInSnoc(mid, "store" + "=" + v, "task");
      ParamInSnoc(mid, "store" + "=" + v, "store");
    } else {
      assert mid + ParamPart("store", store) == mid;
    }
  }

  /**
   * The calendar reads its own redirect back: the `date`, `task` and
   * `store` parameters of the URL are the posted date (or "None") and the
   * ids of the task and store, present exactly when they are given.
   */
  lemma ScheduleRedirectReadBack(dueDate: Option<string>, task: Option<nat>, store: Option<nat>)
    requires dueDate.Some? ==> '&' !in dueDate.value
    ensures QueryParam(QueryOf(ScheduleRedirect(dueDate, task, store)), "date") == Some(dueDate.GetOr("None"))
    ensures QueryParam(QueryOf(ScheduleRedirect(dueDate, task, store)), "task")
            == (if task.Some? then Some(Text.NatToString(task.value)) else None)
    ensures QueryParam(QueryOf(ScheduleRedirect(dueDate, task, store)), "store")
            == (if store.Some? then Some(Text.NatToString(store.value)) else None)
  {
    var d := dueDate.GetOr("None");
    assert '&' !in d;
    RedirectQuery(dueDate, task, store);
    RedirectParts(d, task, store);
    ParamsOf(d, task, store);
  }

  /** The recurring task id of the posted task, if the posted id names one. */
  function PostedTaskId(tasks: seq<Models.RecurringTask>, param: Option<string>): (r: Option<nat>)
    ensures r.Some? ==> exists t :: t in tasks && t.id == r.value
  {
    var task := PostedTask(tasks, param);
    if task.Some? then Some(task.value.id) else None
  }

  /** The store id of the posted store, if the posted id names one. */
  function PostedStoreId(stores: seq<Records.Store>, param: Option<string>): (r: Option<nat>)
    ensures r.Some? ==> exists s :: s in stores && s.id == r.value
  {
    var store := PostedStore(stores, param);
    if store.Some? then Some(store.value.id) else None
  }

  /** The label of the saved entry: the posted task's title and the posted store's name, when given. */
  function PostedCaption(tasks: seq<Models.RecurringTask>, stores: seq<Records.Store>, post: SchedulePost): string {
    var task := PostedTask(tasks, post.recurringTaskId);
    var store := PostedStore(stores, post.storeId);
    Records.EntryLabel(if task.Some? then Some(task.value.title) else None,
                       if store.Some? then Some(store.value.name) else None)
  }

  /**
   * The table after a POST with a valid date: with "remove", every row of
   * the key is deleted and no other; otherwise a non-empty design id is
   * upserted under the key; otherwise nothing changes.
   */
  function PostedTable(table: seq<Records.ScheduledDesign>, due: Dates.Date, task: Option<nat>, store: Option<nat>,
                       remove: bool, designId: string): (r: seq<Records.ScheduledDesign>)
    ensures remove ==>
      && Records.FindSchedule(r, due, task, store).None?
      && (forall s :: !Records.HasKey(s, due, task, store) ==> multiset(r)[s] == multiset(table)[s])
      && (forall s :: s in r ==> s in table)
    ensures !remove && designId != [] ==> Records.ScheduledId(r, due, task, store) == Some(DriveIdsOf(designId))
    ensures !remove && designId == [] ==> r == table
  {
    if remove then
      var r := RemoveKey(table, due, task, store);
      RemoveKeyKeepsCount(table, due, task, store);
      assert forall i :: 0 <= i < |r| ==> !Records.HasKey(r[i], due, task, store);
      r
    else if designId != [] then Records.UpsertSchedule(table, due, task, store, DriveIdsOf(designId))
    else table
  }

  /** The posted design id: the uploaded file's id when a file is posted. */
  function PostedDesign(post: SchedulePost, uploadedId: Option<string>): string {
    if uploadedId.Some? then uploadedId.value else post.designId
  }

  /**
   * The POST branch of `handoff_schedule_view`. `uploadedId` is the id of
   * the uploaded design file, when one is posted; it replaces the posted id.
   * `None` is the `ValueError` of a due date that is not a `YYYY-MM-DD` date.
   */
  function HandleSchedulePost(table: seq<Records.ScheduledDesign>, tasks: seq<Models.RecurringTask>,
                              stores: seq<Records.Store>, post: SchedulePost, uploadedId: Option<string>)
    : (r: Option<PostOutcome>)
    ensures post.dueDate.None? || post.dueDate.value == [] ==>
      r == Some(PostOutcome(table, Redirect(ScheduleRedirect(post.dueDate, PostedTaskId(tasks, post.recurringTaskId),
                                                             PostedStoreId(stores, post.storeId)))))
    ensures post.dueDate.Some? && post.dueDate.value != [] ==>
      (r.None? <==> Dates.ParseIso(post.dueDate.value).None?)
    ensures r.Some? && post.dueDate.Some? && post.dueDate.value != [] ==>
      r.value.table == PostedTable(table, Dates.ParseIso(post.dueDate.value).value,
                                   PostedTaskId(tasks, post.recurringTaskId), PostedStoreId(stores, post.storeId),
                                   post.removeDesign == Some("1"), PostedDesign(post, uploadedId))
    ensures r.Some? && post.ajax && post.dueDate.Some? && post.dueDate.value != [] && post.removeDesign != Some("1")
            && PostedDesign(post, uploadedId) != [] ==>
      r.value.response == Saved(Dates.Iso(Dates.ParseIso(post.dueDate.value).value), DriveIdsOf(PostedDesign(post, uploadedId)),
                                OptId(PostedTaskId(tasks, post.recurringTaskId)), OptId(PostedStoreId(stores, post.storeId)),
                                PostedCaption(tasks, stores, post))
    ensures r.Some? && !post.ajax ==> r.value.response.Redirect?
  {
    var taskId := PostedTaskId(tasks, post.recurringTaskId);
    var storeId := PostedStoreId(stores, post.storeId);
    var redirect := Redirect(ScheduleRedirect(post.dueDate, taskId, storeId));
    if post.dueDate.None? || post.dueDate.value == [] then Some(PostOutcome(table, redirect))
    else match Dates.ParseIso(post.dueDate.value)
      case None => None
      case Some(due) =>
        var designId := PostedDesign(post, uploadedId);
        var remove := post.removeDesign == Some("1");
        var after := PostedTable(table, due, taskId, storeId, remove, designId);
        if remove then
          Some(PostOutcome(after, if post.ajax then Deleted(Dates.Iso(due), OptId(taskId), OptId(storeId)) else redirect))
        else if designId != [] then
          Some(PostOutcome(after, if post.ajax then Saved(Dates.Iso(due), DriveIdsOf(designId), OptId(taskId),
                                                          OptId(storeId), PostedCaption(tasks, stores, post))
                                  else redirect))
        else Some(PostOutcome(after, redirect))
  }

  /** `extract_drive_id(design_id)` of the posted id; the row's `save()` then leaves it as it is. */
  function DriveIdsOf(designId: string): (id: string)
    ensures Models.NormaliseId(id) == id
  {
    Models.NormaliseIdIdempotent(designId);
    Models.NormaliseId(designId)
  }

  // ---------------------------------------------------------------------
  // The calendar's entries
  // ---------------------------------------------------------------------

  /** One entry shown on a calendar day. */
  datatype Item = Item(designId: string, task: Option<nat>, store: Option<nat>, thumb: string, caption: string)

  /** The calendar shows the rows of the selected task and of the selected store, when selected. */
  predicate Shown(s: Records.ScheduledDesign, taskFilter: Option<nat>, storeFilter: Option<nat>) {
    (taskFilter.Some? ==> s.recurringTask == taskFilter) && (storeFilter.Some? ==> s.store == storeFilter)
  }

  /** The entry of a row; `titles` and `names` give the titles of recurring tasks and the names of stores. */
  function ItemOf(s: Records.ScheduledDesign, titles: nat -> string, names: nat -> string): Item {
    Item(s.driveDesignFileId, s.recurringTask, s.store,
         "https://drive.google.com/thumbnail?id=" + s.driveDesignFileId + "&sz=w120",
         Records.EntryLabel(if s.recurringTask.Some? then Some(titles(s.recurringTask.value)) else None,
                            if s.store.Some? then Some(names(s.store.value)) else None))
  }

  /** The entries of a day: the shown rows dated that day, in table order. */
  function ItemsOn(rows: seq<Records.ScheduledDesign>, d: Dates.Date, taskFilter: Option<nat>, storeFilter: Option<nat>,
                   titles: nat -> string, names: nat -> string): (items: seq<Item>)
    ensures |items| <= |rows|
  {
    if rows == [] then []
    else
      var last := rows[|rows| - 1];
      var before := ItemsOn(rows[..|rows| - 1], d, taskFilter, storeFilter, titles, names);
      if Shown(last, taskFilter, storeFilter) && last.dueDate == d then before + [ItemOf(last, titles, names)] else before
  }

  /** A day has entries exactly when some shown row is dated that day. */
  lemma {:induction false} ItemsOnNonEmpty(rows: seq<Records.ScheduledDesign>, d: Dates.Date, taskFilter: Option<nat>,
                                           storeFilter: Option<nat>, titles: nat -> string, names: nat -> string)
    ensures ItemsOn(rows, d, taskFilter, storeFilter, titles, names) != [] <==>
      exists i :: 0 <= i < |rows| && Shown(rows[i], taskFilter, storeFilter) && rows[i].dueDate == d
  {
    if rows != [] {
      var init := rows[..|rows| - 1];
      ItemsOnNonEmpty(init, d, taskFilter, storeFilter, titles, names);
      assert forall i :: 0 <= i < |init| ==> init[i] == rows[i];
    }
  }

  /** One more row adds its entry to its own day only. */
  lemma ItemsOnStep(rows: seq<Records.ScheduledDesign>, i: nat, d: Dates.Date, taskFilter: Option<nat>,
                    storeFilter: Option<nat>, titles: nat -> string, names: nat -> string)
    requires i < |rows|
    ensures ItemsOn(rows[..i + 1], d, taskFilter, storeFilter, titles, names) ==
      ItemsOn(rows[..i], d, taskFilter, storeFilter, titles, names)
      + (if Shown(rows[i], taskFilter, storeFilter) && rows[i].dueDate == d then [ItemOf(rows[i], titles, names)] else [])
  {
    assert rows[..i + 1][..i] == rows[..i];
  }

  /** `m` holds, for each day, the entries of the first `k` rows dated that day, and no day without one. */
  ghost predicate MapOfPrefix(m: map<Dates.Date, seq<Item>>, rows: seq<Records.ScheduledDesign>, k: nat,
                              taskFilter: Option<nat>, storeFilter: Option<nat>, titles: nat -> string, names: nat -> string)
    requires k <= |rows|
  {
    (forall d :: d in m <==> ItemsOn(rows[..k], d, taskFilter, storeFilter, titles, names) != [])
    && (forall d :: d in m ==> m[d] == ItemsOn(rows[..k], d, taskFilter, storeFilter, titles, names))
  }

  /** Appending the `k`th row's entry to its day extends the map to the first `k + 1` rows. */
  lemma ScheduledMapStep(m: map<Dates.Date, seq<Item>>, rows: seq<Records.ScheduledDesign>, k: nat,
                         taskFilter: Option<nat>, storeFilter: Option<nat>, titles: nat -> string, names: nat -> string)
    requires k < |rows| && MapOfPrefix(m, rows, k, taskFilter, storeFilter, titles, names)
    ensures var s := rows[k];
      var next := if Shown(s, taskFilter, storeFilter)
        then m[s.dueDate := (if s.dueDate in m then m[s.dueDate] else []) + [ItemOf(s, titles, names)]] else m;
      MapOfPrefix(next, rows, k + 1, taskFilter, storeFilter, titles, names)
  {
    forall d {
      ItemsOnStep(rows, k, d, taskFilter, storeFilter, titles, names);
    }
  }

  /** `scheduled_map`, filled row by row with `setdefault(...).append(...)`. */
  method ScheduledMap(rows: seq<Records.ScheduledDesign>, taskFilter: Option<nat>, storeFilter: Option<nat>,
                      titles: nat -> string, names: nat -> string)
    returns (m: map<Dates.Date, seq<Item>>)
    ensures forall d :: d in m <==> exists i :: 0 <= i < |rows| && Shown(rows[i], taskFilter, storeFilter) && rows[i].dueDate == d
    ensures forall d :: d in m ==> m[d] == ItemsOn(rows, d, taskFilter, storeFilter, titles, names)
  {
    m := map[];
    var i := 0;
    while i < |rows|
      invariant i <= |rows|
      invariant MapOfPrefix(m, rows, i, taskFilter, storeFilter, titles, names)
    {
      ScheduledMapStep(m, rows, i, taskFilter, storeFilter, titles, names);
      var s := rows[i];
      if Shown(s, taskFilter, storeFilter) {
        var current := if s.dueDate in m then m[s.dueDate] else [];
        m := m[s.dueDate := current + [ItemOf(s, titles, names)]];
      }
      i := i + 1;
    }
    assert rows[..i] == rows;
    forall d
      ensures d in m <==> exists i :: 0 <= i < |rows| && Shown(rows[i], taskFilter, storeFilter) && rows[i].dueDate == d
    {
      ItemsOnNonEmpty(rows, d, taskFilter, storeFilter, titles, names);
    }
  }

  /** `selected_design_id`: the design of the selected day's entry for the selected task and store, or "". */
  function SelectedDesignId(table: seq<Records.ScheduledDesign>, selectedDate: Option<Dates.Date>, task: Option<nat>,
                            store: Option<nat>): (id: string)
    ensures selectedDate.None? ==> id == []
    ensures selectedDate.Some? && Records.FindSchedule(table, selectedDate.value, task, store).Some? ==>
      id == table[Records.FindSchedule(table, selectedDate.value, task, store).value].driveDesignFileId
    ensures selectedDate.Some? && Records.FindSchedule(table, selectedDate.value, task, store).None? ==> id == []
  {
    if selectedDate.None? then []
    else Records.ScheduledId(table, selectedDate.value, task, store).GetOr([])
  }

  // ---------------------------------------------------------------------
  // Mockup template order actions
  // ---------------------------------------------------------------------

  /** The order after "Move up": one less, but never below 1. */
  function MovedUp(order: nat): (r: nat)
    ensures order >= 1 ==> r >= 1
    ensures r == order || r + 1 == order
  {
    if order > 1 then order - 1 else order
  }

  /** The order after "Move down": one more. */
  function MovedDown(order: nat): (r: nat)
    ensures r > order
  {
    order + 1
  }

  /**
   * "Move down" then "Move up" restores any order from 1 on, but turns 0
   * into 1; "Move up" then "Move down" restores any order above 1.
   */
  lemma MoveInverse(order: nat)
    ensures order >= 1 ==> MovedUp(MovedDown(order)) == order
    ensures MovedUp(MovedDown(0)) == 1
    ensures order > 1 ==> MovedDown(MovedUp(order)) == order
    ensures order <= 1 ==> MovedUp(order) == order
  {
  }

  predicate Distinct(rows: seq<Views.MockupTemplate>) {
    forall i, j :: 0 <= i < j < |rows| ==> rows[i] != rows[j]
  }

  /**
   * The "Move up" action on the selected templates, listed by ascending
   * order; only `order` is written.
   */
  method MoveUp(selected: seq<Views.MockupTemplate>)
    requires Distinct(selected)
    modifies selected`order
    ensures forall i :: 0 <= i < |selected| ==> selected[i].order == MovedUp(old(selected[i].order))
  {
    var k := 0;
    while k < |selected|
      invariant k <= |selected|
      invariant forall i :: 0 <= i < k ==> selected[i].order == MovedUp(old(selected[i].order))
      invariant forall i :: k <= i < |selected| ==> selected[i].order == old(selected[i].order)
    {
      var t := selected[k];
      if t.order > 1 {
        t.order := t.order - 1;
      }
      k := k + 1;
    }
  }

  /**
   * The "Move down" action: the selected templates, listed by ascending
   * order, are walked from the highest order down; only `order` is written.
   */
  method MoveDown(selected: seq<Views.MockupTemplate>)
    requires Distinct(selected)
    modifies selected`order
    ensures forall i :: 0 <= i < |selected| ==> selected[i].order == MovedDown(old(selected[i].order))
  {
    var k := |selected|;
    while k > 0
      invariant 0 <= k <= |selected|
      invariant forall i :: k <= i < |selected| ==> selected[i].order == MovedDown(old(selected[i].order))
      invariant forall i :: 0 <= i < k ==> selected[i].order == old(selected[i].order)
    {
      k := k - 1;
      var t := selected[k];
      t.order := t.order + 1;
    }
  }

  // ---------------------------------------------------------------------
  // Apply today's scheduled design
  // ---------------------------------------------------------------------

  /**
   * The entry a task due `today` gets: the store-less entry for its
   * recurring task, else the global entry (no task, no store).
   */
  function Pick(table: seq<Records.ScheduledDesign>, today: Dates.Date, recurringId: Option<nat>): (r: Option<string>)
    ensures recurringId.Some? && Records.FindSchedule(table, today, recurringId, None).Some? ==>
      r == Records.ScheduledId(table, today, recurringId, None)
    ensures (recurringId.None? || Records.FindSchedule(table, today, recurringId, None).None?) ==>
      r == Records.ScheduledId(table, today, None, None)
    ensures r.None? <==>
      (recurringId.None? || Records.FindSchedule(table, today, recurringId, None).None?)
      && Records.FindSchedule(table, today, None, None).None?
  {
    var own := if recurringId.Some? then Records.ScheduledId(table, today, recurringId, None) else None;
    if own.Some? then own else Records.ScheduledId(table, today, None, None)
  }

  /** The due date and recurring task of each task. */
  function Keys(tasks: seq<Models.Task>): (keys: seq<(Dates.Date, Option<nat>)>)
    reads set t | t in tasks
    ensures |keys| == |tasks| && forall i :: 0 <= i < |tasks| ==> keys[i] == (tasks[i].dueDate, tasks[i].recurringId)
  {
    seq(|tasks|, i requires 0 <= i < |tasks| reads tasks => (tasks[i].dueDate, tasks[i].recurringId))
  }

  /** A task with this due date and recurring task is due `today` and gets an entry. */
  predicate Hit(key: (Dates.Date, Option<nat>), table: seq<Records.ScheduledDesign>, today: Dates.Date) {
    key.0 == today && Pick(table, today, key.1).Some?
  }

  /** The number of tasks due `today` that get an entry. */
  function CountApplied(keys: seq<(Dates.Date, Option<nat>)>, table: seq<Records.ScheduledDesign>, today: Dates.Date)
    : (n: nat)
    ensures n <= |keys|
  {
    if keys == [] then 0
    else
      var last := keys[|keys| - 1];
      CountApplied(keys[..|keys| - 1], table, today) + (if Hit(last, table, today) then 1 else 0)
  }

  /** Some task is due `today`. */
  predicate AnyDue(keys: seq<(Dates.Date, Option<nat>)>, today: Dates.Date) {
    exists i :: 0 <= i < |keys| && keys[i].0 == today
  }

  /** One more key adds one to the count when it is a hit. */
  lemma CountAppliedStep(keys: seq<(Dates.Date, Option<nat>)>, k: nat, table: seq<Records.ScheduledDesign>,
                         today: Dates.Date)
    requires k < |keys|
    ensures CountApplied(keys[..k + 1], table, today) ==
      CountApplied(keys[..k], table, today) + (if Hit(keys[k], table, today) then 1 else 0)
  {
    assert keys[..k + 1][..k] == keys[..k];
  }

  /** A task with an entry is counted, so the count is positive. */
  lemma {:induction false} CountAppliedPositive(keys: seq<(Dates.Date, Option<nat>)>, table: seq<Records.ScheduledDesign>,
                                                today: Dates.Date, k: nat)
    requires k < |keys| && Hit(keys[k], table, today)
    ensures CountApplied(keys, table, today) > 0
  {
    if k < |keys| - 1 {
      assert keys[..|keys| - 1][k] == keys[k];
      CountAppliedPositive(keys[..|keys| - 1], table, today, k);
    }
  }

  /** The design id a task keyed `key` ends with: the normalised picked id when it is due today and one is picked. */
  function AppliedId(key: (Dates.Date, Option<nat>), id: string, table: seq<Records.ScheduledDesign>, today: Dates.Date)
    : string
  {
    if Hit(key, table, today) then Models.NormaliseId(Pick(table, today, key.1).value) else id
  }

  /** One task of `apply_today`: it takes the picked id when it is due today and one is picked. */
  method ApplyOne(t: Models.Task, table: seq<Records.ScheduledDesign>, today: Dates.Date) returns (hit: bool)
    modifies t`driveDesignFileId
    ensures hit <==> Hit((old(t.dueDate), old(t.recurringId)), table, today)
    ensures t.driveDesignFileId == AppliedId((old(t.dueDate), old(t.recurringId)), old(t.driveDesignFileId), table, today)
  {
    hit := false;
    if t.dueDate == today {
      var scheduled := Pick(table, today, t.recurringId);
      if scheduled.Some? {
        t.driveDesignFileId := Models.NormaliseId(scheduled.value);
        hit := true;
      }
    }
  }

  /** The tasks' design ids, in task order. */
  function DesignIds(tasks: seq<Models.Task>): (ids: seq<string>)
    reads tasks
    ensures |ids| == |tasks|
  {
    seq(|tasks|, i requires 0 <= i < |tasks| reads tasks => tasks[i].driveDesignFileId)
  }

  /** The loop's body: the `k`th task takes its id and no other task changes. */
  method ApplyAt(tasks: seq<Models.Task>, k: nat, table: seq<Records.ScheduledDesign>, today: Dates.Date)
    returns (hit: bool)
    requires k < |tasks| && forall i, j :: 0 <= i < j < |tasks| ==> tasks[i] != tasks[j]
    modifies tasks`driveDesignFileId
    ensures hit <==> Hit((old(tasks[k].dueDate), old(tasks[k].recurringId)), table, today)
    ensures Keys(tasks) == old(Keys(tasks))
    ensures DesignIds(tasks) == old(DesignIds(tasks))[k :=
      AppliedId((old(tasks[k].dueDate), old(tasks[k].recurringId)), old(tasks[k].driveDesignFileId), table, today)]
  {
    hit := ApplyOne(tasks[k], table, today);
    assert forall i :: 0 <= i < |tasks| && i != k ==> tasks[i].driveDesignFileId == old(tasks[i].driveDesignFileId);
  }

  /** The design ids the tasks keyed `keys` end with, from the ids `ids` they had. */
  function AppliedIds(keys: seq<(Dates.Date, Option<nat>)>, ids: seq<string>, table: seq<Records.ScheduledDesign>,
                      today: Dates.Date): (r: seq<string>)
    requires |ids| == |keys|
    ensures |r| == |keys|
  {
    seq(|keys|, i requires 0 <= i < |keys| => AppliedId(keys[i], ids[i], table, today))
  }

  /**
   * What `apply_today` does to one task: a task not due today keeps its id,
   * a task with no entry keeps its id, and a task that takes one ends with
   * an id that is already normalised.
   */
  lemma AppliedIdsAt(keys: seq<(Dates.Date, Option<nat>)>, ids: seq<string>, table: seq<Records.ScheduledDesign>,
                     today: Dates.Date, i: nat)
    requires |ids| == |keys| && i < |keys|
    ensures keys[i].0 != today ==> AppliedIds(keys, ids, table, today)[i] == ids[i]
    ensures !Hit(keys[i], table, today) ==> AppliedIds(keys, ids, table, today)[i] == ids[i]
    ensures Hit(keys[i], table, today) ==>
      Models.NormaliseId(AppliedIds(keys, ids, table, today)[i]) == AppliedIds(keys, ids, table, today)[i]
  {
    if Hit(keys[i], table, today) {
      Models.NormaliseIdIdempotent(Pick(table, today, keys[i].1).value);
    }
  }

  /** Running the action a second time leaves every id as the first run left it. */
  lemma ApplyTwiceChangesNothing(keys: seq<(Dates.Date, Option<nat>)>, ids: seq<string>,
                                 table: seq<Records.ScheduledDesign>, today: Dates.Date)
    requires |ids| == |keys|
    ensures AppliedIds(keys, AppliedIds(keys, ids, table, today), table, today) == AppliedIds(keys, ids, table, today)
  {
  }

  /** The loop of `apply_today` over the tasks, counting those that take an id. */
  method ApplyAll(tasks: seq<Models.Task>, table: seq<Records.ScheduledDesign>, today: Dates.Date) returns (applied: nat)
    requires forall i, j :: 0 <= i < j < |tasks| ==> tasks[i] != tasks[j]
    modifies tasks`driveDesignFileId
    ensures DesignIds(tasks) == AppliedIds(old(Keys(tasks)), old(DesignIds(tasks)), table, today)
    ensures applied == CountApplied(old(Keys(tasks)), table, today)
  {
    ghost var keys := Keys(tasks);
    ghost var olds := DesignIds(tasks);
    ghost var targets := AppliedIds(keys, olds, table, today);
    applied := 0;
    var k := 0;
    while k < |tasks|
      invariant k <= |tasks|
      invariant Keys(tasks) == keys
      invariant |DesignIds(tasks)| == |tasks|
      invariant forall i :: 0 <= i < k ==> DesignIds(tasks)[i] == targets[i]
      invariant forall i :: k <= i < |tasks| ==> DesignIds(tasks)[i] == olds[i]
      invariant applied == CountApplied(keys[..k], table, today)
    {
      ghost var before := DesignIds(tasks);
      CountAppliedStep(keys, k, table, today);
      var hit := ApplyAt(tasks, k, table, today);
      IdsStep(before, DesignIds(tasks), olds, targets, k);
      if hit {
        applied := applied + 1;
      }
      k := k + 1;
    }
    assert keys[..k] == keys;
  }

  /** The loop's step on the ids: the `k`th id takes its target and the others stay. */
  lemma IdsStep(current: seq<string>, next: seq<string>, olds: seq<string>, targets: seq<string>, k: nat)
    requires |current| == |olds| == |targets| && k < |current|
    requires forall i :: 0 <= i < k ==> current[i] == targets[i]
    requires forall i :: k <= i < |current| ==> current[i] == olds[i]
    requires next == current[k := targets[k]]
    ensures |next| == |current|
    ensures forall i :: 0 <= i < k + 1 ==> next[i] == targets[i]
    ensures forall i :: k + 1 <= i < |next| ==> next[i] == olds[i]
  {
  }

  /**
   * The `apply_today` action: every task due today that has an entry gets
   * its design id (the row's `save(update_fields=...)` writes only the
   * normalised design id); the message reports the count.
   */
  method ApplyToday(tasks: seq<Models.Task>, table: seq<Records.ScheduledDesign>, today: Dates.Date)
    returns (applied: nat, message: string)
    requires forall i, j :: 0 <= i < j < |tasks| ==> tasks[i] != tasks[j]
    modifies tasks`driveDesignFileId
    ensures DesignIds(tasks) == AppliedIds(old(Keys(tasks)), old(DesignIds(tasks)), table, today)
    ensures applied == CountApplied(old(Keys(tasks)), table, today)
    ensures !AnyDue(old(Keys(tasks)), today) ==> message == "No tasks for today." && applied == 0
    ensures AnyDue(old(Keys(tasks)), today) && applied > 0 ==>
      message == "Applied to " + Text.NatToString(applied) + " task(s)."
    ensures AnyDue(old(Keys(tasks)), today) && applied == 0 ==> message == "No matching scheduled designs for today."
  {
    ghost var keys := Keys(tasks);
    if !exists i :: 0 <= i < |tasks| && tasks[i].dueDate == today {
      assert CountApplied(keys, table, today) == 0 by { NoneDueCountsZero(keys, table, today); }
      assert DesignIds(tasks) == AppliedIds(keys, DesignIds(tasks), table, today);
      return 0, "No tasks for today.";
    }
    applied := ApplyAll(tasks, table, today);
    if applied > 0 {
      message := "Applied to " + Text.NatToString(applied) + " task(s).";
    } else {
      message := "No matching scheduled designs for today.";
    }
  }

  /** With no task due today nothing is counted. */
  lemma {:induction false} NoneDueCountsZero(keys: seq<(Dates.Date, Option<nat>)>, table: seq<Records.ScheduledDesign>,
                                             today: Dates.Date)
    requires !AnyDue(keys, today)
    ensures CountApplied(keys, table, today) == 0
  {
    if keys != [] {
      var init := keys[..|keys| - 1];
      assert forall i :: 0 <= i < |init| ==> init[i] == keys[i];
      NoneDueCountsZero(init, table, today);
    }
  }
}
