/**
 * The template context every page gets: the stores the user may pick from
 * and the one picked, the design runway (how many future days have a design)
 * and the SOP guide that matches the current path.
 */
module ContextProcessors {
  import opened Wrappers
  import Text
  import Dates
  import Records
  import Sorting

  // ---------------------------------------------------------------------
  // Runway
  // ---------------------------------------------------------------------

  /** The default of the `DESIGN_RUNWAY_THRESHOLD` setting. */
  const DefaultThreshold := 5

  /** A design file counted by the runway: scheduled or active, dated today or later, of the store if one is given. */
  predicate DesignCounts(d: Records.DesignFile, today: Dates.Date, store: Option<nat>) {
    && d.dateAssigned.Some? && Dates.NotAfter(today, d.dateAssigned.value)
    && (d.status == Records.Scheduled || d.status == Records.Active)
    && (store.Some? ==> d.store == store)
  }

  /** A scheduled design counted when no design file is: task-less, due today or later, of the store if one is given. */
  predicate ScheduleCounts(s: Records.ScheduledDesign, today: Dates.Date, store: Option<nat>) {
    Dates.NotAfter(today, s.dueDate) && s.recurringTask.None? && (store.Some? ==> s.store == store)
  }

  /** `values_list("date_assigned")` of the counted design files, in table order. */
  function DesignDates(designs: seq<Records.DesignFile>, today: Dates.Date, store: Option<nat>): (ds: seq<Dates.Date>)
    ensures forall x :: x in ds <==> exists i :: 0 <= i < |designs| && DesignCounts(designs[i], today, store)
                                               && designs[i].dateAssigned == Some(x)
  {
    if designs == [] then []
    else
      var rest := DesignDates(designs[1..], today, store);
      assert forall i :: 1 <= i < |designs| ==> designs[i] == designs[1..][i - 1];
      if DesignCounts(designs[0], today, store) then [designs[0].dateAssigned.value] + rest else rest
  }

  /** `values_list("due_date")` of the counted scheduled designs, in table order. */
  function ScheduleDates(table: seq<Records.ScheduledDesign>, today: Dates.Date, store: Option<nat>): (ds: seq<Dates.Date>)
    ensures forall x :: x in ds <==> exists i :: 0 <= i < |table| && ScheduleCounts(table[i], today, store)
                                               && table[i].dueDate == x
  {
    if table == [] then []
    else
      var rest := ScheduleDates(table[1..], today, store);
      assert forall i :: 1 <= i < |table| ==> table[i] == table[1..][i - 1];
      if ScheduleCounts(table[0], today, store) then [table[0].dueDate] + rest else rest
  }

  predicate NoDuplicates(s: seq<Dates.Date>) {
    forall i, j :: 0 <= i < j < |s| ==> s[i] != s[j]
  }

  /** `.distinct()`: the first occurrence of each value, in order. */
  function Distinct(s: seq<Dates.Date>): (r: seq<Dates.Date>)
    ensures NoDuplicates(r)
    ensures forall x :: x in r <==> x in s
  {
    if s == [] then []
    else
      var init := Distinct(s[..|s| - 1]);
      assert forall x :: x in s <==> x in s[..|s| - 1] || x == s[|s| - 1];
      if s[|s| - 1] in init then init else init + [s[|s| - 1]]
  }

  /** A list without duplicates has as many elements as the set of its values. */
  lemma {:induction false} NoDuplicatesCard(s: seq<Dates.Date>)
    requires NoDuplicates(s)
    ensures |set x | x in s| == |s|
  {
    if s != [] {
      var init := s[..|s| - 1];
      var last := s[|s| - 1];
      NoDuplicatesCard(init);
      assert forall k :: 0 <= k < |init| ==> init[k] != last by {
        forall k | 0 <= k < |init| ensures init[k] != last { assert init[k] == s[k]; }
      }
      assert (set x | x in s) == (set x | x in init) + {last};
    }
  }

  /** `max(dates)`. */
  function Latest(ds: seq<Dates.Date>): (r: Option<Dates.Date>)
    ensures r.None? <==> ds == []
    ensures r.Some? ==> r.value in ds && forall x :: x in ds ==> Dates.NotAfter(x, r.value)
  {
    if ds == [] then None
    else
      var init := Latest(ds[..|ds| - 1]);
      var last := ds[|ds| - 1];
      assert forall x :: x in ds ==> x in ds[..|ds| - 1] || x == last;
      if init.None? then Some(last)
      else
        Dates.BeforeTotal(init.value, last);
        if Dates.Before(init.value, last) then
          assert forall x :: x in ds[..|ds| - 1] ==> Dates.NotAfter(x, last) by {
            forall x | x in ds[..|ds| - 1] ensures Dates.NotAfter(x, last) {
              if x != init.value { Dates.BeforeTransitive(x, init.value, last); }
            }
          }
          Some(last)
        else init
  }

  datatype Runway = Runway(daysRemaining: nat, exhaustionDate: Option<Dates.Date>, threshold: int, belowThreshold: bool)

  /** The dates the runway counts: the design files' dates, or the scheduled designs' when there are none. */
  function RunwayDates(designs: seq<Records.DesignFile>, schedules: seq<Records.ScheduledDesign>, today: Dates.Date,
                       store: Option<nat>): seq<Dates.Date>
  {
    var ds := Distinct(DesignDates(designs, today, store));
    if ds != [] then ds else Distinct(ScheduleDates(schedules, today, store))
  }

  /** `_compute_runway_status(store)`; `setting` is the configured threshold, if any. */
  function ComputeRunway(designs: seq<Records.DesignFile>, schedules: seq<Records.ScheduledDesign>, today: Dates.Date,
                         store: Option<nat>, setting: Option<int>): Runway
  {
    var dates := RunwayDates(designs, schedules, today, store);
    var threshold := setting.GetOr(DefaultThreshold);
    Runway(|dates|, Latest(dates), threshold, |dates| < threshold)
  }

  /** The dates of the counted design files, as a set. */
  function CountedDesignDates(designs: seq<Records.DesignFile>, today: Dates.Date, store: Option<nat>): set<Dates.Date> {
    set i | 0 <= i < |designs| && DesignCounts(designs[i], today, store) :: designs[i].dateAssigned.value
  }

  /** The dates of the counted scheduled designs, as a set. */
  function CountedScheduleDates(schedules: seq<Records.ScheduledDesign>, today: Dates.Date, store: Option<nat>)
    : set<Dates.Date>
  {
    set i | 0 <= i < |schedules| && ScheduleCounts(schedules[i], today, store) :: schedules[i].dueDate
  }

  /** The distinct design-file dates are the counted ones, each once. */
  lemma DistinctDesignDates(designs: seq<Records.DesignFile>, today: Dates.Date, store: Option<nat>)
    ensures var ds := Distinct(DesignDates(designs, today, store));
      (forall x :: x in ds <==> x in CountedDesignDates(designs, today, store))
      && |ds| == |CountedDesignDates(designs, today, store)|
  {
    var ds := Distinct(DesignDates(designs, today, store));
    assert (set x | x in ds) == CountedDesignDates(designs, today, store);
    NoDuplicatesCard(ds);
  }

  /** The distinct scheduled-design dates are the counted ones, each once. */
  lemma DistinctScheduleDates(schedules: seq<Records.ScheduledDesign>, today: Dates.Date, store: Option<nat>)
    ensures var ds := Distinct(ScheduleDates(schedules, today, store));
      (forall x :: x in ds <==> x in CountedScheduleDates(schedules, today, store))
      && |ds| == |CountedScheduleDates(schedules, today, store)|
  {
    var ds := Distinct(ScheduleDates(schedules, today, store));
    assert (set x | x in ds) == CountedScheduleDates(schedules, today, store);
    NoDuplicatesCard(ds);
  }

  /**
   * The runway counts the distinct dates of the counted design files, and
   * only when there are none the distinct dates of the counted task-less
   * scheduled designs; the exhaustion date is the latest of them; the
   * threshold defaults to 5 and the runway is below it when fewer days remain.
   */
  lemma RunwaySpec(designs: seq<Records.DesignFile>, schedules: seq<Records.ScheduledDesign>, today: Dates.Date,
                   store: Option<nat>, setting: Option<int>)
    ensures var r := ComputeRunway(designs, schedules, today, store, setting);
      var fromDesigns := CountedDesignDates(designs, today, store);
      var fromSchedules := CountedScheduleDates(schedules, today, store);
      var counted := if fromDesigns != {} then fromDesigns else fromSchedules;
      && r.daysRemaining == |counted|
      && (r.exhaustionDate.None? <==> counted == {})
      && (r.exhaustionDate.Some? ==>
            r.exhaustionDate.value in counted && forall x :: x in counted ==> Dates.NotAfter(x, r.exhaustionDate.value))
      && r.threshold == (if setting.Some? then setting.value else 5)
      && (r.belowThreshold <==> r.daysRemaining < r.threshold)
      && forall x :: x in counted ==> Dates.NotAfter(today, x)
  {
    DistinctDesignDates(designs, today, store);
    DistinctScheduleDates(schedules, today, store);
  }

  // ---------------------------------------------------------------------
  // SOP guides
  // ---------------------------------------------------------------------

  datatype Sop = Sop(id: nat, name: string, active: bool, contextRoute: string, scribeIdOrUrl: string)

  /** The route test: a non-blank route that prefixes the path (when it starts with "/") or occurs in it ignoring case. */
  predicate RouteMatches(contextRoute: string, path: string) {
    var route := Text.Strip(contextRoute);
    route != [] && ((Text.StartsWith(route, "/") && Text.StartsWith(path, route)) || Text.ContainsIgnoringCase(path, route))
  }

  /** A prefix of the path also occurs in it ignoring case, so the route test is the substring test alone. */
  lemma RouteMatchesIsSubstring(contextRoute: string, path: string)
    ensures RouteMatches(contextRoute, path) <==>
      Text.Strip(contextRoute) != [] && Text.ContainsIgnoringCase(path, Text.Strip(contextRoute))
  {
    var route := Text.Strip(contextRoute);
    if route != [] && Text.StartsWith(path, route) {
      assert Text.Lower(path)[..|route|] == Text.Lower(route);
      Text.ContainsPrefix(Text.Lower(path), Text.Lower(route));
    }
  }

  /** `order_by("name", "id")`. */
  predicate SopLe(a: Sop, b: Sop) {
    Text.StrLess(a.name, b.name) || (a.name == b.name && a.id <= b.id)
  }

  /** The guide order compares every pair of guides and is transitive. */
  lemma SopLeTotalPreorder()
    ensures Sorting.TotalPreorder(SopLe)
  {
    forall a: Sop, b: Sop
      ensures SopLe(a, b) || SopLe(b, a)
    {
      Text.StrLessTotal(a.name, b.name);
    }
    forall a: Sop, b: Sop, c: Sop | SopLe(a, b) && SopLe(b, c)
      ensures SopLe(a, c)
    {
      if Text.StrLess(a.name, b.name) && Text.StrLess(b.name, c.name) {
        Text.StrLessTransitive(a.name, b.name, c.name);
      }
    }
  }

  function ActiveSops(sops: seq<Sop>): (r: seq<Sop>)
    ensures forall i :: 0 <= i < |r| ==> r[i].active && r[i] in sops
    ensures forall s :: s in sops && s.active ==> s in r
  {
    if sops == [] then []
    else
      var rest := ActiveSops(sops[1..]);
      assert forall s :: s in sops ==> s == sops[0] || s in sops[1..];
      if sops[0].active then [sops[0]] + rest else rest
  }

  /** The position of the first guide of the list that passes the test. */
  function FirstMatch(sops: seq<Sop>, test: Sop -> bool): (r: Option<nat>)
    ensures r.Some? ==> r.value < |sops| && test(sops[r.value]) && forall j :: 0 <= j < r.value ==> !test(sops[j])
    ensures r.None? ==> forall j :: 0 <= j < |sops| ==> !test(sops[j])
  {
    if sops == [] then None
    else if test(sops[0]) then Some(0)
    else
      var rest := FirstMatch(sops[1..], test);
      assert forall j :: 1 <= j < |sops| ==> sops[j] == sops[1..][j - 1];
      if rest.None? then None else Some(rest.value + 1)
  }

  /** `_match_active_sop(path)`. */
  function MatchActiveSop(sops: seq<Sop>, path: string): (r: Option<Sop>)
    ensures r.Some? ==> r.value in sops && r.value.active && RouteMatches(r.value.contextRoute, path)
    ensures r.None? ==> forall s :: s in sops && s.active ==> !RouteMatches(s.contextRoute, path)
    ensures r.Some? ==> forall s :: s in sops && s.active && RouteMatches(s.contextRoute, path) ==> SopLe(r.value, s)
  {
    var active := ActiveSops(sops);
    var ordered := Sorting.SortBy(active, SopLe);
    Sorting.SortByMembers(active, SopLe);
    match FirstMatch(ordered, (s: Sop) => RouteMatches(s.contextRoute, path))
    case None =>
      assert forall s :: s in sops && s.active ==> s in ordered;
      None
    case Some(i) =>
      assert ordered[i] in active;
      SopLeTotalPreorder();
      Sorting.SortBySorted(active, SopLe);
      FirstMatchIsLeast(ordered, i, path);
      assert forall s :: s in sops && s.active ==> s in ordered;
      Some(ordered[i])
  }

  /** In guides sorted by name and id, the first that matches precedes every other that matches. */
  lemma FirstMatchIsLeast(ordered: seq<Sop>, i: nat, path: string)
    requires Sorting.SortedBy(ordered, SopLe)
    requires i < |ordered| && forall j :: 0 <= j < i ==> !RouteMatches(ordered[j].contextRoute, path)
    ensures forall s :: s in ordered && RouteMatches(s.contextRoute, path) ==> SopLe(ordered[i], s)
  {
    forall s | s in ordered && RouteMatches(s.contextRoute, path)
      ensures SopLe(ordered[i], s)
    {
      var k :| 0 <= k < |ordered| && ordered[k] == s;
      if k != i {
        assert i < k;
      }
    }
  }

  /** `_build_sop_embed_url(value)`. */
  function BuildSopEmbedUrl(value: string): (url: string)
    ensures Text.Strip(value) == [] <==> url == []
    ensures url != [] ==> Text.StartsWith(url, "http://") || Text.StartsWith(url, "https://")
    ensures Text.StartsWith(Text.Strip(value), "http://") || Text.StartsWith(Text.Strip(value), "https://")
      ==> url == Text.Strip(value)
  {
    var v := Text.Strip(value);
    if v == [] then []
    else if Text.StartsWith(v, "http://") || Text.StartsWith(v, "https://") then v
    else
      var url := "https://scribehow.com/embed/" + v + "?as=scroll";
      assert url[..8] == "https://";
      url
  }

  /** An embed URL is left alone when built again. */
  lemma BuildSopEmbedUrlIdempotent(value: string)
    ensures BuildSopEmbedUrl(BuildSopEmbedUrl(value)) == BuildSopEmbedUrl(value)
  {
    var v := Text.Strip(value);
    var url := BuildSopEmbedUrl(value);
    if v != [] && !(Text.StartsWith(v, "http://") || Text.StartsWith(v, "https://")) {
      assert url == "https://scribehow.com/embed/" + v + "?as=scroll";
      assert url[|url| - 1] == 'l' && url[0] == 'h';
      Text.StripFixesStripped(url);
    } else {
      Text.StripIdempotent(value);
    }
  }

  // ---------------------------------------------------------------------
  // Stores and the context
  // ---------------------------------------------------------------------

  /** The `store` query parameter: the listed store with that integer id; a non-integer or unknown id gives `None`. */
  function CurrentStore(options: seq<Records.Store>, storeParam: Option<string>): (r: Option<Records.Store>)
    ensures r.Some? ==> r.value in options
    ensures storeParam.None? || storeParam.value == [] || Text.ParseInt(storeParam.value).None? ==> r.None?
    ensures r.Some? ==> storeParam.Some? && Text.ParseInt(storeParam.value) == Some(r.value.id as int)
  {
    if storeParam.None? || storeParam.value == [] then None
    else match Text.ParseInt(storeParam.value)
      case None => None
      case Some(n) => Records.StoreById(options, n)
  }

  /** `order_by("order", "name")`. */
  predicate StoreLe(a: Records.Store, b: Records.Store) {
    a.order < b.order || (a.order == b.order && Text.StrLe(a.name, b.name))
  }

  /** The store order compares every pair of stores and is transitive. */
  lemma StoreLeTotalPreorder()
    ensures Sorting.TotalPreorder(StoreLe)
  {
    forall a: Records.Store, b: Records.Store
      ensures StoreLe(a, b) || StoreLe(b, a)
    {
      Text.StrLessTotal(a.name, b.name);
    }
    forall a: Records.Store, b: Records.Store, c: Records.Store | StoreLe(a, b) && StoreLe(b, c)
      ensures StoreLe(a, c)
    {
      if Text.StrLess(a.name, b.name) && Text.StrLess(b.name, c.name) {
        Text.StrLessTransitive(a.name, b.name, c.name);
      }
    }
  }

  /** The user, as far as the context needs it. */
  datatype User = Anonymous | Staff | Member(activeMemberships: set<nat>)

  /** A store the user may pick: active, and for a non-staff user one with an active membership. */
  predicate Visible(s: Records.Store, user: User) {
    match user
    case Anonymous => false
    case Staff => s.active
    case Member(ids) => s.active && s.id in ids
  }

  function VisibleStores(stores: seq<Records.Store>, user: User): (r: seq<Records.Store>)
    ensures forall i :: 0 <= i < |r| ==> r[i] in stores && Visible(r[i], user)
    ensures forall s :: s in stores && Visible(s, user) ==> s in r
  {
    if stores == [] then []
    else
      var rest := VisibleStores(stores[1..], user);
      assert forall s :: s in stores ==> s == stores[0] || s in stores[1..];
      if Visible(stores[0], user) then [stores[0]] + rest else rest
  }

  datatype Context = Context(
    storeOptions: seq<Records.Store>,
    currentStore: Option<Records.Store>,
    runway: Runway,
    activeSop: Option<Sop>,
    activeSopEmbedUrl: Option<string>)

  /** `handoff_context(request)`, filling the context entry by entry. */
  method HandoffContext(user: User, stores: seq<Records.Store>, storeParam: Option<string>, path: string,
                        sops: seq<Sop>, designs: seq<Records.DesignFile>, schedules: seq<Records.ScheduledDesign>,
                        today: Dates.Date, setting: Option<int>)
    returns (ctx: Context)
    ensures forall s :: s in ctx.storeOptions <==> s in stores && Visible(s, user)
    ensures Sorting.SortedBy(ctx.storeOptions, StoreLe)
    ensures ctx.currentStore.Some? ==> ctx.currentStore.value in ctx.storeOptions
    ensures ctx.currentStore == CurrentStore(ctx.storeOptions, storeParam)
    ensures ctx.runway == ComputeRunway(designs, schedules, today,
                                        if ctx.currentStore.Some? then Some(ctx.currentStore.value.id) else None, setting)
    ensures ctx.activeSop == MatchActiveSop(sops, path)
    ensures ctx.activeSopEmbedUrl.Some? <==> ctx.activeSop.Some?
    ensures ctx.activeSop.Some? ==> ctx.activeSopEmbedUrl == Some(BuildSopEmbedUrl(ctx.activeSop.value.scribeIdOrUrl))
  {
    var options := Sorting.SortBy(VisibleStores(stores, user), StoreLe);
    Sorting.SortByMembers(VisibleStores(stores, user), StoreLe);
    StoreLeTotalPreorder();
    Sorting.SortBySorted(VisibleStores(stores, user), StoreLe);
    var current := CurrentStore(options, storeParam);
    var storeId := if current.Some? then Some(current.value.id) else None;
    var runway := ComputeRunway(designs, schedules, today, storeId, setting);
    ctx := Context(options, current, runway, None, None);
    var active := MatchActiveSop(sops, path);
    if active.Some? {
      ctx := ctx.(activeSop := active, activeSopEmbedUrl := Some(BuildSopEmbedUrl(active.value.scribeIdOrUrl)));
    }
  }
}
