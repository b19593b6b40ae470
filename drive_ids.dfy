/**
 * `extract_drive_id`: turning a pasted Drive link or id into the bare file or
 * folder id. Every model's `save()` applies it to its id fields.
 */
module DriveIds {
  import opened Wrappers
  import Text

  /** `[a-zA-Z0-9_-]`. */
  predicate IdChar(c: char) {
    ('a' <= c <= 'z') || ('A' <= c <= 'Z') || ('0' <= c <= '9') || c == '_' || c == '-'
  }

  predicate AllIdChars(s: string) {
    forall i :: 0 <= i < |s| ==> IdChar(s[i])
  }

  /** `[a-zA-Z0-9_-]+` matched greedily at the start of `s`. */
  function IdRun(s: string): (r: string)
    ensures |r| <= |s| && r == s[..|r|] && AllIdChars(r)
    ensures |r| < |s| ==> !IdChar(s[|r|])
  {
    if s != [] && IdChar(s[0]) then
      var rest := IdRun(s[1..]);
      assert s[1..][..|rest|] == s[1..|rest| + 1];
      [s[0]] + rest
    else []
  }

  /** `re.search(marker + "([a-zA-Z0-9_-]+)", v)`: the group of the leftmost match. */
  function SearchId(v: string, marker: string): (r: Option<string>)
    requires marker != []
    ensures r.Some? ==> r.value != [] && AllIdChars(r.value)
    decreases |v|
  {
    if Text.StartsWith(v, marker) && |v| > |marker| && IdChar(v[|marker|]) then Some(IdRun(v[|marker|..]))
    else if v == [] then None
    else SearchId(v[1..], marker)
  }

  /** `re.search(r"[?&]id=([a-zA-Z0-9_-]+)", v)`: the group of the leftmost match. */
  function SearchQueryId(v: string): (r: Option<string>)
    ensures r.Some? ==> r.value != [] && AllIdChars(r.value)
    decreases |v|
  {
    if |v| > 4 && (v[0] == '?' || v[0] == '&') && v[1..4] == "id=" && IdChar(v[4]) then Some(IdRun(v[4..]))
    else if v == [] then None
    else SearchQueryId(v[1..])
  }

  /** A marker whose first character does not occur is never found. */
  lemma {:induction false} SearchIdAbsent(v: string, marker: string)
    requires marker != [] && marker[0] !in v
    ensures SearchId(v, marker).None?
    decreases |v|
  {
    if v != [] {
      assert v[0] != marker[0];
      SearchIdAbsent(v[1..], marker);
    }
  }

  /** Without '?' and '&' the query pattern never matches. */
  lemma {:induction false} SearchQueryIdAbsent(v: string)
    requires '?' !in v && '&' !in v
    ensures SearchQueryId(v).None?
    decreases |v|
  {
    if v != [] {
      assert v[0] != '?' && v[0] != '&';
      SearchQueryIdAbsent(v[1..]);
    }
  }

  /** `if c in v: v = v.split(c, 1)[0].strip()`. */
  function Cut(v: string, c: char): (r: string)
    ensures c !in r
    ensures Text.IsStripped(v) ==> Text.IsStripped(r)
  {
    if c in v then
      Text.StripSubset(Text.BeforeFirst(v, c));
      Text.Strip(Text.BeforeFirst(v, c))
    else v
  }

  /** Cutting adds no character. */
  lemma CutKeepsAbsent(v: string, c: char, d: char)
    requires d !in v
    ensures d !in Cut(v, c)
  {
    Text.StripSubset(Text.BeforeFirst(v, c));
  }

  /** The value stripped, then cut before the first '?', then cut before the first '&'. */
  function Prepare(value: string): (v: string)
    ensures '?' !in v && '&' !in v && Text.IsStripped(v)
  {
    var v2 := Cut(Text.Strip(value), '?');
    CutKeepsAbsent(v2, '&', '?');
    Cut(v2, '&')
  }

  /** The link part: an http value gives its file id, else its folder id, else its query id, else itself. */
  function Decide(v: string): (r: string)
    ensures r == v || (r != [] && AllIdChars(r))
  {
    if Text.StartsWith(v, "http") then
      match SearchId(v, "/d/")
      case Some(id) => id
      case None =>
        match SearchId(v, "/folders/")
        case Some(id) => id
        case None =>
          match SearchQueryId(v)
          case Some(id) => id
          case None => v
    else v
  }

  /** `extract_drive_id`. */
  function ExtractDriveId(value: string): (r: string)
    ensures value == [] ==> r == []
    ensures '?' !in r && '&' !in r && Text.IsStripped(r)
  {
    if value == [] then [] else
      var v := Prepare(value);
      var r := Decide(v);
      if r == v then r else IdsAreStripped(r); r
  }

  /** An id needs no stripping. */
  lemma IdsAreStripped(s: string)
    requires AllIdChars(s)
    ensures Text.IsStripped(s) && '?' !in s && '&' !in s
  {
    if s != [] {
      assert IdChar(s[0]) && IdChar(s[|s| - 1]);
    }
  }

  /** A stripped value without '?' or '&' is prepared already. */
  lemma PrepareFixes(v: string)
    requires Text.IsStripped(v) && '?' !in v && '&' !in v
    ensures Prepare(v) == v
  {
    if v != [] {
      Text.StripFixesStripped(v);
    }
  }

  /** An id has no '/', so no pattern finds anything in it and it is kept. */
  lemma DecideOfId(id: string)
    requires AllIdChars(id)
    ensures Decide(id) == id
  {
    SearchIdAbsent(id, "/d/");
    SearchIdAbsent(id, "/folders/");
    IdsAreStripped(id);
    SearchQueryIdAbsent(id);
  }

  /** Normalising a normalised id changes nothing: `save()` may run any number of times. */
  lemma ExtractDriveIdIdempotent(value: string)
    ensures ExtractDriveId(ExtractDriveId(value)) == ExtractDriveId(value)
  {
    var r := ExtractDriveId(value);
    if r != [] {
      var v := Prepare(value);
      assert r == Decide(v);
      PrepareFixes(r);
      if r != v {
        DecideOfId(r);
      }
    }
  }

  /**
   * Because everything from the first '?' is cut first, the query-id pattern
   * can never match: the third search always finds nothing.
   */
  lemma QueryIdBranchUnreachable(value: string)
    ensures SearchQueryId(Prepare(value)).None?
  {
    SearchQueryIdAbsent(Prepare(value));
  }

  /** Without "http" at the start the value is only stripped and cut. */
  lemma NonHttpOnlyCut(value: string)
    requires value != [] && !Text.StartsWith(Prepare(value), "http")
    ensures ExtractDriveId(value) == Prepare(value)
  {
  }

  /** In a link, the id after "/d/" is preferred to the id after "/folders/". */
  lemma FileIdPreferred(value: string)
    requires value != [] && Text.StartsWith(Prepare(value), "http")
    requires SearchId(Prepare(value), "/d/").Some?
    ensures ExtractDriveId(value) == SearchId(Prepare(value), "/d/").value
  {
  }

  /** The folder id is used when there is no "/d/" id. */
  lemma FolderIdSecond(value: string)
    requires value != [] && Text.StartsWith(Prepare(value), "http")
    requires SearchId(Prepare(value), "/d/").None? && SearchId(Prepare(value), "/folders/").Some?
    ensures ExtractDriveId(value) == SearchId(Prepare(value), "/folders/").value
  {
  }

  /**
   * An "open?id=" link gives back the link up to the '?', never the id it
   * carries (for a link with no "/d/" or "/folders/" id).
   */
  lemma OpenLinkGivesPrefix(link: string, id: string)
    requires Text.StartsWith(link, "http") && Text.IsStripped(link) && '?' !in link && '&' !in link
    requires SearchId(link, "/d/").None? && SearchId(link, "/folders/").None?
    requires id != [] && AllIdChars(id)
    ensures ExtractDriveId(link + "?id=" + id) == link
  {
    var s := link + "?id=" + id;
    PrepareOpenLink(link, id);
    SearchQueryIdAbsent(link);
    assert Decide(link) == link;
  }

  lemma PrepareOpenLink(link: string, id: string)
    requires Text.StartsWith(link, "http") && Text.IsStripped(link) && '?' !in link && '&' !in link
    requires id != [] && AllIdChars(id)
    ensures Prepare(link + "?id=" + id) == link
  {
    var s := link + "?id=" + id;
    assert s == link + ['?'] + ("id=" + id);
    assert s[0] == link[0];
    assert s[|s| - 1] == id[|id| - 1];
    assert IdChar(id[|id| - 1]);
    Text.StripFixesStripped(s);
    assert '?' in s;
    BeforeFirstConcat(link, '?', "id=" + id);
    Text.StripFixesStripped(link);
    assert Cut(s, '?') == link;
    assert Cut(link, '&') == link;
  }

  /** Cutting before the first `c` of `a + [c] + b`, when `a` has no `c`, gives `a`. */
  lemma BeforeFirstConcat(a: string, c: char, b: string)
    requires c !in a
    ensures Text.BeforeFirst(a + [c] + b, c) == a
  {
    var s := a + [c] + b;
    var r := Text.BeforeFirst(s, c);
    assert s[|a|] == c;
    assert s[..|a|] == a;
  }
}
