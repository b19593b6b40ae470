/**
 * The decisions inside the task views: numbering mockup extras, the order
 * of the mockup cards, unique names in the mockup zip, the design-box
 * string of the template position editor, checklist text, which scheduled
 * design applies to a task, the publication status update and the Etsy
 * listing save.
 */
module Views {
  import opened Wrappers
  import Text
  import Sorting
  import Dates
  import Models
  import Records
  import Etsy

  // ---------------------------------------------------------------------
  // Numeric order of a mockup extra
  // ---------------------------------------------------------------------

  /** `re.match(r"\d+", s)`: the longest digit prefix of `s`. */
  function DigitRun(s: string): (r: string)
    ensures |r| <= |s| && r == s[..|r|] && Text.AllDigits(r)
    ensures |r| < |s| ==> !Text.IsDigit(s[|r|])
  {
    if s != [] && Text.IsDigit(s[0]) then
      var rest := DigitRun(s[1..]);
      assert s[1..][..|rest|] == s[1..|rest| + 1];
      [s[0]] + rest
    else []
  }

  predicate NoDigit(s: string) {
    forall i :: 0 <= i < |s| ==> !Text.IsDigit(s[i])
  }

  /** `int(re.search(r"\d+", s).group(0))`: the value of the leftmost run of digits, if any. */
  function FirstNumber(s: string): (r: Option<nat>)
    ensures r.None? <==> NoDigit(s)
    decreases |s|
  {
    if s == [] then None
    else if Text.IsDigit(s[0]) then Some(Text.DigitsValue(DigitRun(s)))
    else
      var r := FirstNumber(s[1..]);
      assert NoDigit(s[1..]) <==> NoDigit(s) by {
        if NoDigit(s[1..]) {
          forall i | 0 <= i < |s|
            ensures !Text.IsDigit(s[i])
          {
            if i > 0 {
              assert s[i] == s[1..][i - 1];
            }
          }
        }
      }
      r
  }

  /** The number one value gives: `None` for a missing or blank value or one without digits. */
  function ValueNumber(v: Option<string>): Option<nat> {
    if v.None? || Text.Strip(v.value) == [] then None else FirstNumber(Text.Strip(v.value))
  }

  /** `_extract_numeric_order(*values)`: the number of the first value that has one. */
  function NumericOrder(values: seq<Option<string>>): Option<nat> {
    if values == [] then None
    else if ValueNumber(values[0]).Some? then ValueNumber(values[0])
    else NumericOrder(values[1..])
  }

  /** The loop of `_extract_numeric_order`. */
  method ExtractNumericOrder(values: seq<Option<string>>) returns (r: Option<nat>)
    ensures r == NumericOrder(values)
  {
    var k := 0;
    while k < |values|
      invariant 0 <= k <= |values|
      invariant NumericOrder(values) == NumericOrder(values[k..])
    {
      assert values[k..][1..] == values[k + 1..];
      var value := values[k];
      if value.Some? {
        var text := Text.Strip(value.value);
        if text != [] {
          var m := FirstNumber(text);
          if m.Some? {
            return m;
          }
        }
      }
      k := k + 1;
    }
    return None;
  }

  /** A value has a number exactly when it is present and contains a digit. */
  lemma ValueNumberIff(v: Option<string>)
    ensures ValueNumber(v).None? <==> v.None? || NoDigit(v.value)
  {
    if v.Some? {
      var t := Text.Strip(v.value);
      Text.StripSubset(v.value);
      if !NoDigit(v.value) {
        var i :| 0 <= i < |v.value| && Text.IsDigit(v.value[i]);
        Text.StripKeepsNonSpace(v.value, i);
        var j :| 0 <= j < |t| && t[j] == v.value[i];
      } else if t != [] {
        forall j | 0 <= j < |t|
          ensures !Text.IsDigit(t[j])
        {
          assert t[j] in v.value;
        }
      }
    }
  }

  /** There is no number exactly when no value contains a digit; otherwise the first such value gives it. */
  lemma {:induction false} NumericOrderNoneIff(values: seq<Option<string>>)
    ensures NumericOrder(values).None? <==> forall i :: 0 <= i < |values| ==> values[i].None? || NoDigit(values[i].value)
  {
    if values != [] {
      ValueNumberIff(values[0]);
      NumericOrderNoneIff(values[1..]);
      assert forall i :: 1 <= i < |values| ==> values[i] == values[1..][i - 1];
    }
  }

  /** The number is the one of the first value with a digit, and earlier values have none. */
  lemma {:induction false} NumericOrderFirst(values: seq<Option<string>>, k: nat)
    requires k < |values| && ValueNumber(values[k]).Some?
    requires forall i :: 0 <= i < k ==> ValueNumber(values[i]).None?
    ensures NumericOrder(values) == ValueNumber(values[k])
  {
    if k > 0 {
      assert forall i :: 0 <= i < k - 1 ==> values[1..][i] == values[i + 1];
      NumericOrderFirst(values[1..], k - 1);
    }
  }

  // ---------------------------------------------------------------------
  // Mockup cards
  // ---------------------------------------------------------------------

  function Max(a: nat, b: nat): nat {
    if a < b then b else a
  }

  /** `max(6, len(folder_images), template_count)` (the two-argument form when there are no images). */
  function SlotCount(imageCount: nat, templateCount: nat): (n: nat)
    ensures n >= 6 && n >= imageCount && n >= templateCount
    ensures n == 6 || n == imageCount || n == templateCount
  {
    if imageCount > 0 then Max(Max(6, imageCount), templateCount) else Max(6, templateCount)
  }

  /** A template attachment shown as an extra: its label (or file name) and file name. */
  datatype Extra = Extra(caption: string, filename: string)

  /** A card on the mockup page: a slot by its order, or an extra with its number. */
  datatype Card = SlotCard(order: nat) | ExtraCard(number: Option<nat>, caption: string)

  /** The first sort field: the slot order, the extra's number, or 999999. */
  function SortNumber(c: Card): nat {
    match c
    case SlotCard(order) => order
    case ExtraCard(number, _) => number.GetOr(999999)
  }

  function Kind(c: Card): nat {
    if c.SlotCard? then 0 else 1
  }

  function CardLabel(c: Card): string {
    if c.ExtraCard? then c.caption else ""
  }

  function CardOrder(c: Card): nat {
    if c.SlotCard? then c.order else 0
  }

  /** The sort key `(sort_number, kind, label, order)` of `a` is at most that of `b`. */
  predicate CardLe(a: Card, b: Card) {
    SortNumber(a) < SortNumber(b)
    || (SortNumber(a) == SortNumber(b)
        && (Kind(a) < Kind(b)
            || (Kind(a) == Kind(b)
                && (Text.StrLess(CardLabel(a), CardLabel(b))
                    || (CardLabel(a) == CardLabel(b) && CardOrder(a) <= CardOrder(b))))))
  }

  /** The card key order compares every pair of cards and is transitive. */
  lemma CardLeTotalPreorder()
    ensures Sorting.TotalPreorder(CardLe)
  {
    forall a: Card, b: Card
      ensures CardLe(a, b) || CardLe(b, a)
    {
      Text.StrLessTotal(CardLabel(a), CardLabel(b));
    }
    forall a: Card, b: Card, c: Card | CardLe(a, b) && CardLe(b, c)
      ensures CardLe(a, c)
    {
      if Text.StrLess(CardLabel(a), CardLabel(b)) && Text.StrLess(CardLabel(b), CardLabel(c)) {
        Text.StrLessTransitive(CardLabel(a), CardLabel(b), CardLabel(c));
      }
    }
  }

  /** The folder image at a 1-based slot position (`slot_images.get(order)`), `""` if none. */
  function FolderImage(imageIds: seq<string>, order: nat): string {
    if 1 <= order <= |imageIds| then imageIds[order - 1] else ""
  }

  /** A slot is shown when it has a file, a folder image at its position, or is required. */
  predicate Shown(s: Models.Slot, imageIds: seq<string>, required: set<nat>) {
    s.driveFileId != [] || FolderImage(imageIds, s.order) != [] || s.order in required
  }

  /** The slot cards of the shown slots, in slot order. */
  function SlotCards(slots: seq<Models.Slot>, imageIds: seq<string>, required: set<nat>): (cards: seq<Card>)
    ensures |cards| <= |slots|
    ensures forall i :: 0 <= i < |cards| ==> cards[i].SlotCard?
  {
    if slots == [] then []
    else
      (if Shown(slots[0], imageIds, required) then [SlotCard(slots[0].order)] else [])
        + SlotCards(slots[1..], imageIds, required)
  }

  /** A slot has a card exactly when it is shown. */
  lemma {:induction false} SlotCardsIff(slots: seq<Models.Slot>, imageIds: seq<string>, required: set<nat>, order: nat)
    ensures SlotCard(order) in SlotCards(slots, imageIds, required) <==>
      exists i :: 0 <= i < |slots| && slots[i].order == order && Shown(slots[i], imageIds, required)
  {
    if slots != [] {
      SlotCardsIff(slots[1..], imageIds, required, order);
      assert forall i :: 1 <= i < |slots| ==> slots[i] == slots[1..][i - 1];
    }
  }

  /** The extra cards, numbered from their label, then their file name. */
  function ExtraCards(extras: seq<Extra>): (cards: seq<Card>)
    ensures |cards| == |extras|
    ensures forall i :: 0 <= i < |extras| ==>
      cards[i] == ExtraCard(NumericOrder([Some(extras[i].caption), Some(extras[i].filename)]), extras[i].caption)
  {
    if extras == [] then []
    else [ExtraCard(NumericOrder([Some(extras[0].caption), Some(extras[0].filename)]), extras[0].caption)] + ExtraCards(extras[1..])
  }

  /** `mockup_cards` after `sort`: all slot and extra cards, in key order. */
  function MockupCards(slots: seq<Models.Slot>, imageIds: seq<string>, required: set<nat>, extras: seq<Extra>): seq<Card> {
    Sorting.SortBy(SlotCards(slots, imageIds, required) + ExtraCards(extras), CardLe)
  }

  /** The cards are exactly the slot and extra cards, ordered by their key. */
  lemma MockupCardsSorted(slots: seq<Models.Slot>, imageIds: seq<string>, required: set<nat>, extras: seq<Extra>)
    ensures var cards := MockupCards(slots, imageIds, required, extras);
      multiset(cards) == multiset(SlotCards(slots, imageIds, required) + ExtraCards(extras))
      && Sorting.SortedBy(cards, CardLe)
  {
    CardLeTotalPreorder();
    Sorting.SortBySorted(SlotCards(slots, imageIds, required) + ExtraCards(extras), CardLe);
  }

  /** A slot card comes before an extra card with the same number. */
  lemma SlotBeforeExtra(order: nat, caption: string)
    ensures CardLe(SlotCard(order), ExtraCard(Some(order), caption))
    ensures !CardLe(ExtraCard(Some(order), caption), SlotCard(order))
  {
  }

  /** An extra without a number sorts after every slot numbered below 999999. */
  lemma UnnumberedExtraLast(order: nat, caption: string)
    requires order < 999999
    ensures CardLe(SlotCard(order), ExtraCard(None, caption))
    ensures !CardLe(ExtraCard(None, caption), SlotCard(order))
  {
  }

  // ---------------------------------------------------------------------
  // Unique names inside the mockup zip
  // ---------------------------------------------------------------------

  /** The `idx`-th renaming of `base`: `-idx` before the last extension, or at the end without a dot. */
  function Renamed(base: string, idx: nat): (r: string)
    ensures |r| > |base|
  {
    var dot := Text.LastIndexOf(base, '.');
    if dot >= 0 then base[..dot] + "-" + Text.NatToString(idx) + "." + base[dot + 1..]
    else base + "-" + Text.NatToString(idx)
  }

  /** The names tried in turn: the name itself, then its renamings from index 2. */
  function Candidate(name: string, m: nat): string {
    if m == 0 then name else Renamed(name, m + 1)
  }

  /** Different indices give different renamings. */
  lemma RenamedInjective(base: string, i: nat, j: nat)
    requires Renamed(base, i) == Renamed(base, j)
    ensures i == j
  {
    var dot := Text.LastIndexOf(base, '.');
    var si, sj := Text.NatToString(i), Text.NatToString(j);
    if dot >= 0 {
      var p, q := base[..dot] + "-", "." + base[dot + 1..];
      assert Renamed(base, i) == p + si + q && Renamed(base, j) == p + sj + q;
      assert |si| == |sj|;
      SliceMiddle(p, si, q);
      SliceMiddle(p, sj, q);
    } else {
      var a, b := base + "-" + si, base + "-" + sj;
      assert a == Renamed(base, i) && b == Renamed(base, j);
      assert a[|base| + 1..] == si;
      assert b[|base| + 1..] == sj;
    }
    Text.NatToStringInjective(i, j);
  }

  /** The middle of a three-part concatenation. */
  lemma SliceMiddle(p: string, m: string, q: string)
    ensures (p + m + q)[|p|..|p| + |m|] == m
  {
  }

  lemma CandidateInjective(name: string, a: nat, b: nat)
    requires Candidate(name, a) == Candidate(name, b)
    ensures a == b
  {
    if a > 0 && b > 0 {
      RenamedInjective(name, a + 1, b + 1);
    }
  }

  /** The first `n` candidates. */
  ghost function Tried(name: string, n: nat): set<string> {
    set m | 0 <= m < n :: Candidate(name, m)
  }

  /** The names given out so far in one zip. */
  class ZipNames {
    var seen: set<string>

    constructor()
      ensures seen == {}
    {
      seen := {};
    }

    /**
     * `unique_name(name)`: the first candidate not given out yet, which is
     * then recorded.
     */
    method UniqueName(name: string) returns (r: string)
      modifies this
      ensures r !in old(seen) && seen == old(seen) + {r}
      ensures exists m: nat :: r == Candidate(name, m) && forall j :: 0 <= j < m ==> Candidate(name, j) in old(seen)
    {
      var base := name;
      var idx := 2;
      r := name;
      ghost var tried: set<string> := {};
      while r in seen
        invariant seen == old(seen)
        invariant idx >= 2 && r == Candidate(name, idx - 2)
        invariant tried == Tried(name, idx - 2) && tried <= seen && |tried| == idx - 2
        invariant forall j :: 0 <= j < idx - 2 ==> Candidate(name, j) in seen
        decreases |seen| - |tried|
      {
        ghost var next := tried + {r};
        TriedStep(name, idx - 2);
        assert next <= seen && |next| <= |seen| by {
          SubsetCard(next, seen);
        }
        tried := next;
        Text.LastIndexOfFound(base, '.');
        if '.' in base {
          var dot := Text.LastIndexOf(base, '.');
          r := base[..dot] + "-" + Text.NatToString(idx) + "." + base[dot + 1..];
        } else {
          r := base + "-" + Text.NatToString(idx);
        }
        idx := idx + 1;
      }
      seen := seen + {r};
    }
  }

  /** The next candidate has not been tried yet. */
  lemma CandidateNew(name: string, n: nat)
    ensures Candidate(name, n) !in Tried(name, n)
  {
    if Candidate(name, n) in Tried(name, n) {
      var m :| 0 <= m < n && Candidate(name, m) == Candidate(name, n);
      CandidateInjective(name, m, n);
    }
  }

  /** One more try adds the next candidate, which is new. */
  lemma TriedStep(name: string, n: nat)
    ensures Tried(name, n + 1) == Tried(name, n) + {Candidate(name, n)}
    ensures |Tried(name, n + 1)| == |Tried(name, n)| + 1
  {
    CandidateNew(name, n);
  }

  lemma SubsetCard(a: set<string>, b: set<string>)
    requires a <= b
    ensures |a| <= |b|
  {
    assert b == a + (b - a);
  }

  /** The first clash on a name with two dots renames before the last one. */
  lemma FirstCollisionExample()
    ensures Renamed("a.b.png", 2) == "a.b-2.png"
  {
    var name := "a.b.png";
    assert name[3] == '.' && name[4] != '.' && name[5] != '.' && name[6] != '.';
    assert Text.LastIndexOf(name, '.') == 3;
    assert name[..3] == "a.b" && name[4..] == "png";
    assert Text.NatToString(2) == "2";
  }

  // ---------------------------------------------------------------------
  // Design boxes posted by the position editor
  // ---------------------------------------------------------------------

  /** A Python float: a real number, or an infinity or NaN. */
  datatype PyFloat = Finite(value: real) | NonFinite

  /** `int(x)` for a float: truncation toward zero; infinities and NaN raise. */
  function IntOf(f: PyFloat): (r: Option<int>)
    ensures f.Finite? && f.value >= 0.0 ==> r == Some(f.value.Floor)
    ensures f.Finite? && f.value < 0.0 ==> r == Some(-((-f.value).Floor))
    ensures f.NonFinite? ==> r.None?
  {
    match f
    case NonFinite => None
    case Finite(v) => Some(if v >= 0.0 then v.Floor else -((-v).Floor))
  }

  /**
   * The stored box: its 1-based order, position, size and rotation. Position
   * and size are positive-integer columns, so a stored box never holds a
   * negative one.
   */
  datatype BoxRow = BoxRow(order: nat, x: nat, y: nat, width: nat, height: nat, rotation: PyFloat)

  /** What one `;`-separated part gives: nothing, a box, or an exception. */
  datatype PartResult = SkipPart | BoxPart(box: BoxRow) | Raises

  /** `int(float(v))` of a text field, with `float` given by `toFloat`. */
  function IntField(v: string, toFloat: string -> Option<PyFloat>): Option<int> {
    match toFloat(v)
    case None => None
    case Some(f) => IntOf(f)
  }

  /** A field that parses to an integer the positive-integer column accepts. */
  predicate StorableField(v: string, toFloat: string -> Option<PyFloat>) {
    IntField(v, toFloat).Some? && IntField(v, toFloat).value >= 0
  }

  /**
   * One part of the boxes string, numbered `order` if it is a box. A field
   * that does not convert raises, and so does a negative position or size:
   * the row's `create` then fails the column's non-negative constraint.
   */
  function ParsePart(part: string, order: nat, toFloat: string -> Option<PyFloat>): (r: PartResult)
    ensures r.BoxPart? ==> r.box.order == order
    ensures r.SkipPart? <==> |Text.Split(part, ',')| != 4 && |Text.Split(part, ',')| != 5
    ensures r.BoxPart? && |Text.Split(part, ',')| == 4 ==> r.box.rotation == Finite(0.0)
    ensures r.BoxPart? ==>
              && Some(r.box.x) == IntField(Text.Split(part, ',')[0], toFloat)
              && Some(r.box.y) == IntField(Text.Split(part, ',')[1], toFloat)
              && Some(r.box.width) == IntField(Text.Split(part, ',')[2], toFloat)
              && Some(r.box.height) == IntField(Text.Split(part, ',')[3], toFloat)
  {
    var vals := Text.Split(part, ',');
    if |vals| != 4 && |vals| != 5 then SkipPart
    else
      var x, y, w, h := IntField(vals[0], toFloat), IntField(vals[1], toFloat), IntField(vals[2], toFloat), IntField(vals[3], toFloat);
      if x.None? || y.None? || w.None? || h.None? then Raises
      else
        var rot := if |vals| == 4 then Some(Finite(0.0)) else toFloat(vals[4]);
        if rot.None? then Raises
        else if x.value < 0 || y.value < 0 || w.value < 0 || h.value < 0 then Raises
        else BoxPart(BoxRow(order, x.value, y.value, w.value, h.value, rot.value))
  }

  /** A part of four or five fields is a box exactly when its four integers are storable and its rotation converts. */
  lemma ParsePartBoxIff(part: string, order: nat, toFloat: string -> Option<PyFloat>)
    requires |Text.Split(part, ',')| == 4 || |Text.Split(part, ',')| == 5
    ensures ParsePart(part, order, toFloat).BoxPart? <==>
      var vals := Text.Split(part, ',');
      StorableField(vals[0], toFloat) && StorableField(vals[1], toFloat)
      && StorableField(vals[2], toFloat) && StorableField(vals[3], toFloat)
      && (|vals| == 5 ==> toFloat(vals[4]).Some?)
    ensures !ParsePart(part, order, toFloat).BoxPart? ==> ParsePart(part, order, toFloat).Raises?
  {
  }

  /** `[p for p in raw.split(";") if p.strip()]`. */
  function NonBlank(parts: seq<string>): (r: seq<string>)
    ensures |r| <= |parts|
    ensures forall i :: 0 <= i < |r| ==> Text.Strip(r[i]) != []
  {
    if parts == [] then []
    else (if Text.Strip(parts[0]) != [] then [parts[0]] else []) + NonBlank(parts[1..])
  }

  /** The boxes the parts create from number `order` on, and whether a part raised (ending the loop). */
  function ParseParts(parts: seq<string>, order: nat, toFloat: string -> Option<PyFloat>): (r: (seq<BoxRow>, bool))
    ensures |r.0| <= |parts|
    ensures forall i :: 0 <= i < |r.0| ==> r.0[i].order == order + i
  {
    if parts == [] then ([], false)
    else match ParsePart(parts[0], order, toFloat)
      case SkipPart => ParseParts(parts[1..], order, toFloat)
      case Raises => ([], true)
      case BoxPart(b) =>
        var rest := ParseParts(parts[1..], order + 1, toFloat);
        ([b] + rest.0, rest.1)
  }

  /** Whether a part is a box, is skipped or raises does not depend on its number. */
  lemma ParsePartKind(part: string, order: nat, other: nat, toFloat: string -> Option<PyFloat>)
    ensures ParsePart(part, order, toFloat).Raises? == ParsePart(part, other, toFloat).Raises?
    ensures ParsePart(part, order, toFloat).BoxPart? ==
      (ParsePart(part, other, toFloat).BoxPart? && ParsePart(part, order, toFloat).box == ParsePart(part, other, toFloat).box.(order := order))
  {
  }

  /**
   * The loop raises exactly when some part raises; a part that raises stops it, so
   * without one every box part creates its box.
   */
  lemma {:induction false} ParsePartsRaisesIff(parts: seq<string>, order: nat, toFloat: string -> Option<PyFloat>)
    ensures ParseParts(parts, order, toFloat).1 <==>
      exists i :: 0 <= i < |parts| && ParsePart(parts[i], 0, toFloat).Raises?
    ensures !ParseParts(parts, order, toFloat).1 ==>
      |ParseParts(parts, order, toFloat).0| == |BoxParts(parts, toFloat)|
  {
    if parts != [] {
      ParsePartKind(parts[0], order, 0, toFloat);
      ParsePartsRaisesIff(parts[1..], order, toFloat);
      ParsePartsRaisesIff(parts[1..], order + 1, toFloat);
      assert forall i :: 1 <= i < |parts| ==> parts[i] == parts[1..][i - 1];
      if exists i :: 1 <= i < |parts| && ParsePart(parts[i], 0, toFloat).Raises? {
        var i :| 1 <= i < |parts| && ParsePart(parts[i], 0, toFloat).Raises?;
        assert ParsePart(parts[1..][i - 1], 0, toFloat).Raises?;
      }
    }
  }

  /** The parts that are boxes, as numbered 0. */
  function BoxParts(parts: seq<string>, toFloat: string -> Option<PyFloat>): (r: seq<string>)
    ensures |r| <= |parts|
  {
    if parts == [] then []
    else (if ParsePart(parts[0], 0, toFloat).BoxPart? then [parts[0]] else []) + BoxParts(parts[1..], toFloat)
  }

  /** The non-blank `;`-separated parts of the posted boxes string. */
  function BoxStrings(raw: string): seq<string> {
    NonBlank(Text.Split(raw, ';'))
  }

  /** The boxes of the posted string, numbered from 1, and whether parsing raised. */
  function ParseBoxes(raw: string, toFloat: string -> Option<PyFloat>): (r: (seq<BoxRow>, bool))
    ensures r.1 <==> exists i :: 0 <= i < |BoxStrings(raw)| && ParsePart(BoxStrings(raw)[i], 0, toFloat).Raises?
    ensures !r.1 ==> |r.0| == |BoxParts(BoxStrings(raw), toFloat)|
    ensures forall i :: 0 <= i < |r.0| ==> r.0[i].order == i + 1
  {
    ParsePartsRaisesIff(BoxStrings(raw), 1, toFloat);
    ParseParts(BoxStrings(raw), 1, toFloat)
  }

  /** The creation loop over the parts: one box per well-formed part, numbered without gaps. */
  method CreateBoxes(parts: seq<string>, toFloat: string -> Option<PyFloat>) returns (boxes: seq<BoxRow>, raised: bool)
    ensures (boxes, raised) == ParseParts(parts, 1, toFloat)
    ensures raised <==> exists i :: 0 <= i < |parts| && ParsePart(parts[i], 0, toFloat).Raises?
    ensures !raised ==> |boxes| == |BoxParts(parts, toFloat)|
  {
    ParsePartsRaisesIff(parts, 1, toFloat);
    boxes := [];
    raised := false;
    var order := 1;
    var k := 0;
    assert parts[k..] == parts;
    assert boxes + ParseParts(parts, 1, toFloat).0 == ParseParts(parts, 1, toFloat).0;
    while k < |parts|
      invariant 0 <= k <= |parts| && order == |boxes| + 1
      invariant ParseParts(parts, 1, toFloat) == (boxes + ParseParts(parts[k..], order, toFloat).0, ParseParts(parts[k..], order, toFloat).1)
    {
      assert parts[k..][1..] == parts[k + 1..];
      match ParsePart(parts[k], order, toFloat) {
        case SkipPart =>
        case Raises =>
          assert boxes + [] == boxes;
          return boxes, true;
        case BoxPart(b) =>
          assert boxes + ([b] + ParseParts(parts[k + 1..], order + 1, toFloat).0)
            == (boxes + [b]) + ParseParts(parts[k + 1..], order + 1, toFloat).0;
          boxes := boxes + [b];
          order := order + 1;
      }
      k := k + 1;
    }
    assert parts[k..] == [];
    assert boxes + [] == boxes;
  }

  /** A part with five fields keeps the rotation it gives. */
  lemma FiveFieldRotation(part: string, order: nat, toFloat: string -> Option<PyFloat>)
    requires |Text.Split(part, ',')| == 5
    requires ParsePart(part, order, toFloat).BoxPart?
    ensures Some(ParsePart(part, order, toFloat).box.rotation) == toFloat(Text.Split(part, ',')[4])
  {
  }

  /** The position and size of the design on a mockup template; positive-integer columns. */
  datatype Placement = Placement(x: nat, y: nat, width: nat, height: nat)

  /**
   * A posted integer field as it can be saved: kept when absent, `int(text)`
   * otherwise, and `None` when the text is not an integer or is negative (the
   * save then fails the column's non-negative constraint).
   */
  function PostedInt(v: Option<string>, current: nat): (r: Option<nat>)
    ensures v.None? ==> r == Some(current)
    ensures v.Some? ==> (r.Some? <==> Text.ParseInt(v.value).Some? && Text.ParseInt(v.value).value >= 0)
    ensures v.Some? && r.Some? ==> r.value == Text.ParseInt(v.value).value
  {
    if v.None? then Some(current)
    else match Text.ParseInt(v.value)
      case None => None
      case Some(n) => if n >= 0 then Some(n) else None
  }

  /** The four posted fields read over the current placement; `None` if one of them cannot be saved. */
  function PostedPlacement(x: Option<string>, y: Option<string>, w: Option<string>, h: Option<string>, current: Placement)
    : Option<Placement>
  {
    var px, py, pw, ph := PostedInt(x, current.x), PostedInt(y, current.y), PostedInt(w, current.width),
                          PostedInt(h, current.height);
    if px.None? || py.None? || pw.None? || ph.None? then None
    else Some(Placement(px.value, py.value, pw.value, ph.value))
  }

  /** A posted field the save accepts: an integer that is not negative. */
  predicate Storable(v: string) {
    Text.ParseInt(v).Some? && Text.ParseInt(v).value >= 0
  }

  /** Absent fields keep their value; a field that does not parse, or is negative, makes the whole post fail. */
  lemma PostedPlacementFields(x: Option<string>, y: Option<string>, w: Option<string>, h: Option<string>, current: Placement)
    ensures PostedPlacement(x, y, w, h, current).Some? <==>
      (x.None? || Storable(x.value)) && (y.None? || Storable(y.value))
      && (w.None? || Storable(w.value)) && (h.None? || Storable(h.value))
    ensures x.None? && y.None? && w.None? && h.None? ==> PostedPlacement(x, y, w, h, current) == Some(current)
    ensures PostedPlacement(x, y, w, h, current).Some? && x.Some? ==>
      Some(PostedPlacement(x, y, w, h, current).value.x) == Text.ParseInt(x.value)
  {
  }

  /** The overlay position after a post: changed only to "OVER" or "UNDER". */
  function PostedOverlay(v: Option<string>, current: string): (r: string)
    ensures r == current || r == "OVER" || r == "UNDER"
    ensures v == Some("OVER") || v == Some("UNDER") ==> r == v.value
    ensures v != Some("OVER") && v != Some("UNDER") ==> r == current
  {
    if v == Some("OVER") || v == Some("UNDER") then v.value else current
  }

  /** A mockup template: its slide order and the stored placement of its design. */
  class MockupTemplate {
    var order: nat
    var placement: Placement
    var overlayPosition: string
    var boxes: seq<BoxRow>

    constructor(order: nat, placement: Placement, overlay: string, boxes: seq<BoxRow>)
      ensures this.order == order && this.placement == placement && overlayPosition == overlay && this.boxes == boxes
    {
      this.order := order;
      this.placement := placement;
      overlayPosition := overlay;
      this.boxes := boxes;
    }

    /**
     * `mockup_template_position_save`: the four integers and the overlay
     * position are saved together (nothing is saved if an integer does not
     * parse); a non-empty boxes string then replaces the boxes, and a part
     * that raises ends the loop with the boxes created so far.
     */
    method PositionSave(x: Option<string>, y: Option<string>, w: Option<string>, h: Option<string>,
                        overlay: Option<string>, boxesRaw: string, toFloat: string -> Option<PyFloat>)
      returns (ok: bool)
      modifies this
      ensures order == old(order)
      ensures PostedPlacement(x, y, w, h, old(placement)).None? ==>
        !ok && placement == old(placement) && overlayPosition == old(overlayPosition) && boxes == old(boxes)
      ensures PostedPlacement(x, y, w, h, old(placement)).Some? ==>
        placement == PostedPlacement(x, y, w, h, old(placement)).value
        && overlayPosition == PostedOverlay(overlay, old(overlayPosition))
        && (boxesRaw == [] ==> ok && boxes == old(boxes))
        && (boxesRaw != [] ==> boxes == ParseBoxes(boxesRaw, toFloat).0 && ok == !ParseBoxes(boxesRaw, toFloat).1)
    {
      var posted := PostedPlacement(x, y, w, h, placement);
      if posted.None? {
        return false;
      }
      placement := posted.value;
      overlayPosition := PostedOverlay(overlay, overlayPosition);
      ok := true;
      if boxesRaw != [] {
        var parts := NonBlank(Text.Split(boxesRaw, ';'));
        var created, raised := CreateBoxes(parts, toFloat);
        boxes := created;
        ok := !raised;
      }
    }
  }

  // ---------------------------------------------------------------------
  // Checklist text
  // ---------------------------------------------------------------------

  /** `_parse_steps`: the stripped, non-empty lines, in order. */
  function ParseSteps(raw: string): (steps: seq<string>)
    ensures forall i :: 0 <= i < |steps| ==> steps[i] != [] && Text.IsStripped(steps[i])
  {
    if raw == [] then [] else Text.NonEmptyLines(raw)
  }

  /** Steps written one per line are read back unchanged. */
  lemma ParseStepsOfLines(lines: seq<string>)
    requires forall i :: 0 <= i < |lines| ==> lines[i] != [] && Text.IsStripped(lines[i]) && Text.NoLineBreak(lines[i])
    ensures ParseSteps(Text.Join(lines, "\n")) == lines
  {
    Text.NonEmptyLinesJoin(lines);
  }

  // ---------------------------------------------------------------------
  // The scheduled design of a task
  // ---------------------------------------------------------------------

  /**
   * `_get_scheduled_design_for_task`: the entry for the task's recurring
   * task on that date and store, else the entry for all tasks; a missing
   * store matches only store-less entries.
   */
  function ScheduledForTask(table: seq<Records.ScheduledDesign>, recurring: Option<nat>, date: Dates.Date,
                            store: Option<nat>): (r: Option<Records.ScheduledDesign>)
    ensures r.Some? ==> r.value in table && r.value.dueDate == date && r.value.store == store
    ensures r.Some? ==> r.value.recurringTask.None? || r.value.recurringTask == recurring
  {
    var own := if recurring.Some? then Records.FindSchedule(table, date, recurring, store) else None;
    if own.Some? then Some(table[own.value])
    else match Records.FindSchedule(table, date, None, store)
      case None => None
      case Some(i) => Some(table[i])
  }

  /** The task-specific entry wins over the entry for all tasks. */
  lemma TaskEntryPreferred(table: seq<Records.ScheduledDesign>, rt: nat, date: Dates.Date, store: Option<nat>, k: nat)
    requires k < |table| && Records.HasKey(table[k], date, Some(rt), store)
    ensures ScheduledForTask(table, Some(rt), date, store).Some?
    ensures ScheduledForTask(table, Some(rt), date, store).value.recurringTask == Some(rt)
  {
  }

  /** Without a task-specific entry the entry for all tasks is used, and without either there is none. */
  lemma GlobalEntryFallback(table: seq<Records.ScheduledDesign>, recurring: Option<nat>, date: Dates.Date,
                            store: Option<nat>)
    requires recurring.None? || Records.FindSchedule(table, date, recurring, store).None?
    ensures ScheduledForTask(table, recurring, date, store) ==
      (match Records.FindSchedule(table, date, None, store)
       case None => None
       case Some(i) => Some(table[i]))
  {
  }

  // ---------------------------------------------------------------------
  // Publication status update
  // ---------------------------------------------------------------------

  /** A task's publication in one store. */
  datatype Publication = Publication(status: string, listingUrl: string)

  /** A new publication: queued, without a URL. */
  const NewPublication := Publication("QUEUED", "")

  /**
   * One posted item: not an object, or an object with `int(store_id)`
   * (`None` if that raises) and the `str()` of its status and URL.
   */
  datatype PubItem = NotObject | PubEntry(storeId: Option<int>, status: string, listingUrl: string)

  /** A status the publication may take (the field's choices). */
  predicate KnownStatus(status: string) {
    status == "QUEUED" || status == "LISTED"
  }

  /** The publication after a posted status and URL (both already normalised). */
  function Updated(pub: Publication, status: string, url: string): (r: Publication)
    ensures r.status == (if KnownStatus(status) then status else pub.status)
    ensures r.listingUrl == url
    ensures r != pub <==> (KnownStatus(status) && status != pub.status) || url != pub.listingUrl
  {
    Publication(if KnownStatus(status) && status != pub.status then status else pub.status,
                if url != pub.listingUrl then url else pub.listingUrl)
  }

  /** `str(item.get("status") or "").strip().upper()`. */
  function PostedStatus(item: PubItem): string
    requires item.PubEntry?
  {
    Text.Upper(Text.Strip(item.status))
  }

  /** `str(item.get("listing_url") or "").strip()`. */
  function PostedUrl(item: PubItem): string
    requires item.PubEntry?
  {
    Text.Strip(item.listingUrl)
  }

  /** The publications and whether this item changed one, after one item. */
  function PubStep(pubs: map<int, Publication>, stores: set<int>, item: PubItem): (r: (map<int, Publication>, bool))
  {
    if item.NotObject? || item.storeId.None? then (pubs, false)
    else
      var sid := item.storeId.value;
      if sid !in pubs && sid !in stores then (pubs, false)
      else
        var pub := if sid in pubs then pubs[sid] else NewPublication;
        var newPub := Updated(pub, PostedStatus(item), PostedUrl(item));
        (pubs[sid := newPub], newPub != pub)
  }

  /** The publications after the items. */
  function PubsAfter(pubs: map<int, Publication>, stores: set<int>, items: seq<PubItem>): map<int, Publication> {
    if items == [] then pubs
    else PubStep(PubsAfter(pubs, stores, items[..|items| - 1]), stores, items[|items| - 1]).0
  }

  /** The `updated` count after the items: the items that changed a publication. */
  function UpdatedCount(pubs: map<int, Publication>, stores: set<int>, items: seq<PubItem>): nat {
    if items == [] then 0
    else
      UpdatedCount(pubs, stores, items[..|items| - 1])
      + if PubStep(PubsAfter(pubs, stores, items[..|items| - 1]), stores, items[|items| - 1]).1 then 1 else 0
  }

  /** A task's publications, by store id. */
  class Publications {
    var pubs: map<int, Publication>

    constructor(pubs: map<int, Publication>)
      ensures this.pubs == pubs
    {
      this.pubs := pubs;
    }

    /** The loop of `etsy_publications_save`. */
    method SaveAll(items: seq<PubItem>, stores: set<int>) returns (updated: nat)
      modifies this
      ensures pubs == PubsAfter(old(pubs), stores, items) && updated == UpdatedCount(old(pubs), stores, items)
    {
      updated := 0;
      var k := 0;
      while k < |items|
        invariant 0 <= k <= |items|
        invariant pubs == PubsAfter(old(pubs), stores, items[..k]) && updated == UpdatedCount(old(pubs), stores, items[..k])
      {
        ghost var done := items[..k];
        assert items[..k + 1] == done + [items[k]];
        PubItemsSnoc(old(pubs), stores, done, items[k]);
        var changed := SaveItem(items[k], stores);
        if changed {
          updated := updated + 1;
        }
        k := k + 1;
      }
      assert items[..k] == items;
    }

    /** The body of the loop for one item. */
    method SaveItem(item: PubItem, stores: set<int>) returns (changed: bool)
      modifies this
      ensures pubs == PubStep(old(pubs), stores, item).0 && changed == PubStep(old(pubs), stores, item).1
    {
      changed := false;
      if item.NotObject? || item.storeId.None? {
        return;
      }
      var sid := item.storeId.value;
      var status := PostedStatus(item);
      var url := PostedUrl(item);
      if sid !in pubs && sid !in stores {
        return;
      }
      // A store without a publication gets a new one.
      var pub := if sid in pubs then pubs[sid] else NewPublication;
      ghost var before := pub;
      if KnownStatus(status) && status != pub.status {
        pub := pub.(status := status);
        changed := true;
      }
      if url != pub.listingUrl {
        pub := pub.(listingUrl := url);
        changed := true;
      }
      assert pub == Updated(before, status, url);
      pubs := pubs[sid := pub];
    }
  }

  lemma PubItemsSnoc(pubs: map<int, Publication>, stores: set<int>, xs: seq<PubItem>, x: PubItem)
    ensures PubsAfter(pubs, stores, xs + [x]) == PubStep(PubsAfter(pubs, stores, xs), stores, x).0
    ensures UpdatedCount(pubs, stores, xs + [x]) ==
      UpdatedCount(pubs, stores, xs) + if PubStep(PubsAfter(pubs, stores, xs), stores, x).1 then 1 else 0
  {
    var ys := xs + [x];
    assert ys[..|ys| - 1] == xs && ys[|ys| - 1] == x;
  }

  /** Items that are not objects, name no parsable store, or name an unknown store change nothing. */
  lemma PubStepSkips(pubs: map<int, Publication>, stores: set<int>, item: PubItem)
    requires item.NotObject? || item.storeId.None? || (item.storeId.value !in pubs && item.storeId.value !in stores)
    ensures PubStep(pubs, stores, item) == (pubs, false)
  {
  }

  /**
   * An item naming a known store leaves that store's publication with the
   * posted URL and, when it is "QUEUED" or "LISTED", the posted status; it is
   * counted exactly when the publication differs from before; no other
   * store's publication changes.
   */
  lemma PubStepApplies(pubs: map<int, Publication>, stores: set<int>, item: PubItem)
    requires item.PubEntry? && item.storeId.Some? && (item.storeId.value in pubs || item.storeId.value in stores)
    ensures var sid, after := item.storeId.value, PubStep(pubs, stores, item).0;
      var before := if sid in pubs then pubs[sid] else NewPublication;
      var status := PostedStatus(item);
      sid in after && after[sid].listingUrl == PostedUrl(item)
      && after[sid].status == (if KnownStatus(status) then status else before.status)
      && (PubStep(pubs, stores, item).1 <==> after[sid] != before)
      && after.Keys == pubs.Keys + {sid}
      && forall s :: s in pubs && s != sid ==> after[s] == pubs[s]
  {
  }

  /** Statuses stay among "QUEUED" and "LISTED". */
  lemma PubStepStatuses(pubs: map<int, Publication>, stores: set<int>, item: PubItem)
    requires forall s :: s in pubs ==> KnownStatus(pubs[s].status)
    ensures forall s :: s in PubStep(pubs, stores, item).0 ==> KnownStatus(PubStep(pubs, stores, item).0[s].status)
  {
    if item.PubEntry? && item.storeId.Some? && (item.storeId.value in pubs || item.storeId.value in stores) {
      var sid := item.storeId.value;
      var pub := if sid in pubs then pubs[sid] else NewPublication;
      assert KnownStatus(pub.status);
    }
  }

  /** The statuses invariant holds after any list of items, and each item is counted at most once. */
  lemma {:induction false} PubItemsStatuses(pubs: map<int, Publication>, stores: set<int>, items: seq<PubItem>)
    requires forall s :: s in pubs ==> KnownStatus(pubs[s].status)
    ensures forall s :: s in PubsAfter(pubs, stores, items) ==> KnownStatus(PubsAfter(pubs, stores, items)[s].status)
    ensures UpdatedCount(pubs, stores, items) <= |items|
  {
    if items != [] {
      PubItemsStatuses(pubs, stores, items[..|items| - 1]);
      PubStepStatuses(PubsAfter(pubs, stores, items[..|items| - 1]), stores, items[|items| - 1]);
    }
  }

  // ---------------------------------------------------------------------
  // Etsy listing save
  // ---------------------------------------------------------------------

  /** The tag list read from the posted tags field. */
  function PostedTags(tagsIn: string): seq<string> {
    Text.CleanStrings(Text.Split(Text.Strip(tagsIn), ','))
  }

  /** A non-empty tag list that fails validation rejects the whole save. */
  predicate Rejected(tagList: seq<string>) {
    tagList != [] && !Etsy.Validation(tagList).Ok()
  }

  /**
   * The saved tags: cleared by an empty field when there were some, else the
   * posted list when it is non-empty, else unchanged.
   */
  function SavedTags(tagsIn: string, current: Option<seq<string>>): Option<seq<string>> {
    if Text.Strip(tagsIn) == [] && current.Some? && current.value != [] then None
    else if PostedTags(tagsIn) != [] then Some(PostedTags(tagsIn))
    else current
  }

  /** The Etsy fields of a task. */
  class Listing {
    var title: string
    var description: string
    var tags: Option<seq<string>>

    constructor(title: string, description: string, tags: Option<seq<string>>)
      ensures this.title == title && this.description == description && this.tags == tags
    {
      this.title, this.description, this.tags := title, description, tags;
    }

    /**
     * `etsy_listing_save` after the fields are read: a non-empty tag list
     * that fails validation is rejected with nothing saved; otherwise the
     * stripped title and description and the saved tags are stored.
     */
    method Save(titleIn: string, descriptionIn: string, tagsIn: string) returns (ok: bool)
      modifies this
      ensures ok <==> !Rejected(PostedTags(tagsIn))
      ensures !ok ==> title == old(title) && description == old(description) && tags == old(tags)
      ensures ok ==> title == Text.Strip(titleIn) && description == Text.Strip(descriptionIn)
                     && tags == SavedTags(tagsIn, old(tags))
    {
      var tagList, accepted := ReadTags(tagsIn);
      if !accepted {
        return false;
      }
      // The source writes only the fields that differ; the stored values are the same.
      title := Text.Strip(titleIn);
      description := Text.Strip(descriptionIn);
      var clearTags := Text.Strip(tagsIn) == [];
      if clearTags && tags.Some? && tags.value != [] {
        tags := None;
      } else if tagList != [] {
        tags := Some(tagList);
      }
      ok := true;
    }
  }

  /** The tags field normalised and validated: the tag list, and whether the save may go on. */
  method ReadTags(tagsIn: string) returns (tagList: seq<string>, accepted: bool)
    ensures tagList == PostedTags(tagsIn) && accepted == !Rejected(tagList)
  {
    var csv := Text.Strip(tagsIn);
    tagList := Etsy.NormalizeTagsCsv(csv);
    var validation := Etsy.ValidateTags(tagList);
    Text.CleanStringsOfClean(tagList);
    assert validation == Etsy.Validation(tagList);
    accepted := !(tagList != [] && !validation.Ok());
  }

  /** A field of only commas gives no tags, so the save keeps the tags it had. */
  lemma CommasKeepTags(tagsIn: string, current: Option<seq<string>>)
    requires tagsIn != [] && forall i :: 0 <= i < |tagsIn| ==> tagsIn[i] == ','
    ensures SavedTags(tagsIn, current) == current
  {
    Text.StripFixesStripped(tagsIn);
    OnlyCommasNoTags(tagsIn);
  }

  /** Splitting a run of commas gives only empty parts, which cleaning drops. */
  lemma {:induction false} OnlyCommasNoTags(s: string)
    requires forall i :: 0 <= i < |s| ==> s[i] == ','
    ensures Text.CleanStrings(Text.Split(s, ',')) == []
  {
    if s == [] {
      assert Text.Split(s, ',') == [[]];
      assert Text.CleanStrings([[]]) == Text.CleanOne([]) + Text.CleanStrings([]);
    } else {
      var rest := s[1..];
      assert s == [','] + rest;
      Text.SplitLeadingSeparator(rest, ',');
      OnlyCommasNoTags(rest);
      var parts := Text.Split(rest, ',');
      assert ([[]] + parts)[1..] == parts;
      assert Text.CleanStrings([[]] + parts) == Text.CleanOne([]) + Text.CleanStrings(parts);
    }
  }
}
