/**
 * Etsy listing helpers: comma-separated tag lists, the thirteen-tag
 * validation rules, and the listing title suggested from a design's file name.
 */
module Etsy {
  import Text

  /** Etsy tags must stay under 20 characters. */
  const TagMaxLen := 19

  /** Number of tags a listing must carry. */
  const TagCount := 13

  /** Longest title Etsy accepts. */
  const TitleMaxLen := 140

  // ---------------------------------------------------------------------
  // Tag lists
  // ---------------------------------------------------------------------

  /** `normalize_tags_csv`: the stripped, non-empty comma-separated parts, in order. */
  method NormalizeTagsCsv(raw: string) returns (tags: seq<string>)
    ensures tags == Text.CleanStrings(Text.Split(raw, ','))
  {
    var parts := Text.Split(raw, ',');
    tags := [];
    var k := 0;
    while k < |parts|
      invariant 0 <= k <= |parts|
      invariant tags == Text.CleanStrings(parts[..k])
    {
      var tag := Text.Strip(parts[k]);
      Text.CleanStringsPrefixStep(parts, k);
      if tag != [] {
        tags := tags + [tag];
      }
      k := k + 1;
    }
    assert parts[..k] == parts;
  }

  /** Tags read from a comma-separated text: clean, and never containing a comma. */
  lemma NormalizedTagsClean(raw: string)
    ensures forall i :: 0 <= i < |Text.CleanStrings(Text.Split(raw, ','))| ==>
      var t := Text.CleanStrings(Text.Split(raw, ','))[i];
      t != [] && Text.IsStripped(t) && ',' !in t
  {
    Text.SplitPartsLackSeparator(raw, ',');
    NoCommaAfterClean(Text.Split(raw, ','));
  }

  lemma {:induction false} NoCommaAfterClean(xs: seq<string>)
    requires forall i :: 0 <= i < |xs| ==> ',' !in xs[i]
    ensures forall i :: 0 <= i < |Text.CleanStrings(xs)| ==> ',' !in Text.CleanStrings(xs)[i]
  {
    if xs != [] {
      NoCommaAfterClean(xs[1..]);
      Text.StripSubset(xs[0]);
    }
  }

  /**
   * `format_tags_csv`: the clean tags joined by a comma and a space; empty
   * exactly when no tag has text, and never with whitespace at either end.
   */
  function FormatTagsCsv(tags: seq<string>): (r: string)
    ensures r == [] <==> Text.CleanStrings(tags) == []
    ensures Text.IsStripped(r)
  {
    var c := Text.CleanStrings(tags);
    if c == [] then Text.Join(c, ", ")
    else
      JoinEnds(c, ", ");
      Text.Join(c, ", ")
  }

  /** A join of non-empty parts begins with the first part's first character and ends with the last part's last. */
  lemma {:induction false} JoinEnds(xs: seq<string>, sep: string)
    requires xs != [] && forall i :: 0 <= i < |xs| ==> xs[i] != []
    ensures var j := Text.Join(xs, sep);
      j != [] && j[0] == xs[0][0] && j[|j| - 1] == xs[|xs| - 1][|xs[|xs| - 1]| - 1]
  {
    if |xs| > 1 {
      JoinEnds(xs[1..], sep);
      var rest := Text.Join(xs[1..], sep);
      assert Text.Join(xs, sep) == xs[0] + sep + rest;
    }
  }

  /** Every part after the first gains the one space that follows its comma. */
  function SpaceAfterFirst(xs: seq<string>): (r: seq<string>)
    ensures |r| == |xs|
  {
    if |xs| <= 1 then xs else [xs[0]] + Prefixed(xs[1..])
  }

  function Prefixed(xs: seq<string>): (r: seq<string>)
    ensures |r| == |xs|
    ensures forall i :: 0 <= i < |xs| ==> r[i] == " " + xs[i]
  {
    if xs == [] then [] else [" " + xs[0]] + Prefixed(xs[1..])
  }

  lemma {:induction false} JoinCommaSpace(xs: seq<string>)
    ensures Text.Join(xs, ", ") == Text.Join(SpaceAfterFirst(xs), ",")
  {
    if |xs| > 1 {
      var tail := xs[1..];
      JoinCommaSpace(tail);
      var j := Text.Join(SpaceAfterFirst(tail), ",");
      assert Text.Join(xs, ", ") == xs[0] + ", " + j;
      PrefixedJoin(tail);
      assert SpaceAfterFirst(xs) == [xs[0]] + Prefixed(tail);
      assert Text.Join(SpaceAfterFirst(xs), ",") == xs[0] + "," + (" " + j);
      assert xs[0] + ", " + j == xs[0] + "," + (" " + j);
    }
  }

  /** Joining the space-prefixed parts by commas puts one space before the join of the parts with their first unprefixed. */
  lemma PrefixedJoin(t: seq<string>)
    requires t != []
    ensures Text.Join(Prefixed(t), ",") == " " + Text.Join(SpaceAfterFirst(t), ",")
  {
    if |t| > 1 {
      PrefixedJoinMore(t);
    } else {
      PrefixedJoinOne(t);
    }
  }

  lemma PrefixedJoinMore(t: seq<string>)
    requires |t| > 1
    ensures Text.Join(Prefixed(t), ",") == " " + Text.Join(SpaceAfterFirst(t), ",")
  {
    var more := Prefixed(t[1..]);
    var rest := Text.Join(more, ",");
    PrefixedCons(t);
    SpaceAfterFirstCons(t);
    JoinCons(" " + t[0], more, ",");
    JoinCons(t[0], more, ",");
    SpaceInFront(t[0], rest);
  }

  lemma PrefixedCons(t: seq<string>)
    requires |t| > 1
    ensures Prefixed(t) == [" " + t[0]] + Prefixed(t[1..])
  {
  }

  lemma SpaceAfterFirstCons(t: seq<string>)
    requires |t| > 1
    ensures SpaceAfterFirst(t) == [t[0]] + Prefixed(t[1..])
  {
  }

  lemma SpaceInFront(x: string, rest: string)
    ensures " " + x + "," + rest == " " + (x + "," + rest)
  {
  }

  lemma PrefixedJoinOne(t: seq<string>)
    requires |t| == 1
    ensures Text.Join(Prefixed(t), ",") == " " + Text.Join(SpaceAfterFirst(t), ",")
  {
    var p := Prefixed(t);
    assert |p| == 1 && p[0] == " " + t[0];
    assert Text.Join(p, ",") == " " + t[0];
    assert SpaceAfterFirst(t) == t;
    assert Text.Join(t, ",") == t[0];
  }

  /** A join of a part in front of at least one more. */
  lemma JoinCons(x: string, ys: seq<string>, sep: string)
    requires ys != []
    ensures Text.Join([x] + ys, sep) == x + sep + Text.Join(ys, sep)
  {
    assert ([x] + ys)[1..] == ys;
  }

  lemma StripSpacePrefixed(x: string)
    requires x != [] && Text.IsStripped(x)
    ensures Text.Strip(" " + x) == x
  {
    assert (" " + x)[1..] == x;
    Text.LStripFixes(x);
    Text.RStripFixes(x);
  }

  lemma {:induction false} CleanPrefixed(xs: seq<string>)
    requires forall i :: 0 <= i < |xs| ==> xs[i] != [] && Text.IsStripped(xs[i])
    ensures Text.CleanStrings(Prefixed(xs)) == xs
  {
    if xs != [] {
      StripSpacePrefixed(xs[0]);
      assert Prefixed(xs)[1..] == Prefixed(xs[1..]);
      CleanPrefixed(xs[1..]);
    }
  }

  lemma SpaceAfterFirstNoComma(c: seq<string>)
    requires forall i :: 0 <= i < |c| ==> ',' !in c[i]
    ensures forall i :: 0 <= i < |SpaceAfterFirst(c)| ==> ',' !in SpaceAfterFirst(c)[i]
  {
    var parts := SpaceAfterFirst(c);
    if |c| > 1 {
      assert parts == [c[0]] + Prefixed(c[1..]);
      forall i | 0 <= i < |parts|
        ensures ',' !in parts[i]
      {
        if i > 0 {
          assert parts[i] == " " + c[i];
        }
      }
    }
  }

  lemma CleanSpaceAfterFirst(c: seq<string>)
    requires forall i :: 0 <= i < |c| ==> c[i] != [] && Text.IsStripped(c[i])
    ensures Text.CleanStrings(SpaceAfterFirst(c)) == c
  {
    if |c| > 1 {
      var parts := SpaceAfterFirst(c);
      assert parts == [c[0]] + Prefixed(c[1..]);
      assert c == [c[0]] + c[1..];
      Text.StripFixesStripped(c[0]);
      CleanPrefixed(c[1..]);
      assert parts[1..] == Prefixed(c[1..]);
    } else if |c| == 1 {
      Text.CleanStringsOfClean(c);
    }
  }

  lemma CleanSplitEmpty()
    ensures Text.CleanStrings(Text.Split([], ',')) == []
  {
    assert Text.Split([], ',') == [[]];
  }

  /**
   * Writing tags as text and reading them back gives the clean tags,
   * provided no tag contains a comma.
   */
  lemma NormalizeFormatRoundTrip(tags: seq<string>)
    requires forall i :: 0 <= i < |tags| ==> ',' !in tags[i]
    ensures Text.CleanStrings(Text.Split(FormatTagsCsv(tags), ',')) == Text.CleanStrings(tags)
  {
    var c := Text.CleanStrings(tags);
    JoinCommaSpace(c);
    if c == [] {
      CleanSplitEmpty();
    } else {
      NoCommaAfterClean(tags);
      SpaceAfterFirstNoComma(c);
      Text.SplitJoin(SpaceAfterFirst(c), ',');
      CleanSpaceAfterFirst(c);
    }
  }

  /** A first part without a comma splits off before the first comma. */
  lemma SplitAtComma(a: string, rest: string)
    requires ',' !in a
    ensures Text.Split(a + ([','] + rest), ',') == [a] + Text.Split(rest, ',')
  {
    Text.IndexOfAppend(a, ',', rest);
    var s := a + ([','] + rest);
    assert s[..|a|] == a && s[|a| + 1..] == rest;
  }

  /** Cleaning a list: the first entry's contribution, then the rest's. */
  lemma CleanStringsCons(x: string, xs: seq<string>)
    ensures Text.CleanStrings([x] + xs) == Text.CleanOne(x) + Text.CleanStrings(xs)
  {
    assert ([x] + xs)[1..] == xs;
  }

  /** Blank entries and the spaces around commas go: " one, two , ,three " reads as three tags. */
  lemma NormalizeTagsExample()
    ensures Text.CleanStrings(Text.Split(" one, two , ,three ", ',')) == ["one", "two", "three"]
  {
    ExampleParts();
    ExampleClean();
  }

  lemma ExampleParts()
    ensures Text.Split(" one, two , ,three ", ',') == [" one"] + ([" two "] + ([" "] + ["three "]))
  {
    var raw := " one, two , ,three ";
    assert raw == " one" + ([','] + (" two " + ([','] + (" " + ([','] + "three ")))));
    ExamplePartsTail();
    SplitAtComma(" one", " two " + ([','] + (" " + ([','] + "three "))));
  }

  /** The example after its first comma splits into its last three parts. */
  lemma ExamplePartsTail()
    ensures Text.Split(" two " + ([','] + (" " + ([','] + "three "))), ',') == [" two "] + ([" "] + ["three "])
  {
    ExamplePartsLast();
    SplitAtComma(" two ", " " + ([','] + "three "));
  }

  /** The example after its second comma splits into its last two parts. */
  lemma ExamplePartsLast()
    ensures Text.Split(" " + ([','] + "three "), ',') == [" "] + ["three "]
  {
    assert Text.Split("three ", ',') == ["three "];
    SplitAtComma(" ", "three ");
  }

  lemma ExampleClean()
    ensures Text.CleanStrings([" one"] + ([" two "] + ([" "] + ["three "]))) == ["one", "two", "three"]
  {
    ExampleStrips();
    CleanStringsCons("three ", []);
    CleanStringsCons(" ", ["three "]);
    CleanStringsCons(" two ", [" "] + ["three "]);
    CleanStringsCons(" one", [" two "] + ([" "] + ["three "]));
    assert ["one"] + (["two"] + ([] + ["three"])) == ["one", "two", "three"];
  }

  lemma ExampleStrips()
    ensures Text.Strip(" one") == "one" && Text.Strip(" two ") == "two"
    ensures Text.Strip(" ") == [] && Text.Strip("three ") == "three"
  {
    StripOne();
    StripTwo();
    StripThree();
    assert Text.Strip(" ") == [];
  }

  lemma StripOne()
    ensures Text.Strip(" one") == "one"
  {
    assert " one"[1..] == "one";
    assert Text.LStrip(" one") == Text.LStrip("one") == "one";
    assert Text.RStrip("one") == "one";
  }

  lemma StripTwo()
    ensures Text.Strip(" two ") == "two"
  {
    assert " two "[1..] == "two ";
    assert Text.LStrip(" two ") == Text.LStrip("two ") == "two ";
    assert "two "[..3] == "two";
    assert Text.RStrip("two ") == Text.RStrip("two") == "two";
  }

  lemma StripThree()
    ensures Text.Strip("three ") == "three"
  {
    assert Text.LStrip("three ") == "three ";
    assert "three "[..5] == "three";
    assert Text.RStrip("three ") == Text.RStrip("three") == "three";
  }

  // ---------------------------------------------------------------------
  // Tag validation
  // ---------------------------------------------------------------------

  /** Characters of the tag pattern `[A-Za-z0-9 ]`. */
  predicate IsTagChar(c: char) {
    ('A' <= c <= 'Z') || ('a' <= c <= 'z') || ('0' <= c <= '9') || c == ' '
  }

  predicate AllTagChars(s: string) {
    forall i :: 0 <= i < |s| ==> IsTagChar(s[i])
  }

  /**
   * `re.match(r"^[A-Za-z0-9 ]+$", s)`: one or more pattern characters, where
   * `$` also accepts a single newline ending the string.
   */
  predicate MatchesTagPattern(s: string) {
    (s != [] && AllTagChars(s))
    || (|s| >= 2 && s[|s| - 1] == '\n' && AllTagChars(s[..|s| - 1]))
  }

  /** On stripped text the trailing-newline case never arises. */
  lemma MatchesTagPatternStripped(s: string)
    requires Text.IsStripped(s)
    ensures MatchesTagPattern(s) <==> s != [] && AllTagChars(s)
  {
  }

  /** The tag at `i` equals an earlier one, ignoring case. */
  predicate IsRepeat(tags: seq<string>, i: nat)
    requires i < |tags|
  {
    exists j :: 0 <= j < i && Text.Lower(tags[j]) == Text.Lower(tags[i])
  }

  /** The three problems a single tag can have. */
  datatype TagError = TooLong | SpecialCharacters | Duplicate

  /** The text reported for each problem. */
  function Message(e: TagError): string {
    match e
    case TooLong => "20+ characters"
    case SpecialCharacters => "contains special characters"
    case Duplicate => "duplicate"
  }

  /** Problems of one tag, in the order they are reported, given whether it repeats an earlier one. */
  function TagProblems(tag: string, repeated: bool): seq<TagError> {
    var e1: seq<TagError> := if |tag| > TagMaxLen then [TooLong] else [];
    var e2 := if !MatchesTagPattern(tag) then e1 + [SpecialCharacters] else e1;
    if repeated then e2 + [Duplicate] else e2
  }

  /** Problems of the tag at position `i`. */
  function TagErrors(tags: seq<string>, i: nat): seq<TagError>
    requires i < |tags|
  {
    TagProblems(tags[i], IsRepeat(tags, i))
  }

  /** The errors of every tag, in order. */
  function ErrorLists(tags: seq<string>): (lists: seq<seq<TagError>>)
    ensures |lists| == |tags|
  {
    seq(|tags|, i requires 0 <= i < |tags| => TagErrors(tags, i))
  }

  lemma ErrorListsAt(tags: seq<string>, i: nat)
    requires i < |tags|
    ensures ErrorLists(tags)[i] == TagErrors(tags, i)
  {
  }

  /** The non-empty lists among the first `k`, keyed by one-based position. */
  function Keyed(lists: seq<seq<TagError>>, k: nat): map<nat, seq<TagError>>
    requires k <= |lists|
  {
    if k == 0 then map[]
    else
      var m := Keyed(lists, k - 1);
      if lists[k - 1] != [] then m[k := lists[k - 1]] else m
  }

  /** The entries of `Keyed` are exactly the positions of the non-empty lists, holding them. */
  lemma {:induction false} KeyedEntries(lists: seq<seq<TagError>>, k: nat, i: nat)
    requires k <= |lists|
    ensures i in Keyed(lists, k) <==> 1 <= i <= k && lists[i - 1] != []
    ensures i in Keyed(lists, k) ==> Keyed(lists, k)[i] == lists[i - 1]
  {
    if k > 0 {
      KeyedEntries(lists, k - 1, i);
    }
  }

  lemma KeyedStep(lists: seq<seq<TagError>>, k: nat)
    requires k < |lists|
    ensures Keyed(lists, k + 1) == if lists[k] != [] then Keyed(lists, k)[k + 1 := lists[k]] else Keyed(lists, k)
  {
  }

  /** `per_tag_errors`: the errors of each tag with any, keyed by one-based position. */
  function PerTagErrors(tags: seq<string>): map<nat, seq<TagError>> {
    Keyed(ErrorLists(tags), |tags|)
  }

  /** A stripped tag has no error exactly when it passes every per-tag rule. */
  lemma TagErrorsEmptyIff(tags: seq<string>, i: nat)
    requires i < |tags| && tags[i] != [] && Text.IsStripped(tags[i])
    ensures TagErrors(tags, i) == [] <==> TagFine(tags, i)
  {
    MatchesTagPatternStripped(tags[i]);
  }

  /** The count message, present unless there are exactly thirteen tags. */
  function CountErrors(n: nat): seq<string> {
    if n != TagCount then ["Expected exactly " + Text.NatToString(TagCount) + " tags, got " + Text.NatToString(n) + "."]
    else []
  }

  datatype TagValidation = TagValidation(tags: seq<string>, errors: seq<string>, perTagErrors: map<nat, seq<TagError>>) {
    /** `TagValidation.ok`: no list error and no tag with an error. */
    predicate Ok() {
      errors == [] && forall i :: i in perTagErrors ==> perTagErrors[i] == []
    }
  }

  /** `validate_tags`: the clean tags, the count error and the errors of each tag. */
  method ValidateTags(raw: seq<string>) returns (v: TagValidation)
    ensures v.tags == Text.CleanStrings(raw)
    ensures v.errors == CountErrors(|v.tags|)
    ensures v.perTagErrors == PerTagErrors(v.tags)
  {
    var tags := Text.CleanStrings(raw);
    var errors := CountErrors(|tags|);
    var perTag := PerTagLoop(tags);
    v := TagValidation(tags, errors, perTag);
  }

  /** The loop of `validate_tags` over the clean tags, filling `per_tag_errors`. */
  method PerTagLoop(tags: seq<string>) returns (perTag: map<nat, seq<TagError>>)
    ensures perTag == PerTagErrors(tags)
  {
    perTag := map[];
    var seen: set<string> := {};
    var idx := 0;
    while idx < |tags|
      invariant 0 <= idx <= |tags|
      invariant seen == Seen(tags, idx)
      invariant perTag == Keyed(ErrorLists(tags), idx)
    {
      seen, perTag := TagStep(tags, idx, seen, perTag);
      idx := idx + 1;
    }
  }

  /** The lower-cased forms of the first `k` tags. */
  function Seen(tags: seq<string>, k: nat): set<string>
    requires k <= |tags|
  {
    set j | 0 <= j < k :: Text.Lower(tags[j])
  }

  /** One iteration of the loop: checks the tag at `idx` and records its errors. */
  method TagStep(tags: seq<string>, idx: nat, seen: set<string>, perTag: map<nat, seq<TagError>>)
    returns (seen': set<string>, perTag': map<nat, seq<TagError>>)
    requires idx < |tags|
    requires seen == Seen(tags, idx)
    requires perTag == Keyed(ErrorLists(tags), idx)
    ensures seen' == Seen(tags, idx + 1)
    ensures perTag' == Keyed(ErrorLists(tags), idx + 1)
  {
    SeenIsRepeat(tags, idx, seen);
    ErrorListsAt(tags, idx);
    KeyedStep(ErrorLists(tags), idx);
    var tagErrors;
    tagErrors, seen' := CheckTag(tags[idx], seen);
    perTag' := perTag;
    if tagErrors != [] {
      perTag' := perTag[idx + 1 := tagErrors];
    }
  }

  /** One step of the validation loop: the tag's problems, and the lower-cased tags seen so far. */
  method CheckTag(tag: string, seen: set<string>) returns (tagErrors: seq<TagError>, seen': set<string>)
    ensures tagErrors == TagProblems(tag, Text.Lower(tag) in seen)
    ensures seen' == seen + {Text.Lower(tag)}
  {
    tagErrors := [];
    seen' := seen;
    if |tag| > TagMaxLen {
      tagErrors := tagErrors + [TooLong];
    }
    if !MatchesTagPattern(tag) {
      tagErrors := tagErrors + [SpecialCharacters];
    }
    var lower := Text.Lower(tag);
    if lower in seen {
      tagErrors := tagErrors + [Duplicate];
    } else {
      seen' := seen + {lower};
    }
  }

  /** The set of lower-cased earlier tags holds the current one exactly when it repeats. */
  lemma SeenIsRepeat(tags: seq<string>, idx: nat, seen: set<string>)
    requires idx < |tags|
    requires seen == Seen(tags, idx)
    ensures Text.Lower(tags[idx]) in seen <==> IsRepeat(tags, idx)
    ensures seen + {Text.Lower(tags[idx])} == Seen(tags, idx + 1)
  {
    if Text.Lower(tags[idx]) in seen {
      var j :| 0 <= j < idx && Text.Lower(tags[j]) == Text.Lower(tags[idx]);
    }
  }

  /** Tag at position `i` (zero-based) passes every per-tag rule. */
  predicate TagFine(tags: seq<string>, i: nat)
    requires i < |tags|
  {
    |tags[i]| <= TagMaxLen && AllTagChars(tags[i]) && !IsRepeat(tags, i)
  }

  /** Validation of the clean tags `tags`. */
  function Validation(tags: seq<string>): TagValidation {
    TagValidation(tags, CountErrors(|tags|), PerTagErrors(tags))
  }

  /**
   * A tag list is accepted exactly when it has thirteen clean tags, each
   * under twenty pattern characters and no two equal ignoring case.
   */
  lemma ValidationOkIff(raw: seq<string>)
    ensures var tags := Text.CleanStrings(raw);
      Validation(tags).Ok() <==> |tags| == TagCount && forall i :: 0 <= i < |tags| ==> TagFine(tags, i)
  {
    var tags := Text.CleanStrings(raw);
    var per := PerTagErrors(tags);
    if forall i :: i in per ==> per[i] == [] {
      NoEntriesAllFine(tags);
    }
    if forall i :: 0 <= i < |tags| ==> TagFine(tags, i) {
      AllFineNoEntries(tags);
    }
  }

  /** With no error list recorded, every clean tag passes the per-tag rules. */
  lemma NoEntriesAllFine(tags: seq<string>)
    requires forall i :: 0 <= i < |tags| ==> tags[i] != [] && Text.IsStripped(tags[i])
    requires forall i :: i in PerTagErrors(tags) ==> PerTagErrors(tags)[i] == []
    ensures forall i :: 0 <= i < |tags| ==> TagFine(tags, i)
  {
    forall i | 0 <= i < |tags|
      ensures TagFine(tags, i)
    {
      var lists := ErrorLists(tags);
      KeyedEntries(lists, |tags|, i + 1);
      assert i + 1 !in PerTagErrors(tags);
      ErrorListsAt(tags, i);
      TagErrorsEmptyIff(tags, i);
    }
  }

  /** When every clean tag passes the per-tag rules, no position is recorded. */
  lemma AllFineNoEntries(tags: seq<string>)
    requires forall i :: 0 <= i < |tags| ==> tags[i] != [] && Text.IsStripped(tags[i])
    requires forall i :: 0 <= i < |tags| ==> TagFine(tags, i)
    ensures forall i: nat :: i !in PerTagErrors(tags)
  {
    forall i: nat
      ensures i !in PerTagErrors(tags)
    {
      KeyedEntries(ErrorLists(tags), |tags|, i);
      if 1 <= i <= |tags| {
        ErrorListsAt(tags, i - 1);
        TagErrorsEmptyIff(tags, i - 1);
      }
    }
  }

  /** A tag with a character outside the pattern gets that error at its position. */
  lemma SpecialCharacterReported(tags: seq<string>, i: nat, k: nat)
    requires i < |tags| && Text.IsStripped(tags[i]) && k < |tags[i]|
    requires !IsTagChar(tags[i][k])
    ensures i + 1 in PerTagErrors(tags)
    ensures SpecialCharacters in PerTagErrors(tags)[i + 1]
  {
    MatchesTagPatternStripped(tags[i]);
    KeyedEntries(ErrorLists(tags), |tags|, i + 1);
    ErrorListsAt(tags, i);
    var errs := TagErrors(tags, i);
    var e1: seq<TagError> := if |tags[i]| > TagMaxLen then [TooLong] else [];
    assert errs[|e1|] == SpecialCharacters;
  }

  /** The count message for two tags names the expected and the actual number. */
  lemma CountMessageForTwo()
    ensures CountErrors(2) == ["Expected exactly 13 tags, got 2."]
  {
    assert Text.NatToString(1) == "1";
    assert Text.NatToString(13) == "13";
    assert Text.NatToString(2) == "2";
    var p := "Expected exactly ";
    var q := " tags, got ";
    assert p + "13" == "Expected exactly 13";
    assert p + "13" + q == "Expected exactly 13 tags, got ";
    assert p + "13" + q + "2" + "." == "Expected exactly 13 tags, got 2.";
  }

  /** Two tags fail on the count, with the message naming the number found. */
  lemma TwoTagsRejected(a: string, b: string)
    requires a != [] && Text.IsStripped(a) && b != [] && Text.IsStripped(b)
    ensures Validation(Text.CleanStrings([a, b])).errors == ["Expected exactly 13 tags, got 2."]
    ensures !Validation(Text.CleanStrings([a, b])).Ok()
  {
    Text.CleanStringsOfClean([a, b]);
    CountMessageForTwo();
  }

  // ---------------------------------------------------------------------
  // Titles
  // ---------------------------------------------------------------------

  /** Every `c` in `s` becomes `d`. */
  function ReplaceChar(s: string, c: char, d: char): (r: string)
    ensures |r| == |s|
    ensures forall i :: 0 <= i < |s| ==> r[i] == (if s[i] == c then d else s[i])
  {
    if s == [] then [] else [if s[0] == c then d else s[0]] + ReplaceChar(s[1..], c, d)
  }

  /** No whitespace but single spaces. */
  predicate SingleSpaced(s: string) {
    s == []
    || ((Text.IsSpace(s[0]) ==> s[0] == ' ' && (|s| == 1 || !Text.IsSpace(s[1]))) && SingleSpaced(s[1..]))
  }

  /** `re.sub(r"\s+", " ", s)`: every run of whitespace becomes one space. */
  function CollapseSpaces(s: string): (r: string)
    ensures s == [] <==> r == []
    ensures |r| <= |s|
    ensures SingleSpaced(r)
    ensures r != [] ==> (Text.IsSpace(r[0]) <==> Text.IsSpace(s[0]))
    decreases |s|
  {
    if s == [] then []
    else if Text.IsSpace(s[0]) then
      [' '] + CollapseSpaces(Text.LStrip(s[1..]))
    else
      [s[0]] + CollapseSpaces(s[1..])
  }

  /** The characters of `s` that are not whitespace, in order. */
  function NonSpaces(s: string): (r: string)
    ensures forall c :: c in r ==> c in s && !Text.IsSpace(c)
  {
    if s == [] then [] else (if Text.IsSpace(s[0]) then [] else [s[0]]) + NonSpaces(s[1..])
  }

  /** Dropping leading whitespace keeps the non-whitespace characters. */
  lemma {:induction false} NonSpacesLStrip(s: string)
    ensures NonSpaces(Text.LStrip(s)) == NonSpaces(s)
  {
    if s != [] && Text.IsSpace(s[0]) {
      NonSpacesLStrip(s[1..]);
    }
  }

  /** Collapsing whitespace keeps every other character, in order. */
  lemma {:induction false} CollapseKeepsNonSpaces(s: string)
    ensures NonSpaces(CollapseSpaces(s)) == NonSpaces(s)
    decreases |s|
  {
    if s != [] {
      var r := CollapseSpaces(s);
      if Text.IsSpace(s[0]) {
        var rest := Text.LStrip(s[1..]);
        assert r == [' '] + CollapseSpaces(rest);
        assert r[1..] == CollapseSpaces(rest);
        CollapseKeepsNonSpaces(rest);
        NonSpacesLStrip(s[1..]);
      } else {
        assert r[1..] == CollapseSpaces(s[1..]);
        CollapseKeepsNonSpaces(s[1..]);
      }
    }
  }

  /** Only a whitespace-only string strips to nothing. */
  lemma {:induction false} LStripEmpty(s: string)
    requires Text.LStrip(s) == [] && s != []
    ensures Text.IsSpace(s[|s| - 1])
  {
    if !Text.IsSpace(s[0]) {
      assert false;
    }
    if |s| > 1 {
      LStripEmpty(s[1..]);
    }
  }

  /** The result ends in whitespace exactly when the input does. */
  lemma {:induction false} CollapseLast(s: string)
    requires s != []
    ensures var r := CollapseSpaces(s); Text.IsSpace(r[|r| - 1]) <==> Text.IsSpace(s[|s| - 1])
    decreases |s|
  {
    if Text.IsSpace(s[0]) {
      var rest := Text.LStrip(s[1..]);
      var x := CollapseSpaces(rest);
      assert CollapseSpaces(s) == [' '] + x;
      if rest == [] {
        if |s| > 1 {
          LStripEmpty(s[1..]);
        }
      } else {
        Text.LStripIsSuffix(s[1..]);
        assert rest[|rest| - 1] == s[|s| - 1];
        CollapseLast(rest);
      }
    } else if |s| > 1 {
      var x := CollapseSpaces(s[1..]);
      assert CollapseSpaces(s) == [s[0]] + x;
      CollapseLast(s[1..]);
    }
  }

  /** Collapsing whitespace keeps a stripped string stripped. */
  lemma CollapseStripped(s: string)
    requires Text.IsStripped(s)
    ensures Text.IsStripped(CollapseSpaces(s))
  {
    if s != [] {
      CollapseLast(s);
    }
  }

  /** A single-spaced string is left as it is. */
  lemma {:induction false} CollapseSingleSpaced(s: string)
    requires SingleSpaced(s)
    ensures CollapseSpaces(s) == s
    decreases |s|
  {
    if s != [] {
      if Text.IsSpace(s[0]) {
        Text.LStripFixes(s[1..]);
      }
      CollapseSingleSpaced(s[1..]);
    }
  }

  /** A non-space character absent from the text stays absent after collapsing. */
  lemma {:induction false} CollapseKeepsAbsent(s: string, c: char)
    requires !Text.IsSpace(c) && c !in s
    ensures c !in CollapseSpaces(s)
    decreases |s|
  {
    if s != [] {
      if Text.IsSpace(s[0]) {
        var rest := Text.LStrip(s[1..]);
        Text.LStripIsSuffix(s[1..]);
        assert forall i :: 0 <= i < |rest| ==> rest[i] == s[1..][|s[1..]| - |rest| + i];
        CollapseKeepsAbsent(rest, c);
      } else {
        CollapseKeepsAbsent(s[1..], c);
      }
    }
  }

  /** The stripped file name (or "Design" when blank) with its last extension cut. */
  function TitleStem(filename: string): (stem: string)
    ensures stem != []
  {
    var b0 := Text.Strip(filename);
    var b1 := if b0 == [] then "Design" else b0;
    var dot := Text.LastIndexOf(b1, '.');
    if dot >= 0 then (var cut := Text.Strip(b1[..dot]); if cut != [] then cut else b1) else b1
  }

  /** The stem with underscores as spaces, stripped, whitespace runs collapsed. */
  function TitleBase(filename: string): string {
    CollapseSpaces(Text.Strip(ReplaceChar(TitleStem(filename), '_', ' ')))
  }

  /** The base of a title has no whitespace at either end. */
  lemma TitleBaseStripped(filename: string)
    ensures Text.IsStripped(TitleBase(filename))
  {
    CollapseStripped(Text.Strip(ReplaceChar(TitleStem(filename), '_', ' ')));
  }

  /** The base of a title has no underscore and no run of whitespace. */
  lemma TitleBaseShape(filename: string)
    ensures '_' !in TitleBase(filename) && SingleSpaced(TitleBase(filename))
  {
    var b3 := ReplaceChar(TitleStem(filename), '_', ' ');
    assert '_' !in b3;
    Text.StripSubset(b3);
    CollapseKeepsAbsent(Text.Strip(b3), '_');
  }

  /** `s[:n]`: the first `n` characters, or all of a shorter string. */
  function Truncate(s: string, n: nat): (r: string)
    ensures |r| <= n && Text.StartsWith(s, r)
    ensures |s| <= n ==> r == s
  {
    if |s| <= n then s else s[..n]
  }

  /** The title built from a base and a stripped suffix, before truncation. */
  function FullTitle(base: string, sfx: string): string {
    if sfx != [] then Text.Strip(base + " " + sfx) else base
  }

  /** `suggest_title_from_filename`: the base, then the stripped suffix, at most 140 characters. */
  function SuggestTitle(filename: string, suffix: string): (title: string)
    ensures |title| <= TitleMaxLen
  {
    Truncate(FullTitle(TitleBase(filename), Text.Strip(suffix)), TitleMaxLen)
  }

  /** Without a suffix the title is the start of the base: no underscore, no whitespace run. */
  lemma SuggestTitleWithoutSuffix(filename: string)
    ensures var t := SuggestTitle(filename, "");
      '_' !in t && Text.StartsWith(TitleBase(filename), t)
  {
    var base := TitleBase(filename);
    TitleBaseShape(filename);
    assert Text.Strip("") == [];
    var t := SuggestTitle(filename, "");
    assert t == Truncate(base, TitleMaxLen);
    PrefixLacks(base, t, '_');
  }

  /** A short enough base and suffix are both kept, separated by one space. */
  lemma SuggestTitleKeepsSuffix(filename: string, suffix: string)
    requires Text.Strip(suffix) != []
    requires |TitleBase(filename)| + 1 + |Text.Strip(suffix)| <= TitleMaxLen
    ensures var base := TitleBase(filename);
      SuggestTitle(filename, suffix) == if base == [] then Text.Strip(suffix) else base + " " + Text.Strip(suffix)
  {
    TitleBaseStripped(filename);
    FullTitleJoins(TitleBase(filename), Text.Strip(suffix));
  }

  /** A string whose every whitespace character is a space followed by a non-space is single-spaced. */
  lemma {:induction false} SingleSpacedByIndex(s: string)
    requires forall i :: 0 <= i < |s| && Text.IsSpace(s[i]) ==> s[i] == ' ' && i + 1 < |s| && !Text.IsSpace(s[i + 1])
    ensures SingleSpaced(s)
  {
    if s != [] {
      SingleSpacedByIndex(s[1..]);
    }
  }

  /** The file name's underscores become spaces and its extension goes. */
  lemma TitleBaseExample()
    ensures TitleBase("my_design_file.png") == "my design file"
  {
    StemExample();
    SpacedExample("my_design_file", "my design file");
  }

  /** The example stem with its underscores as spaces is already stripped and single-spaced. */
  lemma SpacedExample(stem: string, spaced: string)
    requires stem == "my_design_file" && spaced == "my design file"
    ensures CollapseSpaces(Text.Strip(ReplaceChar(stem, '_', ' '))) == spaced
  {
    ReplaceExample(stem, spaced);
    StripExample(spaced);
    CollapseExample(spaced);
  }

  /** The example stem's underscores become spaces. */
  lemma ReplaceExample(stem: string, spaced: string)
    requires stem == "my_design_file" && spaced == "my design file"
    ensures ReplaceChar(stem, '_', ' ') == spaced
  {
    assert stem == "my" + "_" + "design" + "_" + "file";
    assert spaced == "my" + " " + "design" + " " + "file";
    ReplaceWords("my", "design", "file");
  }

  /** The spaced example has no surrounding whitespace. */
  lemma StripExample(spaced: string)
    requires spaced == "my design file"
    ensures Text.Strip(spaced) == spaced
  {
    Text.StripFixesStripped(spaced);
  }

  /** Three words joined by underscores come out joined by spaces. */
  lemma ReplaceWords(x: string, y: string, z: string)
    requires '_' !in x && '_' !in y && '_' !in z
    ensures ReplaceChar(x + "_" + y + "_" + z, '_', ' ') == x + " " + y + " " + z
  {
    ReplaceAppend(x + "_" + y + "_", z, '_', ' ');
    ReplaceAppend(x + "_" + y, "_", '_', ' ');
    ReplaceAppend(x + "_", y, '_', ' ');
    ReplaceAppend(x, "_", '_', ' ');
    ReplaceAbsent(x, '_', ' ');
    ReplaceAbsent(y, '_', ' ');
    ReplaceAbsent(z, '_', ' ');
    assert ReplaceChar("_", '_', ' ') == " ";
  }

  /** Replacing a character that does not occur changes nothing. */
  lemma ReplaceAbsent(s: string, c: char, d: char)
    requires c !in s
    ensures ReplaceChar(s, c, d) == s
  {
    var r := ReplaceChar(s, c, d);
    assert forall i :: 0 <= i < |s| ==> r[i] == s[i];
  }

  /** Replacing in a concatenation replaces in each part. */
  lemma ReplaceAppend(a: string, b: string, c: char, d: char)
    ensures ReplaceChar(a + b, c, d) == ReplaceChar(a, c, d) + ReplaceChar(b, c, d)
  {
    var l := ReplaceChar(a + b, c, d);
    var ra := ReplaceChar(a, c, d);
    var rb := ReplaceChar(b, c, d);
    forall i | 0 <= i < |l| ensures l[i] == (ra + rb)[i] {
      if i < |a| {
        assert (a + b)[i] == a[i];
      } else {
        assert (a + b)[i] == b[i - |a|];
      }
    }
    Pointwise(l, ra + rb);
  }

  /** Two sequences of one length that agree at every index are equal. */
  lemma Pointwise<T>(l: seq<T>, r: seq<T>)
    requires |l| == |r| && forall i :: 0 <= i < |l| ==> l[i] == r[i]
    ensures l == r
  {
  }

  lemma CollapseExample(spaced: string)
    requires spaced == "my design file"
    ensures CollapseSpaces(spaced) == spaced
  {
    assert forall i :: 0 <= i < |spaced| && Text.IsSpace(spaced[i]) ==> i == 2 || i == 9;
    SingleSpacedByIndex(spaced);
    CollapseSingleSpaced(spaced);
  }

  /** The stem of the example file name: the name without its extension. */
  lemma StemExample()
    ensures TitleStem("my_design_file.png") == "my_design_file"
  {
    var fn := "my_design_file.png";
    var stem := "my_design_file";
    assert Text.Strip(fn) == fn by { Text.StripFixesStripped(fn); }
    assert Text.LastIndexOf(fn, '.') == 14 by { assert fn[14] == '.'; }
    assert fn[..14] == stem;
    assert Text.Strip(stem) == stem by { Text.StripFixesStripped(stem); }
  }

  /** An uploaded file's name and the product suffix make the title. */
  lemma SuggestTitleExample()
    ensures SuggestTitle("my_design_file.png", "T-Shirt") == "my design file T-Shirt"
  {
    var sfx := "T-Shirt";
    assert Text.Strip(sfx) == sfx by {
      assert sfx[0] == 'T' && sfx[|sfx| - 1] == 't';
      Text.StripFixesStripped(sfx);
    }
    assert "my design file" + " " + sfx == "my design file T-Shirt";
    TitleBaseExample();
    SuggestTitleKeepsSuffix("my_design_file.png", sfx);
  }

  /** A stripped base and a non-blank stripped suffix are joined by exactly one space. */
  lemma FullTitleJoins(base: string, sfx: string)
    requires Text.IsStripped(base) && sfx != [] && Text.IsStripped(sfx)
    ensures FullTitle(base, sfx) == if base == [] then sfx else base + " " + sfx
  {
    var full := base + " " + sfx;
    if base == [] {
      assert full == [' '] + sfx;
      StripSpacePrefix(sfx);
    } else {
      assert full[0] == base[0];
      assert full[|full| - 1] == sfx[|sfx| - 1];
      Text.StripFixesStripped(full);
    }
  }

  /** A prefix lacks what the whole string lacks. */
  lemma PrefixLacks(s: string, p: string, c: char)
    requires Text.StartsWith(s, p) && c !in s
    ensures c !in p
  {
  }

  /** Stripping one space off a stripped string gives the string. */
  lemma StripSpacePrefix(s: string)
    requires s != [] && Text.IsStripped(s)
    ensures Text.Strip([' '] + s) == s
  {
    assert ([' '] + s)[1..] == s;
    Text.LStripFixes(s);
    Text.RStripFixes(s);
  }
}
