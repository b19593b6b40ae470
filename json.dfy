/**
 * Decoded JSON values as the application inspects them: a top-level value is
 * either a list of items or a single non-list item. Items the code only passes
 * to `str()` or tests for truth (floats, objects, nested lists) are kept as
 * their Python text and truth value.
 */
module Json {
  import Text

  datatype Item =
    | Null
    | Bool(b: bool)
    | Int(i: int)
    | Str(s: string)
    | Other(repr: string, truthy: bool)

  datatype Json = List(items: seq<Item>) | Atom(item: Item)

  /** `str(v)` for a decoded JSON item. */
  function PyStr(v: Item): string {
    match v
    case Null => "None"
    case Bool(b) => if b then "True" else "False"
    case Int(i) => Text.IntToString(i)
    case Str(s) => s
    case Other(repr, _) => repr
  }

  /** `bool(v)` for a decoded JSON item. */
  predicate Truthy(v: Item) {
    match v
    case Null => false
    case Bool(b) => b
    case Int(i) => i != 0
    case Str(s) => s != []
    case Other(_, t) => t
  }

  /** `[str(v).strip() for v in items if str(v).strip()]`. */
  function CleanItems(items: seq<Item>): (r: seq<string>)
    ensures |r| <= |items|
    ensures forall i :: 0 <= i < |r| ==> r[i] != [] && Text.IsStripped(r[i])
  {
    Text.CleanStrings(StrAll(items))
  }

  function StrAll(items: seq<Item>): (r: seq<string>)
    ensures |r| == |items|
    ensures forall i :: 0 <= i < |items| ==> r[i] == PyStr(items[i])
  {
    if items == [] then [] else [PyStr(items[0])] + StrAll(items[1..])
  }

  /** `json.dumps` of a list of strings followed by `json.loads` gives string items. */
  function StrItems(xs: seq<string>): (r: seq<Item>)
    ensures |r| == |xs|
    ensures forall i :: 0 <= i < |xs| ==> r[i] == Str(xs[i])
  {
    if xs == [] then [] else [Str(xs[0])] + StrItems(xs[1..])
  }

  /** A list of clean strings survives `str()`-and-clean unchanged. */
  lemma CleanStrItems(xs: seq<string>)
    requires forall i :: 0 <= i < |xs| ==> xs[i] != [] && Text.IsStripped(xs[i])
    ensures CleanItems(StrItems(xs)) == xs
  {
    var items := StrItems(xs);
    var strs := StrAll(items);
    forall i | 0 <= i < |xs|
      ensures strs[i] == xs[i]
    {
      assert items[i] == Str(xs[i]);
    }
    assert strs == xs;
    Text.CleanStringsOfClean(xs);
  }
}
