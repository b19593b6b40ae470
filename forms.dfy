/**
 * The checklist-step field of the template forms (a JSON list or one step
 * per line) and the Drive-id cleaners of the task forms.
 */
module Forms {
  import opened Wrappers
  import Text
  import Json
  import DriveIds
  import Models

  /** The newline-join of non-empty lines starts with the first line's first character and ends with the last line's last. */
  lemma {:induction false} JoinEnds(lines: seq<string>)
    requires lines != [] && forall i :: 0 <= i < |lines| ==> lines[i] != []
    ensures var s := Text.Join(lines, "\n");
      s != [] && s[0] == lines[0][0] && s[|s| - 1] == lines[|lines| - 1][|lines[|lines| - 1]| - 1]
  {
    if |lines| > 1 {
      JoinEnds(lines[1..]);
      var tail := Text.Join(lines[1..], "\n");
      assert Text.Join(lines, "\n") == lines[0] + "\n" + tail;
    }
  }

  /** `_steps_to_text(steps)`: the cleaned steps of a list, one per line; nothing for any other value. */
  function StepsToText(steps: Json.Json): (text: string)
    ensures steps.Atom? ==> text == []
    ensures text == [] <==> steps.Atom? || Json.CleanItems(steps.items) == []
    ensures Text.IsStripped(text)
  {
    match steps
    case Atom(_) => []
    case List(items) =>
      var clean := Json.CleanItems(items);
      if clean == [] then [] else
        JoinEnds(clean);
        Text.Join(clean, "\n")
  }

  /**
   * `StepListField.to_python(value)`, after `CharField` has stripped the
   * value; `loads` is `json.loads`, `None` where it raises.
   */
  function ToPython(value: string, loads: string -> Option<Json.Json>): (steps: seq<string>)
    ensures Text.Strip(value) == [] ==> steps == []
    ensures forall i :: 0 <= i < |steps| ==> steps[i] != [] && Text.IsStripped(steps[i])
    ensures Text.Strip(value) != [] && loads(Text.Strip(value)).Some? && loads(Text.Strip(value)).value.List?
      ==> steps == Json.CleanItems(loads(Text.Strip(value)).value.items)
    ensures Text.Strip(value) != [] && !(loads(Text.Strip(value)).Some? && loads(Text.Strip(value)).value.List?)
      ==> steps == Text.NonEmptyLines(Text.Strip(value))
  {
    var v := Text.Strip(value);
    if v == [] then []
    else match loads(v)
      case Some(List(items)) => Json.CleanItems(items)
      case _ => Text.NonEmptyLines(v)
  }

  /**
   * Showing a template's steps in the form and reading the text back gives
   * its cleaned steps, when none of them holds a line break and the text
   * does not itself read as a JSON list.
   */
  lemma StepsRoundTrip(items: seq<Json.Item>, loads: string -> Option<Json.Json>)
    requires forall i :: 0 <= i < |Json.CleanItems(items)| ==> Text.NoLineBreak(Json.CleanItems(items)[i])
    requires var text := StepsToText(Json.List(items)); !(loads(text).Some? && loads(text).value.List?)
    ensures ToPython(StepsToText(Json.List(items)), loads) == Json.CleanItems(items)
  {
    var clean := Json.CleanItems(items);
    var text := StepsToText(Json.List(items));
    Text.StripFixesStripped(text);
    if clean != [] {
      Text.NonEmptyLinesJoin(clean);
    }
  }

  /** Steps edited one per line are read back as entered once cleaned. */
  lemma LinesRoundTrip(lines: seq<string>, loads: string -> Option<Json.Json>)
    requires forall i :: 0 <= i < |lines| ==> lines[i] != [] && Text.IsStripped(lines[i]) && Text.NoLineBreak(lines[i])
    requires var text := Text.Join(lines, "\n"); !(loads(text).Some? && loads(text).value.List?)
    ensures ToPython(Text.Join(lines, "\n"), loads) == lines
  {
    Json.CleanStrItems(lines);
    StepsRoundTrip(Json.StrItems(lines), loads);
  }

  /** The `clean_drive_*` methods: the pasted link or id reduced to the bare id. */
  function CleanDriveId(value: string): (id: string)
    ensures value == [] ==> id == []
    ensures '?' !in id && '&' !in id && Text.IsStripped(id)
  {
    DriveIds.ExtractDriveId(value)
  }

  /** A cleaned id is kept as it is by the model's `save()` and by cleaning it again. */
  lemma CleanDriveIdStable(value: string)
    ensures Models.NormaliseId(CleanDriveId(value)) == CleanDriveId(value)
    ensures CleanDriveId(CleanDriveId(value)) == CleanDriveId(value)
  {
    DriveIds.ExtractDriveIdIdempotent(value);
  }
}
