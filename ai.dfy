/**
 * Reading the tag generator's reply: the text of the first `output_text`
 * part of a Responses-API payload, and the JSON array of tags in that text.
 */
module Ai {
  import opened Wrappers
  import Text
  import Json

  // ---------------------------------------------------------------------
  // _extract_output_text
  // ---------------------------------------------------------------------

  /** A content part: its `type` when that is a string, and its `text` when present. */
  datatype Part = Part(partType: Option<string>, text: Option<Json.Item>)

  /** An output item: its `content` list (`[]` when absent or empty). */
  datatype Output = Output(content: seq<Part>)

  /** The payload: its `output` list (`[]` when absent or empty) and its top-level `output_text`. */
  datatype Payload = Payload(output: seq<Output>, outputText: Option<Json.Item>)

  /** A part whose `type` is `output_text` and whose `text` is truthy. */
  predicate IsOutputText(p: Part) {
    p.partType == Some("output_text") && p.text.Some? && Json.Truthy(p.text.value)
  }

  /** The position of the first `output_text` part among `parts`, if any. */
  function FirstOutputText(parts: seq<Part>): (r: Option<nat>)
    ensures r.None? ==> forall k :: 0 <= k < |parts| ==> !IsOutputText(parts[k])
    ensures r.Some? ==> (r.value < |parts| && IsOutputText(parts[r.value])
                         && forall j :: 0 <= j < r.value ==> !IsOutputText(parts[j]))
  {
    if parts == [] then None
    else if IsOutputText(parts[0]) then Some(0)
    else match FirstOutputText(parts[1..])
      case None => None
      case Some(k) => Some(k + 1)
  }

  /** `str(part["text"])` of that part. */
  function FirstText(parts: seq<Part>): Option<string> {
    match FirstOutputText(parts)
    case None => None
    case Some(k) => Some(Json.PyStr(parts[k].text.value))
  }

  /** The nested scan: outputs in order, and the parts of each in order. */
  function FirstTextOfOutputs(outputs: seq<Output>): Option<string> {
    if outputs == [] then None
    else
      var here := FirstText(outputs[0].content);
      if here.Some? then here else FirstTextOfOutputs(outputs[1..])
  }

  /** `_extract_output_text(payload)`. */
  function ExtractOutputText(payload: Payload): (text: string)
    ensures FirstTextOfOutputs(payload.output).Some? ==> text == FirstTextOfOutputs(payload.output).value
    ensures FirstTextOfOutputs(payload.output).None? && payload.outputText.Some? && Json.Truthy(payload.outputText.value) ==>
      text == Json.PyStr(payload.outputText.value)
    ensures FirstTextOfOutputs(payload.output).None? && !(payload.outputText.Some? && Json.Truthy(payload.outputText.value)) ==>
      text == []
  {
    match FirstTextOfOutputs(payload.output)
    case Some(t) => t
    case None =>
      if payload.outputText.Some? && Json.Truthy(payload.outputText.value) then Json.PyStr(payload.outputText.value)
      else []
  }

  /** All parts of all outputs, in order. */
  function AllParts(outputs: seq<Output>): (parts: seq<Part>)
    ensures |outputs| > 0 ==> parts == outputs[0].content + AllParts(outputs[1..])
  {
    if outputs == [] then [] else outputs[0].content + AllParts(outputs[1..])
  }

  /** In `a + b` the first match is the first match of `a`, else the first match of `b`. */
  lemma FirstTextAppend(a: seq<Part>, b: seq<Part>)
    ensures FirstText(a + b) == if FirstText(a).Some? then FirstText(a) else FirstText(b)
  {
    var ab := a + b;
    var fa := FirstOutputText(a);
    var fab := FirstOutputText(ab);
    assert forall j :: 0 <= j < |a| ==> ab[j] == a[j];
    assert forall j :: 0 <= j < |b| ==> ab[|a| + j] == b[j];
    match fa
    case Some(k) =>
      FirstOutputTextAt(ab, k);
    case None =>
      match FirstOutputText(b)
      case Some(k) =>
        FirstOutputTextAt(ab, |a| + k);
      case None =>
        assert forall j :: 0 <= j < |ab| ==> !IsOutputText(ab[j]) by {
          forall j | 0 <= j < |ab|
            ensures !IsOutputText(ab[j])
          {
            if j >= |a| {
              assert ab[j] == b[j - |a|];
            }
          }
        }
  }

  /** A part that matches, with no match before it, is the one found. */
  lemma FirstOutputTextAt(parts: seq<Part>, k: nat)
    requires k < |parts| && IsOutputText(parts[k]) && forall j :: 0 <= j < k ==> !IsOutputText(parts[j])
    ensures FirstOutputText(parts) == Some(k)
  {
    var r := FirstOutputText(parts);
    assert r.Some?;
    assert r.value >= k;
  }

  /** The nested scan finds the same part as one scan over all the parts, outputs first to last. */
  lemma {:induction false} NestedScanIsFlatScan(outputs: seq<Output>)
    ensures FirstTextOfOutputs(outputs) == FirstText(AllParts(outputs))
  {
    if outputs != [] {
      NestedScanIsFlatScan(outputs[1..]);
      FirstTextAppend(outputs[0].content, AllParts(outputs[1..]));
    }
  }

  /** With no `output_text` part anywhere the top-level `output_text` decides. */
  lemma FallbackOnlyWithoutParts(payload: Payload)
    requires forall k :: 0 <= k < |AllParts(payload.output)| ==> !IsOutputText(AllParts(payload.output)[k])
    ensures ExtractOutputText(payload) ==
      if payload.outputText.Some? && Json.Truthy(payload.outputText.value) then Json.PyStr(payload.outputText.value) else []
  {
    NestedScanIsFlatScan(payload.output);
  }

  // ---------------------------------------------------------------------
  // _parse_json_array
  // ---------------------------------------------------------------------

  /** The ways `_parse_json_array` raises. */
  datatype ParseError =
    | EmptyResponse      // "Empty model response."
    | NoArray            // "Model did not return a JSON array."
    | InvalidJson        // `json.loads` raising on the extracted span
    | NotAList           // "Model JSON was not a list."

  /**
   * The match of `\[[\s\S]*\]` in `t`: from the first `[` to the last `]`,
   * when that `]` comes after the `[`.
   */
  function BracketSpan(t: string): (span: Option<string>)
    ensures span.Some? ==> |span.value| >= 2 && span.value[0] == '[' && span.value[|span.value| - 1] == ']'
    ensures span.None? <==> '[' !in t || Text.LastIndexOf(t, ']') < Text.IndexOf(t, '[').value
  {
    match Text.IndexOf(t, '[')
    case None => None
    case Some(i) =>
      var j := Text.LastIndexOf(t, ']');
      if j < i then None else Some(t[i..j + 1])
  }

  /** A bracketed block in prose that has no `[` before it and no `]` after it is the span found. */
  lemma BracketSpanOfWrapped(before: string, body: string, after: string)
    requires '[' !in before && ']' !in after
    ensures BracketSpan(before + "[" + body + "]" + after) == Some("[" + body + "]")
  {
    var x := before + "[" + body;
    var t := x + "]" + after;
    assert t == before + ("[" + (body + "]" + after));
    Text.IndexOfAppend(before, '[', body + "]" + after);
    Text.LastIndexOfAppend(x, ']', after);
    assert t[|before|..|x| + 1] == "[" + body + "]";
  }

  /**
   * `_parse_json_array(text)`; `loads` is `json.loads`, `None` where it
   * raises. The whole stripped text is tried first, then the bracketed span.
   */
  function ParseJsonArray(text: string, loads: string -> Option<Json.Json>): (r: Result<seq<string>, ParseError>)
    ensures r == Err(EmptyResponse) <==> Text.Strip(text) == []
    ensures r.Ok? ==> forall i :: 0 <= i < |r.value| ==> r.value[i] != [] && Text.IsStripped(r.value[i])
    ensures Text.Strip(text) != [] && loads(Text.Strip(text)).Some? && loads(Text.Strip(text)).value.List? ==>
      r == Ok(Json.CleanItems(loads(Text.Strip(text)).value.items))
    ensures r == Err(NoArray) <==>
      Text.Strip(text) != [] && !(loads(Text.Strip(text)).Some? && loads(Text.Strip(text)).value.List?)
      && BracketSpan(Text.Strip(text)).None?
    ensures r == Err(InvalidJson) || r == Err(NotAList) ==>
      BracketSpan(Text.Strip(text)).Some? && !(loads(Text.Strip(text)).Some? && loads(Text.Strip(text)).value.List?)
  {
    var t := Text.Strip(text);
    if t == [] then Err(EmptyResponse)
    else match loads(t)
      case Some(List(items)) => Ok(Json.CleanItems(items))
      case _ =>
        match BracketSpan(t)
        case None => Err(NoArray)
        case Some(span) =>
          match loads(span)
          case None => Err(InvalidJson)
          case Some(Atom(_)) => Err(NotAList)
          case Some(List(items)) => Ok(Json.CleanItems(items))
  }

  /**
   * The message each error carries: the three the parser raises itself, each
   * naming its own error, and the decoder's own error, which is none of them.
   */
  function ErrorMessage(e: ParseError): (m: string)
    ensures e == EmptyResponse <==> m == "Empty model response."
    ensures e == NoArray <==> m == "Model did not return a JSON array."
    ensures e == NotAList <==> m == "Model JSON was not a list."
    ensures e != InvalidJson ==> Text.StartsWith(m, "Empty") || Text.StartsWith(m, "Model")
  {
    var m := match e
      case EmptyResponse => "Empty model response."
      case NoArray => "Model did not return a JSON array."
      case InvalidJson => "Expecting value"
      case NotAList => "Model JSON was not a list.";
    assert e == EmptyResponse ==> m[..5] == "Empty";
    assert e == NoArray || e == NotAList ==> m[..5] == "Model";
    m
  }

  /**
   * A reply that wraps a JSON list in prose (no `[` before it, no `]` after
   * it, and not itself JSON) gives the list's clean items.
   */
  lemma ParseWrappedList(before: string, body: string, after: string, items: seq<Json.Item>,
                         loads: string -> Option<Json.Json>)
    requires '[' !in before && ']' !in after
    requires var t := Text.Strip(before + "[" + body + "]" + after); !(loads(t).Some? && loads(t).value.List?)
    requires Text.IsStripped(before + "[" + body + "]" + after)
    requires loads("[" + body + "]") == Some(Json.List(items))
    ensures ParseJsonArray(before + "[" + body + "]" + after, loads) == Ok(Json.CleanItems(items))
  {
    var t := before + "[" + body + "]" + after;
    Text.StripFixesStripped(t);
    BracketSpanOfWrapped(before, body, after);
  }
}
