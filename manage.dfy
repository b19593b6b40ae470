/**
 * The dependency check `manage.py` runs before Django starts: the
 * requirements file is read, each requirement's distribution is looked up
 * (under its name or its `-`/`_` alternate), pinned versions are compared,
 * and the missing requirements are handed to pip.
 */
module Manage {
  import opened Wrappers
  import Text

  // ---------------------------------------------------------------------
  // The requirements file
  // ---------------------------------------------------------------------

  /** A line kept as a requirement: stripped, non-empty and not a comment. */
  predicate IsRequirement(s: string) {
    s != [] && Text.IsStripped(s) && s[0] != '#'
  }

  /** The requirements of the file's lines: each line stripped, blank and comment lines dropped, in order. */
  function Requirements(lines: seq<string>): (reqs: seq<string>)
    ensures |reqs| <= |lines|
    ensures forall i :: 0 <= i < |reqs| ==> IsRequirement(reqs[i])
  {
    if lines == [] then []
    else
      var before := Requirements(lines[..|lines| - 1]);
      var line := Text.Strip(lines[|lines| - 1]);
      if IsRequirement(line) then before + [line] else before
  }

  /** Every line that strips to a requirement is kept. */
  lemma {:induction false} RequirementKept(lines: seq<string>, i: nat)
    requires i < |lines| && IsRequirement(Text.Strip(lines[i]))
    ensures Text.Strip(lines[i]) in Requirements(lines)
  {
    var n := |lines| - 1;
    if i < n {
      assert lines[..n][i] == lines[i];
      RequirementKept(lines[..n], i);
    }
  }

  /** Lines that are already requirements are kept as they are. */
  lemma {:induction false} RequirementsOfClean(lines: seq<string>)
    requires forall i :: 0 <= i < |lines| ==> IsRequirement(lines[i])
    ensures Requirements(lines) == lines
  {
    if lines != [] {
      var n := |lines| - 1;
      assert lines[..n + 1] == lines;
      assert forall i :: 0 <= i < n ==> lines[..n][i] == lines[i];
      RequirementsOfClean(lines[..n]);
      assert lines[n][..1] == [lines[n][0]];
    }
  }

  /** The loop's step: one more line adds its stripped text when it is a requirement. */
  lemma RequirementsStep(lines: seq<string>, i: nat)
    requires i < |lines|
    ensures var line := Text.Strip(lines[i]);
      Requirements(lines[..i + 1]) ==
        Requirements(lines[..i]) + (if line != [] && !Text.StartsWith(line, "#") then [line] else [])
  {
    assert lines[..i + 1][..i] == lines[..i];
    var line := Text.Strip(lines[i]);
    assert line != [] ==> (Text.StartsWith(line, "#") <==> line[..1] == "#");
  }

  /** Writing requirements one per line and reading the file back gives them in the same order. */
  lemma RequirementsRoundTrip(reqs: seq<string>)
    requires forall i :: 0 <= i < |reqs| ==> IsRequirement(reqs[i]) && Text.NoLineBreak(reqs[i])
    ensures Requirements(Text.SplitLines(Text.Join(reqs, "\n"))) == reqs
  {
    Text.SplitLinesJoin(reqs);
    RequirementsOfClean(reqs);
  }

  /**
   * `_parse_requirements(path)`: `text` is the file's content, `None` when
   * the file does not exist.
   */
  method ParseRequirements(text: Option<string>) returns (reqs: seq<string>)
    ensures text.None? ==> reqs == []
    ensures text.Some? ==> reqs == Requirements(Text.SplitLines(text.value))
  {
    if text.None? {
      return [];
    }
    var lines := Text.SplitLines(text.value);
    reqs := [];
    var i := 0;
    while i < |lines|
      invariant i <= |lines|
      invariant reqs == Requirements(lines[..i])
    {
      RequirementsStep(lines, i);
      var line := Text.Strip(lines[i]);
      if line != [] && !Text.StartsWith(line, "#") {
        reqs := reqs + [line];
      }
      i := i + 1;
    }
    assert lines[..i] == lines;
  }

  // ---------------------------------------------------------------------
  // Names and versions
  // ---------------------------------------------------------------------

  /** The characters of the version operators `<`, `=`, `>`, `!`, `~`. */
  predicate IsOperator(c: char) {
    c == '<' || c == '=' || c == '>' || c == '!' || c == '~'
  }

  /** `re.split(r"[<=>!~]", s, maxsplit=1)[0]`: the text before the first operator character. */
  function BeforeOperator(s: string): (r: string)
    ensures |r| <= |s| && r == s[..|r|]
    ensures forall i :: 0 <= i < |r| ==> !IsOperator(r[i])
    ensures |r| < |s| ==> IsOperator(s[|r|])
  {
    if s == [] || IsOperator(s[0]) then []
    else
      var rest := BeforeOperator(s[1..]);
      assert s[1..][..|rest|] == s[1..|rest| + 1];
      assert [s[0]] + rest == s[..|rest| + 1];
      [s[0]] + rest
  }

  /**
   * `_distribution_name(req)`: the stripped text before a direct-reference
   * `@`, else the stripped text before the first operator character.
   */
  function DistributionName(req: string): (name: string)
    ensures Text.IsStripped(name)
    ensures '@' in req ==> '@' !in name
    ensures '@' !in req ==> forall c :: c in name ==> !IsOperator(c) && c != '@'
    ensures '@' in req ==>
      exists k :: 0 <= k < |req| && req[k] == '@' && '@' !in req[..k] && name == Text.Strip(req[..k])
    ensures '@' !in req ==>
      exists k :: 0 <= k <= |req| && (k < |req| ==> IsOperator(req[k]))
                   && (forall i :: 0 <= i < k ==> !IsOperator(req[i])) && name == Text.Strip(req[..k])
  {
    if '@' in req then
      var before := Text.BeforeFirst(req, '@');
      Text.StripSubset(before);
      assert req[..|before|] == before && req[|before|] == '@';
      Text.Strip(before)
    else
      var before := BeforeOperator(req);
      Text.StripSubset(before);
      assert forall c :: c in before ==> c in req;
      assert req[..|before|] == before && forall i :: 0 <= i < |before| ==> !IsOperator(req[i]);
      Text.Strip(before)
  }

  /**
   * A requirement written as a name, an operator character and anything
   * without `@` yields that name.
   */
  lemma DistributionNameOfSpecifier(name: string, op: char, rest: string)
    requires name != [] && Text.IsStripped(name) && IsOperator(op)
    requires forall c :: c in name ==> !IsOperator(c) && c != '@'
    requires '@' !in rest
    ensures DistributionName(name + [op] + rest) == name
  {
    var req := name + [op] + rest;
    assert '@' !in req by {
      forall i | 0 <= i < |req|
        ensures req[i] != '@'
      {
        if i < |name| {
          assert req[i] == name[i];
          assert name[i] in name;
        } else if i == |name| {
          assert req[i] == op;
        } else {
          assert req[i] == rest[i - |name| - 1];
          assert rest[i - |name| - 1] in rest;
        }
      }
    }
    BeforeOperatorOf(name, op, rest);
    Text.StripFixesStripped(name);
  }

  /** A direct reference `name@url` yields the name, whatever the URL holds. */
  lemma DistributionNameOfReference(name: string, rest: string)
    requires Text.IsStripped(name) && '@' !in name
    ensures DistributionName(name + ['@'] + rest) == name
  {
    var req := name + ['@'] + rest;
    assert req[|name|] == '@';
    assert req[..|name|] == name;
    Text.IndexOfAppend(name, '@', rest);
    assert name + ['@'] + rest == name + (['@'] + rest);
    Text.StripFixesStripped(name);
  }

  lemma {:induction false} BeforeOperatorOf(name: string, op: char, rest: string)
    requires IsOperator(op) && forall c :: c in name ==> !IsOperator(c)
    ensures BeforeOperator(name + [op] + rest) == name
  {
    if name == [] {
      assert (name + [op] + rest)[0] == op;
    } else {
      assert (name + [op] + rest)[1..] == name[1..] + [op] + rest;
      assert name[0] in name;
      BeforeOperatorOf(name[1..], op, rest);
      assert [name[0]] + name[1..] == name;
    }
  }

  /** The name tried when the first lookup fails: every `-` made `_` if there is one, else every `_` made `-`. */
  function AltName(name: string): (alt: string)
    ensures |alt| == |name|
    ensures '-' in name ==> '-' !in alt
    ensures '-' !in name ==> '_' !in alt
    ensures forall i :: 0 <= i < |name| && name[i] != '-' && name[i] != '_' ==> alt[i] == name[i]
  {
    if '-' in name then Replace(name, '-', '_') else Replace(name, '_', '-')
  }

  /** `s.replace(a, b)` for single characters. */
  function Replace(s: string, a: char, b: char): (r: string)
    ensures |r| == |s|
    ensures forall i :: 0 <= i < |s| ==> r[i] == if s[i] == a then b else s[i]
  {
    if s == [] then [] else [if s[0] == a then b else s[0]] + Replace(s[1..], a, b)
  }

  /** Swapping back a name that uses one separator only gives the name again. */
  lemma AltNameInverse(name: string)
    requires !('-' in name && '_' in name)
    ensures '-' in name || '_' in name ==> AltName(AltName(name)) == name
    ensures '-' !in name && '_' !in name ==> AltName(name) == name
  {
    var alt := AltName(name);
    if '-' in name {
      assert '_' in alt by {
        var i :| 0 <= i < |name| && name[i] == '-';
        assert alt[i] == '_';
      }
      assert AltName(alt) == Replace(alt, '_', '-');
    } else if '_' in name {
      assert '-' in alt by {
        var i :| 0 <= i < |name| && name[i] == '_';
        assert alt[i] == '-';
      }
      assert AltName(alt) == Replace(alt, '-', '_');
    }
  }

  /** The index of the first `==` in `s`, if any. */
  function IndexOfPin(s: string): (r: Option<nat>)
    ensures r.Some? <==> Text.Contains(s, "==")
    ensures r.Some? ==> r.value + 2 <= |s| && s[r.value] == '=' && s[r.value + 1] == '='
    ensures r.Some? ==> forall j :: 0 <= j < r.value ==> !(s[j] == '=' && s[j + 1] == '=')
  {
    if Text.StartsWith(s, "==") then Some(0)
    else if s == [] then None
    else match IndexOfPin(s[1..])
      case None => None
      case Some(i) => Some(i + 1)
  }

  /** `req.split("==", 1)[1].strip()` when `"==" in req`. */
  function PinnedVersion(req: string): (v: Option<string>)
    ensures v.Some? <==> Text.Contains(req, "==")
    ensures v.Some? ==> Text.IsStripped(v.value)
  {
    match IndexOfPin(req)
    case None => None
    case Some(i) => Some(Text.Strip(req[i + 2..]))
  }

  /** A requirement `name==version` with no `=` in the name pins the stripped version. */
  lemma PinnedVersionOf(name: string, version: string)
    requires forall c :: c in name ==> c != '='
    ensures PinnedVersion(name + "==" + version) == Some(Text.Strip(version))
  {
    var req := name + "==" + version;
    var n := |name|;
    assert req[n] == '=' && req[n + 1] == '=';
    assert forall j :: 0 <= j < n ==> req[j] == name[j];
    assert forall j :: 0 <= j < n ==> req[j] != '=' by {
      forall j | 0 <= j < n
        ensures req[j] != '='
      {
        assert name[j] in name;
      }
    }
    PinFound(req, n);
    assert req[n + 2..] == version;
  }

  lemma {:induction false} PinFound(s: string, n: nat)
    requires n + 2 <= |s| && s[n] == '=' && s[n + 1] == '='
    ensures IndexOfPin(s).Some? && IndexOfPin(s).value <= n
  {
    if n == 0 {
      assert s[..2] == "==";
    } else if !Text.StartsWith(s, "==") {
      PinFound(s[1..], n - 1);
    }
  }

  /**
   * The version installed for a distribution: `version` is
   * `importlib.metadata.version`, `None` for `PackageNotFoundError`; the
   * alternate name is tried when the name itself is not found.
   */
  function InstalledVersion(name: string, version: string -> Option<string>): (v: Option<string>)
    ensures version(name).Some? ==> v == version(name)
    ensures version(name).None? ==> v == version(AltName(name))
  {
    if version(name).Some? then version(name) else version(AltName(name))
  }

  /**
   * `_is_installed(req)`. `hasMetadata` is whether `importlib.metadata`
   * imports. A requirement with no name counts as installed; one with `==`
   * needs exactly the pinned version.
   */
  function IsInstalled(req: string, hasMetadata: bool, version: string -> Option<string>): (ok: bool)
    ensures !hasMetadata ==> !ok
    ensures hasMetadata && DistributionName(req) == [] ==> ok
    ensures hasMetadata && DistributionName(req) != [] ==>
      (ok <==>
        InstalledVersion(DistributionName(req), version).Some?
        && (PinnedVersion(req).Some? ==> InstalledVersion(DistributionName(req), version) == PinnedVersion(req)))
  {
    if !hasMetadata then false
    else
      var name := DistributionName(req);
      if name == [] then true
      else match InstalledVersion(name, version)
        case None => false
        case Some(installed) =>
          if Text.Contains(req, "==") then Some(installed) == PinnedVersion(req) else true
  }

  /** A pin is met by the same version under the name and missed by any other. */
  lemma PinnedRequirement(name: string, pinned: string, version: string -> Option<string>)
    requires name != [] && Text.IsStripped(name)
    requires forall c :: c in name ==> !IsOperator(c) && c != '@'
    requires '@' !in pinned
    requires version(name).Some?
    ensures IsInstalled(name + "==" + pinned, true, version) <==> version(name).value == Text.Strip(pinned)
  {
    assert name + "==" + pinned == name + ['='] + ("=" + pinned);
    assert '@' !in "=" + pinned by {
      forall i | 0 <= i < |"=" + pinned|
        ensures ("=" + pinned)[i] != '@'
      {
        if i > 0 {
          assert ("=" + pinned)[i] == pinned[i - 1];
        }
      }
    }
    DistributionNameOfSpecifier(name, '=', "=" + pinned);
    PinnedVersionOf(name, pinned);
  }

  // ---------------------------------------------------------------------
  // ensure_requirements
  // ---------------------------------------------------------------------

  /** `DAD_SKIP_PIP` set to 1, true or yes, in any case. */
  predicate SkipPip(env: Option<string>) {
    var v := Text.Lower(env.GetOr(""));
    v == "1" || v == "true" || v == "yes"
  }

  /** `[req for req in requirements if not _is_installed(req)]`. */
  function Missing(reqs: seq<string>, hasMetadata: bool, version: string -> Option<string>): (m: seq<string>)
    ensures |m| <= |reqs|
    ensures forall i :: 0 <= i < |m| ==> m[i] in reqs && !IsInstalled(m[i], hasMetadata, version)
    ensures forall r :: r in reqs && !IsInstalled(r, hasMetadata, version) ==> r in m
  {
    if reqs == [] then []
    else
      var rest := Missing(reqs[1..], hasMetadata, version);
      assert forall r :: r in reqs ==> r == reqs[0] || r in reqs[1..];
      if IsInstalled(reqs[0], hasMetadata, version) then rest else [reqs[0]] + rest
  }

  /** What the check ends with. */
  datatype Action = Skipped | NothingMissing | Install(missing: seq<string>)

  /**
   * `ensure_requirements()`: `skipEnv` is `DAD_SKIP_PIP`, `file` the
   * requirements file's text (`None` when it does not exist). Installing
   * runs pip on the whole file; the missing requirements are reported.
   */
  method EnsureRequirements(skipEnv: Option<string>, file: Option<string>, hasMetadata: bool,
                            version: string -> Option<string>)
    returns (action: Action)
    ensures SkipPip(skipEnv) ==> action == Skipped
    ensures action.Install? ==>
      && file.Some?
      && action.missing == Missing(Requirements(Text.SplitLines(file.value)), hasMetadata, version)
      && action.missing != []
    ensures action == NothingMissing ==>
      !SkipPip(skipEnv)
      && (file.None? || Missing(Requirements(Text.SplitLines(file.value)), hasMetadata, version) == [])
    ensures !SkipPip(skipEnv) ==> action != Skipped
  {
    if SkipPip(skipEnv) {
      return Skipped;
    }
    var reqs := ParseRequirements(file);
    if reqs == [] {
      return NothingMissing;
    }
    var missing := Missing(reqs, hasMetadata, version);
    if missing == [] {
      return NothingMissing;
    }
    action := Install(missing);
  }

  /** Without `importlib.metadata` every requirement is missing. */
  lemma {:induction false} NoMetadataAllMissing(reqs: seq<string>, version: string -> Option<string>)
    ensures Missing(reqs, false, version) == reqs
  {
    if reqs != [] {
      NoMetadataAllMissing(reqs[1..], version);
    }
  }
}
