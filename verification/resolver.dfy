/** How the extension finds the component it shows: `GetLatestComponentChanged`
    asks `git config --get variable.latest-component-changed` first and falls
    back to scanning the `[variable]` section of `~/.gitconfig`;
    `GetCurrentComponent` then strips the `</>` icon off the result. The git
    process and the file read are inputs here, not effects. */
module Resolver {
  import opened Wrappers
  import opened Text

  /** What running `git config --get <key>` produced: an exception while
      starting or reading the process, or its captured standard output. */
  datatype ToolRun = Failed | Output(stdout: string)

  const Icon := "</>"
  const NoComponentName := "No component changed"
  const SectionHeader := "[variable]"
  const CurrentKey := "latest-component-changed"

  /** `"</> " + v`, the shape of every answer the resolver gives. */
  function Tagged(v: string): string {
    Icon + " " + v
  }

  /** The answer when neither the tool nor the file has a value. */
  const NoComponentChanged := Tagged(NoComponentName)

  lemma TaggedInjective(a: string, b: string)
    requires Tagged(a) == Tagged(b)
    ensures a == b
  {
    assert Tagged(a)[4..] == a;
    assert Tagged(b)[4..] == b;
  }

  /** The trimmed standard output, `""` when the process failed. Output that
      is already trimmed is taken as printed. */
  function ToolValue(tool: ToolRun): (v: string)
    ensures IsTrimmed(v)
    ensures tool.Failed? ==> v == ""
    ensures tool.Output? && IsTrimmed(tool.stdout) ==> v == tool.stdout
  {
    match tool
    case Failed => ""
    case Output(o) =>
      TrimFixedPoint(o);
      Trim(o)
  }

  /** Git's output is used trimmed, whatever white space surrounds it. */
  lemma ToolValueIsTrim(tool: ToolRun)
    ensures tool.Output? ==> ToolValue(tool) == Trim(tool.stdout)
  {
  }

  /* ---------------- the file scan ---------------- */

  /** A trimmed line that (re)opens the `[variable]` section, in any case. */
  predicate IsHeader(t: string) {
    EqualsIgnoreCase(t, SectionHeader)
  }

  /** A trimmed line that starts some section. */
  predicate OpensSection(t: string) {
    StartsWith(t, "[")
  }

  /** The value a trimmed line gives the key: the line starts with the key name
      (ignoring case), has an `=`, and the text after the first `=` is not blank. */
  function KeyValue(t: string): (r: Option<string>)
    ensures r.Some? ==> r.value != "" && IsTrimmed(r.value)
    ensures !StartsWithIgnoreCase(t, CurrentKey) || '=' !in t ==> r == None
  {
    if StartsWithIgnoreCase(t, CurrentKey) then
      var k := IndexOf(t, '=');
      if k < |t| then
        var v := Trim(t[k + 1..]);
        if v != "" then Some(v) else None
      else None
    else None
  }

  /** Split at its first `=`, a line gives the key the trimmed text after
      that `=` exactly when the line starts with the key name and that text
      is not blank. Every line with an `=` splits this way in one way only. */
  lemma KeyValueAfterFirstAssign(t: string, pre: string, post: string)
    requires t == pre + ['='] + post && '=' !in pre
    ensures KeyValue(t) == Some(Trim(post))
        <==> StartsWithIgnoreCase(t, CurrentKey) && Trim(post) != ""
    ensures KeyValue(t) == None
        <==> !StartsWithIgnoreCase(t, CurrentKey) || Trim(post) == ""
  {
    FirstAssignAt(t, pre, post);
  }

  lemma FirstAssignAt(t: string, pre: string, post: string)
    requires t == pre + ['='] + post && '=' !in pre
    ensures IndexOf(t, '=') == |pre| && t[|pre| + 1..] == post
  {
    assert t[|pre|] == '=';
    assert forall i :: 0 <= i < |pre| ==> t[i] == pre[i];
  }

  /** A section header is neither a key line nor a line that ends the scan. */
  lemma HeaderIsNoKeyLine(t: string)
    requires IsHeader(t)
    ensures OpensSection(t) && KeyValue(t).None?
  {
    EqualsIgnoreCaseChars(t, SectionHeader, 0);
    assert t[0] == '[';
  }

  /** A key line never starts a section. */
  lemma KeyLineOpensNoSection(t: string)
    requires StartsWithIgnoreCase(t, CurrentKey)
    ensures !OpensSection(t)
  {
    EqualsIgnoreCaseChars(t[..|CurrentKey|], CurrentKey, 0);
    assert FoldCase(t[0]) == 'l';
  }

  /** What one line of the file means to the `[variable]` scan of
      `GetLatestComponentChanged`. */
  datatype LineKind =
    | Header               // `[variable]`, in any case, after trimming
    | KeyLine(value: string) // a key line with a non-blank value
    | OtherSection         // any other line starting with `[`
    | Plain                // everything else, key lines with a blank value included

  /** The kind of a raw line, in the order the loop tests it. */
  function Classify(line: string): (k: LineKind)
    ensures k.Header? <==> IsHeader(Trim(line))
    ensures k.KeyLine? <==> KeyValue(Trim(line)).Some?
    ensures k.KeyLine? ==> KeyValue(Trim(line)) == Some(k.value)
    ensures k.OtherSection? <==> OpensSection(Trim(line)) && !IsHeader(Trim(line))
  {
    var t := Trim(line);
    if IsHeader(t) then
      HeaderIsNoKeyLine(t);
      Header
    else match KeyValue(t)
      case Some(v) =>
        KeyLineOpensNoSection(t);
        KeyLine(v)
      case None => if OpensSection(t) then OtherSection else Plain
  }

  /** The loop over classified lines: `inSection` is true once a header has
      been seen; a key line there answers, another section ends the search. */
  function ScanKinds(kinds: seq<LineKind>, inSection: bool): (r: Option<string>)
    ensures r.Some? ==> exists k :: 0 <= k < |kinds| && kinds[k] == KeyLine(r.value)
    decreases |kinds|
  {
    if kinds == [] then None
    else match kinds[0]
      case Header => ScanKinds(kinds[1..], true)
      case KeyLine(v) => if inSection then Some(v) else ScanKinds(kinds[1..], inSection)
      case OtherSection => if inSection then None else ScanKinds(kinds[1..], inSection)
      case Plain => ScanKinds(kinds[1..], inSection)
  }

  function Kinds(lines: seq<string>): (ks: seq<LineKind>)
    ensures |ks| == |lines|
    ensures forall i :: 0 <= i < |lines| ==> ks[i] == Classify(lines[i])
  {
    seq(|lines|, i requires 0 <= i < |lines| => Classify(lines[i]))
  }

  /** The file fallback of `GetLatestComponentChanged`: the value of the first
      usable key line of the `[variable]` section. */
  function Scan(lines: seq<string>): (r: Option<string>)
    ensures r.Some? ==> r.value != "" && IsTrimmed(r.value)
  {
    ScanKinds(Kinds(lines), false)
  }

  /* A declarative reading of the scan. */

  /** Line `j` is read inside the section: the scan started inside it, or a
      header comes before `j`. */
  ghost predicate InSection(kinds: seq<LineKind>, inSection: bool, j: int) {
    inSection || exists h :: 0 <= h < j && h < |kinds| && kinds[h].Header?
  }

  /** A line at which an in-section scan stops. */
  predicate Stops(k: LineKind) {
    k.KeyLine? || k.OtherSection?
  }

  /** Line `k` is the first in-section line at which the scan stops. */
  ghost predicate FirstStop(kinds: seq<LineKind>, inSection: bool, k: int) {
    && 0 <= k < |kinds|
    && InSection(kinds, inSection, k)
    && Stops(kinds[k])
    && forall j :: 0 <= j < k && InSection(kinds, inSection, j) ==> !Stops(kinds[j])
  }

  lemma InSectionShift(kinds: seq<LineKind>, inSection: bool, k: nat)
    requires kinds != []
    ensures InSection(kinds, inSection, k + 1)
        == InSection(kinds[1..], inSection || kinds[0].Header?, k)
  {
    var rest := kinds[1..];
    if InSection(kinds, inSection, k + 1) && !inSection && !kinds[0].Header? {
      var h :| 0 <= h < k + 1 && h < |kinds| && kinds[h].Header?;
      assert rest[h - 1] == kinds[h];
    }
    if InSection(rest, inSection || kinds[0].Header?, k) && !inSection && !kinds[0].Header? {
      var h :| 0 <= h < k && h < |rest| && rest[h].Header?;
      assert kinds[h + 1] == rest[h];
    }
  }

  /** When the first line does not stop the scan, first stops move one line down. */
  lemma FirstStopShift(kinds: seq<LineKind>, inSection: bool, k: nat)
    requires kinds != []
    requires !(inSection && Stops(kinds[0]))
    ensures FirstStop(kinds, inSection, k + 1)
        == FirstStop(kinds[1..], inSection || kinds[0].Header?, k)
  {
    var rest := kinds[1..];
    var inRest := inSection || kinds[0].Header?;
    forall j: nat
      ensures InSection(kinds, inSection, j + 1) == InSection(rest, inRest, j)
    {
      InSectionShift(kinds, inSection, j);
    }
    if FirstStop(kinds, inSection, k + 1) {
      forall j | 0 <= j < k && InSection(rest, inRest, j)
        ensures !Stops(rest[j])
      {
        assert kinds[j + 1] == rest[j];
      }
    }
    if FirstStop(rest, inRest, k) {
      forall j | 0 <= j < k + 1 && InSection(kinds, inSection, j)
        ensures !Stops(kinds[j])
      {
        if j > 0 {
          assert kinds[j] == rest[j - 1];
        }
      }
    }
  }

  /** When the first line does not stop the scan, the first stop is a key line
      with value `v` exactly when it is one for the rest of the lines. */
  lemma FirstKeyLineShift(kinds: seq<LineKind>, inSection: bool, v: string)
    requires kinds != []
    requires !(inSection && Stops(kinds[0]))
    ensures (exists k :: FirstStop(kinds, inSection, k) && kinds[k] == KeyLine(v))
        <==> (exists k :: FirstStop(kinds[1..], inSection || kinds[0].Header?, k) && kinds[1..][k] == KeyLine(v))
  {
    var rest := kinds[1..];
    var inRest := inSection || kinds[0].Header?;
    assert !FirstStop(kinds, inSection, 0);
    if exists k :: FirstStop(kinds, inSection, k) && kinds[k] == KeyLine(v) {
      var k :| FirstStop(kinds, inSection, k) && kinds[k] == KeyLine(v);
      FirstStopShift(kinds, inSection, k - 1);
      assert rest[k - 1] == kinds[k];
    }
    if exists k :: FirstStop(rest, inRest, k) && rest[k] == KeyLine(v) {
      var k :| FirstStop(rest, inRest, k) && rest[k] == KeyLine(v);
      FirstStopShift(kinds, inSection, k);
      assert rest[k] == kinds[k + 1];
    }
  }

  /** The scan answers `v` exactly when the first in-section line at which it
      stops is a key line with value `v`. */
  lemma {:induction false} ScanKindsMeaning(kinds: seq<LineKind>, inSection: bool, v: string)
    ensures ScanKinds(kinds, inSection) == Some(v)
        <==> exists k :: FirstStop(kinds, inSection, k) && kinds[k] == KeyLine(v)
    decreases |kinds|
  {
    if kinds != [] {
      var rest := kinds[1..];
      var inRest := inSection || kinds[0].Header?;
      if !(inSection && Stops(kinds[0])) {
        assert ScanKinds(kinds, inSection) == ScanKinds(rest, inRest);
        ScanKindsMeaning(rest, inRest, v);
        FirstKeyLineShift(kinds, inSection, v);
      } else {
        assert FirstStop(kinds, inSection, 0);
      }
    }
  }

  /** The file gives `v` exactly when the first line of the `[variable]`
      section that is a usable key line or another section's header is a key
      line with value `v`: lines before the first header are ignored, key lines
      with a blank value are skipped, and the next section ends the search. */
  lemma ScanMeaning(lines: seq<string>, v: string)
    ensures Scan(lines) == Some(v)
        <==> exists k :: FirstStop(Kinds(lines), false, k) && KeyValue(Trim(lines[k])) == Some(v)
  {
    ScanKindsMeaning(Kinds(lines), false, v);
  }

  /** Without a `[variable]` header the file never supplies a value. */
  lemma {:induction false} NoHeaderNoValue(kinds: seq<LineKind>)
    requires forall i :: 0 <= i < |kinds| ==> !kinds[i].Header?
    ensures ScanKinds(kinds, false) == None
    decreases |kinds|
  {
    if kinds != [] {
      NoHeaderNoValue(kinds[1..]);
    }
  }

  /* ---------------- GetLatestComponentChanged ---------------- */

  /** The value the file fallback supplies, if any: `None` when the file is
      missing or unreadable or the scan finds nothing. */
  function FileValue(file: Option<seq<string>>): (r: Option<string>)
    ensures r.Some? ==> r.value != "" && IsTrimmed(r.value)
  {
    match file
    case None => None
    case Some(lines) => Scan(lines)
  }

  /** A missing or unreadable file gives nothing; a file that was read gives
      what the scan of its lines finds. */
  lemma FileValueIsScan(file: Option<seq<string>>)
    ensures file.None? ==> FileValue(file) == None
    ensures file.Some? ==> FileValue(file) == Scan(file.value)
  {
  }

  /** `GetLatestComponentChanged`: always `"</> "` followed by a
      trimmed, non-blank name. */
  function Resolve(tool: ToolRun, file: Option<seq<string>>): (r: string)
    ensures |r| > 4 && r[..4] == "</> "
    ensures r[4..] != "" && IsTrimmed(r[4..])
  {
    var fromTool := ToolValue(tool);
    var v := if fromTool != "" then fromTool
      else match FileValue(file)
        case Some(w) => w
        case None => NoComponentName;
    FallbackIsTrimmed();
    TaggedParts(v);
    Tagged(v)
  }

  /** Helper: the fallback name is a trimmed name. */
  lemma FallbackIsTrimmed()
    ensures NoComponentName != "" && IsTrimmed(NoComponentName)
  {
    assert NoComponentName[0] == 'N' && NoComponentName[|NoComponentName| - 1] == 'd';
  }

  /** Helper: a tagged value is the four characters of the icon and its space,
      then the value. */
  lemma TaggedParts(v: string)
    ensures |Tagged(v)| == 4 + |v|
    ensures Tagged(v)[..4] == "</> " && Tagged(v)[4..] == v
  {
  }

  /** Non-blank tool output wins and the file is never consulted; a failed
      process and blank output lead to the same fallback. */
  lemma ToolPreferred(tool: ToolRun, file1: Option<seq<string>>, file2: Option<seq<string>>)
    ensures ToolValue(tool) != "" ==> Resolve(tool, file1) == Resolve(tool, file2)
    ensures ToolValue(tool) == "" ==> Resolve(tool, file1) == Resolve(Failed, file1)
  {
  }

  /* ---------------- GetCurrentComponent ---------------- */

  /** `GetCurrentComponent` applied to a resolver answer `full`:
      the trimmed text after the icon and one more character, or `""` when
      `full` does not start with the icon; `None` where taking the text from
      the fifth character on throws. */
  function StripIcon(full: string): (r: Option<string>)
    ensures r.None? <==> full == Icon
    ensures r.Some? ==> IsTrimmed(r.value)
    ensures !StartsWith(full, Icon) ==> r == Some("")
  {
    if StartsWith(full, Icon) then
      if |full| < 4 then None else Some(Trim(full[4..]))
    else Some("")
  }

  /** After the icon and any one character, the rest of the answer, trimmed,
      is the component. */
  lemma StripIconAfterIcon(x: char, v: string)
    ensures StripIcon(Icon + [x] + v) == Some(Trim(v))
  {
    var full := Icon + [x] + v;
    assert full[..|Icon|] == Icon;
    assert full[4..] == v;
  }

  /** Tagging a trimmed name and stripping the icon again gives the name back. */
  lemma StripIconTagged(v: string)
    requires IsTrimmed(v)
    ensures StripIcon(Tagged(v)) == Some(v)
  {
    assert Tagged(v)[4..] == v;
    TrimFixedPoint(v);
  }

  /** The current component as the extension computes it. It is never empty:
      the absence sentinel becomes `"No component changed"`. */
  function CurrentComponent(tool: ToolRun, file: Option<seq<string>>): (c: string)
    ensures c != "" && IsTrimmed(c)
    ensures Tagged(c) == Resolve(tool, file)
  {
    var full := Resolve(tool, file);
    assert full == Tagged(full[4..]);
    StripIconTagged(full[4..]);
    StripIcon(full).value
  }

  /** Non-blank output of the tool is the current component. */
  lemma CurrentFromTool(tool: ToolRun, file: Option<seq<string>>)
    requires ToolValue(tool) != ""
    ensures CurrentComponent(tool, file) == ToolValue(tool)
  {
    TaggedInjective(CurrentComponent(tool, file), ToolValue(tool));
  }

  /** Otherwise the first line of the `[variable]` section at which the scan
      stops supplies it, when that line is a key line. */
  lemma CurrentFromFile(tool: ToolRun, lines: seq<string>, k: int)
    requires ToolValue(tool) == ""
    requires FirstStop(Kinds(lines), false, k) && Kinds(lines)[k].KeyLine?
    ensures CurrentComponent(tool, Some(lines)) == KeyValue(Trim(lines[k])).value
  {
    var v := Kinds(lines)[k].value;
    ScanMeaning(lines, v);
    TaggedInjective(CurrentComponent(tool, Some(lines)), v);
  }

  /** When no first stop of the scan is a key line, the file supplies nothing. */
  lemma NoKeyLineNoValue(lines: seq<string>)
    requires forall k :: FirstStop(Kinds(lines), false, k) ==> !Kinds(lines)[k].KeyLine?
    ensures Scan(lines) == None
  {
    var ks := Kinds(lines);
    if ScanKinds(ks, false).Some? {
      ScanKindsMeaning(ks, false, ScanKinds(ks, false).value);
    }
  }

  /** Neither the tool nor the file supplying a value yields the absence sentinel. */
  lemma AbsentSentinel(tool: ToolRun, file: Option<seq<string>>)
    requires ToolValue(tool) == ""
    requires FileValue(file) == None
    ensures Resolve(tool, file) == NoComponentChanged
    ensures CurrentComponent(tool, file) == NoComponentName
  {
    TaggedInjective(CurrentComponent(tool, file), NoComponentName);
  }

  /** With no tool output, and no file or no key line where the scan stops,
      the current component is the words "No component changed". */
  lemma CurrentAbsent(tool: ToolRun, file: Option<seq<string>>)
    requires ToolValue(tool) == ""
    requires file.Some? ==> forall k :: FirstStop(Kinds(file.value), false, k) ==> !Kinds(file.value)[k].KeyLine?
    ensures CurrentComponent(tool, file) == NoComponentName
  {
    if file.Some? {
      NoKeyLineNoValue(file.value);
    }
    AbsentSentinel(tool, file);
  }
}
