/** The extension's state as seen through git: reading the current component
    and the recent list, `SetCurrentComponent` writing both, and the selector
    form handing a picked entry to it. The git process is replaced by the two
    configuration values it reads and writes. */
module Session {
  import opened Wrappers
  import opened Text
  import opened Resolver
  import opened Recent
  import opened Labels

  /** The two global git variables the extension reads and writes,
      `variable.latest-component-changed` and
      `variable.latest-components-recent-list`; `None` when unset. */
  datatype Config = Config(current: Option<string>, recent: Option<string>)

  /** What the extension can observe: the global git configuration as
      `git config` reads and writes it (`None` when the git process cannot be
      started), and the lines of `~/.gitconfig` (`None` when the file is
      missing or unreadable). */
  datatype Host = Host(git: Option<Config>, file: Option<seq<string>>)

  /** `git config --get variable.latest-component-changed`. */
  function RunCurrent(h: Host): (t: ToolRun)
    ensures t.Failed? <==> h.git.None?
    ensures h.git.Some? ==> t == Output(h.git.value.current.GetOr(""))
  {
    if h.git.None? then Failed else Output(h.git.value.current.GetOr(""))
  }

  /** `git config --get variable.latest-components-recent-list`. */
  function RunRecent(h: Host): (t: ToolRun)
    ensures t.Failed? <==> h.git.None?
    ensures h.git.Some? ==> t == Output(h.git.value.recent.GetOr(""))
  {
    if h.git.None? then Failed else Output(h.git.value.recent.GetOr(""))
  }

  /** `git config --global variable.latest-component-changed "<c>"`. */
  function WriteCurrent(h: Host, c: string): (h': Host)
    requires h.git.Some?
    ensures h'.git == Some(h.git.value.(current := Some(c))) && h'.file == h.file
    ensures RunCurrent(h') == Output(c) && RunRecent(h') == RunRecent(h)
  {
    h.(git := Some(h.git.value.(current := Some(c))))
  }

  /** `git config --global variable.latest-components-recent-list "<list>"`. */
  function WriteRecent(h: Host, list: string): (h': Host)
    requires h.git.Some?
    ensures h'.git == Some(h.git.value.(recent := Some(list))) && h'.file == h.file
    ensures RunRecent(h') == Output(list) && RunCurrent(h') == RunCurrent(h)
  {
    h.(git := Some(h.git.value.(recent := Some(list))))
  }

  /** `GetCurrentComponent`: never empty; a stored value that is not blank
      is read back trimmed. */
  function ReadCurrent(h: Host): (c: string)
    ensures c != "" && IsTrimmed(c)
    ensures h.git.Some? && Trim(h.git.value.current.GetOr("")) != ""
      ==> c == Trim(h.git.value.current.GetOr(""))
  {
    if h.git.Some? && Trim(h.git.value.current.GetOr("")) != "" then
      CurrentFromTool(RunCurrent(h), h.file);
      CurrentComponent(RunCurrent(h), h.file)
    else CurrentComponent(RunCurrent(h), h.file)
  }

  /** `GetComponentsRecentList`: empty exactly when git cannot be started,
      since otherwise the current component stands in for a missing list. */
  function ReadRecent(h: Host): (r: seq<string>)
    ensures r == [] <==> h.git.None?
    ensures ParsedOutput(RunRecent(h)) != [] ==> r == ParsedOutput(RunRecent(h))
    ensures h.git.Some? && ParsedOutput(RunRecent(h)) == [] ==> r == [ReadCurrent(h)]
  {
    RecentList(RunRecent(h), ReadCurrent(h))
  }

  /** `UpdateComponentsRecentList`: an empty component or a
      git that cannot be started writes nothing; otherwise only the list
      changes. */
  function UpdateRecent(h: Host, c: string): (h': Host)
    ensures c == "" || h.git.None? ==> h' == h
    ensures h'.file == h.file && h'.git.Some? == h.git.Some?
    ensures h.git.Some? ==> h'.git.value.current == h.git.value.current
  {
    if c == "" || h.git.None? then h
    else WriteRecent(h, Serialize(MoveToFront(ReadRecent(h), c)))
  }

  /** `SetCurrentComponent`: writes the component, then moves
      it to the front of the recent list. An empty component, or a git that
      cannot be started, changes nothing. */
  function SetCurrent(h: Host, c: string): (h': Host)
    ensures c == "" || h.git.None? ==> h' == h
    ensures h'.file == h.file && h'.git.Some? == h.git.Some?
    ensures h.git.Some? && c != "" ==> h'.git.value.current == Some(c)
  {
    if c == "" || h.git.None? then h
    else UpdateRecent(WriteCurrent(h, c), c)
  }

  /** After setting a component that is not blank, the extension reads back
      that component, trimmed. */
  lemma ReadAfterSet(h: Host, c: string)
    requires h.git.Some? && Trim(c) != ""
    ensures ReadCurrent(SetCurrent(h, c)) == Trim(c)
  {
    var h' := SetCurrent(h, c);
    assert RunCurrent(h') == Output(c);
    CurrentFromTool(RunCurrent(h'), h'.file);
  }

  /** Writing the current component leaves the stored list as it was; when
      none is stored, the list read falls back to the new component. */
  lemma ListAfterWritingCurrent(h: Host, c: string)
    requires h.git.Some? && IsComponentName(c)
    ensures ReadRecent(WriteCurrent(h, c))
      == if ParsedOutput(RunRecent(h)) != [] then ReadRecent(h) else [c]
    ensures AllComponentNames(ReadRecent(WriteCurrent(h, c)))
  {
    var h1 := WriteCurrent(h, c);
    assert RunRecent(h1) == RunRecent(h);
    TrimFixedPoint(c);
    CurrentFromTool(RunCurrent(h1), h1.file);
    var parsed := ParsedOutput(RunRecent(h));
    if parsed == [] {
      assert ReadRecent(h1) == [c];
      OneName(c);
    } else {
      assert ReadRecent(h1) == parsed;
      assert AllComponentNames(parsed);
    }
  }

  /** Helper: a one-entry list of a name, stated once so the solver need not
      unfold the list predicate where it is used. */
  lemma OneName(c: string)
    requires IsComponentName(c)
    ensures AllComponentNames([c])
  {
  }

  /** A list of names written to the store is read back as it was written. */
  lemma ListReadsBack(h: Host, xs: seq<string>)
    requires h.git.Some? && xs != [] && AllComponentNames(xs)
    ensures ReadRecent(WriteRecent(h, Serialize(xs))) == xs
    ensures ParsedOutput(RunRecent(WriteRecent(h, Serialize(xs)))) == xs
  {
    var h2 := WriteRecent(h, Serialize(xs));
    assert RunRecent(h2) == Output(Serialize(xs));
    ListReadsBackValue(xs);
    RecentListRoundTrip(xs, ReadCurrent(h2));
  }

  /** A component name moved to the front of the list, and the list stored so
      that it reads back unchanged: the old list when one was stored, else
      just the new component. */
  lemma RecentAfterSet(h: Host, c: string)
    requires h.git.Some? && IsComponentName(c)
    ensures var r := ReadRecent(SetCurrent(h, c));
      && r == MoveToFront(if ParsedOutput(RunRecent(h)) != [] then ReadRecent(h) else [c], c)
      && ParsedOutput(RunRecent(SetCurrent(h, c))) == r
  {
    var h1 := WriteCurrent(h, c);
    ListAfterWritingCurrent(h, c);
    var prior := ReadRecent(h1);
    var m := MoveToFront(prior, c);
    MoveToFrontKeepsNames(prior, c);
    assert SetCurrent(h, c) == WriteRecent(h1, Serialize(m)) by {
      assert c != "";
      assert UpdateRecent(h1, c) == WriteRecent(h1, Serialize(m));
    }
    ListReadsBack(h1, m);
  }

  /** Repeated selections keep the recent list at most five long, led by the
      latest selection, and free of case-insensitive duplicates. */
  lemma SetCurrentKeepsRecentInvariant(h: Host, c: string)
    requires h.git.Some? && IsComponentName(c)
    requires DistinctIgnoringCase(ReadRecent(h))
    ensures var r := ReadRecent(SetCurrent(h, c));
      1 <= |r| <= MaxRecent && r[0] == c && DistinctIgnoringCase(r)
  {
    RecentAfterSet(h, c);
    var prior := if ParsedOutput(RunRecent(h)) != [] then ReadRecent(h) else [c];
    MoveToFrontKeepsDistinct(prior, c);
  }

  /** The list updates of the example below, one at a time. */
  lemma FrontOfApi()
    ensures MoveToFront(["api"], "api") == ["api"]
  {
    assert RemoveMatches(["api"], "api") == [];
  }

  lemma FrontOfUi()
    ensures MoveToFront(["api"], "ui") == ["ui", "api"]
  {
    assert |Lower("api")| != |Lower("ui")|;
    assert RemoveMatches(["api"], "ui") == ["api"];
  }

  lemma FrontOfApiAgain()
    ensures MoveToFront(["ui", "api"], "api") == ["api", "ui"]
  {
    assert |Lower("api")| != |Lower("ui")|;
    assert ["ui", "api"][1..] == ["api"];
    assert RemoveMatches(["api"], "api") == [];
    assert RemoveMatches(["ui", "api"], "api") == ["ui"];
  }

  /** Helpers for the examples: these only split the unfolding of string
      literals out of the larger proofs, for the solver's sake. */
  lemma ExampleNames()
    ensures IsComponentName("api") && IsComponentName("ui")
  {
  }

  /** Starting from an empty configuration, selecting `api`, `ui`, then `api`
      leaves `api` current and the recent list `api, ui`. */
  lemma ApiUiApi()
    ensures var h0 := Host(Some(Config(None, None)), None);
      var h3 := SetCurrent(SetCurrent(SetCurrent(h0, "api"), "ui"), "api");
      ReadCurrent(h3) == "api" && ReadRecent(h3) == ["api", "ui"]
  {
    var h0 := Host(Some(Config(None, None)), None);
    ExampleNames();
    assert ParsedOutput(RunRecent(h0)) == [];
    var h1 := SetCurrent(h0, "api");
    RecentAfterSet(h0, "api");
    FrontOfApi();
    var h2 := SetCurrent(h1, "ui");
    FrontOfUi();
    SelectionStep(h1, "ui", ["api"], ["ui", "api"]);
    FrontOfApiAgain();
    SelectionStep(h2, "api", ["ui", "api"], ["api", "ui"]);
    TrimFixedPoint("api");
    ReadAfterSet(h2, "api");
  }

  /** One selection on a store whose list reads back as stored. */
  lemma SelectionStep(h: Host, c: string, prior: seq<string>, next: seq<string>)
    requires h.git.Some? && IsComponentName(c) && prior != []
    requires ParsedOutput(RunRecent(h)) == prior && MoveToFront(prior, c) == next
    ensures ReadRecent(SetCurrent(h, c)) == next
    ensures ParsedOutput(RunRecent(SetCurrent(h, c))) == next
  {
    RecentAfterSet(h, c);
  }

  /* ---------------- the selector form ---------------- */

  /** `ShowComponentSelector` when the user picks entry `i`,
      with the form's mark stripping as written. */
  function SelectFromFormAsWritten(h: Host, i: nat): (h': Host)
    requires i < |ReadRecent(h)|
    ensures var item := ReadRecent(h)[i];
      !HasCurrentMark(item) && EqualsIgnoreCase(item, ReadCurrent(h)) ==> h' == SetCurrent(h, item + " ")
    ensures var item := ReadRecent(h)[i];
      !HasCurrentMark(item) && !EqualsIgnoreCase(item, ReadCurrent(h)) ==> h' == SetCurrent(h, item)
  {
    StripMarkAsWrittenLeavesSpace(ReadRecent(h)[i]);
    var pick := StripMarkAsWritten(MenuEntry(ReadRecent(h)[i], ReadCurrent(h)).text);
    if pick != "" then SetCurrent(h, pick) else h
  }

  /** The same with the whole mark stripped. */
  function SelectFromForm(h: Host, i: nat): (h': Host)
    requires i < |ReadRecent(h)|
    ensures !HasCurrentMark(ReadRecent(h)[i]) ==> h' == SetCurrent(h, ReadRecent(h)[i])
  {
    StripMarkUndoesDecorate(ReadRecent(h)[i], CurrentMark);
    var pick := StripMark(MenuEntry(ReadRecent(h)[i], ReadCurrent(h)).text);
    if pick != "" then SetCurrent(h, pick) else h
  }

  /** A click on entry `i` of the toolbar dropdown of
      `ShowComponentDropdownAsync` sets the
      entry's component. */
  function SelectFromDropdown(h: Host, i: nat): (h': Host)
    requires i < |ReadRecent(h)|
    ensures !HasCurrentMark(ReadRecent(h)[i]) ==> h' == SetCurrent(h, ReadRecent(h)[i])
  {
    SetCurrent(h, MenuEntry(ReadRecent(h)[i], ReadCurrent(h)).component)
  }

  /** For any entry of the stored list, the dropdown and the form with the
      whole mark stripped select the same component. */
  lemma DropdownAndFormAgree(h: Host, i: nat)
    requires i < |ReadRecent(h)| && !HasCurrentMark(ReadRecent(h)[i])
    ensures SelectFromDropdown(h, i) == SelectFromForm(h, i)
    ensures SelectFromForm(h, i) == SetCurrent(h, ReadRecent(h)[i])
  {
    FormReturnsEntryComponent(ReadRecent(h)[i], ReadCurrent(h));
  }

  /** With a list stored, writing the current component does not change the
      list read. */
  lemma ListKeptWhenStored(h: Host, c: string)
    requires h.git.Some? && ParsedOutput(RunRecent(h)) != []
    ensures ReadRecent(WriteCurrent(h, c)) == ReadRecent(h)
  {
    assert RunRecent(WriteCurrent(h, c)) == RunRecent(h);
  }

  /** The store of the counterexample: `api` current, `api,ui` the list. */
  const Example := Host(Some(Config(Some("api"), Some("api,ui"))), None)

  lemma ExampleReads()
    ensures ReadCurrent(Example) == "api"
    ensures ParsedOutput(RunRecent(Example)) == ["api", "ui"]
    ensures ReadRecent(Example) == ["api", "ui"]
  {
    ExampleCurrent();
    ExampleList();
  }

  lemma ExampleCurrent()
    ensures ReadCurrent(Example) == "api"
  {
    ExampleNames();
    StoredCurrentReadsBack(Example, "api");
  }

  /** A stored component name is read back as it was stored. */
  lemma StoredCurrentReadsBack(h: Host, c: string)
    requires h.git.Some? && h.git.value.current == Some(c) && IsComponentName(c)
    ensures ReadCurrent(h) == c
  {
    TrimFixedPoint(c);
  }

  lemma ExampleList()
    ensures ParsedOutput(RunRecent(Example)) == ["api", "ui"]
  {
    ExampleNames();
    assert Serialize(["api", "ui"]) == "api,ui" by { ApiCommaUi(); }
    ListReadsBackValue(["api", "ui"]);
  }

  lemma ApiCommaUi()
    ensures Serialize(["api", "ui"]) == "api,ui"
  {
    assert ["api", "ui"][1..] == ["ui"];
  }

  /** A list of names stored is what the list read holds, whatever else. */
  lemma ListReadsBackValue(xs: seq<string>)
    requires xs != [] && AllComponentNames(xs)
    ensures ParsedOutput(Output(Serialize(xs))) == xs
  {
    SerializeIsTrimmed(xs);
    TrimFixedPoint(Serialize(xs));
    ParseSerialize(xs);
  }

  lemma FrontOfApiSpace()
    ensures MoveToFront(["api", "ui"], "api ") == ["api ", "api", "ui"]
  {
    assert |Lower("api")| != |Lower("api ")| && |Lower("ui")| != |Lower("api ")|;
    assert ["api", "ui"][1..] == ["ui"];
    assert RemoveMatches(["ui"], "api ") == ["ui"];
    assert RemoveMatches(["api", "ui"], "api ") == ["api", "ui"];
  }

  /** The list the counterexample stores: `api ,api,ui`. */
  const Duplicated: seq<string> := ["api ", "api", "ui"]

  lemma DuplicatedIsTrimmed()
    ensures Serialize(Duplicated) != "" && Trim(Serialize(Duplicated)) == Serialize(Duplicated)
  {
    ExampleNames();
    assert Duplicated == ["api "] + ["api", "ui"];
    assert "api "[0] == 'a';
    JoinAfterLeadingName("api ", ["api", "ui"]);
  }

  /** A join led by a piece that starts with a name character and followed by
      names is already trimmed. */
  lemma JoinAfterLeadingName(x: string, rest: seq<string>)
    requires x != [] && !IsWhiteSpace(x[0])
    requires rest != [] && AllComponentNames(rest)
    ensures Serialize([x] + rest) != "" && Trim(Serialize([x] + rest)) == Serialize([x] + rest)
  {
    var xs := [x] + rest;
    assert xs[0] == x && xs[1..] == rest;
    SerializeIsTrimmed(rest);
    var s := Serialize(xs);
    assert s == x + [Separator] + Serialize(rest);
    assert s[0] == x[0];
    assert s[|s| - 1] == Serialize(rest)[|Serialize(rest)| - 1];
    TrimFixedPoint(s);
  }

  lemma DuplicatedSplits()
    ensures forall i :: 0 <= i < |Duplicated| ==> Separator !in Duplicated[i]
    ensures Split(Serialize(Duplicated), Separator) == Duplicated
  {
    assert Separator !in Duplicated[0];
    assert Separator !in Duplicated[1];
    assert Separator !in Duplicated[2];
    SplitJoin(Duplicated, Separator);
  }

  /** A trailing space on a name is trimmed away when the list is read. */
  lemma TrimTrailingSpace(a: string)
    requires IsComponentName(a)
    ensures Trim(a + " ") == a
  {
    var s := a + " ";
    assert s[0] == a[0];
    assert TrimStart(s) == s;
    assert s[..|s| - 1] == a;
    assert TrimEnd(s) == TrimEnd(a);
    TrimFixedPoint(a);
    assert TrimStart(a) == a;
  }

  lemma KeepNamesTrailingSpace(a: string, rest: seq<string>)
    requires IsComponentName(a) && AllComponentNames(rest)
    ensures Separator !in a + " "
    ensures KeepNames([a + " "] + rest) == [a] + rest
  {
    var p := a + " ";
    assert Separator !in p by {
      assert forall i :: 0 <= i < |a| ==> p[i] == a[i];
    }
    TrimTrailingSpace(a);
    assert KeepName(p) == [a];
    var parts := [p] + rest;
    assert parts[0] == p && parts[1..] == rest;
    KeepNamesOfNames(rest);
  }

  lemma DuplicatedKeeps()
    ensures KeepNames(Duplicated) == ["api", "api", "ui"]
  {
    ExampleNames();
    SpaceAfterApi();
    assert Duplicated == ["api" + " "] + ["api", "ui"];
    KeepNamesTrailingSpace("api", ["api", "ui"]);
  }

  /** Reading back `api ,api,ui` trims the first entry into a second `api`. */
  lemma StoredDuplicate()
    ensures ParsedOutput(Output(Serialize(Duplicated))) == ["api", "api", "ui"]
  {
    DuplicatedIsTrimmed();
    DuplicatedSplits();
    DuplicatedKeeps();
  }

  /** As written, picking in the form the entry of the current component
      sets that component with a space appended. */
  lemma ReselectAsWritten(h: Host, i: nat)
    requires i < |ReadRecent(h)|
    requires !HasCurrentMark(ReadRecent(h)[i]) && EqualsIgnoreCase(ReadRecent(h)[i], ReadCurrent(h))
    ensures SelectFromFormAsWritten(h, i) == SetCurrent(h, ReadRecent(h)[i] + " ")
  {
    FormAsWrittenAppendsSpace(ReadRecent(h)[i], ReadCurrent(h));
  }

  /** The form hands `api ` back for the checked `api` entry. */
  lemma ExamplePick()
    ensures SelectFromFormAsWritten(Example, 0) == SetCurrent(Example, "api ")
  {
    ExampleReads();
    PickCheckedApi(Example);
  }

  /** With `api` current and listed first, the form hands back `api `. */
  lemma PickCheckedApi(h: Host)
    requires ReadCurrent(h) == "api" && ReadRecent(h) == ["api", "ui"]
    ensures SelectFromFormAsWritten(h, 0) == SetCurrent(h, "api ")
  {
    var e := ReadRecent(h)[0];
    assert e == "api";
    assert !HasCurrentMark(e) by {
      assert |e| < |CurrentMark|;
    }
    SpaceAfterApi();
    ReselectAsWritten(h, 0);
  }

  /** Another string-literal unfolding split out for the solver. */
  lemma SpaceAfterApi()
    ensures "api" + " " == "api "
  {
  }

  /** Setting `api ` keeps `api` in the list and stores `api ,api,ui`. */
  lemma ExampleStoresDuplicate()
    ensures SetCurrent(Example, "api ")
      == WriteRecent(WriteCurrent(Example, "api "), Serialize(Duplicated))
  {
    ExampleReads();
    var h1 := WriteCurrent(Example, "api ");
    ListKeptWhenStored(Example, "api ");
    FrontOfApiSpace();
    assert UpdateRecent(h1, "api ") == WriteRecent(h1, Serialize(Duplicated));
  }

  /** Whatever else is stored, `api ,api,ui` reads back as `api, api, ui`. */
  lemma DuplicateReadsBack(h: Host)
    requires h.git.Some?
    ensures ReadRecent(WriteRecent(h, Serialize(Duplicated))) == ["api", "api", "ui"]
  {
    var h2 := WriteRecent(h, Serialize(Duplicated));
    assert RunRecent(h2) == Output(Serialize(Duplicated));
    StoredDuplicate();
  }

  /** As written, picking the current component again in the form stores it
      with a trailing space; the update then keeps the old entry beside it, and
      once read back the list holds `api` twice. */
  lemma ReselectingCurrentDuplicates()
    ensures ReadRecent(Example) == ["api", "ui"]
    ensures ReadRecent(SelectFromFormAsWritten(Example, 0)) == ["api", "api", "ui"]
    ensures !DistinctIgnoringCase(ReadRecent(SelectFromFormAsWritten(Example, 0)))
  {
    ExampleReads();
    ExamplePick();
    ExampleStoresDuplicate();
    DuplicateReadsBack(WriteCurrent(Example, "api "));
    var r := ["api", "api", "ui"];
    assert EqualsIgnoreCase(r[0], r[1]);
  }

  /** Stripping the whole mark, picking any stored entry keeps the recent list
      at most five long, led by the pick, and free of duplicates. */
  lemma SelectFromFormKeepsDistinct(h: Host, i: nat)
    requires h.git.Some? && i < |ReadRecent(h)|
    requires IsComponentName(ReadRecent(h)[i]) && !HasCurrentMark(ReadRecent(h)[i])
    requires DistinctIgnoringCase(ReadRecent(h))
    ensures var r := ReadRecent(SelectFromForm(h, i));
      1 <= |r| <= MaxRecent && r[0] == ReadRecent(h)[i] && DistinctIgnoringCase(r)
  {
    FormReturnsEntryComponent(ReadRecent(h)[i], ReadCurrent(h));
    SetCurrentKeepsRecentInvariant(h, ReadRecent(h)[i]);
  }
}
