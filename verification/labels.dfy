/** The text the extension shows: the ` (current)` mark on the entry of the
    current component in the toolbar dropdown and in the selector form, and
    the `</> ...` texts of the status bar and the toolbar button. */
module Labels {
  import opened Wrappers
  import opened Text
  import opened Resolver

  /** The mark appended to the current component's entry: ten characters. */
  const CurrentMark := " (current)"

  /** The component followed by the mark, as the dropdown and the form show the current one. */
  function Decorate(name: string): string {
    name + CurrentMark
  }

  /** The suffix test the dropdown builder, the form's list and both of the
      form's pick handlers apply. */
  predicate HasCurrentMark(s: string) {
    EndsWithIgnoreCase(s, CurrentMark)
  }

  /** Stripping the mark as the dropdown builder, the form's list and both
      pick handlers do: cutting nine characters off the end keeps one character of the ten-character
      mark, its leading space. */
  function StripMarkAsWritten(s: string): (r: string)
    ensures HasCurrentMark(s) ==> r == StripMark(s) + [s[|s| - |CurrentMark|]]
    ensures !HasCurrentMark(s) ==> r == s
  {
    if HasCurrentMark(s) then s[..|s| - 9] else s
  }

  /** Stripping all ten characters of the mark. */
  function StripMark(s: string): (r: string)
    ensures HasCurrentMark(s) ==> |r| + |CurrentMark| == |s| && r == s[..|r|]
    ensures !HasCurrentMark(s) ==> r == s
  {
    if HasCurrentMark(s) then s[..|s| - |CurrentMark|] else s
  }

  /** The mark is found whatever its case, and stripping a decorated name gives
      the name back. */
  lemma StripMarkUndoesDecorate(name: string, mark: string)
    requires EqualsIgnoreCase(mark, CurrentMark)
    ensures StripMark(name + mark) == name
  {
    var s := name + mark;
    assert |mark| == |CurrentMark| by { assert |Lower(mark)| == |Lower(CurrentMark)|; }
    assert s[|s| - |CurrentMark|..] == mark;
    assert s[..|s| - |CurrentMark|] == name;
  }

  /** As written, stripping a decorated name leaves a trailing space. */
  lemma StripMarkAsWrittenLeavesSpace(name: string)
    ensures StripMarkAsWritten(Decorate(name)) == name + " "
  {
    var s := Decorate(name);
    assert s[|s| - |CurrentMark|..] == CurrentMark;
    assert s[..|s| - 9] == name + " ";
  }

  /** One entry of the dropdown (`ShowComponentDropdownAsync`) or of the
      list of `ComponentSelectorForm`: its text, whether it is checked, and the component a click on
      it selects. */
  datatype Entry = Entry(text: string, checked: bool, component: string)

  function MenuEntry(item: string, current: string): (e: Entry)
    ensures e.component == StripMark(item)
    ensures e.checked <==> EqualsIgnoreCase(e.component, current)
    ensures e.checked ==> e.text == Decorate(e.component)
    ensures !e.checked ==> e.text == e.component
    ensures !HasCurrentMark(e.component) ==> StripMark(e.text) == e.component
  {
    var clean := StripMark(item);
    var isCurrent := EqualsIgnoreCase(clean, current);
    StripMarkUndoesDecorate(clean, CurrentMark);
    Entry(if isCurrent then Decorate(clean) else clean, isCurrent, clean)
  }

  /** The form hands back the component of the entry the user picked: the
      entry's text with the mark stripped, in both the OK and the double-click
      handler. */
  lemma FormReturnsEntryComponent(item: string, current: string)
    requires !HasCurrentMark(item)
    ensures StripMark(MenuEntry(item, current).text) == item
  {
    var e := MenuEntry(item, current);
    if e.checked {
      StripMarkUndoesDecorate(item, CurrentMark);
    }
  }

  /** As written, picking the current component's entry in the form hands
      back the component with a space appended. */
  lemma FormAsWrittenAppendsSpace(item: string, current: string)
    requires !HasCurrentMark(item) && EqualsIgnoreCase(item, current)
    ensures StripMarkAsWritten(MenuEntry(item, current).text) == item + " "
  {
    StripMarkAsWrittenLeavesSpace(item);
  }

  /** `"</> "` followed by the component, or by `fallback` when there is none. */
  function IconLabel(current: string, fallback: string): (r: string)
    ensures current != "" ==> r == Tagged(current)
    ensures current == "" ==> r == Tagged(fallback)
  {
    Tagged(if current == "" then fallback else current)
  }

  /** The status-bar text of `UpdateStatusBarWithComponent`. */
  function StatusText(current: string): string {
    IconLabel(current, "No component")
  }

  /** The toolbar button text of `OnBeforeQueryToolbarStatus`. */
  function ToolbarText(current: string): string {
    IconLabel(current, "No component set")
  }

  /** The status bar shows exactly what the resolver answered: the current
      component is never empty, so the "No component" fallback never shows. */
  lemma StatusShowsResolution(tool: ToolRun, file: Option<seq<string>>)
    ensures StatusText(CurrentComponent(tool, file)) == Resolve(tool, file)
    ensures ToolbarText(CurrentComponent(tool, file)) == Resolve(tool, file)
  {
  }
}
