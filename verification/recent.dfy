/** The recent-components list: how `GetComponentsRecentList` reads it from
    `variable.latest-components-recent-list`, and how
    `UpdateComponentsRecentList` moves a component to its front, keeps five
    entries and writes it back joined with commas. */
module Recent {
  import opened Text
  import opened Resolver

  const MaxRecent := 5
  const Separator := ','

  /** A component name that survives being stored in the list: not empty,
      trimmed, and free of commas. */
  predicate IsComponentName(s: string) {
    s != "" && IsTrimmed(s) && Separator !in s
  }

  predicate AllComponentNames(xs: seq<string>) {
    forall i :: 0 <= i < |xs| ==> IsComponentName(xs[i])
  }

  /* ---------------- reading the list ---------------- */

  /** What `GetComponentsRecentList` does with one piece of the split: an empty piece is dropped
      (`RemoveEmptyEntries`), the rest is trimmed and kept unless blank. */
  function KeepName(p: string): (r: seq<string>)
    ensures Separator !in p ==> AllComponentNames(r)
    ensures |r| <= 1
    ensures r == [] <==> AllWhiteSpace(p)
  {
    TrimKeepsCharacters(p, Separator);
    if p != "" && Trim(p) != "" then [Trim(p)] else []
  }

  /** The same over all the pieces, in order. */
  function KeepNames(parts: seq<string>): seq<string>
    decreases |parts|
  {
    if parts == [] then [] else KeepName(parts[0]) + KeepNames(parts[1..])
  }

  /** The pieces of a split hold no comma, so what they yield are names. */
  lemma {:induction false} KeepNamesAreNames(parts: seq<string>)
    requires CommaFree(parts)
    ensures AllComponentNames(KeepNames(parts))
    decreases |parts|
  {
    if parts != [] {
      assert CommaFree(parts[1..]);
      KeepNamesAreNames(parts[1..]);
    }
  }

  /** Pieces of a split: none holds a comma. */
  predicate CommaFree(parts: seq<string>) {
    forall i :: 0 <= i < |parts| ==> Separator !in parts[i]
  }

  /** The filter reads the pieces one after another: the names of two runs of
      pieces are the names of the first run followed by those of the second. */
  lemma KeepNamesAppend(p1: seq<string>, p2: seq<string>)
    ensures KeepNames(p1 + p2) == KeepNames(p1) + KeepNames(p2)
  {
    KeepNamesPerPiece(p1 + p2);
    KeepNamesPerPiece(p1);
    KeepNamesPerPiece(p2);
    PerPieceAppend(KeepName, p1, p2);
  }

  /** `f` applied to every piece, the results concatenated in order. */
  function PerPiece(f: string -> seq<string>, parts: seq<string>): seq<string>
    decreases |parts|
  {
    if parts == [] then [] else f(parts[0]) + PerPiece(f, parts[1..])
  }

  lemma {:induction false} PerPieceAppend(f: string -> seq<string>, p1: seq<string>, p2: seq<string>)
    ensures PerPiece(f, p1 + p2) == PerPiece(f, p1) + PerPiece(f, p2)
    decreases |p1|
  {
    if p1 == [] {
      assert p1 + p2 == p2;
    } else {
      PerPieceAppend(f, p1[1..], p2);
      assert (p1 + p2)[0] == p1[0] && (p1 + p2)[1..] == p1[1..] + p2;
    }
  }

  lemma {:induction false} KeepNamesPerPiece(parts: seq<string>)
    ensures KeepNames(parts) == PerPiece(KeepName, parts)
    decreases |parts|
  {
    if parts != [] {
      KeepNamesPerPiece(parts[1..]);
    }
  }

  /** The first piece is read before the others. */
  lemma KeepNamesFront(p: string, t: seq<string>)
    ensures KeepNames([p] + t) == KeepName(p) + KeepNames(t)
  {
    assert ([p] + t)[0] == p && ([p] + t)[1..] == t;
  }

  /** A piece yields its trimmed text, unless that is blank. */
  lemma KeepNameMeaning(p: string)
    ensures KeepName(p) == if AllWhiteSpace(p) then [] else [Trim(p)]
  {
  }

  /** The component names of a stored list. */
  function Parse(s: string): (r: seq<string>)
    ensures AllComponentNames(r)
  {
    KeepNamesAreNames(Split(s, Separator));
    KeepNames(Split(s, Separator))
  }

  /** What the list read from git holds before any fallback: nothing when the
      process failed or printed nothing but white space. */
  function ParsedOutput(tool: ToolRun): (r: seq<string>)
    ensures AllComponentNames(r)
    ensures tool.Failed? ==> r == []
  {
    var out := ToolValue(tool);
    if out != "" then Parse(out) else []
  }

  /** `GetComponentsRecentList`, given the current component
      the extension would compute. A failed process yields the empty list; an
      empty stored list falls back to the current component, if it has one. */
  function RecentList(tool: ToolRun, current: string): (r: seq<string>)
    ensures tool.Failed? ==> r == []
    ensures ParsedOutput(tool) != [] ==> r == ParsedOutput(tool)
    ensures tool.Output? && ParsedOutput(tool) == [] ==> r == (if current != "" then [current] else [])
    ensures forall i :: 0 <= i < |r| ==> r[i] != ""
  {
    match tool
    case Failed => []
    case Output(_) =>
      var parsed := ParsedOutput(tool);
      if parsed != [] then parsed
      else if current != "" then [current]
      else []
  }

  /* ---------------- writing the list ---------------- */

  /** The list as `UpdateComponentsRecentList` stores it: the entries joined
      with `String.Join`, a comma between each two. */
  function Serialize(xs: seq<string>): string {
    Join(xs, Separator)
  }

  lemma {:induction false} KeepNamesOfNames(xs: seq<string>)
    requires AllComponentNames(xs)
    ensures KeepNames(xs) == xs
    decreases |xs|
  {
    if xs != [] {
      TrimFixedPoint(xs[0]);
      KeepNameMeaning(xs[0]);
      KeepNamesOfNames(xs[1..]);
      assert xs == [xs[0]] + xs[1..];
      KeepNamesFront(xs[0], xs[1..]);
    }
  }

  /** A joined non-empty list of names starts and ends with a name character. */
  lemma {:induction false} SerializeIsTrimmed(xs: seq<string>)
    requires xs != [] && AllComponentNames(xs)
    ensures Serialize(xs) != [] && IsTrimmed(Serialize(xs))
    ensures Serialize(xs)[0] == xs[0][0]
    ensures Serialize(xs)[|Serialize(xs)| - 1] == xs[|xs| - 1][|xs[|xs| - 1]| - 1]
    decreases |xs|
  {
    if |xs| > 1 {
      SerializeIsTrimmed(xs[1..]);
      SerializeCons(xs);
    }
  }

  /** A join of two or more entries is the first, a comma, and the join of the rest. */
  lemma SerializeCons(xs: seq<string>)
    requires |xs| > 1
    ensures Serialize(xs) == xs[0] + [Separator] + Serialize(xs[1..])
  {
  }

  /** Parsing a serialized list of names gives the list back. */
  lemma ParseSerialize(xs: seq<string>)
    requires xs != [] && AllComponentNames(xs)
    ensures Parse(Serialize(xs)) == xs
  {
    SplitJoin(xs, Separator);
    KeepNamesOfNames(xs);
  }

  /** The list the extension writes is the list it reads back, whatever the
      current component. */
  lemma RecentListRoundTrip(xs: seq<string>, current: string)
    requires xs != [] && AllComponentNames(xs)
    ensures RecentList(Output(Serialize(xs)), current) == xs
  {
    SerializeIsTrimmed(xs);
    TrimFixedPoint(Serialize(xs));
    ParseSerialize(xs);
  }

  /* ---------------- the most-recently-used update ---------------- */

  /** The `List.RemoveAll` step of `UpdateComponentsRecentList`: every entry
      equal to `c` under an ordinal case-insensitive comparison goes. */
  function RemoveMatches(xs: seq<string>, c: string): (r: seq<string>)
    ensures |r| <= |xs|
    ensures forall x :: x in r <==> x in xs && !EqualsIgnoreCase(x, c)
    ensures forall x :: multiset(r)[x] == if EqualsIgnoreCase(x, c) then 0 else multiset(xs)[x]
    decreases |xs|
  {
    if xs == [] then []
    else
      assert xs == [xs[0]] + xs[1..];
      (if EqualsIgnoreCase(xs[0], c) then [] else [xs[0]]) + RemoveMatches(xs[1..], c)
  }

  /** `a` is `b` with some entries left out, the others in their order. */
  predicate IsSubsequence(a: seq<string>, b: seq<string>)
    decreases |b|
  {
    a == [] || (b != [] && ((a[0] == b[0] && IsSubsequence(a[1..], b[1..])) || IsSubsequence(a, b[1..])))
  }

  /** Removing matches keeps the survivors in their old order. */
  lemma {:induction false} RemoveMatchesKeepsOrder(xs: seq<string>, c: string)
    ensures IsSubsequence(RemoveMatches(xs, c), xs)
    decreases |xs|
  {
    if xs != [] {
      var rest := RemoveMatches(xs[1..], c);
      RemoveMatchesKeepsOrder(xs[1..], c);
      if !EqualsIgnoreCase(xs[0], c) {
        var r := [xs[0]] + rest;
        assert RemoveMatches(xs, c) == r;
        assert r[0] == xs[0] && r[1..] == rest;
      } else {
        assert RemoveMatches(xs, c) == rest;
      }
    }
  }

  lemma {:induction false} PrefixOfSubsequence(a: seq<string>, b: seq<string>, xs: seq<string>)
    requires a <= b && IsSubsequence(b, xs)
    ensures IsSubsequence(a, xs)
    decreases |xs|
  {
    if a != [] && xs != [] {
      if b[0] == xs[0] && IsSubsequence(b[1..], xs[1..]) {
        PrefixOfSubsequence(a[1..], b[1..], xs[1..]);
      } else {
        PrefixOfSubsequence(a, b, xs[1..]);
      }
    }
  }

  /** The update `UpdateComponentsRecentList` makes: drop every entry equal to `c` ignoring case, put `c` in
      front, keep the first five. */
  function MoveToFront(list: seq<string>, c: string): (r: seq<string>)
    ensures 1 <= |r| <= MaxRecent
    ensures r[0] == c
    ensures forall i :: 1 <= i < |r| ==> !EqualsIgnoreCase(r[i], c) && r[i] in list
    ensures r[1..] <= RemoveMatches(list, c)
    ensures |RemoveMatches(list, c)| < MaxRecent ==> r[1..] == RemoveMatches(list, c)
    ensures |r| == if |RemoveMatches(list, c)| < MaxRecent then 1 + |RemoveMatches(list, c)| else MaxRecent
  {
    var moved := [c] + RemoveMatches(list, c);
    assert moved[1..] == RemoveMatches(list, c);
    if |moved| > MaxRecent then moved[..MaxRecent] else moved
  }

  /** The entries after the front are entries of the old list, in their old order. */
  lemma MoveToFrontKeepsOrder(list: seq<string>, c: string)
    ensures IsSubsequence(MoveToFront(list, c)[1..], list)
  {
    RemoveMatchesKeepsOrder(list, c);
    PrefixOfSubsequence(MoveToFront(list, c)[1..], RemoveMatches(list, c), list);
  }

  /** Nothing is lost while there is room: with fewer than five other entries,
      every old entry that is not `c` stays. */
  lemma MoveToFrontKeepsEntries(list: seq<string>, c: string, x: string)
    requires |list| < MaxRecent
    requires x in list && !EqualsIgnoreCase(x, c)
    ensures x in MoveToFront(list, c)
  {
    var r := MoveToFront(list, c);
    assert x in RemoveMatches(list, c);
    assert x in r[1..];
  }

  /** No two entries are equal ignoring case. */
  predicate DistinctIgnoringCase(xs: seq<string>) {
    forall i, j :: 0 <= i < j < |xs| ==> !EqualsIgnoreCase(xs[i], xs[j])
  }

  lemma {:induction false} RemoveMatchesKeepsDistinct(xs: seq<string>, c: string)
    requires DistinctIgnoringCase(xs)
    ensures DistinctIgnoringCase(RemoveMatches(xs, c))
    decreases |xs|
  {
    if xs != [] {
      var rest := RemoveMatches(xs[1..], c);
      RemoveMatchesKeepsDistinct(xs[1..], c);
      if !EqualsIgnoreCase(xs[0], c) {
        forall j | 0 <= j < |rest|
          ensures !EqualsIgnoreCase(xs[0], rest[j])
        {
          assert rest[j] in xs[1..];
        }
      }
    }
  }

  /** The update keeps the list free of case-insensitive duplicates. */
  lemma MoveToFrontKeepsDistinct(list: seq<string>, c: string)
    requires DistinctIgnoringCase(list)
    ensures DistinctIgnoringCase(MoveToFront(list, c))
  {
    RemoveMatchesKeepsDistinct(list, c);
    var r := MoveToFront(list, c);
    var rest := RemoveMatches(list, c);
    forall i, j | 0 <= i < j < |r|
      ensures !EqualsIgnoreCase(r[i], r[j])
    {
      if i > 0 {
        assert r[i] == rest[i - 1] && r[j] == rest[j - 1];
      }
    }
  }

  /** Names stay names: the update of a stored list is storable again. */
  lemma MoveToFrontKeepsNames(list: seq<string>, c: string)
    requires AllComponentNames(list) && IsComponentName(c)
    ensures AllComponentNames(MoveToFront(list, c))
  {
  }
}
