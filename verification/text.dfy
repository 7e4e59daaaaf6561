/** The handful of .NET string primitives the extension relies on, stated over
    `string` (a sequence of Unicode scalar values): `String.Trim`, ordinal
    case-insensitive comparison, `StartsWith`/`EndsWith`/`Contains`,
    `IndexOf(char)`, `Split(char)` and `String.Join`. */
module Text {

  /* ---------------- white space and Trim ---------------- */

  /** `Char.IsWhiteSpace`: the characters `String.Trim()` removes from both ends. */
  predicate IsWhiteSpace(c: char) {
    var n := c as int;
    || (0x09 <= n <= 0x0D) || n == 0x20 || n == 0x85 || n == 0xA0 || n == 0x1680
    || (0x2000 <= n <= 0x200A) || n == 0x2028 || n == 0x2029 || n == 0x202F
    || n == 0x205F || n == 0x3000
  }

  predicate AllWhiteSpace(s: string) {
    forall i :: 0 <= i < |s| ==> IsWhiteSpace(s[i])
  }

  /** A string `Trim()` leaves alone: empty, or not starting or ending in white space. */
  predicate IsTrimmed(s: string) {
    s == [] || (!IsWhiteSpace(s[0]) && !IsWhiteSpace(s[|s| - 1]))
  }

  /** `r` sits at offset `lo` of `s` and only white space surrounds it. */
  predicate IsCore(s: string, lo: int, r: string) {
    && 0 <= lo <= lo + |r| <= |s|
    && s[lo..lo + |r|] == r
    && AllWhiteSpace(s[..lo])
    && AllWhiteSpace(s[lo + |r|..])
  }

  function TrimStart(s: string): (r: string)
    ensures |r| <= |s| && r == s[|s| - |r|..]
    ensures r == [] || !IsWhiteSpace(r[0])
    ensures AllWhiteSpace(s[..|s| - |r|])
    decreases |s|
  {
    if s != [] && IsWhiteSpace(s[0]) then TrimStart(s[1..]) else s
  }

  function TrimEnd(s: string): (r: string)
    ensures |r| <= |s| && r == s[..|r|]
    ensures r == [] || !IsWhiteSpace(r[|r| - 1])
    ensures AllWhiteSpace(s[|r|..])
    ensures s != [] && !IsWhiteSpace(s[0]) ==> r != [] && r[0] == s[0]
    decreases |s|
  {
    if s != [] && IsWhiteSpace(s[|s| - 1]) then TrimEnd(s[..|s| - 1]) else s
  }

  /** `String.Trim()`: the text of `s` without its leading and trailing white space. */
  function Trim(s: string): (r: string)
    ensures IsTrimmed(r)
    ensures exists lo :: IsCore(s, lo, r)
    ensures r == [] <==> AllWhiteSpace(s)
  {
    var a := TrimStart(s);
    var r := TrimEnd(a);
    var lo := |s| - |a|;
    assert s[lo..lo + |r|] == r;
    assert s[lo + |r|..] == a[|r|..];
    assert IsCore(s, lo, r);
    assert r == [] ==> AllWhiteSpace(s) by {
      if r == [] {
        assert a == [];
        assert s[..lo] == s;
      }
    }
    r
  }

  /** Trimming only removes characters: whatever the result holds, `s` holds. */
  lemma TrimKeepsCharacters(s: string, c: char)
    ensures c in Trim(s) ==> c in s
  {
    var r := Trim(s);
    if c in r {
      var lo :| IsCore(s, lo, r);
      var i :| 0 <= i < |r| && r[i] == c;
      assert s[lo + i] == c;
    }
  }

  /** Trimming changes nothing exactly when the string is already trimmed. */
  lemma TrimFixedPoint(s: string)
    ensures Trim(s) == s <==> IsTrimmed(s)
  {
    var a := TrimStart(s);
    if IsTrimmed(s) && s != [] {
      assert a == s;
      assert TrimEnd(a) == a;
    }
  }

  /* ---------------- ordinal case-insensitive comparison ---------------- */

  /** ASCII case folding standing in for `OrdinalIgnoreCase`. */
  function FoldCase(c: char): char {
    if 'A' <= c <= 'Z' then (c as int + 32) as char else c
  }

  function Lower(s: string): string {
    seq(|s|, i requires 0 <= i < |s| => FoldCase(s[i]))
  }

  /** `string.Equals(a, b, StringComparison.OrdinalIgnoreCase)`. */
  predicate EqualsIgnoreCase(a: string, b: string) {
    Lower(a) == Lower(b)
  }

  /** `s.StartsWith(p, StringComparison.OrdinalIgnoreCase)`. */
  predicate StartsWithIgnoreCase(s: string, p: string) {
    |p| <= |s| && EqualsIgnoreCase(s[..|p|], p)
  }

  /** `s.EndsWith(p, StringComparison.OrdinalIgnoreCase)`. */
  predicate EndsWithIgnoreCase(s: string, p: string) {
    |p| <= |s| && EqualsIgnoreCase(s[|s| - |p|..], p)
  }

  /** Strings equal ignoring case have the same length and agree on every
      character that case folding does not touch. */
  lemma EqualsIgnoreCaseChars(a: string, b: string, i: int)
    requires EqualsIgnoreCase(a, b)
    requires 0 <= i < |a|
    ensures |a| == |b| && FoldCase(a[i]) == FoldCase(b[i])
  {
    assert |Lower(a)| == |Lower(b)|;
    assert Lower(a)[i] == Lower(b)[i];
  }

  /* ---------------- ordinal searching ---------------- */

  /** `s.StartsWith(p)` (ordinal). */
  predicate StartsWith(s: string, p: string) {
    p <= s
  }

  /** `s.Contains(p)` (ordinal): `p` occurs at some offset of `s`. */
  predicate Contains(s: string, p: string)
    decreases |s|
  {
    p <= s || (s != [] && Contains(s[1..], p))
  }

  /** `s.IndexOf(c)`, with `|s|` standing for "not found". */
  function IndexOf(s: string, c: char): (k: nat)
    ensures k <= |s|
    ensures k < |s| ==> s[k] == c
    ensures forall i :: 0 <= i < k ==> s[i] != c
    ensures k == |s| <==> c !in s
    decreases |s|
  {
    if s == [] then 0
    else if s[0] == c then 0
    else 1 + IndexOf(s[1..], c)
  }

  /* ---------------- Split and Join ---------------- */

  /** `s.Split(sep)`: the pieces between separators, empty pieces included. */
  function Split(s: string, sep: char): (parts: seq<string>)
    ensures |parts| >= 1
    ensures forall i :: 0 <= i < |parts| ==> sep !in parts[i]
    ensures |parts| >= 2 <==> sep in s
    decreases |s|
  {
    var k := IndexOf(s, sep);
    if k == |s| then [s] else [s[..k]] + Split(s[k + 1..], sep)
  }

  /** `String.Join(sep, parts)`. */
  function Join(parts: seq<string>, sep: char): string
    decreases |parts|
  {
    if |parts| == 0 then ""
    else if |parts| == 1 then parts[0]
    else parts[0] + [sep] + Join(parts[1..], sep)
  }

  /** Splitting loses nothing: joining the pieces back gives the original. */
  lemma {:induction false} JoinSplit(s: string, sep: char)
    ensures Join(Split(s, sep), sep) == s
    decreases |s|
  {
    var k := IndexOf(s, sep);
    if k < |s| {
      var rest := Split(s[k + 1..], sep);
      JoinSplit(s[k + 1..], sep);
      assert Split(s, sep) == [s[..k]] + rest;
      assert s == s[..k] + [sep] + s[k + 1..];
    }
  }

  /** The separator right after a separator-free prefix ends the first piece. */
  lemma SplitAfterPiece(a: string, sep: char, t: string)
    requires sep !in a
    ensures Split(a + [sep] + t, sep) == [a] + Split(t, sep)
  {
    var s := a + [sep] + t;
    var k := IndexOf(s, sep);
    assert s[|a|] == sep;
    assert forall i :: 0 <= i < |a| ==> s[i] == a[i];
    assert s[..k] == a;
    assert s[k + 1..] == t;
  }

  /** Separator-free pieces survive a join followed by a split. */
  lemma {:induction false} SplitJoin(parts: seq<string>, sep: char)
    requires |parts| >= 1
    requires forall i :: 0 <= i < |parts| ==> sep !in parts[i]
    ensures Split(Join(parts, sep), sep) == parts
    decreases |parts|
  {
    if |parts| == 1 {
      assert IndexOf(parts[0], sep) == |parts[0]|;
    } else {
      SplitJoin(parts[1..], sep);
      SplitAfterPiece(parts[0], sep, Join(parts[1..], sep));
      assert parts == [parts[0]] + parts[1..];
    }
  }

}
