/** The first version of the extension: `GetGitConfigVariableValue` reads the
    `.gitconfig` file line by line and takes the first line that contains the
    variable's name anywhere, ignoring sections, keys and comments; the status
    bar shows its answer followed by ` - D`. */
module Legacy {
  import opened Wrappers
  import opened Text
  import opened Resolver

  const NotFound := "Variable no encontrada"
  const Failure := "Error"
  const StatusSuffix := " - D"
  const Assign := '='

  /** The position of the first line containing `name`, or `|lines|`. */
  function FirstContaining(lines: seq<string>, name: string): (k: nat)
    ensures k <= |lines|
    ensures k < |lines| ==> Contains(lines[k], name)
    ensures forall i :: 0 <= i < k ==> !Contains(lines[i], name)
    decreases |lines|
  {
    if lines == [] then 0
    else if Contains(lines[0], name) then 0
    else 1 + FirstContaining(lines[1..], name)
  }

  /** `GetGitConfigVariableValue(name)`, the file's lines given (`None` when
      reading it throws). On the first line containing the name, taking the
      second piece of the split at `=` throws when the line has no `=`, and the handler
      answers `Error`. */
  function Lookup(file: Option<seq<string>>, name: string): (r: string)
    ensures file.None? ==> r == Failure
    ensures r == NotFound || r == Failure || (|r| >= |Icon| + 1 && r == Tagged(r[|Icon| + 1..]))
  {
    match file
    case None => Failure
    case Some(lines) =>
      var k := FirstContaining(lines, name);
      if k == |lines| then NotFound
      else
        var parts := Split(lines[k], Assign);
        if |parts| < 2 then Failure
      else
        var v := Trim(parts[1]);
        assert Tagged(v)[|Icon| + 1..] == v;
        Tagged(v)
  }

  /** No answer of the lookup is mistaken for another: a value always starts
      with the icon, and the two fixed answers differ. */
  lemma AnswersDiffer(v: string)
    ensures Tagged(v) != NotFound && Tagged(v) != Failure && NotFound != Failure
  {
    assert Tagged(v)[0] == '<';
  }

  /** The lookup answers `Variable no encontrada` exactly when the file was
      read and no line contains the name. */
  lemma NotFoundExactly(file: Option<seq<string>>, name: string)
    ensures Lookup(file, name) == NotFound
      <==> file.Some? && forall i :: 0 <= i < |file.value| ==> !Contains(file.value[i], name)
  {
    if file.Some? {
      var lines := file.value;
      var k := FirstContaining(lines, name);
      if k < |lines| {
        var parts := Split(lines[k], Assign);
        if |parts| >= 2 {
          AnswersDiffer(Trim(parts[1]));
        }
      }
    }
  }

  /** The lookup answers `Error` exactly when the file cannot be read or the
      first line containing the name has no `=`. */
  lemma FailureExactly(file: Option<seq<string>>, name: string)
    ensures Lookup(file, name) == Failure
      <==> file.None? || (var k := FirstContaining(file.value, name);
                          k < |file.value| && Assign !in file.value[k])
  {
    if file.Some? {
      var lines := file.value;
      var k := FirstContaining(lines, name);
      if k < |lines| {
        var parts := Split(lines[k], Assign);
        if |parts| >= 2 {
          AnswersDiffer(Trim(parts[1]));
        }
      }
    }
  }

  /** The first piece of a split is the text before the first separator. */
  lemma FirstPiece(v: string, rest: string, sep: char)
    requires sep !in v
    requires rest == [] || rest[0] == sep
    ensures Split(v + rest, sep)[0] == v
  {
    if rest == [] {
      assert v + rest == v;
      assert IndexOf(v, sep) == |v|;
    } else {
      assert v + rest == v + [sep] + rest[1..];
      SplitAfterPiece(v, sep, rest[1..]);
    }
  }

  /** The value shown is the trimmed text between the first and the second
      `=` of the first line that contains the name, wherever that line is. */
  lemma ValueBetweenFirstTwoAssigns(lines: seq<string>, name: string, k: nat,
                                    before: string, v: string, rest: string)
    requires k < |lines| && Contains(lines[k], name)
    requires forall i :: 0 <= i < k ==> !Contains(lines[i], name)
    requires lines[k] == before + [Assign] + v + rest
    requires Assign !in before && Assign !in v
    requires rest == [] || rest[0] == Assign
    ensures Lookup(Some(lines), name) == Tagged(Trim(v))
  {
    LeftmostIsFirst(lines, name, k);
    SecondPiece(before, v, rest, Assign);
  }

  /** The second piece of a split is the text between the first two separators. */
  lemma SecondPiece(before: string, v: string, rest: string, sep: char)
    requires sep !in before && sep !in v
    requires rest == [] || rest[0] == sep
    ensures var parts := Split(before + [sep] + v + rest, sep);
      |parts| >= 2 && parts[1] == v
  {
    assert before + [sep] + v + rest == before + [sep] + (v + rest);
    SplitAfterPiece(before, sep, v + rest);
    FirstPiece(v, rest, sep);
  }

  /** An earlier line wins whatever follows: a line that merely mentions the
      name, in any section or in a longer key, hides the real entry. */
  lemma EarlierMentionWins(lines: seq<string>, more: seq<string>, name: string)
    requires exists i :: 0 <= i < |lines| && Contains(lines[i], name)
    ensures Lookup(Some(lines + more), name) == Lookup(Some(lines), name)
  {
    var k := FirstContaining(lines, name);
    var all := lines + more;
    assert forall i :: 0 <= i < k ==> all[i] == lines[i];
    assert k < |lines|;
    LeftmostIsFirst(all, name, k);
  }

  /** A line that contains the name, with none before it, is the one found. */
  lemma {:induction false} LeftmostIsFirst(lines: seq<string>, name: string, k: nat)
    requires k < |lines| && Contains(lines[k], name)
    requires forall i :: 0 <= i < k ==> !Contains(lines[i], name)
    ensures FirstContaining(lines, name) == k
    decreases k
  {
    if k > 0 {
      assert !Contains(lines[0], name);
      LeftmostIsFirst(lines[1..], name, k - 1);
    }
  }

  /** `UpdateStatusBar`: the lookup of
      `latest-component-changed` followed by ` - D`. The text reads
      `Variable no encontrada - D` exactly when no line mentions the key, and
      `Error - D` exactly when the file cannot be read or the first mention
      has no `=`. */
  function StatusMessage(file: Option<seq<string>>): (r: string)
    ensures |r| > |StatusSuffix| && r[|r| - |StatusSuffix|..] == StatusSuffix
    ensures r[..|r| - |StatusSuffix|] == Lookup(file, CurrentKey)
    ensures r == NotFound + StatusSuffix
      <==> file.Some? && forall i :: 0 <= i < |file.value| ==> !Contains(file.value[i], CurrentKey)
    ensures r == Failure + StatusSuffix
      <==> file.None? || (var k := FirstContaining(file.value, CurrentKey);
                          k < |file.value| && Assign !in file.value[k])
  {
    var answer := Lookup(file, CurrentKey);
    assert answer != [] by {
      if answer != NotFound && answer != Failure {
        assert |answer| >= |Icon|;
      }
    }
    NotFoundExactly(file, CurrentKey);
    FailureExactly(file, CurrentKey);
    SameSuffix(answer, NotFound, StatusSuffix);
    SameSuffix(answer, Failure, StatusSuffix);
    answer + StatusSuffix
  }

  /** Two texts with the same suffix appended are equal exactly when the texts are. */
  lemma SameSuffix(a: string, b: string, s: string)
    ensures a + s == b + s <==> a == b
  {
    if a + s == b + s {
      assert |a| == |b|;
      assert a == (a + s)[..|a|] && b == (b + s)[..|b|];
    }
  }

  /** The status text shows the trimmed text between the first two `=` of
      the first line that mentions the key, followed by ` - D`. */
  lemma StatusShowsValue(lines: seq<string>, k: nat, before: string, v: string, rest: string)
    requires k < |lines| && Contains(lines[k], CurrentKey)
    requires forall i :: 0 <= i < k ==> !Contains(lines[i], CurrentKey)
    requires lines[k] == before + [Assign] + v + rest
    requires Assign !in before && Assign !in v
    requires rest == [] || rest[0] == Assign
    ensures StatusMessage(Some(lines)) == Tagged(Trim(v)) + StatusSuffix
  {
    ValueBetweenFirstTwoAssigns(lines, CurrentKey, k, before, v, rest);
  }
}
