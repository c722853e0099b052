/** The naming rules of storage units (terminal_game/storage_unit.py) and the
    filename/extension split of files (terminal_game/file.py). */
module Names {
  import opened Common

  const MaxNameLength: nat := 50

  /** Characters a storage-unit name may not contain. */
  const Forbidden: set<char> := {'<', '>', ':', '"', '/', '\\', '|', '?', '*'}

  /** Reference definition: the length and character rule for names. */
  ghost predicate WellFormedName(name: string)
  {
    && 1 <= |name| <= MaxNameLength
    && forall i :: 0 <= i < |name| ==> name[i] !in Forbidden
  }

  /** The character scan of the name rule, one letter at a time. */
  predicate CleanChars(s: string)
    ensures CleanChars(s) <==> forall i :: 0 <= i < |s| ==> s[i] !in Forbidden
    decreases |s|
  {
    |s| == 0 || (s[0] !in Forbidden && CleanChars(s[1..]))
  }

  /** The name rule: the first refusal reason in the order the source checks them,
      or None when the name is accepted among the given sibling names. */
  function CheckName(name: string, siblings: seq<string>): (r: Option<NameIssue>)
    ensures r.None? <==> name !in siblings && WellFormedName(name)
    ensures r == Some(Taken) <==> name in siblings
    ensures r == Some(Empty) <==> name !in siblings && |name| == 0
    ensures r == Some(TooLong) <==> name !in siblings && |name| > MaxNameLength
    ensures r.Some? && r.value.BadChars? ==>
              && r.value.name == name
              && name !in siblings && 1 <= |name| <= MaxNameLength
              && exists i :: 0 <= i < |name| && name[i] in Forbidden
  {
    if name in siblings then Some(Taken)
    else if |name| < 1 then Some(Empty)
    else if |name| > MaxNameLength then Some(TooLong)
    else if !CleanChars(name) then Some(BadChars(name))
    else None
  }

  /** Index of the last '.' of s, if any. */
  function LastDot(s: string): (r: Option<nat>)
    ensures r.None? <==> forall i :: 0 <= i < |s| ==> s[i] != '.'
    ensures r.Some? ==> r.value < |s| && s[r.value] == '.'
    ensures r.Some? ==> forall j :: r.value < j < |s| ==> s[j] != '.'
    decreases |s|
  {
    if |s| == 0 then None
    else if s[|s| - 1] == '.' then Some(|s| - 1)
    else LastDot(s[..|s| - 1])
  }

  /** A file name split at its last '.': the filename before it and the extension after it;
      a name without '.' has no extension. */
  datatype FileName = FileName(filename: string, extension: Option<string>)

  function Split(name: string): (r: FileName)
  {
    match LastDot(name)
    case None => FileName(name, None)
    case Some(k) => FileName(name[..k], Some(name[k + 1..]))
  }

  /** The name a file reports: an absent or empty extension is dropped together with its dot. */
  function Join(f: FileName): string
  {
    if f.extension.Some? && f.extension.value != "" then f.filename + "." + f.extension.value
    else f.filename
  }

  /** The name a file ends up with after being given `name`. */
  function Normalize(name: string): string
  {
    Join(Split(name))
  }

  /** A name without '.' is all filename and has no extension. */
  lemma SplitWithoutDot(name: string)
    requires forall i :: 0 <= i < |name| ==> name[i] != '.'
    ensures Split(name) == FileName(name, None)
  {
  }

  /** A name with a '.' splits at its last dot: the extension holds no dot and
      filename + "." + extension gives back the name. */
  lemma SplitWithDot(name: string)
    requires exists i :: 0 <= i < |name| && name[i] == '.'
    ensures Split(name).extension.Some?
    ensures forall c :: c in Split(name).extension.value ==> c != '.'
    ensures Split(name).filename + "." + Split(name).extension.value == name
  {
    var k := LastDot(name).value;
    assert name == name[..k] + "." + name[k + 1..];
  }

  /** Round trip: a name that does not end in '.' is reported back unchanged. */
  lemma {:induction false} NormalizeKeepsName(name: string)
    requires |name| == 0 || name[|name| - 1] != '.'
    ensures Normalize(name) == name
  {
    match LastDot(name)
    case None =>
    case Some(k) =>
      assert k < |name| - 1;
      assert name[k + 1..] != "";
      assert name == name[..k] + "." + name[k + 1..];
  }

  /** A name ending in '.' loses that trailing dot. */
  lemma {:induction false} NormalizeDropsTrailingDot(name: string)
    requires |name| > 0 && name[|name| - 1] == '.'
    ensures Normalize(name) == name[..|name| - 1]
  {
    assert LastDot(name) == Some(|name| - 1);
    assert name[|name|..] == "";
  }

  /** Inverse direction: joining a filename with a non-empty dot-free extension and
      splitting again gives back both parts. */
  lemma {:induction false} SplitJoin(filename: string, ext: string)
    requires ext != ""
    requires forall i :: 0 <= i < |ext| ==> ext[i] != '.'
    ensures Split(Join(FileName(filename, Some(ext)))) == FileName(filename, Some(ext))
  {
    var s := filename + "." + ext;
    assert s[|filename|] == '.';
    assert forall j :: |filename| < j < |s| ==> s[j] == ext[j - |filename| - 1];
    var k := LastDot(s).value;
    assert k == |filename|;
    assert s[..k] == filename;
    assert s[k + 1..] == ext;
  }
}
