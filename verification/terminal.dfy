/** The terminal of an operating system (terminal_game/terminal.py): the command table
    (`mv`, `cp`, `tree`), the decision procedure of `mv` and `cp`, and the
    (exit code, stdout, stderr) record every command answers with.

    Path resolution (`parse_path`) has no definition in the source, so it is a parameter:
    given a path, the directory it is relative to, and whether the parent directory of the
    path is asked for, it finds a unit or fails with a message. */
module Terminal {
  import opened Common
  import opened Arena
  import opened Ancestors
  import opened StorageUnit
  import opened Directory
  import opened System
  import opened Paths

  /** What resolving a path gives: a unit, or the message of the invalid-path error. */
  datatype Lookup = Found(id: Id) | Missing(message: string)

  /** `parse_path(path, relative_to, parent_dir)`. */
  type Resolver = (string, Id, bool) -> Lookup

  /** The resolver only hands out units of this system. */
  ghost predicate Sound(fs: Fs, resolve: Resolver)
  {
    forall p, c, b :: resolve(p, c, b).Found? ==> resolve(p, c, b).id in fs.nodes
  }

  /** The record of `response`. */
  datatype Response = Response(exitCode: int, stdout: Option<string>, stderr: Option<string>)

  /** A command either answers, or lets an exception escape; in both cases the tree is as
      the command left it (an escaping exception does not undo earlier changes). */
  datatype Outcome = Done(fs: Fs, response: Response) | Raised(fs: Fs, error: Error)

  const MvSyntax: string := "Invalid arguments.\nSyntax: mv <oldpath> <newpath>"
  const CpSyntax: string := "Invalid arguments.\nSyntax: cp <oldpath> <newpath>"
  const UnknownCommand: string := "command not found."
  const FileAsDirectory: string := "Cannot put a file as a directory."
  const IntoItself: string := "Cannot move a directory to a subdirectory of itself."
  /** The destination is a File: the only storage unit that is not a Directory. */
  const AlreadyExists: string := "A File with that name already exists in the destination path."

  function Fail(message: string): Response
  {
    Response(1, None, Some(message))
  }

  const Success: Response := Response(0, None, None)

  /** A directory may not move onto itself or below itself. */
  predicate IntoOwnSubtree(fs: Fs, src: Id, dest: Id)
  {
    IsDir(fs, src) && (IsSubSu(fs, src, dest) || src == dest)
  }

  /** Deleting the unit from its parent by its name, then adding it to `dest`. A unit without
      a parent (the root) has nothing to delete from; an `add` that refuses leaves the unit
      already detached. */
  function Relocate(fs: Fs, u: Id, dest: Id): (r: Outcome)
    requires u in fs.nodes
    ensures r.Done? <==>
              && fs.nodes[u].parent.Some?
              && Delete(fs, fs.nodes[u].parent.value, NameOf(fs, u)).Ok?
              && Add(Delete(fs, fs.nodes[u].parent.value, NameOf(fs, u)).value, dest, u).Ok?
    ensures r.Done? ==> r.response == Success && r.fs == Add(Delete(fs, fs.nodes[u].parent.value, NameOf(fs, u)).value, dest, u).value
  {
    match fs.nodes[u].parent
    case None => Raised(fs, Detached)
    case Some(p) =>
      match Delete(fs, p, NameOf(fs, u))
      case Err(e) => Raised(fs, e)
      case Ok(fs1) =>
        match Add(fs1, dest, u)
        case Err(e) => Raised(fs1, e)
        case Ok(fs2) => Done(fs2, Success)
  }

  /** `mv` onto a path that resolves to `dest`. */
  function MvInto(fs: Fs, src: Id, dest: Id): (r: Outcome)
    requires src in fs.nodes
    ensures !IsDir(fs, dest) ==> r == Done(fs, Fail(AlreadyExists))
    ensures IsDir(fs, dest) && IntoOwnSubtree(fs, src, dest) ==> r == Done(fs, Response(1, Some(IntoItself), None))
    ensures IsDir(fs, dest) && !IntoOwnSubtree(fs, src, dest) ==> r == Relocate(fs, src, dest)
  {
    if !IsDir(fs, dest) then Done(fs, Fail(AlreadyExists))
    else if IntoOwnSubtree(fs, src, dest) then Done(fs, Response(1, Some(IntoItself), None))
    else Relocate(fs, src, dest)
  }

  /** `mv` onto a path that does not resolve, whose parent directory resolves to `dest`:
      the unit is renamed to the last segment of the path, then relocated. Only a name
      refusal is answered; any other exception escapes. */
  function MvRename(fs: Fs, src: Id, dest: Id, name: string, wantDir: bool): (r: Outcome)
    requires src in fs.nodes
    ensures wantDir && !IsDir(fs, src) ==> r == Done(fs, Fail(FileAsDirectory))
    ensures !(wantDir && !IsDir(fs, src)) && IntoOwnSubtree(fs, src, dest) ==>
              r == Done(fs, Response(1, Some(IntoItself), None))
    ensures !(wantDir && !IsDir(fs, src)) && !IntoOwnSubtree(fs, src, dest) && SetName(fs, src, name).Err? ==>
              r == (if SetName(fs, src, name).error.NameError?
                    then Done(fs, Fail(NameMessage(SetName(fs, src, name).error.issue)))
                    else Raised(fs, SetName(fs, src, name).error))
    ensures !(wantDir && !IsDir(fs, src)) && !IntoOwnSubtree(fs, src, dest) && SetName(fs, src, name).Ok? ==>
              r == Relocate(SetName(fs, src, name).value, src, dest)
  {
    if wantDir && !IsDir(fs, src) then Done(fs, Fail(FileAsDirectory))
    else if IntoOwnSubtree(fs, src, dest) then Done(fs, Response(1, Some(IntoItself), None))
    else match SetName(fs, src, name)
      case Err(NameError(issue)) => Done(fs, Fail(NameMessage(issue)))
      case Err(e) => Raised(fs, e)
      case Ok(fs1) => Relocate(fs1, src, dest)
  }

  /** `mv` onto an unresolved path as the source writes it: `set_name` checks the last
      segment as given, so a File can take a name that differs from a sibling's only by a
      trailing dot, end up with the sibling's name, and then the deletion by name removes the
      sibling while `add` refuses the renamed unit. */
  function MvRenameAsWritten(fs: Fs, src: Id, dest: Id, name: string, wantDir: bool): (r: Outcome)
    requires src in fs.nodes
    ensures wantDir && !IsDir(fs, src) ==> r == Done(fs, Fail(FileAsDirectory))
    ensures !(wantDir && !IsDir(fs, src)) && IntoOwnSubtree(fs, src, dest) ==>
              r == Done(fs, Response(1, Some(IntoItself), None))
    ensures !(wantDir && !IsDir(fs, src)) && !IntoOwnSubtree(fs, src, dest) && SetNameAsWritten(fs, src, name).Err? ==>
              r == (if SetNameAsWritten(fs, src, name).error.NameError?
                    then Done(fs, Fail(NameMessage(SetNameAsWritten(fs, src, name).error.issue)))
                    else Raised(fs, SetNameAsWritten(fs, src, name).error))
    ensures !(wantDir && !IsDir(fs, src)) && !IntoOwnSubtree(fs, src, dest) && SetNameAsWritten(fs, src, name).Ok? ==>
              r == Relocate(SetNameAsWritten(fs, src, name).value, src, dest)
  {
    if wantDir && !IsDir(fs, src) then Done(fs, Fail(FileAsDirectory))
    else if IntoOwnSubtree(fs, src, dest) then Done(fs, Response(1, Some(IntoItself), None))
    else match SetNameAsWritten(fs, src, name)
      case Err(NameError(issue)) => Done(fs, Fail(NameMessage(issue)))
      case Err(e) => Raised(fs, e)
      case Ok(fs1) => Relocate(fs1, src, dest)
  }

  /** `mv b a.` beside a File `a`: as written, `b` is renamed `a`, the original `a` is
      deleted from the directory in its place, and the `add` of `b` escapes, leaving the
      original detached; with the rule applied to the stored name, the rename is refused and
      nothing changes. */
  lemma AsWrittenMvDetachesOriginal()
    ensures MvRename(TwoFiles(), 2, 0, "a.", false) == Done(TwoFiles(), Fail(NameMessage(Taken)))
    ensures var r := MvRenameAsWritten(TwoFiles(), 2, 0, "a.", false);
            && r.Raised? && r.error == ElementNameTaken
            && Children(r.fs, 0) == [2] && NameOf(r.fs, 2) == "a"
            && 1 in r.fs.nodes && NameOf(r.fs, 1) == "a" && Unlisted(r.fs, 1)
  {
    CorrectedRefuses();
    AsWrittenAccepts();
    assert !IntoOwnSubtree(TwoFiles(), 2, 0);
    RelocateOntoTwin();
  }

  /** Relocating the second of two units named "a" deletes the first and cannot add it. */
  lemma RelocateOntoTwin()
    ensures var r := Relocate(TwoFilesRenamed(), 2, 0);
            && r.Raised? && r.error == ElementNameTaken
            && Children(r.fs, 0) == [2] && NameOf(r.fs, 2) == "a"
            && 1 in r.fs.nodes && NameOf(r.fs, 1) == "a" && Unlisted(r.fs, 1)
  {
    var fs1 := TwoFilesRenamed();
    assert ChildNames(fs1, 0) == ["a", "a"];
    var fs2 := Delete(fs1, 0, "a").value;
    assert Children(fs2, 0) == [2];
    assert ChildNames(fs2, 0) == ["a"];
  }

  /** Files `a` and `b` and an empty Directory `sub` under the root. */
  function Trio(): Fs
  {
    Fs(map[0 := Node("", None, DirBody([1, 2, 3])),
           1 := Node("a", Some(0), FileBody(Text(""))),
           2 := Node("b", Some(0), FileBody(Text(""))),
           3 := Node("sub", Some(0), DirBody([]))], 0)
  }

  lemma TrioWf()
    ensures Wf(Trio())
  {
    TrioSiblings();
    assert ChildrenLinked(Trio());
    TrioAcyclic();
  }

  lemma TrioSiblings()
    ensures SiblingsDistinct(Trio())
  {
    var fs := Trio();
    assert ChildNames(fs, 0) == ["a", "b", "sub"];
    assert ChildNames(fs, 3) == [];
  }

  lemma TrioAcyclic()
    ensures Acyclic(Trio())
  {
    var fs := Trio();
    forall n | n in fs.nodes ensures Ancestry(fs, n).Some? {
      if n != 0 {
        assert IsChain(fs, [0, n]);
        ChainIsAncestry(fs, [0, n]);
      }
    }
  }

  /** `mv b sub/a.` beside a File `a`: as written, the original `a` is deleted in place of
      `b`, and `b` ends up listed both under the root and in `sub`. */
  lemma AsWrittenMvListsTwice()
    ensures Wf(Trio())
    ensures var r := MvRenameAsWritten(Trio(), 2, 3, "a.", false);
            && r == Done(r.fs, Success)
            && 2 in Children(r.fs, 0) && 2 in Children(r.fs, 3) && !ChildrenLinked(r.fs)
  {
    TrioWf();
    TrioRenames();
    TrioRelocates();
    var fs' := TrioMoved();
    assert fs'.nodes[0].body.children[0] == 2;
  }

  /** `Trio` after `b` took the name "a" and moved into `sub`, with `a` deleted from the
      root. */
  function TrioMoved(): Fs
  {
    Fs(map[0 := Node("", None, DirBody([2, 3])),
           1 := Node("a", Some(0), FileBody(Text(""))),
           2 := Node("a", Some(3), FileBody(Text(""))),
           3 := Node("sub", Some(0), DirBody([2]))], 0)
  }

  lemma TrioRenames()
    ensures SetNameAsWritten(Trio(), 2, "a.") == Ok(TrioRenamed())
  {
    var fs := Trio();
    Names.NormalizeDropsTrailingDot("a.");
    assert StoredName(fs, 2, "a.") == "a";
    assert ChildNames(fs, 0) == ["a", "b", "sub"];
    assert Names.CleanChars("a.");
    assert Names.CheckName("a.", ["a", "b", "sub"]) == None;
  }

  /** `Trio` after `b` took the name "a". */
  function TrioRenamed(): Fs
  {
    Trio().(nodes := Trio().nodes[2 := Node("a", Some(0), FileBody(Text("")))])
  }

  lemma TrioRelocates()
    ensures Relocate(TrioRenamed(), 2, 3) == Done(TrioMoved(), Success)
  {
    TrioDeletes();
    TrioAdds();
  }

  /** Deleting "a" from the root of `TrioRenamed` removes the original `a`. */
  lemma TrioDeletes()
    ensures Delete(TrioRenamed(), 0, "a") == Ok(TrioRenamed().(nodes := TrioRenamed().nodes[0 := Node("", None, DirBody([2, 3]))]))
  {
    var fs1 := TrioRenamed();
    assert ChildNames(fs1, 0) == ["a", "a", "sub"];
    assert FirstIndex(["a", "a", "sub"], "a") == Some(0);
    var kids := Children(fs1, 0);
    assert kids[..0] + kids[1..] == [2, 3];
  }

  lemma TrioAdds()
    ensures Add(TrioRenamed().(nodes := TrioRenamed().nodes[0 := Node("", None, DirBody([2, 3]))]), 3, 2) == Ok(TrioMoved())
  {
    var fs2 := TrioRenamed().(nodes := TrioRenamed().nodes[0 := Node("", None, DirBody([2, 3]))]);
    assert ChildNames(fs2, 3) == [];
    assert Children(fs2, 3) + [2] == [2];
    var fs3 := Add(fs2, 3, 2).value;
    assert fs3.nodes[3] == TrioMoved().nodes[3];
    assert fs3.nodes[2] == TrioMoved().nodes[2];
    assert fs3.nodes == TrioMoved().nodes;
  }

  /** `mv <oldpath> <newpath>`, relative to the terminal's current directory. */
  function Mv(fs: Fs, cwd: Id, args: seq<string>, resolve: Resolver): (r: Outcome)
    requires Sound(fs, resolve)
    ensures |args| < 2 ==> r == Done(fs, Fail(MvSyntax))
    ensures |args| >= 2 && resolve(args[0], cwd, false).Missing? ==>
              r == Done(fs, Fail(resolve(args[0], cwd, false).message))
    ensures |args| >= 2 && resolve(args[0], cwd, false).Found? && resolve(TrimSlash(args[1]).0, cwd, false).Found? ==>
              r == MvInto(fs, resolve(args[0], cwd, false).id, resolve(TrimSlash(args[1]).0, cwd, false).id)
    ensures |args| >= 2 && resolve(args[0], cwd, false).Found? && resolve(TrimSlash(args[1]).0, cwd, false).Missing? ==>
              var parent := resolve(TrimSlash(args[1]).0, cwd, true);
              r == if parent.Missing? then Done(fs, Fail(parent.message))
                   else MvRename(fs, resolve(args[0], cwd, false).id, parent.id,
                                 LastSegment(TrimSlash(args[1]).0), TrimSlash(args[1]).1)
  {
    if |args| < 2 then Done(fs, Fail(MvSyntax))
    else
      var (path, wantDir) := TrimSlash(args[1]);
      match resolve(args[0], cwd, false)
      case Missing(m) => Done(fs, Fail(m))
      case Found(src) =>
        match resolve(path, cwd, false)
        case Found(dest) => MvInto(fs, src, dest)
        case Missing(_) =>
          match resolve(path, cwd, true)
          case Missing(m) => Done(fs, Fail(m))
          case Found(dest) => MvRename(fs, src, dest, LastSegment(path), wantDir)
  }

  /** What `get_contents` hands to the copy: a File's text or bytes, a Directory's list of
      its children. */
  function ContentsOf(fs: Fs, id: Id): (r: Value)
    requires id in fs.nodes
    ensures IsFile(fs, id) ==> r.VText? || r.VBytes?
    ensures IsDir(fs, id) ==> r.VList? && |r.items| == |Children(fs, id)|
                              && forall i :: 0 <= i < |r.items| ==> r.items[i] == VUnit(Children(fs, id)[i])
  {
    match fs.nodes[id].body
    case FileBody(Text(t)) => VText(t)
    case FileBody(Bytes(b)) => VBytes(b)
    case DirBody(kids) => VList(seq(|kids|, i requires 0 <= i < |kids| => VUnit(kids[i])))
  }

  /** A fresh id is not among the elements handed to a copy. */
  lemma FreshNotInContents(fs: Fs, src: Id, id: Id)
    requires src in fs.nodes && FreshId(fs, id)
    ensures ContentsOf(fs, src).VList? ==> VUnit(id) !in ContentsOf(fs, src).items
  {
  }

  /** `make_file` (for a File source) or `make_dir` (otherwise) with the source's contents.
      A Directory with elements cannot be constructed, so only an empty Directory copies;
      a File copy can pass the name rule and still be refused by `add`. */
  function MakeCopy(fs: Fs, src: Id, name: string, dest: Id, id: Id): (r: Result<Fs>)
    requires src in fs.nodes && dest in fs.nodes && FreshId(fs, id)
    ensures r.Ok? <==>
              && IsDir(fs, dest) && Names.CheckName(name, ChildNames(fs, dest)).None?
              && if IsFile(fs, src) then Names.Normalize(name) !in ChildNames(fs, dest) else Children(fs, src) == []
    ensures IsDir(fs, src) && Children(fs, src) != [] && IsDir(fs, dest) && Names.CheckName(name, ChildNames(fs, dest)).None? ==>
              r == Err(if Children(fs, src)[0] in fs.nodes then Unset else ElementNotUnit)
    ensures r.Ok? ==> Appended(fs, r.value, dest, id)
    ensures r.Ok? ==> ContentsOf(r.value, id) == ContentsOf(fs, src)
    ensures r.Ok? ==> NameOf(r.value, id) == (if IsFile(fs, src) then Names.Normalize(name) else name)
  {
    FreshNotInContents(fs, src, id);
    if IsFile(fs, src) then MakeFile(fs, id, name, ContentsOf(fs, src), dest)
    else
      var r := MakeDir(fs, id, name, ContentsOf(fs, src), dest);
      assert ContentsOf(fs, src) == VList([]) <==> Children(fs, src) == [];
      r
  }

  /** `cp` onto a path that resolves to `dest`: the copy keeps the source's name; nothing
      is caught. */
  function CpInto(fs: Fs, src: Id, dest: Id, id: Id): (r: Outcome)
    requires src in fs.nodes && dest in fs.nodes && FreshId(fs, id)
    ensures !IsDir(fs, dest) ==> r == Done(fs, Fail(AlreadyExists))
    ensures IsDir(fs, dest) && MakeCopy(fs, src, NameOf(fs, src), dest, id).Err? ==>
              r == Raised(fs, MakeCopy(fs, src, NameOf(fs, src), dest, id).error)
    ensures IsDir(fs, dest) && MakeCopy(fs, src, NameOf(fs, src), dest, id).Ok? ==>
              r == Done(MakeCopy(fs, src, NameOf(fs, src), dest, id).value, Success)
  {
    if !IsDir(fs, dest) then Done(fs, Fail(AlreadyExists))
    else match MakeCopy(fs, src, NameOf(fs, src), dest, id)
      case Err(e) => Raised(fs, e)
      case Ok(fs1) => Done(fs1, Success)
  }

  /** `cp` onto a path that does not resolve, whose parent directory resolves to `dest`:
      the copy is named by the last segment; a name refusal is answered, anything else
      escapes. */
  function CpNamed(fs: Fs, src: Id, dest: Id, name: string, wantDir: bool, id: Id): (r: Outcome)
    requires src in fs.nodes && dest in fs.nodes && FreshId(fs, id)
    ensures wantDir && !IsDir(fs, src) ==> r == Done(fs, Fail(FileAsDirectory))
    ensures !(wantDir && !IsDir(fs, src)) && MakeCopy(fs, src, name, dest, id).Err? ==>
              r == (if MakeCopy(fs, src, name, dest, id).error.NameError?
                    then Done(fs, Fail(NameMessage(MakeCopy(fs, src, name, dest, id).error.issue)))
                    else Raised(fs, MakeCopy(fs, src, name, dest, id).error))
    ensures !(wantDir && !IsDir(fs, src)) && MakeCopy(fs, src, name, dest, id).Ok? ==>
              r == Done(MakeCopy(fs, src, name, dest, id).value, Success)
  {
    if wantDir && !IsDir(fs, src) then Done(fs, Fail(FileAsDirectory))
    else match MakeCopy(fs, src, name, dest, id)
      case Err(NameError(issue)) => Done(fs, Fail(NameMessage(issue)))
      case Err(e) => Raised(fs, e)
      case Ok(fs1) => Done(fs1, Success)
  }

  /** `cp <oldpath> <newpath>`; `id` is the id the generator hands to the copy. */
  function Cp(fs: Fs, cwd: Id, args: seq<string>, resolve: Resolver, id: Id): (r: Outcome)
    requires Sound(fs, resolve) && FreshId(fs, id)
    ensures |args| < 2 ==> r == Done(fs, Fail(CpSyntax))
    ensures |args| >= 2 && resolve(args[0], cwd, false).Missing? ==>
              r == Done(fs, Fail(resolve(args[0], cwd, false).message))
    ensures |args| >= 2 && resolve(args[0], cwd, false).Found? && resolve(TrimSlash(args[1]).0, cwd, false).Found? ==>
              r == CpInto(fs, resolve(args[0], cwd, false).id, resolve(TrimSlash(args[1]).0, cwd, false).id, id)
    ensures |args| >= 2 && resolve(args[0], cwd, false).Found? && resolve(TrimSlash(args[1]).0, cwd, false).Missing? ==>
              var parent := resolve(TrimSlash(args[1]).0, cwd, true);
              r == if parent.Missing? then Done(fs, Fail(parent.message))
                   else CpNamed(fs, resolve(args[0], cwd, false).id, parent.id,
                                LastSegment(TrimSlash(args[1]).0), TrimSlash(args[1]).1, id)
  {
    if |args| < 2 then Done(fs, Fail(CpSyntax))
    else
      var (path, wantDir) := TrimSlash(args[1]);
      match resolve(args[0], cwd, false)
      case Missing(m) => Done(fs, Fail(m))
      case Found(src) =>
        match resolve(path, cwd, false)
        case Found(dest) => CpInto(fs, src, dest, id)
        case Missing(_) =>
          match resolve(path, cwd, true)
          case Missing(m) => Done(fs, Fail(m))
          case Found(dest) => CpNamed(fs, src, dest, LastSegment(path), wantDir, id)
  }

  /** `run_command`: the first token picks the handler from the table; the handler gets the
      remaining tokens. `tree` answers with the listing `render` gives for the current
      directory. */
  function RunCommand(fs: Fs, cwd: Id, args: seq<string>, resolve: Resolver, id: Id,
                      render: (Fs, Id) -> string): (r: Outcome)
    requires Sound(fs, resolve) && FreshId(fs, id)
    ensures |args| == 0 ==> r == Raised(fs, EmptyCommand)
    ensures |args| > 0 && args[0] == "mv" ==> r == Mv(fs, cwd, args[1..], resolve)
    ensures |args| > 0 && args[0] == "cp" ==> r == Cp(fs, cwd, args[1..], resolve, id)
    ensures |args| > 0 && args[0] == "tree" ==> r == Done(fs, Response(0, Some(render(fs, cwd)), None))
    ensures |args| > 0 && args[0] !in Commands ==> r == Done(fs, Fail(UnknownCommand))
  {
    if |args| == 0 then Raised(fs, EmptyCommand)
    else if args[0] == "mv" then Mv(fs, cwd, args[1..], resolve)
    else if args[0] == "cp" then Cp(fs, cwd, args[1..], resolve, id)
    else if args[0] == "tree" then Done(fs, Response(0, Some(render(fs, cwd)), None))
    else Done(fs, Fail(UnknownCommand))
  }

  /** The command table. */
  const Commands: set<string> := {"mv", "cp", "tree"}

  /** A File lies above nothing: only directories are parents. */
  lemma FileAboveNothing(fs: Fs, u: Id, d: Id)
    requires Wf(fs) && IsFile(fs, u)
    ensures !IsSubSu(fs, u, d)
  {
    if Ancestry(fs, d).Some? {
      AncestorsAreDirs(fs, d);
    }
  }

  /** Every proper ancestor of a unit is a directory. */
  lemma AncestorsAreDirs(fs: Fs, d: Id)
    requires Wf(fs) && Ancestry(fs, d).Some?
    ensures forall k :: 0 <= k < |Ancestry(fs, d).value| - 1 ==> IsDir(fs, Ancestry(fs, d).value[k])
  {
    var c := Ancestry(fs, d).value;
    ChainIsChain(fs, d, |fs.nodes|);
    forall k | 0 <= k < |c| - 1 ensures IsDir(fs, c[k]) {
      assert fs.nodes[c[k + 1]].parent == Some(c[k]);
    }
  }

  /** After deleting a unit's name from its parent, no directory lists the unit. */
  lemma DeleteUnlists(fs: Fs, u: Id)
    requires Wf(fs) && u in fs.nodes && fs.nodes[u].parent.Some?
    requires Delete(fs, fs.nodes[u].parent.value, NameOf(fs, u)).Ok?
    ensures Unlisted(Delete(fs, fs.nodes[u].parent.value, NameOf(fs, u)).value, u)
  {
    var p := fs.nodes[u].parent.value;
    var fs1 := Delete(fs, p, NameOf(fs, u)).value;
    var kids := Children(fs, p);
    var i :| 0 <= i < |kids| && ChildNames(fs, p)[i] == NameOf(fs, u)
             && Children(fs1, p) == kids[..i] + kids[i + 1..];
    forall e: Id | IsDir(fs1, e) ensures u !in Children(fs1, e) {
      if e != p {
        assert Children(fs1, e) == Children(fs, e);
      }
    }
  }

  /** Relocating a unit anywhere but onto or below itself keeps every storage-unit
      invariant, whether the `add` succeeds or refuses after the `delete`. */
  lemma RelocateKeepsWf(fs: Fs, u: Id, dest: Id)
    requires Wf(fs) && u in fs.nodes && !IntoOwnSubtree(fs, u, dest)
    ensures Wf(Relocate(fs, u, dest).fs)
  {
    if fs.nodes[u].parent.Some? && Delete(fs, fs.nodes[u].parent.value, NameOf(fs, u)).Ok? {
      var p := fs.nodes[u].parent.value;
      var fs1 := Delete(fs, p, NameOf(fs, u)).value;
      DeleteKeepsWf(fs, p, NameOf(fs, u));
      if Add(fs1, dest, u).Ok? {
        DeleteUnlists(fs, u);
        ReAddKeepsWf(fs, fs1, p, u, dest);
      }
    }
  }

  /** Adding the detached unit back elsewhere keeps every storage-unit invariant. */
  lemma ReAddKeepsWf(fs: Fs, fs1: Fs, p: Id, u: Id, dest: Id)
    requires Wf(fs) && u in fs.nodes && !IntoOwnSubtree(fs, u, dest)
    requires Wf(fs1) && IsDir(fs, p) && OnlyChildrenChanged(fs, fs1, p) && Unlisted(fs1, u)
    requires Add(fs1, dest, u).Ok?
    ensures Wf(Add(fs1, dest, u).value)
  {
    assert dest in fs.nodes && IsDir(fs, dest);
    SameAncestry(fs, fs1, dest);
    assert IsSubSu(fs1, u, dest) == IsSubSu(fs, u, dest);
    if IsFile(fs, u) {
      FileAboveNothing(fs, u, dest);
    }
    AddKeepsWf(fs1, dest, u);
  }

  /** Renaming a unit changes neither which units are directories nor any ancestry. */
  lemma RenameKeepsShape(fs: Fs, fs1: Fs, src: Id, dest: Id)
    requires Wf(fs) && OnlyNameChanged(fs, fs1, src)
    ensures IntoOwnSubtree(fs1, src, dest) == IntoOwnSubtree(fs, src, dest)
  {
    if dest in fs.nodes {
      SameAncestry(fs, fs1, dest);
    }
  }

  /** `mv` onto an unresolved path keeps every storage-unit invariant, whatever it answers
      and whether or not an exception escapes. */
  lemma MvRenameKeepsWf(fs: Fs, src: Id, dest: Id, name: string, wantDir: bool)
    requires Wf(fs) && src in fs.nodes
    ensures Wf(MvRename(fs, src, dest, name, wantDir).fs)
  {
    if !(wantDir && !IsDir(fs, src)) && !IntoOwnSubtree(fs, src, dest) && SetName(fs, src, name).Ok? {
      var fs1 := SetName(fs, src, name).value;
      SetNameKeepsWf(fs, src, name);
      RenameKeepsShape(fs, fs1, src, dest);
      RelocateKeepsWf(fs1, src, dest);
    }
  }

  /** `mv` keeps every storage-unit invariant, whatever it answers and whether or not an
      exception escapes (a unit it leaves detached is still a well-formed arena entry). */
  lemma MvKeepsWf(fs: Fs, cwd: Id, args: seq<string>, resolve: Resolver)
    requires Wf(fs) && Sound(fs, resolve)
    ensures Wf(Mv(fs, cwd, args, resolve).fs)
  {
    if |args| >= 2 && resolve(args[0], cwd, false).Found? {
      var src := resolve(args[0], cwd, false).id;
      var path := TrimSlash(args[1]).0;
      match resolve(path, cwd, false)
      case Found(dest) =>
        if IsDir(fs, dest) && !IntoOwnSubtree(fs, src, dest) {
          RelocateKeepsWf(fs, src, dest);
        }
      case Missing(_) =>
        if resolve(path, cwd, true).Found? {
          MvRenameKeepsWf(fs, src, resolve(path, cwd, true).id, LastSegment(path), TrimSlash(args[1]).1);
        }
    }
  }

  /** `mv` into an existing directory: the unit becomes the last child of the destination
      under its own name, its parent is the destination, and its old parent no longer
      lists it. */
  lemma MvIntoAppends(fs: Fs, src: Id, dest: Id)
    requires Wf(fs) && src in fs.nodes && MvInto(fs, src, dest).Done? && MvInto(fs, src, dest).response == Success
    ensures var r := MvInto(fs, src, dest).fs;
            && IsDir(r, dest) && |Children(r, dest)| > 0 && Children(r, dest)[|Children(r, dest)| - 1] == src
            && NameOf(r, src) == NameOf(fs, src)
            && r.nodes[src].parent == Some(dest)
            && (forall e :: IsDir(r, e) && e != dest ==> src !in Children(r, e))
  {
    var p := fs.nodes[src].parent.value;
    var fs1 := Delete(fs, p, NameOf(fs, src)).value;
    var r := MvInto(fs, src, dest).fs;
    DeleteUnlists(fs, src);
    assert Children(r, dest) == Children(fs1, dest) + [src];
    forall e | IsDir(r, e) && e != dest ensures src !in Children(r, e) {
      assert Children(r, e) == Children(fs1, e);
    }
  }

  /** The node `mv` can lose: when the destination directory already holds the name, the
      unit has been deleted from its old parent before `add` refuses, so the exception
      escapes with the unit listed nowhere. */
  lemma MvIntoClashDetaches(fs: Fs, src: Id, dest: Id)
    requires Wf(fs) && src in fs.nodes && src != fs.root && IsDir(fs, dest)
    requires src in Children(fs, fs.nodes[src].parent.value) && dest != fs.nodes[src].parent.value
    requires !IntoOwnSubtree(fs, src, dest) && NameOf(fs, src) in ChildNames(fs, dest)
    ensures MvInto(fs, src, dest).Raised? && MvInto(fs, src, dest).error == ElementNameTaken
    ensures Unlisted(MvInto(fs, src, dest).fs, src)
  {
    var p := fs.nodes[src].parent.value;
    assert NameOf(fs, src) in ChildNames(fs, p) by {
      var j :| 0 <= j < |Children(fs, p)| && Children(fs, p)[j] == src;
      assert ChildNames(fs, p)[j] == NameOf(fs, src);
    }
    var fs1 := Delete(fs, p, NameOf(fs, src)).value;
    DeleteUnlists(fs, src);
    assert ChildNames(fs1, dest) == ChildNames(fs, dest);
  }

  /** A successful `cp` leaves the source where it was, with its name, parent and
      listings, and appends to some directory a new unit holding the source's contents. */
  lemma CpLeavesSource(fs: Fs, cwd: Id, args: seq<string>, resolve: Resolver, id: Id)
    requires Sound(fs, resolve) && FreshId(fs, id) && |args| >= 2 && resolve(args[0], cwd, false).Found?
    requires Cp(fs, cwd, args, resolve, id).Done? && Cp(fs, cwd, args, resolve, id).response == Success
    ensures var src := resolve(args[0], cwd, false).id;
            var r := Cp(fs, cwd, args, resolve, id).fs;
            && src in r.nodes && NameOf(r, src) == NameOf(fs, src) && r.nodes[src].parent == fs.nodes[src].parent
            && (forall e :: src in Children(fs, e) ==> src in Children(r, e))
            && (exists dest :: Appended(fs, r, dest, id)) && ContentsOf(r, id) == ContentsOf(fs, src)
  {
    var src := resolve(args[0], cwd, false).id;
    var r := Cp(fs, cwd, args, resolve, id).fs;
    var path := TrimSlash(args[1]).0;
    var dest := if resolve(path, cwd, false).Found? then resolve(path, cwd, false).id
                else resolve(path, cwd, true).id;
    assert Appended(fs, r, dest, id);
    forall e | src in Children(fs, e) ensures src in Children(r, e) {
      if e == dest {
        assert Children(r, e) == Children(fs, e) + [id];
      } else {
        assert Children(r, e) == Children(fs, e);
      }
    }
  }

  /** `cp` keeps every storage-unit invariant, whatever it answers and whether or not an
      exception escapes: only an empty Directory or a File is ever constructed. */
  lemma CpKeepsWf(fs: Fs, cwd: Id, args: seq<string>, resolve: Resolver, id: Id)
    requires Wf(fs) && Sound(fs, resolve) && FreshId(fs, id)
    ensures Wf(Cp(fs, cwd, args, resolve, id).fs)
  {
    if |args| >= 2 && resolve(args[0], cwd, false).Found? {
      var src := resolve(args[0], cwd, false).id;
      var (path, wantDir) := TrimSlash(args[1]);
      match resolve(path, cwd, false)
      case Found(dest) =>
        CopyKeepsWf(fs, src, NameOf(fs, src), dest, id);
      case Missing(_) =>
        if resolve(path, cwd, true).Found? {
          CopyKeepsWf(fs, src, LastSegment(path), resolve(path, cwd, true).id, id);
        }
    }
  }

  lemma CopyKeepsWf(fs: Fs, src: Id, name: string, dest: Id, id: Id)
    requires Wf(fs) && src in fs.nodes && dest in fs.nodes && FreshId(fs, id)
    ensures MakeCopy(fs, src, name, dest, id).Ok? ==> Wf(MakeCopy(fs, src, name, dest, id).value)
  {
    if MakeCopy(fs, src, name, dest, id).Ok? {
      FreshNotInContents(fs, src, id);
      MakeUnitKeepsWf(fs, id, !IsFile(fs, src), name, ContentsOf(fs, src), dest);
    }
  }

  /** `run_command` keeps every storage-unit invariant: each handler in the table does. */
  lemma RunCommandKeepsWf(fs: Fs, cwd: Id, args: seq<string>, resolve: Resolver, id: Id,
                          render: (Fs, Id) -> string)
    requires Wf(fs) && Sound(fs, resolve) && FreshId(fs, id)
    ensures Wf(RunCommand(fs, cwd, args, resolve, id, render).fs)
  {
    if |args| > 0 && args[0] == "mv" {
      MvKeepsWf(fs, cwd, args[1..], resolve);
    } else if |args| > 0 && args[0] == "cp" {
      CpKeepsWf(fs, cwd, args[1..], resolve, id);
    }
  }
}
