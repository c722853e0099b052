/** The storage-unit operations of terminal_game/storage_unit.py together with the
    overrides of terminal_game/file.py (name split, contents type) and
    terminal_game/root_dir.py (no name, no parent, empty path), acting on the arena. */
module StorageUnit {
  import opened Common
  import opened Names
  import opened Arena
  import opened Ancestors

  /** The name a unit stores when it is given `name`: a File keeps filename and extension,
      which report back `Normalize(name)`; a Directory keeps the name as given. */
  function StoredName(fs: Fs, id: Id, name: string): string
  {
    if IsFile(fs, id) then Normalize(name) else name
  }

  /** All units other than `id` are untouched, and `id` keeps its parent and body. */
  ghost predicate OnlyNameChanged(fs: Fs, fs': Fs, id: Id)
  {
    && fs'.root == fs.root && fs'.nodes.Keys == fs.nodes.Keys && id in fs.nodes
    && (forall y :: y in fs.nodes && y != id ==> fs'.nodes[y] == fs.nodes[y])
    && fs'.nodes[id].parent == fs.nodes[id].parent && fs'.nodes[id].body == fs.nodes[id].body
  }

  /** The names held by the other units of the directory `id` belongs to. */
  function SiblingNames(fs: Fs, id: Id): Option<seq<string>>
    requires id in fs.nodes
  {
    match fs.nodes[id].parent
    case Some(p) => if IsDir(fs, p) then Some(ChildNames(fs, p)) else None
    case None => None
  }

  /** `set_name` as the source writes it: the uniqueness and character rules are applied
      to the name as given, but a File then stores the split-and-rejoined name.
      The root accepts only the empty name and checks nothing else. */
  function SetNameAsWritten(fs: Fs, id: Id, name: string): (r: Result<Fs>)
    requires id in fs.nodes
    ensures r.Ok? ==> OnlyNameChanged(fs, r.value, id)
    ensures r.Ok? ==> NameOf(r.value, id) == (if id == fs.root then fs.nodes[id].name else StoredName(fs, id, name))
    ensures id == fs.root ==> (r.Ok? <==> name == "") && (r.Err? ==> r.error == RootDirError)
    ensures id != fs.root && SiblingNames(fs, id).Some? ==>
              match CheckName(name, SiblingNames(fs, id).value)
              case None => r.Ok?
              case Some(issue) => r == Err(NameError(issue))
    ensures id != fs.root && SiblingNames(fs, id).None? ==> r == Err(Detached)
  {
    if id == fs.root then
      if name != "" then Err(RootDirError) else Ok(fs)
    else match SiblingNames(fs, id)
      case None => Err(Detached)
      case Some(siblings) =>
        match CheckName(name, siblings)
        case Some(issue) => Err(NameError(issue))
        case None => Ok(fs.(nodes := fs.nodes[id := fs.nodes[id].(name := StoredName(fs, id, name))]))
  }

  /** `set_name` with the rules applied to the name the unit will actually carry.
      Validation precedes assignment, so a refusal leaves the tree as it was. */
  function SetName(fs: Fs, id: Id, name: string): (r: Result<Fs>)
    requires id in fs.nodes
    ensures r.Ok? ==> OnlyNameChanged(fs, r.value, id)
    ensures id == fs.root ==> (r.Ok? <==> name == "") && (r.Ok? ==> r.value == fs)
    ensures id == fs.root && name != "" ==> r == Err(RootDirError)
    ensures id != fs.root && r.Ok? ==>
              && NameOf(r.value, id) == StoredName(fs, id, name)
              && WellFormedName(NameOf(r.value, id))
              && SiblingNames(fs, id).Some? && NameOf(r.value, id) !in SiblingNames(fs, id).value
    ensures id != fs.root && SiblingNames(fs, id).Some? ==>
              match CheckName(StoredName(fs, id, name), SiblingNames(fs, id).value)
              case None => r.Ok?
              case Some(issue) => r == Err(NameError(issue))
    ensures id != fs.root && SiblingNames(fs, id).None? ==> r == Err(Detached)
  {
    if id == fs.root then
      if name != "" then Err(RootDirError) else Ok(fs)
    else match SiblingNames(fs, id)
      case None => Err(Detached)
      case Some(siblings) =>
        var stored := StoredName(fs, id, name);
        match CheckName(stored, siblings)
        case Some(issue) => Err(NameError(issue))
        case None => Ok(fs.(nodes := fs.nodes[id := fs.nodes[id].(name := stored)]))
  }

  /** Renaming to the current name is refused: the unit itself counts among its parent's children. */
  lemma RenameToSameNameFails(fs: Fs, id: Id)
    requires Wf(fs) && id in fs.nodes && id != fs.root
    requires id in Children(fs, fs.nodes[id].parent.value)
    requires StoredName(fs, id, NameOf(fs, id)) == NameOf(fs, id)
    ensures SetName(fs, id, NameOf(fs, id)) == Err(NameError(Taken))
  {
    var p := fs.nodes[id].parent.value;
    var k :| 0 <= k < |Children(fs, p)| && Children(fs, p)[k] == id;
    assert ChildNames(fs, p)[k] == NameOf(fs, id);
  }

  /** With the rule as the source applies it, renaming a listed unit to the name it reports
      is always refused as taken, a File whose name ends in "." included. */
  lemma AsWrittenRenameToSameNameFails(fs: Fs, id: Id)
    requires Wf(fs) && id in fs.nodes && id != fs.root
    requires id in Children(fs, fs.nodes[id].parent.value)
    ensures SetNameAsWritten(fs, id, NameOf(fs, id)) == Err(NameError(Taken))
  {
    var p := fs.nodes[id].parent.value;
    var k :| 0 <= k < |Children(fs, p)| && Children(fs, p)[k] == id;
    assert ChildNames(fs, p)[k] == NameOf(fs, id);
  }

  /** A root holding one File that reports the name "a." (as a File constructed as "a.."
      does). */
  function DottedFile(): Fs
  {
    Fs(map[0 := Node("", None, DirBody([1])),
           1 := Node("a.", Some(0), FileBody(Text("")))], 0)
  }

  /** The corrected rule lets the File of `DottedFile` be renamed to the name it reports
      (which it then stores as "a"); the rule as written refuses it as taken. */
  lemma RenameDottedToSelf()
    ensures SetName(DottedFile(), 1, "a.").Ok? && NameOf(SetName(DottedFile(), 1, "a.").value, 1) == "a"
    ensures SetNameAsWritten(DottedFile(), 1, "a.") == Err(NameError(Taken))
  {
    var fs := DottedFile();
    NormalizeDropsTrailingDot("a.");
    assert StoredName(fs, 1, "a.") == "a";
    assert ChildNames(fs, 0) == ["a."];
    assert CleanChars("a");
    assert CheckName("a", ["a."]) == None;
  }

  /** A successful rename keeps every storage-unit invariant. */
  lemma SetNameKeepsWf(fs: Fs, id: Id, name: string)
    requires Wf(fs) && id in fs.nodes
    requires SetName(fs, id, name).Ok?
    ensures Wf(SetName(fs, id, name).value)
  {
    var fs' := SetName(fs, id, name).value;
    if id != fs.root {
      RenamedSiblings(fs, fs', id, name);
      SameParentsAcyclic(fs, fs');
    }
  }

  lemma RenamedSiblings(fs: Fs, fs': Fs, id: Id, name: string)
    requires Wf(fs) && id in fs.nodes && id != fs.root && SetName(fs, id, name) == Ok(fs')
    ensures SiblingsDistinct(fs')
  {
    var p := fs.nodes[id].parent.value;
    forall d | d in fs'.nodes && fs'.nodes[d].body.DirBody?
      ensures Distinct(ChildNames(fs', d))
    {
      assert Children(fs', d) == Children(fs, d);
      forall i | 0 <= i < |Children(fs, d)| && Children(fs, d)[i] == id ensures d == p { }
      if d != p {
        SameNames(fs, fs', Children(fs, d));
      } else {
        assert Distinct(ChildNames(fs, d));
      }
    }
  }

  /** `set_parent`: the root refuses any parent; every other unit needs a Directory.
      Validation precedes assignment. */
  function SetParent(fs: Fs, id: Id, parent: Option<Id>): (r: Result<Fs>)
    requires id in fs.nodes
    ensures id == fs.root ==> (r.Ok? <==> parent.None?)
    ensures id == fs.root && parent.Some? ==> r == Err(RootDirError)
    ensures id != fs.root ==> (r.Ok? <==> parent.Some? && IsDir(fs, parent.value))
    ensures id != fs.root && r.Err? ==> r.error == InvalidParent
    ensures r.Ok? ==> r.value.root == fs.root && r.value.nodes.Keys == fs.nodes.Keys
    ensures r.Ok? ==> r.value.nodes[id] == fs.nodes[id].(parent := parent)
    ensures r.Ok? ==> forall y :: y in fs.nodes && y != id ==> r.value.nodes[y] == fs.nodes[y]
  {
    if id == fs.root then
      if parent.Some? then Err(RootDirError)
      else Ok(fs.(nodes := fs.nodes[id := fs.nodes[id].(parent := None)]))
    else if parent.Some? && IsDir(fs, parent.value) then
      Ok(fs.(nodes := fs.nodes[id := fs.nodes[id].(parent := parent)]))
    else Err(InvalidParent)
  }

  /** The first refusal among the elements of a directory's new contents: an element must be
      a storage unit whose name none of the current children holds. */
  function ElementError(fs: Fs, current: seq<string>, items: seq<Value>): (r: Option<Error>)
    ensures r.None? <==> forall i :: 0 <= i < |items| ==>
              items[i].VUnit? && items[i].id in fs.nodes && NameOf(fs, items[i].id) !in current
    ensures r.Some? ==> r.value == ElementNotUnit || r.value == ElementNameTaken
    decreases |items|
  {
    if |items| == 0 then None
    else if !(items[0].VUnit? && items[0].id in fs.nodes) then Some(ElementNotUnit)
    else if NameOf(fs, items[0].id) in current then Some(ElementNameTaken)
    else ElementError(fs, current, items[1..])
  }

  /** The ids of a list of storage-unit values. */
  function UnitIds(items: seq<Value>): (r: seq<Id>)
    requires forall i :: 0 <= i < |items| ==> items[i].VUnit?
    ensures |r| == |items| && forall i :: 0 <= i < |items| ==> r[i] == items[i].id
  {
    seq(|items|, i requires 0 <= i < |items| => items[i].id)
  }

  /** `set_contents`: a File takes text or bytes (a list or anything else is refused);
      a Directory (the root included) takes a list of storage units none of whose names
      its current children hold. The elements' parent links are not touched. */
  function SetContents(fs: Fs, id: Id, v: Value): (r: Result<Fs>)
    requires id in fs.nodes
    ensures r.Ok? ==> r.value.root == fs.root && r.value.nodes.Keys == fs.nodes.Keys
    ensures IsFile(fs, id) ==> (r.Ok? <==> v.VText? || v.VBytes?)
    ensures IsFile(fs, id) && r.Err? ==> r.error == InvalidContents
    ensures IsFile(fs, id) && v.VText? ==> r.Ok? && r.value.nodes[id].body == FileBody(Text(v.text))
    ensures IsFile(fs, id) && v.VBytes? ==> r.Ok? && r.value.nodes[id].body == FileBody(Bytes(v.bytes))
    ensures IsDir(fs, id) && !v.VList? ==> r == Err(InvalidContents)
    ensures IsDir(fs, id) && v.VList? ==>
              (r.Ok? <==> ElementError(fs, ChildNames(fs, id), v.items).None?)
    ensures IsDir(fs, id) && v.VList? && r.Ok? ==>
              && |Children(r.value, id)| == |v.items|
              && forall i :: 0 <= i < |v.items| ==> v.items[i] == VUnit(Children(r.value, id)[i])
    ensures r.Ok? ==> r.value.nodes[id].name == fs.nodes[id].name && r.value.nodes[id].parent == fs.nodes[id].parent
    ensures r.Ok? ==> forall y :: y in fs.nodes && y != id ==> r.value.nodes[y] == fs.nodes[y]
  {
    var node := fs.nodes[id];
    match node.body
    case FileBody(_) =>
      (match v
       case VText(t) => Ok(fs.(nodes := fs.nodes[id := node.(body := FileBody(Text(t)))]))
       case VBytes(b) => Ok(fs.(nodes := fs.nodes[id := node.(body := FileBody(Bytes(b)))]))
       case _ => Err(InvalidContents))
    case DirBody(_) =>
      if !v.VList? then Err(InvalidContents)
      else match ElementError(fs, ChildNames(fs, id), v.items)
        case Some(e) => Err(e)
        case None => Ok(fs.(nodes := fs.nodes[id := node.(body := DirBody(UnitIds(v.items)))]))
  }

  /** Giving a File new data keeps every storage-unit invariant. */
  lemma FileContentsKeepsWf(fs: Fs, id: Id, v: Value)
    requires Wf(fs) && IsFile(fs, id) && SetContents(fs, id, v).Ok?
    ensures Wf(SetContents(fs, id, v).value)
  {
    var fs' := SetContents(fs, id, v).value;
    assert forall d :: IsDir(fs', d) <==> IsDir(fs, d);
    assert forall d :: Children(fs', d) == Children(fs, d);
    assert forall x :: NameOf(fs', x) == NameOf(fs, x);
    assert SiblingsDistinct(fs') by {
      forall d | d in fs'.nodes && fs'.nodes[d].body.DirBody? ensures Distinct(ChildNames(fs', d)) {
        assert ChildNames(fs', d) == ChildNames(fs, d);
      }
    }
    SameParentsAcyclic(fs, fs');
  }

  /** Constructing a unit with a fresh id: parent, then name, then contents are validated
      and set, in that order. The name rule sees the name as given; a File then stores its
      split-and-rejoined name. A new Directory has no contents while its first contents are
      validated, so an element that is a storage unit makes the validation read the missing
      contents and fail: only an empty list gets through. The unit is not yet added to its
      parent. */
  function NewUnit(fs: Fs, id: Id, isDir: bool, name: string, contents: Value, parent: Option<Id>): (r: Result<Fs>)
    requires id !in fs.nodes && id != fs.root
    requires parent != Some(id) && (contents.VList? ==> VUnit(id) !in contents.items)
    ensures r.Ok? <==>
              && parent.Some? && IsDir(fs, parent.value)
              && CheckName(name, ChildNames(fs, parent.value)).None?
              && (if isDir then contents == VList([]) else contents.VText? || contents.VBytes?)
    ensures !(parent.Some? && IsDir(fs, parent.value)) ==> r == Err(InvalidParent)
    ensures parent.Some? && IsDir(fs, parent.value) && CheckName(name, ChildNames(fs, parent.value)).Some? ==>
              r == Err(NameError(CheckName(name, ChildNames(fs, parent.value)).value))
    ensures parent.Some? && IsDir(fs, parent.value) && CheckName(name, ChildNames(fs, parent.value)).None? ==>
              && (isDir && contents.VList? && |contents.items| > 0 ==>
                    r == Err(if contents.items[0].VUnit? && contents.items[0].id in fs.nodes then Unset else ElementNotUnit))
              && (isDir && !contents.VList? ==> r == Err(InvalidContents))
              && (!isDir && !(contents.VText? || contents.VBytes?) ==> r == Err(InvalidContents))
    ensures r.Ok? ==>
              && r.value.root == fs.root && r.value.nodes.Keys == fs.nodes.Keys + {id}
              && (forall y :: y in fs.nodes ==> r.value.nodes[y] == fs.nodes[y])
              && r.value.nodes[id].parent == parent
              && r.value.nodes[id].name == (if isDir then name else Normalize(name))
              && (isDir ==> r.value.nodes[id].body == DirBody([]))
              && (!isDir && contents.VText? ==> r.value.nodes[id].body == FileBody(Text(contents.text)))
              && (!isDir && contents.VBytes? ==> r.value.nodes[id].body == FileBody(Bytes(contents.bytes)))
  {
    match Placed(fs, id, isDir, parent)
    case Err(e) => Err(e)
    case Ok(fs1) =>
      match SetNameAsWritten(fs1, id, name)
      case Err(e) => Err(e)
      case Ok(fs2) =>
        if isDir && contents.VList? && |contents.items| > 0 then
          Err(if contents.items[0].VUnit? && contents.items[0].id in fs.nodes then Unset else ElementNotUnit)
        else
          SetContents(fs2, id, contents)
  }

  /** The first step of construction: a blank unit `id` whose parent is set (and checked). */
  function Placed(fs: Fs, id: Id, isDir: bool, parent: Option<Id>): (r: Result<Fs>)
    requires id !in fs.nodes && id != fs.root && parent != Some(id)
    ensures r.Ok? <==> parent.Some? && IsDir(fs, parent.value)
    ensures r.Ok? ==>
              && r.value.root == fs.root && r.value.nodes.Keys == fs.nodes.Keys + {id}
              && (forall y :: y in fs.nodes ==> r.value.nodes[y] == fs.nodes[y])
              && r.value.nodes[id] == Node("", parent, if isDir then DirBody([]) else FileBody(Text("")))
              && SiblingNames(r.value, id) == Some(ChildNames(fs, parent.value))
  {
    var blank := Node("", None, if isDir then DirBody([]) else FileBody(Text("")));
    var fs0 := fs.(nodes := fs.nodes[id := blank]);
    match SetParent(fs0, id, parent)
    case Err(e) => Err(e)
    case Ok(fs1) =>
      assert Children(fs1, parent.value) == Children(fs, parent.value);
      SameNames(fs, fs1, Children(fs, parent.value));
      Ok(fs1)
  }

  /** `fs'` is `fs` with the unit `id` added and nothing else changed. */
  ghost predicate Grown(fs: Fs, fs': Fs, id: Id)
  {
    id !in fs.nodes && fs'.root == fs.root && fs'.nodes.Keys == fs.nodes.Keys + {id}
    && forall y :: y in fs.nodes ==> fs'.nodes[y] == fs.nodes[y]
  }

  /** Adding a fresh unit without children whose parent is a directory of the arena keeps
      every storage-unit invariant; no directory lists the new unit. */
  lemma FreshLeafKeepsWf(fs: Fs, fs': Fs, id: Id, d: Id)
    requires Wf(fs) && id !in fs.nodes && IsDir(fs, d)
    requires fs'.root == fs.root && fs'.nodes.Keys == fs.nodes.Keys + {id}
    requires forall y :: y in fs.nodes ==> fs'.nodes[y] == fs.nodes[y]
    requires fs'.nodes[id].parent == Some(d) && Children(fs', id) == []
    ensures Wf(fs')
    ensures forall e :: e in fs.nodes ==> id !in Children(fs', e)
  {
    LeafUnlisted(fs, fs', id);
    LeafSiblings(fs, fs', id);
    LeafLinked(fs, fs', id);
    var cd := Ancestry(fs, d).value;
    ChainIsChain(fs, d, |fs.nodes|);
    assert !IsSubSu(fs, id, d) by {
      assert forall i :: 0 <= i < |cd| ==> cd[i] in fs.nodes;
    }
    Relink(fs, fs', id, d);
  }

  lemma LeafUnlisted(fs: Fs, fs': Fs, id: Id)
    requires ChildrenLinked(fs) && Grown(fs, fs', id)
    ensures forall e :: e in fs.nodes ==> Children(fs', e) == Children(fs, e) && id !in Children(fs, e)
  {
    forall e | e in fs.nodes ensures Children(fs', e) == Children(fs, e) && id !in Children(fs, e) {
      if IsDir(fs, e) {
        forall i | 0 <= i < |Children(fs, e)| ensures Children(fs, e)[i] != id {
          assert Children(fs, e)[i] in fs.nodes;
        }
      }
    }
  }

  lemma LeafSiblings(fs: Fs, fs': Fs, id: Id)
    requires ChildrenLinked(fs) && SiblingsDistinct(fs) && Grown(fs, fs', id) && Children(fs', id) == []
    ensures SiblingsDistinct(fs')
  {
    forall e | e in fs'.nodes && fs'.nodes[e].body.DirBody? ensures Distinct(ChildNames(fs', e)) {
      if e != id {
        assert ChildNames(fs', e) == ChildNames(fs, e) by {
          forall i | 0 <= i < |Children(fs, e)|
            ensures NameOf(fs', Children(fs, e)[i]) == NameOf(fs, Children(fs, e)[i])
          {
            assert Children(fs, e)[i] in fs.nodes;
          }
        }
      }
    }
  }

  lemma LeafLinked(fs: Fs, fs': Fs, id: Id)
    requires ChildrenLinked(fs) && Grown(fs, fs', id) && Children(fs', id) == []
    ensures ChildrenLinked(fs')
  {
    forall e, i | e in fs'.nodes && fs'.nodes[e].body.DirBody? && 0 <= i < |fs'.nodes[e].body.children|
      ensures fs'.nodes[e].body.children[i] in fs'.nodes
      ensures fs'.nodes[e].body.children[i] != fs'.root
      ensures fs'.nodes[fs'.nodes[e].body.children[i]].parent == Some(e)
    {
      assert e != id;
      assert fs'.nodes[e].body.children[i] in Children(fs, e);
    }
  }

  /** A new File, or a new Directory with no elements, keeps every storage-unit invariant;
      no directory lists it yet. */
  lemma NewUnitKeepsWf(fs: Fs, id: Id, isDir: bool, name: string, contents: Value, d: Id)
    requires Wf(fs) && id !in fs.nodes && id != fs.root && d != id
    requires isDir ==> contents == VList([])
    requires contents.VList? ==> VUnit(id) !in contents.items
    requires NewUnit(fs, id, isDir, name, contents, Some(d)).Ok?
    ensures Wf(NewUnit(fs, id, isDir, name, contents, Some(d)).value)
    ensures forall e :: e in fs.nodes ==> id !in Children(NewUnit(fs, id, isDir, name, contents, Some(d)).value, e)
    ensures Children(NewUnit(fs, id, isDir, name, contents, Some(d)).value, id) == []
  {
    var fs' := NewUnit(fs, id, isDir, name, contents, Some(d)).value;
    assert Children(fs', id) == [];
    FreshLeafKeepsWf(fs, fs', id, d);
  }

  /** The path text of a run of ids: "/" followed by each name. */
  function Render(fs: Fs, ids: seq<Id>): string
  {
    if |ids| == 0 then "" else Render(fs, ids[..|ids| - 1]) + "/" + NameOf(fs, ids[|ids| - 1])
  }

  /** `get_path`: the root renders as the empty path, any other unit as its parent's path,
      "/" and its own name. None when the parent links never reach the root. */
  function GetPath(fs: Fs, id: Id): Option<string>
  {
    match Ancestry(fs, id)
    case None => None
    case Some(c) => Some(Render(fs, c[1..]))
  }

  lemma RootPath(fs: Fs)
    requires fs.root in fs.nodes
    ensures GetPath(fs, fs.root) == Some("")
  {
  }

  /** A unit's path extends its parent's path by "/" and its name. */
  lemma PathExtendsParent(fs: Fs, id: Id)
    requires Acyclic(fs) && id in fs.nodes && id != fs.root
    ensures fs.nodes[id].parent.Some?
    ensures GetPath(fs, fs.nodes[id].parent.value).Some?
    ensures GetPath(fs, id) == Some(GetPath(fs, fs.nodes[id].parent.value).value + "/" + NameOf(fs, id))
  {
    AncestryStep(fs, id);
    var cp := Ancestry(fs, fs.nodes[id].parent.value).value;
    ChainIsChain(fs, fs.nodes[id].parent.value, |fs.nodes|);
    assert (cp + [id])[1..] == cp[1..] + [id];
  }

  /** Names joined with a separator between consecutive ones. */
  function JoinWith(sep: string, names: seq<string>): string
  {
    if |names| == 0 then "" else if |names| == 1 then names[0]
    else JoinWith(sep, names[..|names| - 1]) + sep + names[|names| - 1]
  }

  lemma {:induction false} RenderIsJoin(fs: Fs, ids: seq<Id>)
    requires |ids| > 0
    ensures Render(fs, ids) == "/" + JoinWith("/", NamesOf(fs, ids))
    decreases |ids|
  {
    if |ids| > 1 {
      RenderIsJoin(fs, ids[..|ids| - 1]);
      assert NamesOf(fs, ids)[..|ids| - 1] == NamesOf(fs, ids[..|ids| - 1]);
    }
  }

  /** A non-root unit's path is "/" followed by the names from just below the root down to
      the unit, joined by "/". */
  lemma PathIsJoinedNames(fs: Fs, id: Id)
    requires Acyclic(fs) && id in fs.nodes && id != fs.root
    ensures Ancestry(fs, id).Some? && |Ancestry(fs, id).value| >= 2
    ensures GetPath(fs, id) == Some("/" + JoinWith("/", NamesOf(fs, Ancestry(fs, id).value[1..])))
  {
    ChainIsChain(fs, id, |fs.nodes|);
    RenderIsJoin(fs, Ancestry(fs, id).value[1..]);
  }
  /** A root holding two empty text files, "a" and "b". */
  function TwoFiles(): Fs
  {
    Fs(map[0 := Node("", None, DirBody([1, 2])),
           1 := Node("a", Some(0), FileBody(Text(""))),
           2 := Node("b", Some(0), FileBody(Text("")))], 0)
  }

  lemma TwoFilesWf()
    ensures Wf(TwoFiles())
  {
    var fs := TwoFiles();
    TwoFilesSiblings();
    assert ChildrenLinked(fs);
    TwoFilesAcyclic();
  }

  lemma TwoFilesSiblings()
    ensures SiblingsDistinct(TwoFiles())
  {
    var fs := TwoFiles();
    assert ChildNames(fs, 0) == ["a", "b"];
  }

  lemma TwoFilesAcyclic()
    ensures Acyclic(TwoFiles())
  {
    var fs := TwoFiles();
    forall n | n in fs.nodes ensures Ancestry(fs, n).Some? {
      if n != 0 {
        assert IsChain(fs, [0, n]);
        ChainIsAncestry(fs, [0, n]);
      }
    }
  }

  /** The tree after file "b" has been given the stored name "a". */
  function TwoFilesRenamed(): Fs
  {
    Fs(map[0 := Node("", None, DirBody([1, 2])),
           1 := Node("a", Some(0), FileBody(Text(""))),
           2 := Node("a", Some(0), FileBody(Text("")))], 0)
  }

  /** The source's `set_name` lets file "b" be renamed to "a.", which passes the uniqueness
      rule as written and is then stored as "a": the root ends up with two children named "a".
      Checking the stored name instead refuses the rename. */
  lemma AsWrittenRenameDuplicates()
    ensures Wf(TwoFiles())
    ensures SetNameAsWritten(TwoFiles(), 2, "a.") == Ok(TwoFilesRenamed())
    ensures !SiblingsDistinct(TwoFilesRenamed())
    ensures SetName(TwoFiles(), 2, "a.") == Err(NameError(Taken))
  {
    TwoFilesWf();
    AsWrittenAccepts();
    RenamedHasTwins();
    CorrectedRefuses();
  }

  lemma AsWrittenAccepts()
    ensures SetNameAsWritten(TwoFiles(), 2, "a.") == Ok(TwoFilesRenamed())
  {
    var fs := TwoFiles();
    NormalizeDropsTrailingDot("a.");
    assert StoredName(fs, 2, "a.") == "a";
    assert ChildNames(fs, 0) == ["a", "b"];
    assert CleanChars("a.");
    assert CheckName("a.", ["a", "b"]) == None;
    assert fs.nodes[2 := fs.nodes[2].(name := "a")] == TwoFilesRenamed().nodes;
  }

  lemma CorrectedRefuses()
    ensures SetName(TwoFiles(), 2, "a.") == Err(NameError(Taken))
  {
    var fs := TwoFiles();
    NormalizeDropsTrailingDot("a.");
    assert StoredName(fs, 2, "a.") == "a";
    assert ChildNames(fs, 0) == ["a", "b"];
  }

  /** The renamed tree lists "a" twice under the root. */
  lemma RenamedHasTwins()
    ensures !SiblingsDistinct(TwoFilesRenamed())
  {
    var fs' := TwoFilesRenamed();
    assert ChildNames(fs', 0) == ["a", "a"];
    assert ChildNames(fs', 0)[0] == ChildNames(fs', 0)[1];
  }
}
