/** One operating system of the virtual internet (terminal_game/system.py): the owner's
    credentials, the storage tree built from the initial description, the repair of the
    `system/system.dat` file that holds the terminal, and the integrity check made when a
    terminal is requested. */
module System {
  import opened Common
  import opened Arena
  import opened Ancestors
  import opened StorageUnit
  import opened Directory
  import opened Parser

  /** Addresses are text such as "12.4.200.7"; the generator that draws them is not modelled. */
  type Ip = string

  const MinUsername: nat := 3
  const MaxUsername: nat := 50
  const MinPassword: nat := 8
  const MaxPassword: nat := 30

  const SystemDir: string := "system"
  const SystemData: string := "system.dat"

  /** The serialised Terminal class that `system.dat` must hold. Its bytes are produced by the
      serialiser, which is not modelled: any fixed byte string plays its part. */
  const TerminalMarker: seq<bv8> := [0x80, 0x04, 0x95]

  /** A terminal opened on this system; it starts in the root directory. */
  datatype Terminal = Terminal(cwd: Id)

  datatype Host = Host(ip: Ip, username: string, password: string, fs: Fs, terminals: seq<Terminal>)

  /** The length rule shared by usernames and passwords: too short is checked first. */
  function LengthIssueOf(s: string, lo: nat, hi: nat): (r: Option<LengthIssue>)
    ensures r.None? <==> lo <= |s| <= hi
    ensures r == Some(BelowMinimum) <==> |s| < lo
    ensures r == Some(AboveMaximum) <==> lo <= |s| && hi < |s|
  {
    if |s| < lo then Some(BelowMinimum)
    else if |s| > hi then Some(AboveMaximum)
    else None
  }

  /** `_validate_username`: 3 to 50 characters. */
  function UsernameError(username: string): (r: Option<Error>)
    ensures r.None? <==> MinUsername <= |username| <= MaxUsername
    ensures r.Some? ==> r.value == InvalidUsername(if |username| < MinUsername then BelowMinimum else AboveMaximum)
  {
    match LengthIssueOf(username, MinUsername, MaxUsername)
    case None => None
    case Some(why) => Some(InvalidUsername(why))
  }

  /** `_validate_password`: 8 to 30 characters. */
  function PasswordError(password: string): (r: Option<Error>)
    ensures r.None? <==> MinPassword <= |password| <= MaxPassword
    ensures r.Some? ==> r.value == InvalidPassword(if |password| < MinPassword then BelowMinimum else AboveMaximum)
  {
    match LengthIssueOf(password, MinPassword, MaxPassword)
    case None => None
    case Some(why) => Some(InvalidPassword(why))
  }

  /** An id the generator may hand out: unused, not the root's, and listed by no directory. */
  ghost predicate FreshId(fs: Fs, id: Id)
  {
    id !in fs.nodes && id != fs.root && forall e :: e in fs.nodes ==> id !in Children(fs, e)
  }

  /** The construction of a unit followed by `parent.add` of it (`make_dir` for a Directory,
      `make_file` for a File). Construction checks the name as given, while `add` checks the
      name the unit stores, so a File whose name loses a trailing dot can pass construction
      and still be refused by `add`. */
  function MakeUnit(fs: Fs, id: Id, isDir: bool, name: string, contents: Value, parent: Id): (r: Result<Fs>)
    requires FreshId(fs, id) && parent != id && (contents.VList? ==> VUnit(id) !in contents.items)
    ensures NewUnit(fs, id, isDir, name, contents, Some(parent)).Err? ==>
              r == Err(NewUnit(fs, id, isDir, name, contents, Some(parent)).error)
    ensures NewUnit(fs, id, isDir, name, contents, Some(parent)).Ok? ==>
              && (r.Ok? <==> (if isDir then name else Names.Normalize(name)) !in ChildNames(fs, parent))
              && (r.Err? ==> r.error == ElementNameTaken)
    ensures r.Ok? ==> Appended(fs, r.value, parent, id)
    ensures r.Ok? ==> r.value.nodes[id] == NewUnit(fs, id, isDir, name, contents, Some(parent)).value.nodes[id].(parent := Some(parent))
  {
    match NewUnit(fs, id, isDir, name, contents, Some(parent))
    case Err(e) => Err(e)
    case Ok(fs1) =>
      NewUnitNames(fs, fs1, parent, id);
      assert fs1.nodes.Keys == fs.nodes.Keys + {id};
      match Add(fs1, parent, id)
      case Err(e) => Err(e)
      case Ok(fs2) =>
        AddNames(fs, fs1, fs2, parent, id);
        Ok(fs2)
  }

  /** `fs'` is `fs` with unit `id` added as the last child of `parent`: the other units keep
      their names and parents, and only `parent`'s children change among the old units. */
  ghost predicate Appended(fs: Fs, fs': Fs, parent: Id, id: Id)
  {
    && fs'.root == fs.root && fs'.nodes.Keys == fs.nodes.Keys + {id} && parent in fs.nodes
    && IsDir(fs', parent)
    && Children(fs', parent) == Children(fs, parent) + [id]
    && ChildNames(fs', parent) == ChildNames(fs, parent) + [NameOf(fs', id)]
    && NameOf(fs', id) !in ChildNames(fs, parent)
    && fs'.nodes[id].parent == Some(parent)
    && (forall y :: y in fs.nodes && y != parent ==> fs'.nodes[y] == fs.nodes[y])
    && fs'.nodes[parent].name == fs.nodes[parent].name
    && fs'.nodes[parent].parent == fs.nodes[parent].parent
  }

  lemma NewUnitNames(fs: Fs, fs1: Fs, parent: Id, id: Id)
    requires FreshId(fs, id) && parent != id && fs1.nodes.Keys == fs.nodes.Keys + {id}
    requires forall y :: y in fs.nodes ==> fs1.nodes[y] == fs.nodes[y]
    ensures ChildNames(fs1, parent) == ChildNames(fs, parent)
  {
    assert Children(fs1, parent) == Children(fs, parent);
    if parent in fs.nodes {
      forall i | 0 <= i < |Children(fs, parent)|
        ensures NameOf(fs1, Children(fs, parent)[i]) == NameOf(fs, Children(fs, parent)[i])
      {
        assert Children(fs, parent)[i] in Children(fs, parent);
      }
    }
  }

  lemma AddNames(fs: Fs, fs1: Fs, fs2: Fs, parent: Id, id: Id)
    requires id !in fs.nodes && parent != id && fs1.root == fs.root && fs1.nodes.Keys == fs.nodes.Keys + {id}
    requires forall y :: y in fs.nodes ==> fs1.nodes[y] == fs.nodes[y]
    requires ChildNames(fs1, parent) == ChildNames(fs, parent)
    requires Add(fs1, parent, id) == Ok(fs2)
    ensures Appended(fs, fs2, parent, id)
  {
    assert Children(fs1, parent) == Children(fs, parent);
    assert ChildNames(fs2, parent) == ChildNames(fs1, parent) + [NameOf(fs1, id)];
  }

  /** The unit appended last is what a lookup of its name finds. */
  lemma FindAppended(fs: Fs, fs': Fs, parent: Id, id: Id)
    requires Appended(fs, fs', parent, id)
    ensures Find(fs', parent, NameOf(fs', id)) == Ok(id)
  {
    var r := Find(fs', parent, NameOf(fs', id));
    var i :| 0 <= i < |Children(fs', parent)| && Children(fs', parent)[i] == r.value
             && ChildNames(fs', parent)[i] == NameOf(fs', id);
  }

  /** Appending a unit does not change what an earlier successful lookup finds. */
  lemma FindAfterAppend(fs: Fs, fs': Fs, p: Id, id: Id, d: Id, name: string)
    requires Appended(fs, fs', p, id) && forall e :: e in fs.nodes ==> id !in Children(fs, e)
    requires Find(fs, d, name).Ok?
    ensures Find(fs', d, name) == Find(fs, d, name)
  {
    var r := Find(fs, d, name);
    var r' := Find(fs', d, name);
    if d != p {
      assert Children(fs', d) == Children(fs, d);
      forall k | 0 <= k < |Children(fs, d)| ensures NameOf(fs', Children(fs, d)[k]) == NameOf(fs, Children(fs, d)[k]) {
        assert Children(fs, d)[k] in Children(fs, d);
      }
      assert ChildNames(fs', d) == ChildNames(fs, d);
    } else {
      var i :| 0 <= i < |Children(fs, d)| && Children(fs, d)[i] == r.value
               && ChildNames(fs, d)[i] == name && name !in ChildNames(fs, d)[..i];
      assert ChildNames(fs', d)[..i] == ChildNames(fs, d)[..i];
      FindAt(fs', d, name, i);
    }
  }

  /** `make_dir`: a new Directory appended to `parent`. Only an empty element list gets
      through construction (see `StorageUnit.NewUnit`), and the name check at construction
      already rules out a clash, so `add` never refuses. */
  function MakeDir(fs: Fs, id: Id, name: string, contents: Value, parent: Id): (r: Result<Fs>)
    requires FreshId(fs, id) && parent != id && (contents.VList? ==> VUnit(id) !in contents.items)
    ensures r.Ok? <==>
              && IsDir(fs, parent)
              && Names.CheckName(name, ChildNames(fs, parent)).None?
              && contents == VList([])
    ensures !IsDir(fs, parent) ==> r == Err(InvalidParent)
    ensures IsDir(fs, parent) && Names.CheckName(name, ChildNames(fs, parent)).Some? ==>
              r == Err(NameError(Names.CheckName(name, ChildNames(fs, parent)).value))
    ensures IsDir(fs, parent) && Names.CheckName(name, ChildNames(fs, parent)).None? && contents.VList? && |contents.items| > 0 ==>
              r == Err(if contents.items[0].VUnit? && contents.items[0].id in fs.nodes then Unset else ElementNotUnit)
    ensures r.Ok? ==> Appended(fs, r.value, parent, id) && IsDir(r.value, id) && NameOf(r.value, id) == name
                      && Children(r.value, id) == []
  {
    MakeUnit(fs, id, true, name, contents, parent)
  }

  /** `make_file`: a new File holding the given text or bytes, appended to `parent`. The
      name rule sees the name as given; `add` then refuses the File when its stored name
      (the given name less a trailing dot) is already taken. */
  function MakeFile(fs: Fs, id: Id, name: string, contents: Value, parent: Id): (r: Result<Fs>)
    requires FreshId(fs, id) && parent != id && (contents.VList? ==> VUnit(id) !in contents.items)
    ensures r.Ok? <==>
              && IsDir(fs, parent)
              && Names.CheckName(name, ChildNames(fs, parent)).None?
              && (contents.VText? || contents.VBytes?)
              && Names.Normalize(name) !in ChildNames(fs, parent)
    ensures !IsDir(fs, parent) ==> r == Err(InvalidParent)
    ensures IsDir(fs, parent) && Names.CheckName(name, ChildNames(fs, parent)).Some? ==>
              r == Err(NameError(Names.CheckName(name, ChildNames(fs, parent)).value))
    ensures IsDir(fs, parent) && Names.CheckName(name, ChildNames(fs, parent)).None? ==>
              && (!(contents.VText? || contents.VBytes?) ==> r == Err(InvalidContents))
              && ((contents.VText? || contents.VBytes?) && Names.Normalize(name) in ChildNames(fs, parent) ==>
                    r == Err(ElementNameTaken))
    ensures r.Ok? ==> Appended(fs, r.value, parent, id) && IsFile(r.value, id)
                      && NameOf(r.value, id) == Names.Normalize(name)
    ensures r.Ok? && contents.VText? ==> r.value.nodes[id].body == FileBody(Text(contents.text))
    ensures r.Ok? && contents.VBytes? ==> r.value.nodes[id].body == FileBody(Bytes(contents.bytes))
  {
    MakeUnit(fs, id, false, name, contents, parent)
  }

  /** Making a unit keeps every storage-unit invariant. */
  lemma MakeUnitKeepsWf(fs: Fs, id: Id, isDir: bool, name: string, contents: Value, parent: Id)
    requires Wf(fs) && FreshId(fs, id) && parent != id
    requires contents.VList? ==> VUnit(id) !in contents.items
    requires MakeUnit(fs, id, isDir, name, contents, parent).Ok?
    ensures Wf(MakeUnit(fs, id, isDir, name, contents, parent).value)
  {
    var fs1 := NewUnit(fs, id, isDir, name, contents, Some(parent)).value;
    NewUnitKeepsWf(fs, id, isDir, name, contents, parent);
    SameAncestry(fs, fs1, parent);
    assert Unlisted(fs1, id);
    assert MakeUnit(fs, id, isDir, name, contents, parent) == Add(fs1, parent, id);
    AddKeepsWf(fs1, parent, id);
  }

  /** An id that was fresh before a unit was appended is still fresh afterwards, provided the
      new unit has no children. */
  lemma AppendedKeepsFresh(fs: Fs, fs': Fs, parent: Id, id: Id, x: Id)
    requires Appended(fs, fs', parent, id) && Children(fs', id) == []
    requires FreshId(fs, x) && x != id
    ensures FreshId(fs', x)
  {
    forall e | e in fs'.nodes ensures x !in Children(fs', e) {
      if e != id && e != parent {
        assert Children(fs', e) == Children(fs, e);
      }
    }
  }

  /** The directory `system` under the root: the existing one, or a new empty one. */
  function EnsureSystemDir(fs: Fs, sysId: Id): (r: Result<(Fs, Id)>)
    requires FreshId(fs, sysId)
    ensures Find(fs, fs.root, SystemDir).Ok? ==> r == Ok((fs, Find(fs, fs.root, SystemDir).value))
    ensures Find(fs, fs.root, SystemDir).Err? ==>
              r.Ok? ==> Appended(fs, r.value.0, fs.root, sysId) && r.value.1 == sysId
                        && IsDir(r.value.0, sysId) && Children(r.value.0, sysId) == []
    ensures r.Ok? ==> Find(r.value.0, r.value.0.root, SystemDir) == Ok(r.value.1)
  {
    match Find(fs, fs.root, SystemDir)
    case Ok(s) => Ok((fs, s))
    case Err(NotFound) =>
      (match MakeDir(fs, sysId, SystemDir, VList([]), fs.root)
       case Err(e) => Err(e)
       case Ok(fs1) =>
         FindAppended(fs, fs1, fs.root, sysId);
         Ok((fs1, sysId)))
    case Err(e) => Err(e)
  }

  /** The file `system.dat` in directory `s`: the existing one, or a new empty text file. */
  function EnsureSystemData(fs: Fs, s: Id, datId: Id): (r: Result<(Fs, Id)>)
    requires FreshId(fs, datId) && s != datId
    ensures Find(fs, s, SystemData).Ok? ==> r == Ok((fs, Find(fs, s, SystemData).value))
    ensures Find(fs, s, SystemData).Err? ==>
              r.Ok? ==> Appended(fs, r.value.0, s, datId) && r.value.1 == datId
                        && r.value.0.nodes[datId].body == FileBody(Text(""))
    ensures !IsDir(fs, s) ==> r == Err(NotADirectory)
    ensures IsDir(fs, s) && Find(fs, s, SystemData).Err? ==>
              (r.Ok? <==> MakeFile(fs, datId, SystemData, VText(""), s).Ok?)
    ensures r.Ok? ==> Find(r.value.0, s, SystemData) == Ok(r.value.1)
  {
    match Find(fs, s, SystemData)
    case Ok(f) => Ok((fs, f))
    case Err(NotFound) =>
      (match MakeFile(fs, datId, SystemData, VText(""), s)
       case Err(e) => Err(e)
       case Ok(fs1) =>
         Names.NormalizeKeepsName(SystemData);
         FindAppended(fs, fs1, s, datId);
         Ok((fs1, datId)))
    case Err(e) => Err(e)
  }

  /** The repair step of `_init`: make sure the root holds a directory `system` holding a
      file `system.dat`, reusing existing ones, and store the terminal in that file. An
      existing `system` that is a File makes the lookup in it fail; an existing `system.dat`
      that is a Directory refuses the bytes. */
  function Repair(fs: Fs, sysId: Id, datId: Id): (r: Result<Fs>)
    requires FreshId(fs, sysId) && FreshId(fs, datId) && sysId != datId
    ensures r.Ok? ==> Intact(r.value)
    ensures Find(fs, fs.root, SystemDir).Ok? && IsFile(fs, Find(fs, fs.root, SystemDir).value) ==>
              r == Err(NotADirectory)
    ensures r.Ok? && Find(fs, fs.root, SystemDir).Ok? ==>
              Find(r.value, r.value.root, SystemDir) == Find(fs, fs.root, SystemDir)
  {
    match EnsureSystemDir(fs, sysId)
    case Err(e) => Err(e)
    case Ok(sys) =>
      assert FreshId(sys.0, datId) && sys.1 != datId by {
        if Find(fs, fs.root, SystemDir).Err? {
          AppendedKeepsFresh(fs, sys.0, fs.root, sysId, datId);
        }
      }
      StoreTerminal(sys.0, sys.1, datId)
  }

  /** The second half of the repair: find or make `system.dat` in `s`, then store the
      terminal in it. */
  function StoreTerminal(fs1: Fs, s: Id, datId: Id): (r: Result<Fs>)
    requires FreshId(fs1, datId) && s != datId && Find(fs1, fs1.root, SystemDir) == Ok(s)
    ensures r.Ok? ==> Intact(r.value) && Find(r.value, r.value.root, SystemDir) == Ok(s)
    ensures !IsDir(fs1, s) ==> r == Err(NotADirectory)
  {
    match EnsureSystemData(fs1, s, datId)
    case Err(e) => Err(e)
    case Ok(dat) =>
      match SetContents(dat.0, dat.1, VBytes(TerminalMarker))
      case Err(e) => Err(e)
      case Ok(fs3) =>
        assert Find(dat.0, dat.0.root, SystemDir) == Ok(s) by {
          if Find(fs1, s, SystemData).Err? {
            FindAfterAppend(fs1, dat.0, s, datId, fs1.root, SystemDir);
          }
        }
        StoreKeepsLookups(fs1, s, dat.0, dat.1, fs3);
        Ok(fs3)
  }

  /** Storing the terminal in the file found as `s/system.dat` leaves both lookups intact. */
  lemma StoreKeepsLookups(fs1: Fs, s: Id, fs2: Fs, f: Id, fs3: Fs)
    requires Find(fs1, fs1.root, SystemDir) == Ok(s)
    requires fs2.root == fs1.root && Find(fs2, s, SystemData) == Ok(f)
    requires f in fs2.nodes && SetContents(fs2, f, VBytes(TerminalMarker)) == Ok(fs3)
    requires Find(fs2, fs2.root, SystemDir) == Ok(s)
    ensures Intact(fs3)
    ensures Find(fs3, fs3.root, SystemDir) == Ok(s)
  {
    assert IsFile(fs2, f);
    FileUpdateKeepsFind(fs2, fs3, f, fs2.root, SystemDir);
    FileUpdateKeepsFind(fs2, fs3, f, s, SystemData);
  }

  /** Changing what a file holds changes no lookup in any other unit. */
  lemma FileUpdateKeepsFind(fs: Fs, fs': Fs, f: Id, d: Id, name: string)
    requires f in fs.nodes && d != f && fs'.nodes.Keys == fs.nodes.Keys
    requires fs'.nodes[f].name == fs.nodes[f].name
    requires forall y :: y in fs.nodes && y != f ==> fs'.nodes[y] == fs.nodes[y]
    ensures Find(fs', d, name) == Find(fs, d, name)
  {
    assert ChildNames(fs', d) == ChildNames(fs, d);
  }

  /** What `get_terminal` checks: the root holds `system`, which is a directory holding
      `system.dat`, which is a file holding the terminal. */
  predicate Intact(fs: Fs)
  {
    match Find(fs, fs.root, SystemDir)
    case Err(_) => false
    case Ok(s) =>
      match Find(fs, s, SystemData)
      case Err(_) => false
      case Ok(f) => fs.nodes[f].body == FileBody(Bytes(TerminalMarker))
  }

  /** The check `get_terminal` makes before handing out a terminal: Corrupted when
      `system/system.dat` is missing or does not hold the terminal. */
  function TerminalCheck(fs: Fs): (r: Result<Terminal>)
    ensures r.Ok? <==> Intact(fs)
    ensures r.Err? ==> r.error == Corrupted
    ensures r.Ok? ==> r.value.cwd == fs.root
  {
    if Intact(fs) then Ok(Terminal(fs.root)) else Err(Corrupted)
  }

  /** `get_terminal`: after the check, the new terminal is recorded among the system's
      terminals. (The source instantiates the stored class without the arguments its
      constructor requires; the evident intent, a terminal on this system, is modelled.) */
  function GetTerminal(h: Host): (r: Result<(Host, Terminal)>)
    ensures r.Ok? <==> Intact(h.fs)
    ensures r.Err? ==> r.error == Corrupted
    ensures r.Ok? ==> r.value.0 == h.(terminals := h.terminals + [r.value.1])
    ensures r.Ok? ==> r.value.1.cwd == h.fs.root
  {
    match TerminalCheck(h.fs)
    case Err(e) => Err(e)
    case Ok(t) => Ok((h.(terminals := h.terminals + [t]), t))
  }

  /** What the repair needs from the parsed tree: `system`, if present, is a directory, and
      `system.dat` in it, if present, is a file. */
  predicate Repairable(fs: Fs)
  {
    match Find(fs, fs.root, SystemDir)
    case Err(_) => true
    case Ok(s) =>
      IsDir(fs, s) &&
      match Find(fs, s, SystemData)
      case Err(_) => true
      case Ok(f) => IsFile(fs, f)
  }

  lemma SystemNamesWellFormed()
    ensures Names.WellFormedName(SystemDir) && Names.WellFormedName(SystemData)
    ensures Names.Normalize(SystemData) == SystemData
  {
    CleanLiteral(SystemDir);
    CleanLiteral(SystemData);
    Names.NormalizeKeepsName(SystemData);
  }

  lemma CleanLiteral(name: string)
    requires 1 <= |name| <= Names.MaxNameLength
    requires forall i :: 0 <= i < |name| ==> 'a' <= name[i] <= 'z' || name[i] == '.'
    ensures Names.WellFormedName(name)
  {
    forall i | 0 <= i < |name| ensures name[i] !in Names.Forbidden {
      assert 'a' <= name[i] <= 'z' || name[i] == '.';
    }
  }

  /** On a well-formed tree the repair succeeds exactly when the tree is repairable. */
  lemma RepairOkIff(fs: Fs, sysId: Id, datId: Id)
    requires Wf(fs) && FreshId(fs, sysId) && FreshId(fs, datId) && sysId != datId
    ensures Repair(fs, sysId, datId).Ok? <==> Repairable(fs)
  {
    SystemNamesWellFormed();
    SystemDirOk(fs, sysId);
    var sys := EnsureSystemDir(fs, sysId);
    var s := sys.value.1;
    SystemDirKeepsFresh(fs, sysId, datId);
    StoreOkIff(sys.value.0, s, datId);
    if Find(fs, fs.root, SystemDir).Err? {
      assert Find(sys.value.0, s, SystemData).Err?;
    }
  }

  /** Under a root directory the directory `system` is always found or made. */
  lemma SystemDirOk(fs: Fs, sysId: Id)
    requires IsDir(fs, fs.root) && FreshId(fs, sysId)
    ensures EnsureSystemDir(fs, sysId).Ok?
  {
    SystemNamesWellFormed();
    if Find(fs, fs.root, SystemDir).Err? {
      assert Names.CheckName(SystemDir, ChildNames(fs, fs.root)).None?;
      assert MakeDir(fs, sysId, SystemDir, VList([]), fs.root).Ok?;
    }
  }

  /** The second half of the repair succeeds exactly when `s` is a directory whose
      `system.dat`, if present, is a file. */
  lemma StoreOkIff(fs1: Fs, s: Id, datId: Id)
    requires FreshId(fs1, datId) && s != datId && Find(fs1, fs1.root, SystemDir) == Ok(s)
    requires Names.WellFormedName(SystemData) && Names.Normalize(SystemData) == SystemData
    ensures StoreTerminal(fs1, s, datId).Ok? <==>
              IsDir(fs1, s) && (Find(fs1, s, SystemData).Ok? ==> IsFile(fs1, Find(fs1, s, SystemData).value))
  {
    if IsDir(fs1, s) {
      match Find(fs1, s, SystemData)
      case Ok(f) => StoreFound(fs1, s, datId, f);
      case Err(_) => StoreMade(fs1, s, datId);
    }
  }

  lemma StoreFound(fs1: Fs, s: Id, datId: Id, f: Id)
    requires FreshId(fs1, datId) && s != datId && Find(fs1, fs1.root, SystemDir) == Ok(s)
    requires Find(fs1, s, SystemData) == Ok(f)
    ensures StoreTerminal(fs1, s, datId).Ok? <==> IsFile(fs1, f)
  {
    assert NameOf(fs1, f) == SystemData;
    assert StoreTerminal(fs1, s, datId) == SetContents(fs1, f, VBytes(TerminalMarker));
  }

  lemma StoreMade(fs1: Fs, s: Id, datId: Id)
    requires FreshId(fs1, datId) && s != datId && Find(fs1, fs1.root, SystemDir) == Ok(s)
    requires Names.WellFormedName(SystemData) && Names.Normalize(SystemData) == SystemData
    requires IsDir(fs1, s) && Find(fs1, s, SystemData).Err?
    ensures StoreTerminal(fs1, s, datId).Ok?
  {
    DataMade(fs1, s, datId);
    var dat := EnsureSystemData(fs1, s, datId).value;
    assert IsFile(dat.0, dat.1);
    assert StoreTerminal(fs1, s, datId) == SetContents(dat.0, dat.1, VBytes(TerminalMarker));
  }

  lemma DataMade(fs1: Fs, s: Id, datId: Id)
    requires FreshId(fs1, datId) && s != datId
    requires Names.WellFormedName(SystemData) && Names.Normalize(SystemData) == SystemData
    requires IsDir(fs1, s) && Find(fs1, s, SystemData).Err?
    ensures EnsureSystemData(fs1, s, datId).Ok?
  {
    assert SystemData !in ChildNames(fs1, s);
    assert Names.CheckName(Names.Normalize(SystemData), ChildNames(fs1, s)).None?;
    assert MakeFile(fs1, datId, SystemData, VText(""), s).Ok?;
  }

  /** The repair keeps every storage-unit invariant. */
  lemma RepairKeepsWf(fs: Fs, sysId: Id, datId: Id)
    requires Wf(fs) && FreshId(fs, sysId) && FreshId(fs, datId) && sysId != datId
    requires Repair(fs, sysId, datId).Ok?
    ensures Wf(Repair(fs, sysId, datId).value)
  {
    var sys := EnsureSystemDir(fs, sysId).value;
    SystemDirKeepsWf(fs, sysId);
    SystemDirKeepsFresh(fs, sysId, datId);
    assert Repair(fs, sysId, datId) == StoreTerminal(sys.0, sys.1, datId);
    StoreKeepsWf(sys.0, sys.1, datId);
  }

  lemma SystemDirKeepsWf(fs: Fs, sysId: Id)
    requires Wf(fs) && FreshId(fs, sysId)
    requires EnsureSystemDir(fs, sysId).Ok?
    ensures Wf(EnsureSystemDir(fs, sysId).value.0)
  {
    if Find(fs, fs.root, SystemDir).Err? {
      MakeUnitKeepsWf(fs, sysId, true, SystemDir, VList([]), fs.root);
    }
  }

  lemma SystemDirKeepsFresh(fs: Fs, sysId: Id, datId: Id)
    requires FreshId(fs, sysId) && FreshId(fs, datId) && sysId != datId
    requires EnsureSystemDir(fs, sysId).Ok?
    ensures FreshId(EnsureSystemDir(fs, sysId).value.0, datId) && EnsureSystemDir(fs, sysId).value.1 != datId
  {
    var sys := EnsureSystemDir(fs, sysId).value;
    if Find(fs, fs.root, SystemDir).Err? {
      AppendedKeepsFresh(fs, sys.0, fs.root, sysId, datId);
    }
  }

  lemma StoreKeepsWf(fs1: Fs, s: Id, datId: Id)
    requires Wf(fs1) && FreshId(fs1, datId) && s != datId && Find(fs1, fs1.root, SystemDir) == Ok(s)
    requires StoreTerminal(fs1, s, datId).Ok?
    ensures Wf(StoreTerminal(fs1, s, datId).value)
  {
    StoreShape(fs1, s, datId);
    var dat := EnsureSystemData(fs1, s, datId).value;
    SystemDataKeepsWf(fs1, s, datId);
    FileContentsKeepsWf(dat.0, dat.1, VBytes(TerminalMarker));
  }

  /** A successful store writes into the file `system.dat` it found or made. */
  lemma StoreShape(fs1: Fs, s: Id, datId: Id)
    requires FreshId(fs1, datId) && s != datId && Find(fs1, fs1.root, SystemDir) == Ok(s)
    requires StoreTerminal(fs1, s, datId).Ok?
    ensures EnsureSystemData(fs1, s, datId).Ok?
    ensures IsFile(EnsureSystemData(fs1, s, datId).value.0, EnsureSystemData(fs1, s, datId).value.1)
    ensures StoreTerminal(fs1, s, datId)
            == SetContents(EnsureSystemData(fs1, s, datId).value.0, EnsureSystemData(fs1, s, datId).value.1, VBytes(TerminalMarker))
  {
    var dat := EnsureSystemData(fs1, s, datId).value;
    assert StoreTerminal(fs1, s, datId) == SetContents(dat.0, dat.1, VBytes(TerminalMarker));
  }

  lemma SystemDataKeepsWf(fs1: Fs, s: Id, datId: Id)
    requires Wf(fs1) && FreshId(fs1, datId) && s != datId
    requires EnsureSystemData(fs1, s, datId).Ok?
    ensures Wf(EnsureSystemData(fs1, s, datId).value.0)
  {
    if Find(fs1, s, SystemData).Err? {
      MakeUnitKeepsWf(fs1, datId, false, SystemData, VText(""), s);
    }
  }

  /** Ids at or above the parser's next id are fresh. */
  lemma FreshAbove(fs: Fs, next: nat, id: Id)
    requires Fresh(fs, next) && next <= id
    ensures FreshId(fs, id)
  {
  }

  /** `System(internet, username, password)`: the credentials are validated in that order,
      the storage tree is parsed from its description and repaired, and the main terminal
      is opened. The address and the first two ids for new units are drawn by the caller. */
  function NewHost(ip: Ip, username: string, password: string, desc: seq<Entry>): (r: Result<Host>)
    ensures UsernameError(username).Some? ==> r == Err(UsernameError(username).value)
    ensures UsernameError(username).None? && PasswordError(password).Some? ==>
              r == Err(PasswordError(password).value)
    ensures r.Ok? ==> r.value.ip == ip && r.value.username == username && r.value.password == password
    ensures r.Ok? ==> Wf(r.value.fs) && Intact(r.value.fs)
    ensures r.Ok? ==> |r.value.terminals| == 1 && r.value.terminals[0].cwd == r.value.fs.root
    ensures UsernameError(username).None? && PasswordError(password).None? && ParseRoot(desc).Ok? ==>
              (r.Ok? <==> Repairable(ParseRoot(desc).value.0))
    ensures ParseRoot(desc).Err? ==> r.Err?
  {
    if UsernameError(username).Some? then Err(UsernameError(username).value)
    else if PasswordError(password).Some? then Err(PasswordError(password).value)
    else match ParseRoot(desc)
      case Err(e) => Err(e)
      case Ok(parsed) =>
        FreshPair(parsed.0, parsed.1);
        Boot(ip, username, password, parsed.0, parsed.1)
  }

  /** `_init` after parsing, then the opening of the main terminal: the parsed tree is
      repaired with the next two free ids and a first terminal is recorded. */
  function Boot(ip: Ip, username: string, password: string, fs: Fs, next: nat): (r: Result<Host>)
    requires Wf(fs) && FreshId(fs, next) && FreshId(fs, next + 1)
    ensures r.Ok? <==> Repairable(fs)
    ensures r.Ok? ==> r.value.ip == ip && r.value.username == username && r.value.password == password
    ensures r.Ok? ==> Wf(r.value.fs) && Intact(r.value.fs)
    ensures r.Ok? ==> |r.value.terminals| == 1 && r.value.terminals[0].cwd == r.value.fs.root
  {
    RepairFacts(fs, next, next + 1);
    match Repair(fs, next, next + 1)
    case Err(e) => Err(e)
    case Ok(fs') =>
      match GetTerminal(Host(ip, username, password, fs', []))
      case Err(e) => assert false; Err(e)
      case Ok(got) => Ok(got.0)
  }

  /** On a well-formed tree with fresh ids the repair succeeds exactly when the tree is
      repairable, and then keeps every storage-unit invariant. */
  lemma RepairFacts(fs: Fs, sysId: Id, datId: Id)
    requires Wf(fs) && FreshId(fs, sysId) && FreshId(fs, datId) && sysId != datId
    ensures Repair(fs, sysId, datId).Ok? <==> Repairable(fs)
    ensures Repair(fs, sysId, datId).Ok? ==> Wf(Repair(fs, sysId, datId).value)
  {
    RepairOkIff(fs, sysId, datId);
    if Repair(fs, sysId, datId).Ok? {
      RepairKeepsWf(fs, sysId, datId);
    }
  }

  /** The next two ids after parsing are fresh. */
  lemma FreshPair(fs: Fs, next: nat)
    requires Fresh(fs, next)
    ensures FreshId(fs, next) && FreshId(fs, next + 1)
  {
    FreshAbove(fs, next, next);
    FreshAbove(fs, next, next + 1);
  }
}
