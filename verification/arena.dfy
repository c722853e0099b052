/** The storage tree of one operating system, kept as an arena: every storage unit
    (File, Directory or the root directory) is a record in a map keyed by its id,
    holding its parent's id and, for a directory, the ordered ids of its children. */
module Arena {
  import opened Common

  /** Storage-unit ids; the source draws them from a generator of unique ids. */
  type Id = nat

  /** What a File holds: text or raw bytes. */
  datatype Data = Text(text: string) | Bytes(bytes: seq<bv8>)

  datatype Body = FileBody(data: Data) | DirBody(children: seq<Id>)

  /** A storage unit: its reported name, the id of the directory it belongs to, and its body. */
  datatype Node = Node(name: string, parent: Option<Id>, body: Body)

  datatype Fs = Fs(nodes: map<Id, Node>, root: Id)

  /** A value handed to a storage unit as its contents: text, bytes, a list,
      a storage unit, or anything else. */
  datatype Value =
    | VText(text: string)
    | VBytes(bytes: seq<bv8>)
    | VList(items: seq<Value>)
    | VUnit(id: Id)
    | VOther

  predicate IsDir(fs: Fs, id: Id)
  {
    id in fs.nodes && fs.nodes[id].body.DirBody?
  }

  predicate IsFile(fs: Fs, id: Id)
  {
    id in fs.nodes && fs.nodes[id].body.FileBody?
  }

  /** The ordered children of a directory; a File or an unknown id has none. */
  function Children(fs: Fs, d: Id): seq<Id>
  {
    if IsDir(fs, d) then fs.nodes[d].body.children else []
  }

  /** The name a unit reports (the empty name for an unknown id). */
  function NameOf(fs: Fs, id: Id): string
  {
    if id in fs.nodes then fs.nodes[id].name else ""
  }

  /** The names of the given units, in order. */
  function NamesOf(fs: Fs, ids: seq<Id>): (r: seq<string>)
    ensures |r| == |ids|
    ensures forall i :: 0 <= i < |ids| ==> r[i] == NameOf(fs, ids[i])
  {
    seq(|ids|, i requires 0 <= i < |ids| => NameOf(fs, ids[i]))
  }

  /** Units that report the same names give the same list of names. */
  lemma SameNames(fs: Fs, fs': Fs, ids: seq<Id>)
    requires forall i :: 0 <= i < |ids| ==> NameOf(fs', ids[i]) == NameOf(fs, ids[i])
    ensures NamesOf(fs', ids) == NamesOf(fs, ids)
  {
  }

  /** The names of a directory's children, in order. */
  function ChildNames(fs: Fs, d: Id): seq<string>
  {
    NamesOf(fs, Children(fs, d))
  }

  predicate Distinct<T(==)>(s: seq<T>)
  {
    forall i, j :: 0 <= i < j < |s| ==> s[i] != s[j]
  }

  /** The ids from the root down to `n`, following parent links at most `fuel` times;
      None when the walk leaves the arena, meets a unit without parent, or runs out of fuel. */
  function Chain(fs: Fs, n: Id, fuel: nat): (r: Option<seq<Id>>)
    decreases fuel
  {
    if n !in fs.nodes then None
    else if n == fs.root then Some([n])
    else if fuel == 0 then None
    else match fs.nodes[n].parent
      case None => None
      case Some(p) =>
        match Chain(fs, p, fuel - 1)
        case None => None
        case Some(c) => Some(c + [n])
  }

  /** The ancestry of `n`, root first and `n` last. A walk longer than the arena repeats
      a unit, so |nodes| steps decide whether the parent links reach the root. */
  function Ancestry(fs: Fs, n: Id): Option<seq<Id>>
  {
    Chain(fs, n, |fs.nodes|)
  }

  /** The `is_sub_su` relation: `n` lies strictly below `a`, i.e. `a` is a proper ancestor of `n`. */
  predicate IsSubSu(fs: Fs, a: Id, n: Id)
  {
    match Ancestry(fs, n)
    case None => false
    case Some(c) => a in c[..|c| - 1]
  }

  /** Every parent link, followed upwards, reaches the root. */
  ghost predicate Acyclic(fs: Fs)
  {
    forall n :: n in fs.nodes ==> Ancestry(fs, n).Some?
  }

  /** The root directory has the empty name and no parent. */
  ghost predicate RootOk(fs: Fs)
  {
    fs.root in fs.nodes && fs.nodes[fs.root].name == "" && fs.nodes[fs.root].parent == None
    && fs.nodes[fs.root].body.DirBody?
  }

  /** Every child of a directory is a known non-root unit whose parent is that directory. */
  ghost predicate ChildrenLinked(fs: Fs)
  {
    forall d, i :: d in fs.nodes && fs.nodes[d].body.DirBody? && 0 <= i < |fs.nodes[d].body.children| ==>
      var c := fs.nodes[d].body.children[i];
      c in fs.nodes && c != fs.root && fs.nodes[c].parent == Some(d)
  }

  /** Every non-root unit names a directory of the arena as its parent. */
  ghost predicate ParentsAreDirs(fs: Fs)
  {
    forall n :: n in fs.nodes && n != fs.root ==>
      fs.nodes[n].parent.Some? && IsDir(fs, fs.nodes[n].parent.value)
  }

  /** No two children of a directory share a name. */
  ghost predicate SiblingsDistinct(fs: Fs)
  {
    forall d :: d in fs.nodes && fs.nodes[d].body.DirBody? ==> Distinct(ChildNames(fs, d))
  }

  /** The storage-unit invariants the source maintains. A unit that was detached from its
      directory (deleted) may stay in the arena; it keeps its parent id, as the source's
      object keeps its parent attribute. */
  ghost predicate Wf(fs: Fs)
  {
    RootOk(fs) && ChildrenLinked(fs) && ParentsAreDirs(fs) && SiblingsDistinct(fs) && Acyclic(fs)
  }
}
