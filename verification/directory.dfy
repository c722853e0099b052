/** The Directory operations of terminal_game/directory.py: looking a child up by name,
    deleting a child by name, and adding a storage unit as the last child. */
module Directory {
  import opened Common
  import opened Arena
  import opened Ancestors
  import opened StorageUnit

  /** Position of the first occurrence of `n` in `names`. */
  function FirstIndex(names: seq<string>, n: string): (r: Option<nat>)
    ensures r.None? <==> n !in names
    ensures r.Some? ==> r.value < |names| && names[r.value] == n && n !in names[..r.value]
    decreases |names|
  {
    if |names| == 0 then None
    else if names[0] == n then Some(0)
    else match FirstIndex(names[1..], n)
      case None => None
      case Some(k) =>
        assert names[..k + 1] == [names[0]] + names[1..][..k];
        Some(k + 1)
  }

  /** `get_element_by_name`: the first child carrying the name; NotFound when none does. */
  function Find(fs: Fs, d: Id, name: string): (r: Result<Id>)
    ensures r.Ok? <==> IsDir(fs, d) && name in ChildNames(fs, d)
    ensures r.Err? ==> r.error == (if IsDir(fs, d) then NotFound else NotADirectory)
    ensures r.Ok? ==> exists i :: 0 <= i < |Children(fs, d)| && Children(fs, d)[i] == r.value
                        && ChildNames(fs, d)[i] == name && name !in ChildNames(fs, d)[..i]
  {
    if !IsDir(fs, d) then Err(NotADirectory)
    else match FirstIndex(ChildNames(fs, d), name)
      case None => Err(NotFound)
      case Some(i) => Ok(Children(fs, d)[i])
  }

  /** `get_element_by_name` as the source writes it: the children are passed to `filter` in
      the predicate's place and the predicate in the list's place, so the call raises
      TypeError before any child is examined, whatever the directory holds. Only a Directory
      has the method. */
  function FindAsWritten(fs: Fs, d: Id, name: string): (r: Result<Id>)
    requires IsDir(fs, d)
    ensures r.Err? && r.error == NotIterable
  {
    Err(NotIterable)
  }

  /** A root holding files "a" and "b": the lookup of "a" finds the first file, while the
      lookup as written fails. */
  lemma AsWrittenLookupFails()
    ensures Find(TwoFiles(), 0, "a") == Ok(1)
    ensures FindAsWritten(TwoFiles(), 0, "a") == Err(NotIterable)
  {
    assert ChildNames(TwoFiles(), 0) == ["a", "b"];
  }

  /** The lookup returns the child at the first position carrying the name. */
  lemma FindAt(fs: Fs, d: Id, name: string, i: nat)
    requires IsDir(fs, d) && i < |Children(fs, d)|
    requires ChildNames(fs, d)[i] == name && name !in ChildNames(fs, d)[..i]
    ensures Find(fs, d, name) == Ok(Children(fs, d)[i])
  {
    var r := Find(fs, d, name);
    var j :| 0 <= j < |Children(fs, d)| && Children(fs, d)[j] == r.value
             && ChildNames(fs, d)[j] == name && name !in ChildNames(fs, d)[..j];
  }

  /** With distinct sibling names, the lookup returns the one child carrying the name. */
  lemma FindUnique(fs: Fs, d: Id, i: nat)
    requires IsDir(fs, d) && Distinct(ChildNames(fs, d)) && i < |Children(fs, d)|
    ensures Find(fs, d, ChildNames(fs, d)[i]) == Ok(Children(fs, d)[i])
  {
    var r := Find(fs, d, ChildNames(fs, d)[i]);
    var j :| 0 <= j < |Children(fs, d)| && Children(fs, d)[j] == r.value
             && ChildNames(fs, d)[j] == ChildNames(fs, d)[i];
  }

  /** Everything except the children of `d` is as before. */
  ghost predicate OnlyChildrenChanged(fs: Fs, fs': Fs, d: Id)
  {
    && fs'.root == fs.root && fs'.nodes.Keys == fs.nodes.Keys && d in fs.nodes
    && (forall y :: y in fs.nodes && y != d ==> fs'.nodes[y] == fs.nodes[y])
    && fs'.nodes[d].name == fs.nodes[d].name && fs'.nodes[d].parent == fs.nodes[d].parent
    && fs'.nodes[d].body.DirBody?
  }

  /** `delete`: removes the first child carrying the name and keeps the others in order.
      The removed unit stays in the arena, detached, with its parent id unchanged. */
  function Delete(fs: Fs, d: Id, name: string): (r: Result<Fs>)
    ensures r.Ok? <==> IsDir(fs, d) && name in ChildNames(fs, d)
    ensures r.Err? ==> r.error == (if IsDir(fs, d) then NotFound else NotADirectory)
    ensures r.Ok? ==> OnlyChildrenChanged(fs, r.value, d)
    ensures r.Ok? ==> exists i :: 0 <= i < |Children(fs, d)| && ChildNames(fs, d)[i] == name
                        && name !in ChildNames(fs, d)[..i]
                        && Children(r.value, d) == Children(fs, d)[..i] + Children(fs, d)[i + 1..]
  {
    if !IsDir(fs, d) then Err(NotADirectory)
    else match FirstIndex(ChildNames(fs, d), name)
      case None => Err(NotFound)
      case Some(i) =>
        var kids := Children(fs, d);
        Ok(fs.(nodes := fs.nodes[d := fs.nodes[d].(body := DirBody(kids[..i] + kids[i + 1..]))]))
  }

  /** Shrinking the children of one directory to a subset with distinct names keeps every
      storage-unit invariant. */
  lemma FewerChildrenKeepsWf(fs: Fs, fs': Fs, d: Id)
    requires Wf(fs) && OnlyChildrenChanged(fs, fs', d)
    requires forall c :: c in Children(fs', d) ==> c in Children(fs, d)
    requires Distinct(ChildNames(fs', d))
    ensures Wf(fs')
  {
    FewerSiblings(fs, fs', d);
    FewerLinked(fs, fs', d);
    SameParentsAcyclic(fs, fs');
  }

  lemma FewerSiblings(fs: Fs, fs': Fs, d: Id)
    requires SiblingsDistinct(fs) && OnlyChildrenChanged(fs, fs', d)
    requires Distinct(ChildNames(fs', d))
    ensures SiblingsDistinct(fs')
  {
    forall e | e in fs'.nodes && fs'.nodes[e].body.DirBody? ensures Distinct(ChildNames(fs', e)) {
      if e != d {
        assert Children(fs', e) == Children(fs, e);
        SameNames(fs, fs', Children(fs, e));
      }
    }
  }

  lemma FewerLinked(fs: Fs, fs': Fs, d: Id)
    requires ChildrenLinked(fs) && OnlyChildrenChanged(fs, fs', d)
    requires forall c :: c in Children(fs', d) ==> c in Children(fs, d)
    ensures ChildrenLinked(fs')
  {
    forall e, i | e in fs'.nodes && fs'.nodes[e].body.DirBody? && 0 <= i < |fs'.nodes[e].body.children|
      ensures fs'.nodes[e].body.children[i] in fs'.nodes
      ensures fs'.nodes[e].body.children[i] != fs'.root
      ensures fs'.nodes[fs'.nodes[e].body.children[i]].parent == Some(e)
    {
      var c := fs'.nodes[e].body.children[i];
      assert c in Children(fs', e);
      assert c in Children(fs, e);
    }
  }

  /** Removing one element of a repetition-free sequence leaves it repetition-free,
      and what is left was there before. */
  lemma RemoveAt<T>(s: seq<T>, i: nat)
    requires Distinct(s) && i < |s|
    ensures Distinct(s[..i] + s[i + 1..])
    ensures forall x :: x in s[..i] + s[i + 1..] ==> x in s
  {
    var t := s[..i] + s[i + 1..];
    forall j | 0 <= j < |t| ensures t[j] == s[if j < i then j else j + 1] { }
  }

  /** Removing a position keeps only elements that were there. */
  lemma SpliceSubset<T>(s: seq<T>, i: nat)
    requires i < |s|
    ensures forall x :: x in s[..i] + s[i + 1..] ==> x in s
  {
    var t := s[..i] + s[i + 1..];
    forall j | 0 <= j < |t| ensures t[j] == s[if j < i then j else j + 1] { }
  }

  /** Names are looked up position by position, so removing position `i` from the ids
      removes position `i` from their names. */
  lemma SpliceNames(fs: Fs, fs': Fs, kids: seq<Id>, i: nat)
    requires i < |kids|
    requires forall x :: NameOf(fs', x) == NameOf(fs, x)
    ensures NamesOf(fs', kids[..i] + kids[i + 1..]) == NamesOf(fs, kids)[..i] + NamesOf(fs, kids)[i + 1..]
  {
    var l := NamesOf(fs', kids[..i] + kids[i + 1..]);
    var r := NamesOf(fs, kids)[..i] + NamesOf(fs, kids)[i + 1..];
    assert |l| == |r|;
    forall j | 0 <= j < |l| ensures l[j] == r[j] {
      assert (kids[..i] + kids[i + 1..])[j] == kids[if j < i then j else j + 1];
    }
  }

  /** Deleting a child keeps every storage-unit invariant. */
  lemma DeleteKeepsWf(fs: Fs, d: Id, name: string)
    requires Wf(fs) && Delete(fs, d, name).Ok?
    ensures Wf(Delete(fs, d, name).value)
  {
    var fs' := Delete(fs, d, name).value;
    var kids := Children(fs, d);
    var i :| 0 <= i < |kids| && ChildNames(fs, d)[i] == name
             && Children(fs', d) == kids[..i] + kids[i + 1..];
    SpliceNames(fs, fs', kids, i);
    RemoveAt(ChildNames(fs, d), i);
    SpliceSubset(kids, i);
    FewerChildrenKeepsWf(fs, fs', d);
  }

  /** `add`: a storage unit whose name no child carries becomes the last child of `d`,
      and its parent becomes `d`. Refusals leave the tree as it was. */
  function Add(fs: Fs, d: Id, u: Id): (r: Result<Fs>)
    ensures r.Ok? <==> IsDir(fs, d) && u in fs.nodes && NameOf(fs, u) !in ChildNames(fs, d) && u != fs.root
    ensures !IsDir(fs, d) ==> r == Err(NotADirectory)
    ensures IsDir(fs, d) && u !in fs.nodes ==> r == Err(ElementNotUnit)
    ensures IsDir(fs, d) && u in fs.nodes && NameOf(fs, u) in ChildNames(fs, d) ==> r == Err(ElementNameTaken)
    ensures r.Ok? ==> r.value.root == fs.root && r.value.nodes.Keys == fs.nodes.Keys
    ensures r.Ok? ==> Children(r.value, d) == Children(fs, d) + [u]
    ensures r.Ok? ==> r.value.nodes[u].parent == Some(d)
    ensures r.Ok? ==> forall y :: y in fs.nodes ==> r.value.nodes[y].name == fs.nodes[y].name
    ensures r.Ok? ==> forall y :: y in fs.nodes && y != u ==> r.value.nodes[y].parent == fs.nodes[y].parent
    ensures r.Ok? ==> forall y :: y in fs.nodes && y != d ==> r.value.nodes[y].body == fs.nodes[y].body
  {
    if !IsDir(fs, d) then Err(NotADirectory)
    else if u !in fs.nodes then Err(ElementNotUnit)
    else if NameOf(fs, u) in ChildNames(fs, d) then Err(ElementNameTaken)
    else
      var fs1 := fs.(nodes := fs.nodes[d := fs.nodes[d].(body := DirBody(Children(fs, d) + [u]))]);
      SetParent(fs1, u, Some(d))
  }

  /** `u` is a child of no directory. */
  ghost predicate Unlisted(fs: Fs, u: Id)
  {
    forall e :: IsDir(fs, e) ==> u !in Children(fs, e)
  }

  /** Adding a detached unit under a directory that is neither the unit nor below it keeps
      every storage-unit invariant; in particular the tree stays free of cycles. */
  lemma AddKeepsWf(fs: Fs, d: Id, u: Id)
    requires Wf(fs) && Add(fs, d, u).Ok?
    requires Unlisted(fs, u) && u != d && !IsSubSu(fs, u, d)
    ensures Wf(Add(fs, d, u).value)
  {
    var fs' := Add(fs, d, u).value;
    AddSiblings(fs, fs', d, u);
    AddLinked(fs, fs', d, u);
    Relink(fs, fs', u, d);
  }

  lemma AddSiblings(fs: Fs, fs': Fs, d: Id, u: Id)
    requires SiblingsDistinct(fs) && Add(fs, d, u) == Ok(fs')
    ensures SiblingsDistinct(fs')
  {
    assert Children(fs', d) == Children(fs, d) + [u];
    assert ChildNames(fs', d) == ChildNames(fs, d) + [NameOf(fs, u)];
    forall e | e in fs'.nodes && fs'.nodes[e].body.DirBody? ensures Distinct(ChildNames(fs', e)) {
      if e != d {
        assert Children(fs', e) == Children(fs, e);
        SameNames(fs, fs', Children(fs, e));
      } else {
        assert Distinct(ChildNames(fs, d));
      }
    }
  }

  lemma AddLinked(fs: Fs, fs': Fs, d: Id, u: Id)
    requires ChildrenLinked(fs) && RootOk(fs) && Add(fs, d, u) == Ok(fs') && Unlisted(fs, u)
    ensures ChildrenLinked(fs')
  {
    forall e, i | e in fs'.nodes && fs'.nodes[e].body.DirBody? && 0 <= i < |fs'.nodes[e].body.children|
      ensures fs'.nodes[e].body.children[i] in fs'.nodes
      ensures fs'.nodes[e].body.children[i] != fs'.root
      ensures fs'.nodes[fs'.nodes[e].body.children[i]].parent == Some(e)
    {
      var c := fs'.nodes[e].body.children[i];
      if e != d || i < |Children(fs, d)| {
        assert c in Children(fs, e);
      }
    }
  }

  /** `set_parent` of a unit no directory lists, to a directory that is neither the unit nor
      below it, keeps every storage-unit invariant: it is the last step of `add`. */
  lemma SetParentKeepsWf(fs: Fs, u: Id, d: Id)
    requires Wf(fs) && u in fs.nodes && u != fs.root && Unlisted(fs, u)
    requires IsDir(fs, d) && u != d && !IsSubSu(fs, u, d)
    ensures SetParent(fs, u, Some(d)).Ok? && Wf(SetParent(fs, u, Some(d)).value)
  {
    var fs' := SetParent(fs, u, Some(d)).value;
    forall e | e in fs'.nodes && fs'.nodes[e].body.DirBody? ensures Distinct(ChildNames(fs', e)) {
      SameNames(fs, fs', Children(fs, e));
    }
    forall e, i | e in fs'.nodes && fs'.nodes[e].body.DirBody? && 0 <= i < |fs'.nodes[e].body.children|
      ensures fs'.nodes[e].body.children[i] in fs'.nodes
      ensures fs'.nodes[e].body.children[i] != fs'.root
      ensures fs'.nodes[fs'.nodes[e].body.children[i]].parent == Some(e)
    {
      assert fs'.nodes[e].body.children[i] in Children(fs, e);
    }
    Relink(fs, fs', u, d);
  }

  /** A successful Directory `set_contents` lists none of the directory's former children:
      the element rule refuses every name they carry. */
  lemma DirContentsDropsOldChildren(fs: Fs, d: Id, items: seq<Value>)
    requires IsDir(fs, d) && SetContents(fs, d, VList(items)).Ok?
    ensures forall c :: c in Children(fs, d) ==> c !in Children(SetContents(fs, d, VList(items)).value, d)
  {
    var fs' := SetContents(fs, d, VList(items)).value;
    forall c | c in Children(fs, d) ensures c !in Children(fs', d) {
      var k :| 0 <= k < |Children(fs, d)| && Children(fs, d)[k] == c;
      assert NameOf(fs, c) == ChildNames(fs, d)[k];
      forall i | 0 <= i < |Children(fs', d)| ensures Children(fs', d)[i] != c {
        assert items[i] == VUnit(Children(fs', d)[i]);
      }
    }
  }

  /** Emptying a Directory with `set_contents` keeps every storage-unit invariant (the former
      children are left detached). */
  lemma EmptyDirContentsKeepsWf(fs: Fs, d: Id)
    requires Wf(fs) && IsDir(fs, d)
    ensures SetContents(fs, d, VList([])).Ok? && Wf(SetContents(fs, d, VList([])).value)
  {
    var fs' := SetContents(fs, d, VList([])).value;
    assert Children(fs', d) == [];
    FewerChildrenKeepsWf(fs, fs', d);
  }

  /** A Directory `d` holding a File `f`, under the root. */
  function Nested(): Fs
  {
    Fs(map[0 := Node("", None, DirBody([1])),
           1 := Node("d", Some(0), DirBody([2])),
           2 := Node("f", Some(1), FileBody(Text("")))], 0)
  }

  lemma NestedWf()
    ensures Wf(Nested())
  {
    var fs := Nested();
    assert ChildNames(fs, 0) == ["d"] && ChildNames(fs, 1) == ["f"];
    assert ChildrenLinked(fs);
    forall n | n in fs.nodes ensures Ancestry(fs, n).Some? {
      if n == 1 {
        assert IsChain(fs, [0, 1]);
        ChainIsAncestry(fs, [0, 1]);
      } else if n == 2 {
        assert IsChain(fs, [0, 1, 2]);
        ChainIsAncestry(fs, [0, 1, 2]);
      }
    }
  }

  /** A Directory `set_contents` does not re-parent the units it lists: handing the root
      the File below `d` is accepted, and the File's parent is still `d`. */
  lemma DirContentsBreaksLinks()
    ensures Wf(Nested())
    ensures SetContents(Nested(), 0, VList([VUnit(2)])).Ok?
    ensures !ChildrenLinked(SetContents(Nested(), 0, VList([VUnit(2)])).value)
  {
    NestedWf();
    var fs := Nested();
    assert ChildNames(fs, 0) == ["d"];
    assert ElementError(fs, ["d"], [VUnit(2)]) == None;
    var fs' := SetContents(fs, 0, VList([VUnit(2)])).value;
    assert fs'.nodes[0].body.children[0] == 2;
  }

  /** `set_parent` of a listed unit does not take it out of its old parent's list. */
  lemma SetParentOfListedBreaksLinks()
    ensures Wf(Nested())
    ensures SetParent(Nested(), 2, Some(0)).Ok?
    ensures !ChildrenLinked(SetParent(Nested(), 2, Some(0)).value)
  {
    NestedWf();
    var fs' := SetParent(Nested(), 2, Some(0)).value;
    assert fs'.nodes[1].body.children[0] == 2;
  }
}
