/** The tree builder of utils/parser.py: a nested `{name, contents}` description becomes
    a storage tree under a fresh root; list contents make a Directory, anything else a File.
    Ids are drawn from a counter, standing in for the id generator. */
module Parser {
  import opened Common
  import opened Names
  import opened Arena
  import opened Ancestors
  import opened StorageUnit
  import opened Directory

  /** A non-list contents value of the description. */
  datatype Scalar = SText(text: string) | SBytes(bytes: seq<bv8>) | SOther

  datatype Entry = Entry(name: string, contents: EntryContents)
  datatype EntryContents = Listing(entries: seq<Entry>) | Leaf(value: Scalar)

  function ToValue(s: Scalar): Value
  {
    match s
    case SText(t) => VText(t)
    case SBytes(b) => VBytes(b)
    case SOther => VOther
  }

  /** The name the built unit reports: a File's name goes through the filename split. */
  function DisplayName(e: Entry): string
  {
    if e.contents.Listing? then e.name else Normalize(e.name)
  }

  function DisplayNames(es: seq<Entry>): (r: seq<string>)
    ensures |r| == |es| && forall k :: 0 <= k < |es| ==> r[k] == DisplayName(es[k])
  {
    seq(|es|, k requires 0 <= k < |es| => DisplayName(es[k]))
  }

  /** Every id in use, the root's included, is below `next`, so `next` is fresh. */
  ghost predicate Fresh(fs: Fs, next: nat)
  {
    && fs.root < next
    && forall y :: y in fs.nodes ==> y < next && forall c :: c in Children(fs, y) ==> c < next
  }

  /** The unit `id` was built from entry `e` under directory `d`: a File holding the
      entry's text or bytes, or a Directory whose children were built, in order, from the
      entry's own entries, at every depth. */
  ghost predicate Mirrors(fs: Fs, id: Id, d: Id, e: Entry)
    decreases e
  {
    && id in fs.nodes && fs.nodes[id].parent == Some(d) && fs.nodes[id].name == DisplayName(e)
    && (e.contents.Listing? <==> fs.nodes[id].body.DirBody?)
    && (match e.contents
        case Listing(es) =>
          && |Children(fs, id)| == |es|
          && forall k :: 0 <= k < |es| ==> Mirrors(fs, Children(fs, id)[k], id, es[k])
        case Leaf(SText(t)) => fs.nodes[id].body == FileBody(Text(t))
        case Leaf(SBytes(b)) => fs.nodes[id].body == FileBody(Bytes(b))
        case Leaf(SOther) => false)
  }

  /** Every unit of the subtree built for `e` at `id` has an id from `lo` on. */
  ghost predicate BuiltFrom(fs: Fs, id: Id, e: Entry, lo: nat)
    decreases e
  {
    && id in fs.nodes && lo <= id
    && (match e.contents
        case Leaf(_) => true
        case Listing(es) =>
          && |Children(fs, id)| == |es|
          && forall k :: 0 <= k < |es| ==> BuiltFrom(fs, Children(fs, id)[k], es[k], lo))
  }

  ghost predicate AllBuiltFrom(fs: Fs, ids: seq<Id>, es: seq<Entry>, lo: nat)
  {
    |ids| == |es| && forall k :: 0 <= k < |es| ==> BuiltFrom(fs, ids[k], es[k], lo)
  }

  /** A bound on a built subtree's ids also holds for any lower bound. */
  lemma {:induction false} BuiltFromLower(fs: Fs, id: Id, e: Entry, lo: nat, lo': nat)
    requires BuiltFrom(fs, id, e, lo) && lo' <= lo
    ensures BuiltFrom(fs, id, e, lo')
    decreases e
  {
    match e.contents
    case Leaf(_) =>
    case Listing(es) =>
      forall k | 0 <= k < |es| ensures BuiltFrom(fs, Children(fs, id)[k], es[k], lo') {
        BuiltFromLower(fs, Children(fs, id)[k], es[k], lo, lo');
      }
  }

  /** A built subtree whose ids are all from `lo` on survives any change that keeps every
      unit from `lo` on. */
  lemma {:induction false} MirrorsFramed(fs: Fs, fs': Fs, id: Id, d: Id, e: Entry, lo: nat)
    requires Mirrors(fs, id, d, e) && BuiltFrom(fs, id, e, lo)
    requires forall y :: y in fs.nodes && lo <= y ==> y in fs'.nodes && fs'.nodes[y] == fs.nodes[y]
    ensures Mirrors(fs', id, d, e) && BuiltFrom(fs', id, e, lo)
    decreases e
  {
    assert fs'.nodes[id] == fs.nodes[id];
    match e.contents
    case Leaf(_) =>
    case Listing(es) =>
      assert Children(fs', id) == Children(fs, id);
      forall k | 0 <= k < |es|
        ensures Mirrors(fs', Children(fs', id)[k], id, es[k]) && BuiltFrom(fs', Children(fs', id)[k], es[k], lo)
      {
        MirrorsFramed(fs, fs', Children(fs, id)[k], id, es[k], lo);
      }
  }

  /** Each of the units `ids` was built from the entry at the same position. */
  ghost predicate MirrorsAll(fs: Fs, ids: seq<Id>, d: Id, es: seq<Entry>)
  {
    |ids| == |es| && forall k :: 0 <= k < |es| ==> Mirrors(fs, ids[k], d, es[k])
  }

  lemma MirrorsCons(fs: Fs, id: Id, ids: seq<Id>, d: Id, es: seq<Entry>)
    requires |es| > 0 && Mirrors(fs, id, d, es[0]) && MirrorsAll(fs, ids, d, es[1..])
    ensures MirrorsAll(fs, [id] + ids, d, es)
  {
    forall k | 0 <= k < |es| ensures Mirrors(fs, ([id] + ids)[k], d, es[k]) {
      if k > 0 {
        assert ([id] + ids)[k] == ids[k - 1] && es[k] == es[1..][k - 1];
      }
    }
  }

  /** From `fs` to `fs'` only fresh units (ids from `next` on) were created and only the
      children of directory `d` changed among the existing units. */
  ghost predicate GrownBy(fs: Fs, fs': Fs, d: Id, next: nat, next': nat)
  {
    && next <= next' && fs'.root == fs.root
    && IsDir(fs, d) && IsDir(fs', d)
    && (forall y :: y in fs.nodes ==> y in fs'.nodes)
    && (forall y :: y in fs'.nodes && y !in fs.nodes ==> next <= y)
    && (forall y :: y in fs.nodes && y != d ==> fs'.nodes[y] == fs.nodes[y])
    && fs'.nodes[d].name == fs.nodes[d].name && fs'.nodes[d].parent == fs.nodes[d].parent
  }

  /** `parse_file` / `parse_dir` followed by the parent's `add`: builds the unit for `e`
      with id `next` (and, for a list, its children in order) and appends it to `d`. */
  function BuildEntry(fs: Fs, d: Id, e: Entry, next: nat): (r: Result<(Fs, nat)>)
    requires Fresh(fs, next) && IsDir(fs, d)
    ensures r.Ok? ==> Fresh(r.value.0, r.value.1) && GrownBy(fs, r.value.0, d, next, r.value.1)
    ensures r.Ok? ==> Children(r.value.0, d) == Children(fs, d) + [next]
    ensures r.Ok? ==> Mirrors(r.value.0, next, d, e) && BuiltFrom(r.value.0, next, e, next)
    ensures r.Ok? ==> DisplayName(e) !in ChildNames(fs, d)
    ensures r.Ok? && Wf(fs) ==> Wf(r.value.0)
    decreases e, 0
  {
    match e.contents
    case Leaf(v) =>
      (match NewUnit(fs, next, false, e.name, ToValue(v), Some(d))
       case Err(err) => Err(err)
       case Ok(fs1) =>
         match Add(fs1, d, next)
         case Err(err) => Err(err)
         case Ok(fs2) =>
           LeafStep(fs, fs1, fs2, d, e, next);
           LeafWf(fs, fs1, d, e, next);
           Ok((fs2, next + 1)))
    case Listing(es) =>
      match NewUnit(fs, next, true, e.name, VList([]), Some(d))
      case Err(err) => Err(err)
      case Ok(fs1) =>
        NewDirFresh(fs, fs1, d, e.name, next);
        match BuildList(fs1, next, es, next + 1)
        case Err(err) => Err(err)
        case Ok(built) =>
          var (fs2, n2) := built;
          assert Children(fs2, next)[|Children(fs1, next)|..] == Children(fs2, next);
          match Add(fs2, d, next)
          case Err(err) => Err(err)
          case Ok(fs3) =>
            ListingStep(fs, fs1, fs2, fs3, d, e, next, n2);
            ListingWf(fs, fs1, fs2, d, e, next, n2);
            Ok((fs3, n2))
  }

  /** The names of the children of `d` only depend on units that existed before `next`. */
  lemma SameChildNames(fs: Fs, fs': Fs, d: Id, next: nat)
    requires Fresh(fs, next) && IsDir(fs, d) && IsDir(fs', d)
    requires Children(fs', d) == Children(fs, d)
    requires forall y :: y in fs.nodes ==> y in fs'.nodes && fs'.nodes[y].name == fs.nodes[y].name
    requires forall y :: y in fs'.nodes && y !in fs.nodes ==> next <= y
    ensures ChildNames(fs', d) == ChildNames(fs, d)
  {
    forall c | c in Children(fs, d) ensures NameOf(fs', c) == NameOf(fs, c) {
      assert c < next;
    }
  }

  /** A new File built from a leaf entry and added to `d`. */
  lemma LeafStep(fs: Fs, fs1: Fs, fs2: Fs, d: Id, e: Entry, next: nat)
    requires Fresh(fs, next) && IsDir(fs, d) && e.contents.Leaf?
    requires NewUnit(fs, next, false, e.name, ToValue(e.contents.value), Some(d)) == Ok(fs1)
    requires Add(fs1, d, next) == Ok(fs2)
    ensures Fresh(fs2, next + 1) && GrownBy(fs, fs2, d, next, next + 1)
    ensures Children(fs2, d) == Children(fs, d) + [next]
    ensures Mirrors(fs2, next, d, e) && BuiltFrom(fs2, next, e, next)
    ensures DisplayName(e) !in ChildNames(fs, d)
  {
    assert Children(fs1, d) == Children(fs, d);
    SameChildNames(fs, fs1, d, next);
    forall y | y in fs.nodes && y != d ensures fs2.nodes[y] == fs.nodes[y] {
      assert fs1.nodes[y] == fs.nodes[y];
    }
    LeafFresh(fs, fs2, d, next);
  }

  /** Appending the new File `next` to `d` keeps `next + 1` fresh. */
  lemma LeafFresh(fs: Fs, fs2: Fs, d: Id, next: nat)
    requires Fresh(fs, next)
    requires fs2.root == fs.root && fs2.nodes.Keys == fs.nodes.Keys + {next}
    requires forall y :: y in fs.nodes && y != d ==> fs2.nodes[y] == fs.nodes[y]
    requires Children(fs2, d) == Children(fs, d) + [next] && Children(fs2, next) == []
    ensures Fresh(fs2, next + 1)
  {
    forall y | y in fs2.nodes ensures y < next + 1 && forall c :: c in Children(fs2, y) ==> c < next + 1 {
      if y != d && y != next {
        assert Children(fs2, y) == Children(fs, y);
      }
    }
  }

  /** A new Directory with no children keeps `next + 1` fresh. */
  lemma NewDirFresh(fs: Fs, fs1: Fs, d: Id, name: string, next: nat)
    requires Fresh(fs, next) && IsDir(fs, d)
    requires NewUnit(fs, next, true, name, VList([]), Some(d)) == Ok(fs1)
    ensures Fresh(fs1, next + 1) && IsDir(fs1, next)
    ensures fs1.nodes[next].name == name && fs1.nodes[next].parent == Some(d)
    ensures Children(fs1, next) == [] && ChildNames(fs1, next) == []
  {
    forall y | y in fs1.nodes ensures y < next + 1 && forall c :: c in Children(fs1, y) ==> c < next + 1 {
      if y != next {
        assert Children(fs1, y) == Children(fs, y);
      }
    }
  }

  /** A new Directory, filled from a list entry and then added to `d`. */
  lemma ListingStep(fs: Fs, fs1: Fs, fs2: Fs, fs3: Fs, d: Id, e: Entry, next: nat, n2: nat)
    requires Fresh(fs, next) && IsDir(fs, d) && e.contents.Listing?
    requires NewUnit(fs, next, true, e.name, VList([]), Some(d)) == Ok(fs1)
    requires Fresh(fs2, n2) && GrownBy(fs1, fs2, next, next + 1, n2)
    requires MirrorsAll(fs2, Children(fs2, next), next, e.contents.entries)
    requires AllBuiltFrom(fs2, Children(fs2, next), e.contents.entries, next + 1)
    requires Add(fs2, d, next) == Ok(fs3)
    ensures Fresh(fs3, n2) && GrownBy(fs, fs3, d, next, n2)
    ensures Children(fs3, d) == Children(fs, d) + [next]
    ensures Mirrors(fs3, next, d, e) && BuiltFrom(fs3, next, e, next)
    ensures DisplayName(e) !in ChildNames(fs, d)
  {
    NewDirFresh(fs, fs1, d, e.name, next);
    ListingMirrored(fs2, fs3, d, e, next);
    assert Children(fs2, d) == Children(fs, d) by {
      assert fs2.nodes[d] == fs1.nodes[d] == fs.nodes[d];
    }
    assert forall y :: y in fs.nodes ==> y in fs2.nodes && fs2.nodes[y].name == fs.nodes[y].name by {
      forall y | y in fs.nodes ensures y in fs2.nodes && fs2.nodes[y].name == fs.nodes[y].name {
        assert y != next;
      }
    }
    SameChildNames(fs, fs2, d, next);
    forall y | y in fs.nodes && y != d ensures fs3.nodes[y] == fs.nodes[y] {
      assert y != next && fs2.nodes[y] == fs1.nodes[y] == fs.nodes[y];
    }
    ListingFresh(fs, fs2, fs3, d, next, n2);
  }

  /** The new Directory `next`, filled from the list entry `e`, still mirrors `e` once it is
      added to `d`: the `add` touches only `d` and `next`, and every unit below `next` is
      newer than both. */
  lemma ListingMirrored(fs2: Fs, fs3: Fs, d: Id, e: Entry, next: nat)
    requires e.contents.Listing? && d < next
    requires next in fs2.nodes && fs2.nodes[next].name == e.name && fs2.nodes[next].parent == Some(d)
    requires IsDir(fs2, next)
    requires MirrorsAll(fs2, Children(fs2, next), next, e.contents.entries)
    requires AllBuiltFrom(fs2, Children(fs2, next), e.contents.entries, next + 1)
    requires Add(fs2, d, next) == Ok(fs3)
    ensures Mirrors(fs3, next, d, e) && BuiltFrom(fs3, next, e, next)
  {
    var es := e.contents.entries;
    var kids := Children(fs2, next);
    AddFrame(fs2, fs3, d, next);
    assert Children(fs3, next) == kids by {
      assert fs3.nodes[next].body == fs2.nodes[next].body;
    }
    forall k | 0 <= k < |es|
      ensures Mirrors(fs3, kids[k], next, es[k]) && BuiltFrom(fs3, kids[k], es[k], next)
    {
      MirrorsFramed(fs2, fs3, kids[k], next, es[k], next + 1);
      BuiltFromLower(fs3, kids[k], es[k], next + 1, next);
    }
  }

  /** An `add` changes no unit other than the directory and the unit added. */
  lemma AddFrame(fs: Fs, fs': Fs, d: Id, u: Id)
    requires Add(fs, d, u) == Ok(fs')
    ensures forall y :: y in fs.nodes && y != d && y != u ==> y in fs'.nodes && fs'.nodes[y] == fs.nodes[y]
  {
    forall y | y in fs.nodes && y != d && y != u ensures y in fs'.nodes && fs'.nodes[y] == fs.nodes[y] {
      assert fs'.nodes[y].name == fs.nodes[y].name;
      assert fs'.nodes[y].parent == fs.nodes[y].parent;
      assert fs'.nodes[y].body == fs.nodes[y].body;
    }
  }

  /** Appending the new Directory `next` to `d` keeps `n2` fresh. */
  lemma ListingFresh(fs: Fs, fs2: Fs, fs3: Fs, d: Id, next: nat, n2: nat)
    requires Fresh(fs2, n2) && next < n2 && fs3.root == fs2.root && fs3.nodes.Keys == fs2.nodes.Keys
    requires forall y :: y in fs2.nodes && y != d ==> fs3.nodes[y] == fs2.nodes[y]
    requires Children(fs3, d) == Children(fs2, d) + [next]
    ensures Fresh(fs3, n2)
  {
    forall y | y in fs3.nodes ensures y < n2 && forall c :: c in Children(fs3, y) ==> c < n2 {
      if y != d {
        assert Children(fs3, y) == Children(fs2, y);
      }
    }
  }

  /** The children of `d` built from `es`, in order; a name clash with an earlier sibling
      makes the build fail through `add`. */
  function BuildList(fs: Fs, d: Id, es: seq<Entry>, next: nat): (r: Result<(Fs, nat)>)
    requires Fresh(fs, next) && IsDir(fs, d)
    ensures r.Ok? ==> Fresh(r.value.0, r.value.1) && GrownBy(fs, r.value.0, d, next, r.value.1)
    ensures r.Ok? ==> |Children(r.value.0, d)| == |Children(fs, d)| + |es|
    ensures r.Ok? ==> Children(r.value.0, d)[..|Children(fs, d)|] == Children(fs, d)
    ensures r.Ok? ==> MirrorsAll(r.value.0, Children(r.value.0, d)[|Children(fs, d)|..], d, es)
    ensures r.Ok? ==> AllBuiltFrom(r.value.0, Children(r.value.0, d)[|Children(fs, d)|..], es, next)
    ensures r.Ok? ==> ChildNames(r.value.0, d) == ChildNames(fs, d) + DisplayNames(es)
    ensures r.Ok? && Distinct(ChildNames(fs, d)) ==> Distinct(ChildNames(r.value.0, d))
    ensures r.Ok? && Wf(fs) ==> Wf(r.value.0)
    decreases es, 1
  {
    if |es| == 0 then
      assert ChildNames(fs, d) + DisplayNames(es) == ChildNames(fs, d);
      Ok((fs, next))
    else
      match BuildEntry(fs, d, es[0], next)
      case Err(err) => Err(err)
      case Ok(step) =>
        var (fs1, n1) := step;
        match BuildList(fs1, d, es[1..], n1)
        case Err(err) => Err(err)
        case Ok(rest) =>
          var (fs2, n2) := rest;
          GrownTrans(fs, fs1, fs2, d, next, n1, n2);
          MirrorsStep(fs, fs1, fs2, d, es, next, n1, n2);
          NamesStep(fs, fs1, fs2, d, es, next, n1);
          Ok((fs2, n2))
  }

  /** Gluing the first built child to the rest: positions. */
  lemma ChildrenStep(c0: seq<Id>, c1: seq<Id>, c2: seq<Id>, next: Id, n: nat)
    requires c1 == c0 + [next] && |c2| == |c1| + n && c2[..|c1|] == c1
    ensures |c2| == |c0| + n + 1 && c2[..|c0|] == c0
    ensures c2[|c0|..] == [next] + c2[|c1|..]
  {
    assert c2[..|c0|] == c2[..|c1|][..|c0|];
    assert c2[|c0|] == c2[..|c1|][|c0|];
  }

  /** Gluing the first built child to the rest: what each child was built from. */
  lemma MirrorsStep(fs: Fs, fs1: Fs, fs2: Fs, d: Id, es: seq<Entry>, next: nat, n1: nat, n2: nat)
    requires |es| > 0 && Fresh(fs, next) && IsDir(fs, d)
    requires Mirrors(fs1, next, d, es[0]) && BuiltFrom(fs1, next, es[0], next)
    requires GrownBy(fs1, fs2, d, n1, n2) && next <= n1
    requires Children(fs1, d) == Children(fs, d) + [next]
    requires |Children(fs2, d)| == |Children(fs1, d)| + |es| - 1
    requires Children(fs2, d)[..|Children(fs1, d)|] == Children(fs1, d)
    requires MirrorsAll(fs2, Children(fs2, d)[|Children(fs1, d)|..], d, es[1..])
    requires AllBuiltFrom(fs2, Children(fs2, d)[|Children(fs1, d)|..], es[1..], n1)
    ensures |Children(fs2, d)| == |Children(fs, d)| + |es|
    ensures Children(fs2, d)[..|Children(fs, d)|] == Children(fs, d)
    ensures MirrorsAll(fs2, Children(fs2, d)[|Children(fs, d)|..], d, es)
    ensures AllBuiltFrom(fs2, Children(fs2, d)[|Children(fs, d)|..], es, next)
  {
    ChildrenStep(Children(fs, d), Children(fs1, d), Children(fs2, d), next, |es| - 1);
    assert d < next;
    MirrorsFramed(fs1, fs2, next, d, es[0], next);
    MirrorsCons(fs2, next, Children(fs2, d)[|Children(fs1, d)|..], d, es);
    BuiltCons(fs2, next, Children(fs2, d)[|Children(fs1, d)|..], es, next, n1);
  }

  lemma BuiltCons(fs: Fs, id: Id, ids: seq<Id>, es: seq<Entry>, lo: nat, n1: nat)
    requires |es| > 0 && BuiltFrom(fs, id, es[0], lo) && AllBuiltFrom(fs, ids, es[1..], n1) && lo <= n1
    ensures AllBuiltFrom(fs, [id] + ids, es, lo)
  {
    forall k | 0 <= k < |es| ensures BuiltFrom(fs, ([id] + ids)[k], es[k], lo) {
      if k > 0 {
        assert ([id] + ids)[k] == ids[k - 1] && es[k] == es[1..][k - 1];
        BuiltFromLower(fs, ids[k - 1], es[k], n1, lo);
      }
    }
  }

  /** Gluing the first built child to the rest: names. */
  lemma NamesStep(fs: Fs, fs1: Fs, fs2: Fs, d: Id, es: seq<Entry>, next: nat, n1: nat)
    requires |es| > 0 && Fresh(fs, next) && IsDir(fs, d)
    requires GrownBy(fs, fs1, d, next, n1)
    requires Children(fs1, d) == Children(fs, d) + [next]
    requires Mirrors(fs1, next, d, es[0]) && DisplayName(es[0]) !in ChildNames(fs, d)
    requires ChildNames(fs2, d) == ChildNames(fs1, d) + DisplayNames(es[1..])
    requires Distinct(ChildNames(fs1, d)) ==> Distinct(ChildNames(fs2, d))
    ensures ChildNames(fs2, d) == ChildNames(fs, d) + DisplayNames(es)
    ensures Distinct(ChildNames(fs, d)) ==> Distinct(ChildNames(fs2, d))
  {
    PrefixNames(fs, fs1, d, next, DisplayName(es[0]));
    NamesGlue(ChildNames(fs, d), ChildNames(fs1, d), ChildNames(fs2, d), es);
  }

  lemma NamesGlue(n0: seq<string>, n1: seq<string>, n2: seq<string>, es: seq<Entry>)
    requires |es| > 0 && n1 == n0 + [DisplayName(es[0])] && DisplayName(es[0]) !in n0
    requires n2 == n1 + DisplayNames(es[1..]) && (Distinct(n1) ==> Distinct(n2))
    ensures n2 == n0 + DisplayNames(es)
    ensures Distinct(n0) ==> Distinct(n2)
  {
    NamesConcat(n0, n2, es);
    if Distinct(n0) {
      DistinctSnoc(n0, DisplayName(es[0]));
    }
  }

  lemma NamesConcat(n0: seq<string>, n2: seq<string>, es: seq<Entry>)
    requires |es| > 0 && n2 == n0 + [DisplayName(es[0])] + DisplayNames(es[1..])
    ensures n2 == n0 + DisplayNames(es)
  {
    DisplayNamesCons(es);
    ConsAssoc(n0, DisplayName(es[0]), DisplayNames(es[1..]));
  }

  lemma DisplayNamesCons(es: seq<Entry>)
    requires |es| > 0
    ensures DisplayNames(es) == [DisplayName(es[0])] + DisplayNames(es[1..])
  {
  }

  lemma ConsAssoc<T>(a: seq<T>, x: T, b: seq<T>)
    ensures a + [x] + b == a + ([x] + b)
  {
  }

  /** Growth composes. */
  lemma GrownTrans(fs: Fs, fs1: Fs, fs2: Fs, d: Id, n0: nat, n1: nat, n2: nat)
    requires GrownBy(fs, fs1, d, n0, n1) && GrownBy(fs1, fs2, d, n1, n2)
    ensures GrownBy(fs, fs2, d, n0, n2)
  {
  }

  /** Appending the fresh unit `next` to `d` appends its name to `d`'s child names. */
  lemma PrefixNames(fs: Fs, fs1: Fs, d: Id, next: nat, n: string)
    requires Fresh(fs, next) && IsDir(fs, d)
    requires forall y :: y in fs.nodes ==> y in fs1.nodes && fs1.nodes[y].name == fs.nodes[y].name
    requires forall y :: y in fs1.nodes && y !in fs.nodes ==> next <= y
    requires Children(fs1, d) == Children(fs, d) + [next]
    requires next in fs1.nodes && fs1.nodes[next].name == n
    ensures ChildNames(fs1, d) == ChildNames(fs, d) + [n]
  {
    forall c | c in Children(fs, d) ensures NameOf(fs1, c) == NameOf(fs, c) {
      assert c < next;
    }
    var l := ChildNames(fs1, d);
    var m := |Children(fs, d)|;
    assert forall i :: 0 <= i < m ==> Children(fs1, d)[i] == Children(fs, d)[i];
    assert l[m] == n;
  }

  /** Appending a new value to a repetition-free sequence keeps it repetition-free. */
  lemma DistinctSnoc<T>(s: seq<T>, x: T)
    requires Distinct(s) && x !in s
    ensures Distinct(s + [x])
  {
  }

  /** The root as `RootDir` creates it: the empty name, no parent, no children. */
  const EmptyRoot: Fs := Fs(map[0 := Node("", None, DirBody([]))], 0)

  /** `parse_root`: the tree described by the root's entries. */
  function ParseRoot(es: seq<Entry>): (r: Result<(Fs, nat)>)
    ensures r.Ok? ==> r.value.0.root in r.value.0.nodes
    ensures r.Ok? ==> r.value.0.nodes[r.value.0.root].name == "" && r.value.0.nodes[r.value.0.root].parent == None
    ensures r.Ok? ==> Fresh(r.value.0, r.value.1)
    ensures r.Ok? ==> |Children(r.value.0, r.value.0.root)| == |es|
    ensures r.Ok? ==> MirrorsAll(r.value.0, Children(r.value.0, r.value.0.root), r.value.0.root, es)
    ensures r.Ok? ==> ChildNames(r.value.0, r.value.0.root) == DisplayNames(es)
    ensures r.Ok? ==> Distinct(DisplayNames(es))
    ensures r.Ok? ==> NamesDistinct(es)
    ensures r.Ok? ==> Wf(r.value.0)
  {
    EmptyRootFacts();
    match BuildList(EmptyRoot, 0, es, 1)
    case Err(err) => Err(err)
    case Ok(built) =>
      assert ChildNames(EmptyRoot, 0) + DisplayNames(es) == DisplayNames(es);
      assert Children(built.0, 0)[0..] == Children(built.0, 0);
      MirroredNamesDistinct(built.0, 0, es);
      Ok(built)
  }

  /** No list of entries, at any depth, repeats a display name. */
  predicate NamesDistinct(es: seq<Entry>)
    decreases es
  {
    && Distinct(DisplayNames(es))
    && forall k :: 0 <= k < |es| ==> (es[k].contents.Listing? ==> NamesDistinct(es[k].contents.entries))
  }

  /** The entries a directory of a tree with distinct sibling names mirrors have distinct
      display names at every depth. */
  lemma {:induction false} MirroredNamesDistinct(fs: Fs, d: Id, es: seq<Entry>)
    requires SiblingsDistinct(fs) && d in fs.nodes && fs.nodes[d].body.DirBody?
    requires MirrorsAll(fs, Children(fs, d), d, es)
    ensures NamesDistinct(es)
    decreases es
  {
    assert ChildNames(fs, d) == DisplayNames(es);
    forall k | 0 <= k < |es| && es[k].contents.Listing? ensures NamesDistinct(es[k].contents.entries) {
      MirroredNamesDistinct(fs, Children(fs, d)[k], es[k].contents.entries);
    }
  }

  lemma EmptyRootFacts()
    ensures Fresh(EmptyRoot, 1) && IsDir(EmptyRoot, 0) && Wf(EmptyRoot)
    ensures Children(EmptyRoot, 0) == [] && ChildNames(EmptyRoot, 0) == []
  {
    assert IsChain(EmptyRoot, [0]);
    ChainIsAncestry(EmptyRoot, [0]);
  }

  /** A File entry named "." passes the name rule as given and is stored under the empty
      name. */
  lemma DotFileParses()
    ensures ParseRoot([Entry(".", Leaf(SText("x")))]).Ok?
    ensures var fs := ParseRoot([Entry(".", Leaf(SText("x")))]).value.0;
            |Children(fs, fs.root)| == 1 && NameOf(fs, Children(fs, fs.root)[0]) == ""
  {
    EmptyRootFacts();
    NormalizeDropsTrailingDot(".");
    assert Normalize(".") == "";
    assert CleanChars(".");
    assert CheckName(".", []) == None;
    assert DisplayNames([Entry(".", Leaf(SText("x")))]) == [""];
  }

  /** A description in which two entries of the root would carry the same name cannot be
      built. */
  lemma DuplicateNamesFail(es: seq<Entry>, i: nat, j: nat)
    requires i < j < |es| && DisplayName(es[i]) == DisplayName(es[j])
    ensures ParseRoot(es).Err?
  { }

  /** A description in which two entries of one list, at any depth, would carry the same
      name cannot be built. */
  lemma NestedDuplicatesFail(es: seq<Entry>)
    requires !NamesDistinct(es)
    ensures ParseRoot(es).Err?
  { }

  /** A Directory "d" holding two Files "a" and "a." (both named "a" once stored). */
  const NestedTwins: seq<Entry> :=
    [Entry("d", Listing([Entry("a", Leaf(SText("x"))), Entry("a.", Leaf(SText("y")))]))]

  /** The nested twins are rejected although the root's own entries are distinct. */
  lemma NestedTwinsFail()
    ensures Distinct(DisplayNames(NestedTwins))
    ensures ParseRoot(NestedTwins).Err?
  {
    var inner := NestedTwins[0].contents.entries;
    NormalizeDropsTrailingDot("a.");
    assert DisplayNames(inner)[0] == DisplayNames(inner)[1];
    NestedDuplicatesFail(NestedTwins);
  }

  /** A unit that its parent does not list is listed by no directory of a well-formed tree. */
  lemma DetachedByParent(fs: Fs, u: Id, d: Id)
    requires Wf(fs) && u in fs.nodes && fs.nodes[u].parent == Some(d) && u !in Children(fs, d)
    ensures Unlisted(fs, u)
  {
    forall e: Id | IsDir(fs, e) ensures u !in Children(fs, e) {
    }
  }

  /** The leaf case of `BuildEntry` keeps the tree well formed. */
  lemma LeafWf(fs: Fs, fs1: Fs, d: Id, e: Entry, next: nat)
    requires Fresh(fs, next) && IsDir(fs, d) && e.contents.Leaf?
    requires NewUnit(fs, next, false, e.name, ToValue(e.contents.value), Some(d)) == Ok(fs1)
    requires Add(fs1, d, next).Ok?
    ensures Wf(fs) ==> Wf(Add(fs1, d, next).value)
  {
    if Wf(fs) {
      NewUnitKeepsWf(fs, next, false, e.name, ToValue(e.contents.value), d);
      AttachWf(fs, fs1, d, next);
    }
  }

  /** The list case of `BuildEntry` keeps the tree well formed, given that filling the new
      Directory did. */
  lemma ListingWf(fs: Fs, fs1: Fs, fs2: Fs, d: Id, e: Entry, next: nat, n2: nat)
    requires Fresh(fs, next) && IsDir(fs, d) && e.contents.Listing?
    requires NewUnit(fs, next, true, e.name, VList([]), Some(d)) == Ok(fs1)
    requires GrownBy(fs1, fs2, next, next + 1, n2) && (Wf(fs1) ==> Wf(fs2))
    requires Add(fs2, d, next).Ok?
    ensures Wf(fs) ==> Wf(Add(fs2, d, next).value)
  {
    if Wf(fs) {
      NewUnitKeepsWf(fs, next, true, e.name, VList([]), d);
      KeptBelow(fs, fs1, fs2, d, next, n2);
      AttachWf(fs, fs2, d, next);
    }
  }

  /** Units older than `next` survive the filling of the new Directory `next` unchanged. */
  lemma KeptBelow(fs: Fs, fs1: Fs, fs2: Fs, d: Id, next: nat, n2: nat)
    requires fs1.nodes.Keys == fs.nodes.Keys + {next} && next !in fs.nodes
    requires forall y :: y in fs.nodes ==> fs1.nodes[y] == fs.nodes[y]
    requires fs1.nodes[next].parent == Some(d)
    requires GrownBy(fs1, fs2, next, next + 1, n2)
    ensures fs2.root == fs1.root
    ensures forall y :: y in fs.nodes ==> y in fs2.nodes && fs2.nodes[y] == fs.nodes[y]
    ensures next in fs2.nodes && fs2.nodes[next].parent == Some(d)
  {
  }

  /** The final `add` of a freshly built unit `next` to `d` keeps the tree well formed. */
  lemma AttachWf(fs: Fs, fs': Fs, d: Id, next: nat)
    requires Acyclic(fs) && Fresh(fs, next) && IsDir(fs, d) && Wf(fs') && fs'.root == fs.root
    requires forall y :: y in fs.nodes ==> y in fs'.nodes && fs'.nodes[y] == fs.nodes[y]
    requires next in fs'.nodes && fs'.nodes[next].parent == Some(d)
    requires Add(fs', d, next).Ok?
    ensures Wf(Add(fs', d, next).value)
  {
    SameAncestry(fs, fs', d);
    assert Children(fs', d) == Children(fs, d);
    assert next !in Children(fs, d) by {
      assert forall c :: c in Children(fs, d) ==> c < next;
    }
    DetachedByParent(fs', next, d);
    AddKeepsWf(fs', d, next);
  }
}
