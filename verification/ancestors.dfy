/** Facts about ancestry in the arena: an ancestry is a parent-linked run of ids from the
    root, it never repeats an id, and re-linking one unit under a directory that is not
    below it keeps every ancestry finite. */
module Ancestors {
  import opened Common
  import opened Arena

  /** `c` runs from the root down parent links: each later id names the one before as parent. */
  ghost predicate IsChain(fs: Fs, c: seq<Id>)
  {
    && |c| >= 1 && c[0] == fs.root
    && (forall i :: 0 <= i < |c| ==> c[i] in fs.nodes)
    && (forall i :: 1 <= i < |c| ==> c[i] != fs.root && fs.nodes[c[i]].parent == Some(c[i - 1]))
  }

  /** What `Chain` computes is such a run, ending at the unit asked about. */
  lemma {:induction false} ChainIsChain(fs: Fs, n: Id, fuel: nat)
    requires Chain(fs, n, fuel).Some?
    ensures IsChain(fs, Chain(fs, n, fuel).value)
    ensures Chain(fs, n, fuel).value[|Chain(fs, n, fuel).value| - 1] == n
    ensures |Chain(fs, n, fuel).value| <= fuel + 1
    decreases fuel
  {
    if n != fs.root {
      var p := fs.nodes[n].parent.value;
      ChainIsChain(fs, p, fuel - 1);
    }
  }

  /** Conversely, `Chain` finds every run that fits in its fuel. */
  lemma {:induction false} ChainFindsChain(fs: Fs, c: seq<Id>, fuel: nat)
    requires IsChain(fs, c) && |c| <= fuel + 1
    ensures Chain(fs, c[|c| - 1], fuel) == Some(c)
    decreases |c|
  {
    if |c| > 1 {
      var c0 := c[..|c| - 1];
      assert IsChain(fs, c0);
      ChainFindsChain(fs, c0, fuel - 1);
      var n := c[|c| - 1];
      assert n != fs.root && fs.nodes[n].parent == Some(c0[|c0| - 1]);
      assert c0 + [n] == c;
    } else {
      assert c == [fs.root];
    }
  }

  lemma {:induction false} ChainNoRepeat(fs: Fs, c: seq<Id>, i: nat, j: nat)
    requires IsChain(fs, c) && i < j < |c|
    ensures c[i] != c[j]
    decreases i
  {
    if i > 0 && c[i] == c[j] {
      assert c[i - 1] == c[j - 1];
      ChainNoRepeat(fs, c, i - 1, j - 1);
    }
  }

  /** A run of parent links from the root never visits an id twice. */
  lemma ChainDistinct(fs: Fs, c: seq<Id>)
    requires IsChain(fs, c)
    ensures Distinct(c)
  {
    forall i, j | 0 <= i < j < |c| ensures c[i] != c[j] {
      ChainNoRepeat(fs, c, i, j);
    }
  }

  /** A repetition-free sequence drawn from a set is no longer than the set. */
  lemma {:induction false} DistinctBound(c: seq<Id>, s: set<Id>)
    requires Distinct(c)
    requires forall i :: 0 <= i < |c| ==> c[i] in s
    ensures |c| <= |s|
    decreases |c|
  {
    if |c| > 0 {
      assert forall i :: 1 <= i < |c| ==> c[i] != c[0];
      DistinctBound(c[1..], s - {c[0]});
    }
  }

  /** Any run of parent links from the root is the ancestry of its last unit. */
  lemma ChainIsAncestry(fs: Fs, c: seq<Id>)
    requires IsChain(fs, c)
    ensures Ancestry(fs, c[|c| - 1]) == Some(c)
  {
    ChainDistinct(fs, c);
    DistinctBound(c, fs.nodes.Keys);
    ChainFindsChain(fs, c, |fs.nodes|);
  }

  /** The ancestry of a non-root unit is its parent's ancestry followed by itself. */
  lemma AncestryStep(fs: Fs, n: Id)
    requires Ancestry(fs, n).Some? && n != fs.root
    ensures fs.nodes[n].parent.Some?
    ensures Ancestry(fs, fs.nodes[n].parent.value).Some?
    ensures Ancestry(fs, n).value == Ancestry(fs, fs.nodes[n].parent.value).value + [n]
  {
    var c := Ancestry(fs, n).value;
    ChainIsChain(fs, n, |fs.nodes|);
    var c0 := c[..|c| - 1];
    assert IsChain(fs, c0);
    ChainIsAncestry(fs, c0);
    assert c0 + [n] == c;
  }

  /** Partner of `IsSubSu`: a unit lies strictly below `a` exactly when its parent is `a`
      or lies strictly below `a`. */
  lemma SubSuStep(fs: Fs, a: Id, n: Id)
    requires Ancestry(fs, n).Some? && n != fs.root
    ensures fs.nodes[n].parent.Some?
    ensures IsSubSu(fs, a, n) <==>
              (a == fs.nodes[n].parent.value || IsSubSu(fs, a, fs.nodes[n].parent.value))
  {
    AncestryStep(fs, n);
    var p := fs.nodes[n].parent.value;
    var cp := Ancestry(fs, p).value;
    ChainIsChain(fs, p, |fs.nodes|);
    assert Ancestry(fs, n).value[..|cp|] == cp;
    assert cp == cp[..|cp| - 1] + [p];
  }

  /** The root lies above every other unit of an acyclic arena. */
  lemma RootAboveAll(fs: Fs, n: Id)
    requires Ancestry(fs, n).Some? && n != fs.root
    ensures IsSubSu(fs, fs.root, n)
  {
    ChainIsChain(fs, n, |fs.nodes|);
    var c := Ancestry(fs, n).value;
    assert c[..|c| - 1][0] == fs.root;
  }

  /** Nothing lies strictly below itself. */
  lemma NotBelowItself(fs: Fs, n: Id)
    ensures !IsSubSu(fs, n, n)
  {
    if Ancestry(fs, n).Some? {
      var c := Ancestry(fs, n).value;
      ChainIsChain(fs, n, |fs.nodes|);
      ChainDistinct(fs, c);
    }
  }

  /** Giving unit `x` (possibly a new one) the parent `d` keeps every ancestry finite,
      provided `d` is neither `x` nor below it and no other parent link changes. */
  lemma Relink(fs: Fs, fs': Fs, x: Id, d: Id)
    requires Acyclic(fs)
    requires fs'.root == fs.root && x != fs.root
    requires fs'.nodes.Keys == fs.nodes.Keys + {x}
    requires d in fs.nodes && d != x && !IsSubSu(fs, x, d)
    requires fs'.nodes[x].parent == Some(d)
    requires forall y :: y in fs.nodes && y != x ==> fs'.nodes[y].parent == fs.nodes[y].parent
    ensures Acyclic(fs')
  {
    var cd := Ancestry(fs, d).value;
    ChainIsChain(fs, d, |fs.nodes|);
    assert x !in cd by {
      assert cd == cd[..|cd| - 1] + [d];
    }
    var top := cd + [x];
    assert IsChain(fs', top);
    forall n | n in fs'.nodes ensures Ancestry(fs', n).Some? {
      if n == x {
        ChainIsAncestry(fs', top);
      } else {
        RelinkOther(fs, fs', x, top, n);
      }
    }
  }

  /** A unit other than the re-linked `x` keeps its ancestry, or has it re-rooted at `x`'s
      new ancestry `top` when `x` lay above it. */
  lemma RelinkOther(fs: Fs, fs': Fs, x: Id, top: seq<Id>, n: Id)
    requires Acyclic(fs) && fs'.root == fs.root
    requires n in fs.nodes && n != x
    requires IsChain(fs', top) && top[|top| - 1] == x
    requires forall y :: y in fs.nodes && y != x ==> y in fs'.nodes && fs'.nodes[y].parent == fs.nodes[y].parent
    ensures Ancestry(fs', n).Some?
  {
    var c := Ancestry(fs, n).value;
    ChainIsChain(fs, n, |fs.nodes|);
    var g := if x in c then GraftAt(fs, fs', x, top, c) else c;
    if x !in c {
      KeptChain(fs, fs', x, c);
    }
    ChainIsAncestry(fs', g);
  }

  /** The chain `c` re-rooted at `top` from the position of `x` on. */
  ghost function GraftAt(fs: Fs, fs': Fs, x: Id, top: seq<Id>, c: seq<Id>): (g: seq<Id>)
    requires fs'.root == fs.root && IsChain(fs', top) && top[|top| - 1] == x
    requires IsChain(fs, c) && x in c
    requires forall y :: y in fs.nodes && y != x ==> y in fs'.nodes && fs'.nodes[y].parent == fs.nodes[y].parent
    ensures IsChain(fs', g) && g[|g| - 1] == c[|c| - 1]
  {
    var k :| 0 <= k < |c| && c[k] == x;
    ChainDistinct(fs, c);
    Graft(fs, fs', x, top, c, k);
    top + c[k + 1..]
  }

  /** A chain that does not pass through `x` is untouched by re-linking `x`. */
  lemma KeptChain(fs: Fs, fs': Fs, x: Id, c: seq<Id>)
    requires fs'.root == fs.root && IsChain(fs, c) && x !in c
    requires forall y :: y in fs.nodes && y != x ==> y in fs'.nodes && fs'.nodes[y].parent == fs.nodes[y].parent
    ensures IsChain(fs', c)
  {
  }

  /** Hanging the part of a chain below `x` under a new chain ending in `x` gives a chain. */
  lemma Graft(fs: Fs, fs': Fs, x: Id, top: seq<Id>, c: seq<Id>, k: nat)
    requires fs'.root == fs.root && IsChain(fs', top) && top[|top| - 1] == x
    requires IsChain(fs, c) && Distinct(c) && k < |c| && c[k] == x
    requires forall y :: y in fs.nodes && y != x ==> y in fs'.nodes && fs'.nodes[y].parent == fs.nodes[y].parent
    ensures IsChain(fs', top + c[k + 1..])
    ensures (top + c[k + 1..])[|top + c[k + 1..]| - 1] == c[|c| - 1]
  {
    var g := top + c[k + 1..];
    forall i | |top| <= i < |g|
      ensures g[i] in fs'.nodes && g[i] != fs'.root && fs'.nodes[g[i]].parent == Some(g[i - 1])
    {
      var j := k + 1 + i - |top|;
      assert g[i] == c[j] && c[j] != x;
      if i > |top| {
        assert g[i - 1] == c[j - 1];
      } else {
        assert g[i - 1] == x;
      }
    }
  }

  /** Extending the arena without touching any existing parent link keeps every existing
      unit's ancestry. */
  lemma SameAncestry(fs: Fs, fs': Fs, n: Id)
    requires Acyclic(fs) && n in fs.nodes && fs'.root == fs.root
    requires forall y :: y in fs.nodes ==> y in fs'.nodes && fs'.nodes[y].parent == fs.nodes[y].parent
    ensures Ancestry(fs', n) == Ancestry(fs, n)
    ensures forall i :: 0 <= i < |Ancestry(fs, n).value| ==> Ancestry(fs, n).value[i] in fs.nodes
  {
    ChainIsChain(fs, n, |fs.nodes|);
    assert IsChain(fs', Ancestry(fs, n).value);
    ChainIsAncestry(fs', Ancestry(fs, n).value);
  }

  /** An arena whose parent links are those of an acyclic arena is acyclic. */
  lemma SameParentsAcyclic(fs: Fs, fs': Fs)
    requires Acyclic(fs) && fs'.root == fs.root && fs'.nodes.Keys == fs.nodes.Keys
    requires forall y :: y in fs.nodes ==> fs'.nodes[y].parent == fs.nodes[y].parent
    ensures Acyclic(fs')
  {
    forall n | n in fs'.nodes ensures Ancestry(fs', n).Some? {
      SameAncestry(fs, fs', n);
    }
  }
}
