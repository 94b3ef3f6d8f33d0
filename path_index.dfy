/** The index the builder produces: for each identifier, the ordered list of
    leaf entries (occurrence path + AVP) filed under it. This module gives the
    specification of that list as functions of the AVP tree; the class in
    module Indexer builds it in place. */
module PathIndex {
  import opened AvpTypes
  import opened Paths

  /** `pathElementLeafNode`: where one AVP occurs, and the AVP itself. */
  datatype Leaf<V> = Leaf(path: Path, avp: Avp<V>)

  type Index<V> = map<AvpId, seq<Leaf<V>>>

  /** The entries filed under `id`; a missing key reads as the empty list. */
  function Bucket<V>(index: Index<V>, id: AvpId): seq<Leaf<V>>
  {
    if id in index then index[id] else []
  }

  /** The entries `buildPathElementsIndex(parent, avp)` appends, in order:
      those of the children (each under this AVP's path element), then this
      AVP's own entry. */
  function Walk<V>(parent: Option<Path>, avp: Avp<V>): seq<Leaf<V>>
    requires NonNil(avp)
    decreases avp
  {
    var pe := Path(avp.Id(), parent);
    WalkAll(Some(pe), avp.grouped) + [Leaf(pe, avp)]
  }

  /** The entries appended for a list of sibling AVPs, in document order. */
  function WalkAll<V>(parent: Option<Path>, avps: seq<Avp<V>>): seq<Leaf<V>>
    requires NonNilAll(avps)
    decreases avps
  {
    if avps == [] then [] else Walk(parent, avps[0]) + WalkAll(parent, avps[1..])
  }

  /** A reference enumeration of the same occurrences: each AVP listed once,
      before its children (plain pre-order). */
  function Preorder<V>(parent: Option<Path>, avp: Avp<V>): seq<Leaf<V>>
    requires NonNil(avp)
    decreases avp
  {
    var pe := Path(avp.Id(), parent);
    [Leaf(pe, avp)] + PreorderAll(Some(pe), avp.grouped)
  }

  function PreorderAll<V>(parent: Option<Path>, avps: seq<Avp<V>>): seq<Leaf<V>>
    requires NonNilAll(avps)
    decreases avps
  {
    if avps == [] then [] else Preorder(parent, avps[0]) + PreorderAll(parent, avps[1..])
  }

  /** `ai.index[aid] = append(ai.index[aid], p)`. */
  function Append<V>(index: Index<V>, leaf: Leaf<V>): Index<V>
  {
    index[leaf.path.id := Bucket(index, leaf.path.id) + [leaf]]
  }

  /** Appending a list of entries one after the other. */
  function AddAll<V>(index: Index<V>, leaves: seq<Leaf<V>>): Index<V>
    decreases |leaves|
  {
    if leaves == [] then index else AddAll(Append(index, leaves[0]), leaves[1..])
  }

  /** The index `NewAvpIndexer` builds for the message's root AVPs. */
  function IndexOf<V>(roots: seq<Avp<V>>): Index<V>
    requires NonNilAll(roots)
  {
    AddAll(map[], WalkAll(None, roots))
  }

  /** The entries of `leaves` filed under `id`, in their order. */
  function Select<V>(leaves: seq<Leaf<V>>, id: AvpId): seq<Leaf<V>>
  {
    if leaves == [] then []
    else (if leaves[0].path.id == id then [leaves[0]] else []) + Select(leaves[1..], id)
  }

  /** `x` lies strictly below the chain `p`: following parents from `x`
      reaches `p`. */
  predicate Below(x: Path, p: Option<Path>)
    decreases x
  {
    x.parent == p || (x.parent.Some? && Below(x.parent.value, p))
  }

  /** An entry as the builder makes it below `p`: filed under its AVP's own
      identifier, for a nil-free AVP, with a path that hangs below `p`. */
  predicate Placed<V>(e: Leaf<V>, p: Option<Path>)
  {
    NonNil(e.avp) && e.path.id == e.avp.Id() && Below(e.path, p)
  }

  lemma {:induction false} SelectConcat<V>(a: seq<Leaf<V>>, b: seq<Leaf<V>>, id: AvpId)
    ensures Select(a + b, id) == Select(a, id) + Select(b, id)
    decreases |a|
  {
    if a != [] {
      assert (a + b)[0] == a[0];
      assert (a + b)[1..] == a[1..] + b;
      SelectConcat(a[1..], b, id);
    } else {
      assert a + b == b;
    }
  }

  /** Appending entries to an index extends each bucket by exactly the new
      entries filed under its identifier, in order; no other bucket changes. */
  lemma {:induction false} BucketOfAddAll<V>(m: Index<V>, leaves: seq<Leaf<V>>, id: AvpId)
    ensures Bucket(AddAll(m, leaves), id) == Bucket(m, id) + Select(leaves, id)
    decreases |leaves|
  {
    if leaves != [] {
      BucketOfAddAll(Append(m, leaves[0]), leaves[1..], id);
    }
  }

  lemma {:induction false} AddAllConcat<V>(m: Index<V>, a: seq<Leaf<V>>, b: seq<Leaf<V>>)
    ensures AddAll(m, a + b) == AddAll(AddAll(m, a), b)
    decreases |a|
  {
    if a != [] {
      assert (a + b)[0] == a[0];
      assert (a + b)[1..] == a[1..] + b;
      AddAllConcat(Append(m, a[0]), a[1..], b);
    } else {
      assert a + b == b;
    }
  }

  /** Siblings keep their document order: the walk of a list is the walk of
      its first part followed by the walk of the rest. */
  lemma {:induction false} WalkAllConcat<V>(p: Option<Path>, a: seq<Avp<V>>, b: seq<Avp<V>>)
    requires NonNilAll(a) && NonNilAll(b)
    ensures NonNilAll(a + b)
    ensures WalkAll(p, a + b) == WalkAll(p, a) + WalkAll(p, b)
    decreases |a|
  {
    assert NonNilAll(a + b) by {
      forall i | 0 <= i < |a + b| ensures NonNil((a + b)[i]) {
        if i < |a| { assert (a + b)[i] == a[i]; } else { assert (a + b)[i] == b[i - |a|]; }
      }
    }
    if a != [] {
      assert (a + b)[0] == a[0];
      assert (a + b)[1..] == a[1..] + b;
      WalkAllConcat(p, a[1..], b);
    } else {
      assert a + b == b;
    }
  }

  /** Each bucket of the built index holds exactly the walk's entries for
      that identifier, in walk order. */
  lemma {:induction false} IndexBuckets<V>(roots: seq<Avp<V>>, id: AvpId)
    requires NonNilAll(roots)
    ensures Bucket(IndexOf(roots), id) == Select(WalkAll(None, roots), id)
  {
    BucketOfAddAll(map[], WalkAll(None, roots), id);
  }

  /** Every entry the walk produces is filed under the AVP's own identifier,
      refers to a nil-free AVP, and its path hangs below `p`. */
  lemma {:induction false} WalkEntries<V>(p: Option<Path>, avp: Avp<V>)
    requires NonNil(avp)
    ensures forall k :: 0 <= k < |Walk(p, avp)| ==> Placed(Walk(p, avp)[k], p)
    decreases avp, 1
  {
    var pe := Path(avp.Id(), p);
    WalkAllEntries(Some(pe), avp.grouped);
    var w := WalkAll(Some(pe), avp.grouped);
    forall k | 0 <= k < |w| ensures Below(w[k].path, p) {
      BelowTrans(w[k].path, pe, p);
    }
  }

  lemma {:induction false} WalkAllEntries<V>(p: Option<Path>, avps: seq<Avp<V>>)
    requires NonNilAll(avps)
    ensures forall k :: 0 <= k < |WalkAll(p, avps)| ==> Placed(WalkAll(p, avps)[k], p)
    decreases avps, 0
  {
    if avps != [] {
      WalkEntries(p, avps[0]);
      WalkAllEntries(p, avps[1..]);
      var a, b := Walk(p, avps[0]), WalkAll(p, avps[1..]);
      assert WalkAll(p, avps) == a + b;
      forall k | 0 <= k < |a + b| ensures Placed((a + b)[k], p) {
        if k < |a| { assert (a + b)[k] == a[k]; } else { assert (a + b)[k] == b[k - |a|]; }
      }
    }
  }

  lemma {:induction false} BelowTrans(x: Path, g: Path, p: Option<Path>)
    requires Below(x, Some(g)) && g.parent == p
    ensures Below(x, p)
    decreases x
  {
    if x.parent != Some(g) {
      BelowTrans(x.parent.value, g, p);
    }
  }

  /** Post-order: the group's own entry comes last, every entry before it
      belongs to an AVP nested inside the group, and an AVP without children
      contributes its own entry alone. */
  lemma {:induction false} WalkIsPostOrder<V>(p: Option<Path>, avp: Avp<V>)
    requires NonNil(avp)
    ensures var w := Walk(p, avp); var pe := Path(avp.Id(), p);
      && w[|w| - 1] == Leaf(pe, avp)
      && (forall k :: 0 <= k < |w| - 1 ==> Below(w[k].path, Some(pe)))
      && (avp.grouped == [] ==> w == [Leaf(pe, avp)])
  {
    var pe := Path(avp.Id(), p);
    WalkAllEntries(Some(pe), avp.grouped);
    assert Walk(p, avp)[..|Walk(p, avp)| - 1] == WalkAll(Some(pe), avp.grouped);
  }

  /** The walk lists every occurrence of the tree exactly as often as the
      pre-order enumeration does (once each), and there are as many entries as
      AVPs in the tree. */
  lemma {:induction false} WalkPermutesPreorder<V>(p: Option<Path>, avp: Avp<V>)
    requires NonNil(avp)
    ensures multiset(Walk(p, avp)) == multiset(Preorder(p, avp))
    ensures |Walk(p, avp)| == Size(avp)
    decreases avp, 1
  {
    var pe := Path(avp.Id(), p);
    WalkAllPermutesPreorderAll(Some(pe), avp.grouped);
  }

  lemma {:induction false} WalkAllPermutesPreorderAll<V>(p: Option<Path>, avps: seq<Avp<V>>)
    requires NonNilAll(avps)
    ensures multiset(WalkAll(p, avps)) == multiset(PreorderAll(p, avps))
    ensures |WalkAll(p, avps)| == SizeAll(avps)
    decreases avps, 0
  {
    if avps != [] {
      WalkPermutesPreorder(p, avps[0]);
      WalkAllPermutesPreorderAll(p, avps[1..]);
    }
  }

  /** Every root AVP is indexed with a one-element path. */
  lemma {:induction false} RootsIndexed<V>(roots: seq<Avp<V>>, i: nat)
    requires NonNilAll(roots) && i < |roots|
    ensures Leaf(Path(roots[i].Id(), None), roots[i]) in WalkAll(None, roots)
  {
    assert roots == roots[..i] + [roots[i]] + roots[i + 1..];
    assert NonNilAll(roots[..i]) && NonNilAll([roots[i]]) && NonNilAll(roots[i + 1..]);
    WalkAllConcat(None, roots[..i] + [roots[i]], roots[i + 1..]);
    WalkAllConcat(None, roots[..i], [roots[i]]);
    assert WalkAll(None, [roots[i]]) == Walk(None, roots[i]);
    WalkIsPostOrder(None, roots[i]);
  }

  /** Every child of an indexed AVP is indexed too, with its parent's path
      as the parent of its own: by induction from the roots, every AVP at any
      depth is indexed under the chain of its enclosing groups. */
  lemma {:induction false} ChildrenIndexed<V>(p: Option<Path>, avps: seq<Avp<V>>, e: Leaf<V>, i: nat)
    requires NonNilAll(avps) && e in WalkAll(p, avps)
    requires NonNil(e.avp) && i < |e.avp.grouped|
    ensures NonNil(e.avp.grouped[i])
    ensures Leaf(Path(e.avp.grouped[i].Id(), Some(e.path)), e.avp.grouped[i]) in WalkAll(p, avps)
    decreases avps, 0
  {
    var a, b := Walk(p, avps[0]), WalkAll(p, avps[1..]);
    assert WalkAll(p, avps) == a + b;
    if e in a {
      ChildIndexed(p, avps[0], e, i);
    } else {
      ChildrenIndexed(p, avps[1..], e, i);
    }
  }

  lemma {:induction false} ChildIndexed<V>(p: Option<Path>, avp: Avp<V>, e: Leaf<V>, i: nat)
    requires NonNil(avp) && e in Walk(p, avp)
    requires NonNil(e.avp) && i < |e.avp.grouped|
    ensures NonNil(e.avp.grouped[i])
    ensures Leaf(Path(e.avp.grouped[i].Id(), Some(e.path)), e.avp.grouped[i]) in Walk(p, avp)
    decreases avp, 1
  {
    var pe := Path(avp.Id(), p);
    var w := WalkAll(Some(pe), avp.grouped);
    assert Walk(p, avp) == w + [Leaf(pe, avp)];
    if e in w {
      ChildrenIndexed(Some(pe), avp.grouped, e, i);
    } else {
      assert e == Leaf(pe, avp);
      var g := avp.grouped;
      assert NonNil(g[i]);
      RootsIndexedUnder(Some(pe), g, i);
    }
  }

  /** Each member of a sibling list is indexed directly under the list's
      parent chain. */
  lemma {:induction false} RootsIndexedUnder<V>(p: Option<Path>, avps: seq<Avp<V>>, i: nat)
    requires NonNilAll(avps) && i < |avps|
    ensures Leaf(Path(avps[i].Id(), p), avps[i]) in WalkAll(p, avps)
  {
    assert avps == avps[..i] + [avps[i]] + avps[i + 1..];
    assert NonNilAll(avps[..i]) && NonNilAll([avps[i]]) && NonNilAll(avps[i + 1..]);
    WalkAllConcat(p, avps[..i] + [avps[i]], avps[i + 1..]);
    WalkAllConcat(p, avps[..i], [avps[i]]);
    assert WalkAll(p, [avps[i]]) == Walk(p, avps[i]);
    WalkIsPostOrder(p, avps[i]);
  }
}
