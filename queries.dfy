/** What the retrieval API answers, stated over the index and over the
    message tree it was built from. */
module Queries {
  import opened AvpTypes
  import opened Paths
  import opened PathIndex
  import opened Indexer

  /** First-match and visit-all agree: nothing matches exactly when nothing
      is visited, and the first AVP visited is the one first-match returns. */
  lemma {:induction false} FirstMatchHeadsVisit<V>(b: seq<Leaf<V>>, q: Path)
    ensures FirstMatch(b, q).None? <==> MatchedAvps(b, q) == []
    ensures FirstMatch(b, q).Some? ==> MatchedAvps(b, q)[0] == b[FirstMatch(b, q).value].avp
    decreases |b|
  {
    if b != [] && !Matches(b[0].path, Some(q)) {
      FirstMatchHeadsVisit(b[1..], q);
    }
  }

  /** The entries a query selects are those whose chain begins with the
      query's chain; first match is the earliest of them. */
  lemma {:induction false} FirstMatchByPrefix<V>(b: seq<Leaf<V>>, q: Path)
    ensures FirstMatch(b, q).Some? ==> Ids(q) <= Ids(b[FirstMatch(b, q).value].path)
    ensures FirstMatch(b, q).Some? ==> forall j :: 0 <= j < FirstMatch(b, q).value ==> !(Ids(q) <= Ids(b[j].path))
    ensures FirstMatch(b, q).None? ==> forall j :: 0 <= j < |b| ==> !(Ids(q) <= Ids(b[j].path))
  {
    forall j | 0 <= j < |b| ensures Matches(b[j].path, Some(q)) <==> Ids(q) <= Ids(b[j].path) {
      MatchesIffPrefix(b[j].path, q);
    }
  }

  /** A query with no required group (the root-scoped one) matches every
      entry of its identifier's bucket: visit-all sees the whole bucket and
      first-match takes its first entry. */
  lemma {:induction false} RootQueryMatchesWholeBucket<V>(b: seq<Leaf<V>>, id: AvpId)
    requires Filed(b, id)
    ensures MatchedAvps(b, Path(id, None)) == AvpsOf(b)
    ensures FirstMatch(b, Path(id, None)) == if b == [] then None else Some(0)
    decreases |b|
  {
    if b != [] {
      assert Filed(b[1..], id);
      RootQueryMatchesWholeBucket(b[1..], id);
    }
  }

  /** A query below a chain of groups matches the stored paths with the same
      identifier whose enclosing groups, innermost first, begin with the
      chain; what lies above the chain does not matter. */
  lemma {:induction false} ScopedQueryMeaning(p: Path, id: AvpId, chain: Path)
    ensures Matches(p, Some(Path(id, Some(chain))))
        <==> p.id == id && p.parent.Some? && Ids(chain) <= Ids(p.parent.value)
  {
    MatchesIffPrefix(p, Path(id, Some(chain)));
    assert Ids(Path(id, Some(chain))) == [id] + Ids(chain);
    if p.parent.Some? {
      assert Ids(p) == [p.id] + Ids(p.parent.value);
      MatchesIffPrefix(p.parent.value, chain);
    }
  }

  lemma {:induction false} SelectFiled<V>(leaves: seq<Leaf<V>>, p: Option<Path>, id: AvpId)
    requires forall k :: 0 <= k < |leaves| ==> Placed(leaves[k], p)
    ensures Filed(Select(leaves, id), id)
    decreases |leaves|
  {
    if leaves != [] {
      SelectFiled(leaves[1..], p, id);
    }
  }

  /** Over the index of a message, the root-scoped visit of an identifier
      sees every AVP of the message carrying that identifier, at any depth,
      in index order, and the root-scoped lookup returns the first of them
      (or the default when there is none). */
  lemma {:induction false} RootQueryFindsEveryOccurrence<V>(roots: seq<Avp<V>>, id: AvpId, dflt: V)
    requires NonNilAll(roots)
    ensures var occ := Select(WalkAll(None, roots), id);
      && Filed(occ, id)
      && Bucket(IndexOf(roots), id) == occ
      && MatchedAvps(Bucket(IndexOf(roots), id), Path(id, None)) == AvpsOf(occ)
      && Lookup(IndexOf(roots), Path(id, None), dflt) == if occ == [] then dflt else occ[0].avp.value
  {
    var occ := Select(WalkAll(None, roots), id);
    WalkAllEntries(None, roots);
    SelectFiled(WalkAll(None, roots), None, id);
    IndexBuckets(roots, id);
    RootQueryMatchesWholeBucket(occ, id);
  }

  lemma {:induction false} TotalConcat<V>(a: seq<Avp<V>>, b: seq<Avp<V>>, get: V -> uint64)
    requires Records(a) && Records(b)
    ensures Records(a + b) && Total(a + b, get) == Total(a, get) + Total(b, get)
    decreases |b|
  {
    assert Records(a + b) by {
      forall k | 0 <= k < |a + b| ensures (a + b)[k].Avp? {
        if k < |a| { assert (a + b)[k] == a[k]; } else { assert (a + b)[k] == b[k - |a|]; }
      }
    }
    if b == [] {
      assert a + b == a;
    } else {
      var b' := b[..|b| - 1];
      assert (a + b)[..|a + b| - 1] == a + b';
      assert Records(b');
      TotalConcat(a, b', get);
    }
  }

  /** The accumulated sum does not depend on the order in which two runs of
      matches are visited. */
  lemma {:induction false} TotalOrderIndependent<V>(a: seq<Avp<V>>, b: seq<Avp<V>>, get: V -> uint64)
    requires Records(a) && Records(b)
    ensures Records(a + b) && Records(b + a)
    ensures Total(a + b, get) == Total(b + a, get)
  {
    TotalConcat(a, b, get);
    TotalConcat(b, a, get);
  }

  /** Moving one value out of the middle of a run changes the exact sum by
      that value alone. */
  lemma {:induction false} TotalExtract<V>(p: seq<Avp<V>>, x: Avp<V>, q: seq<Avp<V>>, get: V -> uint64)
    requires Records(p) && x.Avp? && Records(q)
    ensures Records(p + q) && Records(p + [x] + q)
    ensures Total(p + [x] + q, get) == Total(p + q, get) + get(x.value)
  {
    assert Records([x]);
    TotalConcat(p, [x], get);
    assert (p + [x])[..|p + [x]| - 1] == p;
    TotalConcat(p + [x], q, get);
    TotalConcat(p, q, get);
  }

  /** Removing one copy of `x` from two equal multisets leaves equal
      multisets. */
  lemma MultisetRemove<T>(a: seq<T>, x: T, p: seq<T>, q: seq<T>)
    requires multiset(a + [x]) == multiset(p + [x] + q)
    ensures multiset(p + q) == multiset(a)
  {
    calc {
      multiset(p + q);
      multiset(p) + multiset(q);
      multiset(p + [x] + q) - multiset{x};
      multiset(a + [x]) - multiset{x};
      multiset(a);
    }
  }

  /** The exact sum of the visited values is independent of their order:
      any two runs holding the same AVPs with the same multiplicities have
      the same total. */
  lemma {:induction false} TotalPermutation<V>(a: seq<Avp<V>>, b: seq<Avp<V>>, get: V -> uint64)
    requires Records(a) && Records(b) && multiset(a) == multiset(b)
    ensures Total(a, get) == Total(b, get)
    decreases |a|
  {
    if a == [] {
      assert |b| == |multiset(b)| == 0;
    } else {
      var a', x := a[..|a| - 1], a[|a| - 1];
      assert a == a' + [x];
      assert x in multiset(b);
      var j :| 0 <= j < |b| && b[j] == x;
      var p, q := b[..j], b[j + 1..];
      assert b == p + [x] + q;
      MultisetRemove(a', x, p, q);
      assert Records(p) && Records(q);
      TotalExtract(p, x, q, get);
      TotalPermutation(a', p + q, get);
    }
  }

  /** Scoping composes: two `FromGroup` calls give a view over the same
      indexer whose chain names the later group as the innermost required
      group and the earlier one above it, so every getter, visit and sum on
      that view (whose contracts are stated over `parent`) answers the
      hand-built query `[id, inner, outer]`. */
  lemma FromGroupComposes<V>(ai: AvpIndexer<V>, outer: AvpId, inner: AvpId)
    ensures var view := ai.FromGroup(outer.vendorId, outer.attrId).FromGroup(inner.vendorId, inner.attrId);
      view.indexer == ai && view.parent == Path(inner, Some(Path(outer, None)))
  {
    var view := ai.FromGroup(outer.vendorId, outer.attrId).FromGroup(inner.vendorId, inner.attrId);
    assert Ids(view.parent) == [inner, outer];
    assert Ids(Path(inner, Some(Path(outer, None)))) == [inner, outer];
    IdsInjective(view.parent, Path(inner, Some(Path(outer, None))));
  }

  /** The message of the worked example: two instances of group
      G = (0, 100) at the root, each holding one A = (0, 10), with values 5
      and 7. */
  function ExampleA(v: uint64): Avp<uint64>
  {
    Avp(0, 10, "A", "", v, [])
  }

  function ExampleG(v: uint64): Avp<uint64>
  {
    Avp(0, 100, "G", "", 0, [ExampleA(v)])
  }

  function ExampleRoots(): seq<Avp<uint64>>
  {
    [ExampleG(5), ExampleG(7)]
  }

  lemma ExampleGroupWalk(v: uint64)
    ensures NonNil(ExampleG(v))
    ensures Walk(None, ExampleG(v))
      == [Leaf(Path(AvpId(0, 10), Some(Path(AvpId(0, 100), None))), ExampleA(v)),
          Leaf(Path(AvpId(0, 100), None), ExampleG(v))]
  {
    assert NonNil(ExampleA(v));
    var pg := Path(AvpId(0, 100), None);
    assert WalkAll(Some(pg), [ExampleA(v)]) == Walk(Some(pg), ExampleA(v)) + WalkAll(Some(pg), [ExampleA(v)][1..]);
  }

  lemma ExampleOccurrences()
    ensures NonNilAll(ExampleRoots())
    ensures var pa := Path(AvpId(0, 10), Some(Path(AvpId(0, 100), None)));
      Select(WalkAll(None, ExampleRoots()), AvpId(0, 10)) == [Leaf(pa, ExampleA(5)), Leaf(pa, ExampleA(7))]
  {
    ExampleGroupWalk(5);
    ExampleGroupWalk(7);
    var roots := ExampleRoots();
    assert WalkAll(None, roots[1..]) == Walk(None, ExampleG(7)) + WalkAll(None, roots[1..][1..]);
    var w := WalkAll(None, roots);
    assert |w| == 4;
    assert Select(w[3..], AvpId(0, 10)) == [];
    assert Select(w[2..], AvpId(0, 10)) == [w[2]] + Select(w[3..], AvpId(0, 10));
    assert Select(w[1..], AvpId(0, 10)) == Select(w[2..], AvpId(0, 10));
  }

  /** In the worked example the root-scoped lookup of A finds 5 (document
      order), and scoping to G sums both instances to 12: a scope names a
      group type, not a group instance. */
  lemma ScopingByTypeNotInstance()
    ensures var roots, ida, idg := ExampleRoots(), AvpId(0, 10), AvpId(0, 100);
      && NonNilAll(roots)
      && Filed(Bucket(IndexOf(roots), ida), ida)
      && Lookup(IndexOf(roots), Path(ida, None), 0) == 5
      && Total(MatchedAvps(Bucket(IndexOf(roots), ida), Path(ida, Some(Path(idg, None)))), x => x) == 12
  {
    var roots, ida, idg := ExampleRoots(), AvpId(0, 10), AvpId(0, 100);
    var pa := Path(ida, Some(Path(idg, None)));
    ExampleOccurrences();
    var occ := [Leaf(pa, ExampleA(5)), Leaf(pa, ExampleA(7))];
    RootQueryFindsEveryOccurrence(roots, ida, 0);
    MatchesReflexive(pa);
    assert MatchedAvps(occ, pa) == [ExampleA(5), ExampleA(7)] by {
      assert occ[1..] == [Leaf(pa, ExampleA(7))];
      assert MatchedAvps(occ[1..], pa) == [ExampleA(7)] + MatchedAvps(occ[1..][1..], pa);
    }
    var get: uint64 -> uint64 := x => x;
    assert Total([ExampleA(5), ExampleA(7)], get) == 12 by {
      assert [ExampleA(5), ExampleA(7)][..1] == [ExampleA(5)];
      assert Total([ExampleA(5)], get) == 5;
    }
  }
}
