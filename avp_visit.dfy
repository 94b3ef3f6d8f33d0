/** The free helpers that walk the decoded tree without the index: the
    leaf visitor and the copy of leaf values into a name-keyed map. Nil AVPs
    are skipped and grouped AVPs are descended into, never visited or written
    themselves. */
module AvpVisit {
  import opened AvpTypes
  import opened Paths
  import opened PathIndex

  /** An AVP the walkers treat as a leaf: non-nil, with no children. */
  predicate IsLeaf<V>(avp: Avp<V>)
  {
    avp.Avp? && avp.grouped == []
  }

  /** The free `VisitAvp`: the AVPs the visitor is called with, in call
      order. */
  function VisitAvp<V>(avp: Avp<V>): (r: seq<Avp<V>>)
    ensures forall k :: 0 <= k < |r| ==> IsLeaf(r[k])
    ensures IsLeaf(avp) ==> r == [avp]
    decreases avp
  {
    if avp.Nil? then []
    else if |avp.grouped| > 0 then VisitAvps(avp.grouped)
    else [avp]
  }

  /** `VisitAvps`: the visitor applied to every root AVP in turn. */
  function VisitAvps<V>(avps: seq<Avp<V>>): (r: seq<Avp<V>>)
    ensures forall k :: 0 <= k < |r| ==> IsLeaf(r[k])
    decreases avps
  {
    if avps == [] then [] else VisitAvp(avps[0]) + VisitAvps(avps[1..])
  }

  lemma {:induction false} VisitAvpsConcat<V>(a: seq<Avp<V>>, b: seq<Avp<V>>)
    ensures VisitAvps(a + b) == VisitAvps(a) + VisitAvps(b)
    decreases |a|
  {
    if a == [] {
      assert a + b == b;
    } else {
      assert (a + b)[0] == a[0] && (a + b)[1..] == a[1..] + b;
      VisitAvpsConcat(a[1..], b);
    }
  }

  /** `x` is an `IsLeaf` AVP whose path from `avp` runs only through
      non-nil groups: the descent goes into the children of non-nil AVPs that
      have any, and ends at a non-nil AVP without children. A nil AVP reaches
      nothing, and neither does a group whose children are all nil. This is
      reachability stated by the tree's shape; the partner of the visitor
      that is independent of it is the index walk
      (`VisitAllMatchesIndexWalk`). */
  predicate Reaches<V(==)>(avp: Avp<V>, x: Avp<V>)
    decreases avp
  {
    && avp.Avp?
    && if |avp.grouped| > 0 then ReachesAny(avp.grouped, x) else avp == x
  }

  predicate ReachesAny<V(==)>(avps: seq<Avp<V>>, x: Avp<V>)
    decreases avps
  {
    avps != [] && (Reaches(avps[0], x) || ReachesAny(avps[1..], x))
  }

  /** The free visitor is called with `x` exactly when `x` is a leaf
      reachable from `avp`, nil AVPs included anywhere in the tree. */
  lemma {:induction false} VisitAvpReaches<V>(avp: Avp<V>, x: Avp<V>)
    ensures x in VisitAvp(avp) <==> Reaches(avp, x)
    decreases avp, 1
  {
    if avp.Avp? && |avp.grouped| > 0 {
      VisitAvpsReaches(avp.grouped, x);
    }
  }

  /** `VisitAvps` calls the visitor with `x` exactly when `x` is a leaf
      reachable from one of the roots. */
  lemma {:induction false} VisitAvpsReaches<V>(avps: seq<Avp<V>>, x: Avp<V>)
    ensures x in VisitAvps(avps) <==> ReachesAny(avps, x)
    decreases avps, 0
  {
    if avps != [] {
      VisitAvpReaches(avps[0], x);
      VisitAvpsReaches(avps[1..], x);
    }
  }

  /** A group whose children are all nil is visited neither itself nor
      through its children. */
  lemma {:induction false} GroupOfNilsVisitsNothing<V>(avp: Avp<V>)
    requires avp.Avp? && |avp.grouped| > 0
    requires forall k :: 0 <= k < |avp.grouped| ==> avp.grouped[k].Nil?
    ensures VisitAvp(avp) == []
  {
    NilsVisitNothing(avp.grouped);
  }

  lemma {:induction false} NilsVisitNothing<V>(avps: seq<Avp<V>>)
    requires forall k :: 0 <= k < |avps| ==> avps[k].Nil?
    ensures VisitAvps(avps) == []
    decreases |avps|
  {
    if avps != [] {
      NilsVisitNothing(avps[1..]);
    }
  }

  /** The AVPs without children among the entries `ls`, in order. */
  function ChildlessAvps<V>(ls: seq<Leaf<V>>): seq<Avp<V>>
  {
    if ls == [] then []
    else (if IsLeaf(ls[0].avp) then [ls[0].avp] else []) + ChildlessAvps(ls[1..])
  }

  lemma {:induction false} ChildlessConcat<V>(a: seq<Leaf<V>>, b: seq<Leaf<V>>)
    ensures ChildlessAvps(a + b) == ChildlessAvps(a) + ChildlessAvps(b)
    decreases |a|
  {
    if a == [] {
      assert a + b == b;
    } else {
      assert (a + b)[0] == a[0] && (a + b)[1..] == a[1..] + b;
      ChildlessConcat(a[1..], b);
    }
  }

  /** The leaf visitor and the index builder see the same leaves in the same
      order: visiting a nil-free tree calls the visitor with exactly the
      childless AVPs of the index walk. */
  lemma {:induction false} VisitMatchesIndexWalk<V>(p: Option<Path>, avp: Avp<V>)
    requires NonNil(avp)
    ensures VisitAvp(avp) == ChildlessAvps(Walk(p, avp))
    decreases avp, 1
  {
    var pe := Path(avp.Id(), p);
    var w := WalkAll(Some(pe), avp.grouped);
    ChildlessConcat(w, [Leaf(pe, avp)]);
    assert [Leaf(pe, avp)][1..] == [];
    VisitAllMatchesIndexWalk(Some(pe), avp.grouped);
  }

  lemma {:induction false} VisitAllMatchesIndexWalk<V>(p: Option<Path>, avps: seq<Avp<V>>)
    requires NonNilAll(avps)
    ensures VisitAvps(avps) == ChildlessAvps(WalkAll(p, avps))
    decreases avps, 0
  {
    if avps != [] {
      VisitMatchesIndexWalk(p, avps[0]);
      VisitAllMatchesIndexWalk(p, avps[1..]);
      ChildlessConcat(Walk(p, avps[0]), WalkAll(p, avps[1..]));
    }
  }

  /** One leaf's write: `data[name] = decoded` when `name` is already a key. */
  function Write<V>(data: map<string, string>, avp: Avp<V>): map<string, string>
    requires IsLeaf(avp)
  {
    if avp.attributeName in data then data[avp.attributeName := avp.decodedValue] else data
  }

  /** The writes of a sequence of leaves, first to last. */
  function WriteLeaves<V>(data: map<string, string>, leaves: seq<Avp<V>>): map<string, string>
    requires forall k :: 0 <= k < |leaves| ==> IsLeaf(leaves[k])
    decreases |leaves|
  {
    if leaves == [] then data
    else assert IsLeaf(leaves[0]); WriteLeaves(Write(data, leaves[0]), leaves[1..])
  }

  /** The decoded value of the last leaf named `name`, or `dflt` if none is. */
  function LastValue<V>(leaves: seq<Avp<V>>, name: string, dflt: string): string
    requires forall k :: 0 <= k < |leaves| ==> IsLeaf(leaves[k])
  {
    if leaves == [] then dflt
    else
      var last := leaves[|leaves| - 1];
      assert IsLeaf(last);
      if last.attributeName == name then last.decodedValue
      else LastValue(leaves[..|leaves| - 1], name, dflt)
  }

  lemma {:induction false} WriteLeavesConcat<V>(data: map<string, string>, a: seq<Avp<V>>, b: seq<Avp<V>>)
    requires forall k :: 0 <= k < |a| ==> IsLeaf(a[k])
    requires forall k :: 0 <= k < |b| ==> IsLeaf(b[k])
    ensures forall k :: 0 <= k < |a + b| ==> IsLeaf((a + b)[k])
    ensures WriteLeaves(data, a + b) == WriteLeaves(WriteLeaves(data, a), b)
    decreases |a|
  {
    assert forall k :: 0 <= k < |a + b| ==> IsLeaf((a + b)[k]) by {
      forall k | 0 <= k < |a + b| ensures IsLeaf((a + b)[k]) {
        if k < |a| { assert (a + b)[k] == a[k]; } else { assert (a + b)[k] == b[k - |a|]; }
      }
    }
    if a == [] {
      assert a + b == b;
    } else {
      assert (a + b)[0] == a[0] && (a + b)[1..] == a[1..] + b;
      WriteLeavesConcat(Write(data, a[0]), a[1..], b);
    }
  }

  /** The map keeps exactly its keys, and each key ends up holding the value
      of the last leaf with that name, or its old value if no leaf has it. */
  lemma {:induction false} WriteLeavesLastWins<V>(data: map<string, string>, leaves: seq<Avp<V>>)
    requires forall k :: 0 <= k < |leaves| ==> IsLeaf(leaves[k])
    ensures WriteLeaves(data, leaves).Keys == data.Keys
    ensures forall name | name in data :: WriteLeaves(data, leaves)[name] == LastValue(leaves, name, data[name])
    decreases |leaves|
  {
    if leaves != [] {
      var n := |leaves|;
      var init, last := leaves[..n - 1], leaves[n - 1];
      assert leaves == init + [last];
      WriteLeavesConcat(data, init, [last]);
      WriteLeavesLastWins(data, init);
      var mid := WriteLeaves(data, init);
      assert WriteLeaves(mid, [last]) == WriteLeaves(Write(mid, last), [last][1..]);
    }
  }

  /** `AddAvpDataToMap`: copy the decoded value of every leaf, in visiting
      order, into `data` under its attribute name, but only where that name
      is already a key; later leaves overwrite earlier ones. The source
      updates the caller's map in place; here the updated map is returned. */
  method AddAvpDataToMap<V>(avps: seq<Avp<V>>, data: map<string, string>) returns (out: map<string, string>)
    ensures out == WriteLeaves(data, VisitAvps(avps))
    ensures out.Keys == data.Keys
    ensures forall name | name in data :: out[name] == LastValue(VisitAvps(avps), name, data[name])
    decreases avps
  {
    out := data;
    for i := 0 to |avps|
      invariant out == WriteLeaves(data, VisitAvps(avps[..i]))
    {
      var avp := avps[i];
      ghost var before := out;
      if avp.Nil? {
      } else if |avp.grouped| > 0 {
        assert avp in avps;
        out := AddAvpDataToMap(avp.grouped, out);
      } else if avp.attributeName in out {
        out := out[avp.attributeName := avp.decodedValue];
      }
      assert out == WriteLeaves(before, VisitAvp(avp)) by {
        if IsLeaf(avp) {
          assert WriteLeaves(before, [avp]) == WriteLeaves(Write(before, avp), [avp][1..]);
        }
      }
      assert avps[..i + 1] == avps[..i] + [avp];
      VisitAvpsConcat(avps[..i], [avp]);
      assert VisitAvps([avp]) == VisitAvp(avp) + VisitAvps([]);
      assert VisitAvp(avp) + [] == VisitAvp(avp);
      WriteLeavesConcat(data, VisitAvps(avps[..i]), VisitAvp(avp));
    }
    assert avps[..|avps|] == avps;
    WriteLeavesLastWins(data, VisitAvps(avps));
  }
}
