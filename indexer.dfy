/** The indexer object and its retrieval API.
    `AvpIndexer` owns the index map, which its builder fills in place;
    `Scoped` is the value-typed view `FromGroup` returns, which carries a
    query chain of required enclosing groups. A callback the source invokes
    once per match is modelled by returning the sequence of AVPs it would be
    called with, in call order. */
module Indexer {
  import opened AvpTypes
  import opened Paths
  import opened PathIndex

  /** Every entry of `b` is filed under `id` and refers to a non-nil AVP. */
  predicate Filed<V>(b: seq<Leaf<V>>, id: AvpId)
  {
    forall k :: 0 <= k < |b| ==> b[k].avp.Avp? && b[k].path.id == id
  }

  predicate Records<V>(avps: seq<Avp<V>>)
  {
    forall k :: 0 <= k < |avps| ==> avps[k].Avp?
  }

  /** The position of the first entry of `b` whose path satisfies the query. */
  function FirstMatch<V>(b: seq<Leaf<V>>, q: Path): (r: Option<nat>)
    ensures r.Some? ==> r.value < |b| && Matches(b[r.value].path, Some(q))
    ensures r.Some? ==> forall j :: 0 <= j < r.value ==> !Matches(b[j].path, Some(q))
    ensures r.None? ==> forall j :: 0 <= j < |b| ==> !Matches(b[j].path, Some(q))
  {
    if b == [] then None
    else if Matches(b[0].path, Some(q)) then Some(0)
    else match FirstMatch(b[1..], q)
      case None => None
      case Some(k) => Some(k + 1)
  }

  /** The value a first-match lookup yields: the decoded value of the
      earliest matching entry in the query identifier's bucket, or `dflt`. */
  function Lookup<V>(index: Index<V>, q: Path, dflt: V): V
    requires Filed(Bucket(index, q.id), q.id)
  {
    var b := Bucket(index, q.id);
    match FirstMatch(b, q)
    case None => dflt
    case Some(i) => b[i].avp.value
  }

  /** The AVPs of the entries of `b` that satisfy `q`, in bucket order. */
  function MatchedAvps<V>(b: seq<Leaf<V>>, q: Path): (r: seq<Avp<V>>)
    ensures |r| <= |b|
    ensures Filed(b, q.id) ==> Records(r)
  {
    if b == [] then []
    else (if Matches(b[0].path, Some(q)) then [b[0].avp] else []) + MatchedAvps(b[1..], q)
  }

  lemma {:induction false} MatchedAvpsConcat<V>(a: seq<Leaf<V>>, c: seq<Leaf<V>>, q: Path)
    ensures MatchedAvps(a + c, q) == MatchedAvps(a, q) + MatchedAvps(c, q)
    decreases |a|
  {
    if a == [] {
      assert a + c == c;
    } else {
      assert (a + c)[0] == a[0] && (a + c)[1..] == a[1..] + c;
      MatchedAvpsConcat(a[1..], c, q);
    }
  }

  /** One more entry scanned: the matches so far, then this entry's AVP if
      it matches. */
  lemma MatchedAvpsSnoc<V>(b: seq<Leaf<V>>, i: nat, q: Path)
    requires i < |b|
    ensures MatchedAvps(b[..i + 1], q)
      == MatchedAvps(b[..i], q) + (if Matches(b[i].path, Some(q)) then [b[i].avp] else [])
  {
    assert b[..i + 1] == b[..i] + [b[i]];
    MatchedAvpsConcat(b[..i], [b[i]], q);
    assert [b[i]][1..] == [];
  }

  /** The AVPs of all entries of `b`, in order. */
  function AvpsOf<V>(b: seq<Leaf<V>>): (r: seq<Avp<V>>)
    ensures |r| == |b| && forall k :: 0 <= k < |b| ==> r[k] == b[k].avp
  {
    if b == [] then [] else [b[0].avp] + AvpsOf(b[1..])
  }

  /** The exact (unbounded) sum of the unsigned 64-bit values of `avps`. */
  function Total<V>(avps: seq<Avp<V>>, get: V -> uint64): nat
    requires Records(avps)
  {
    if avps == [] then 0 else Total(avps[..|avps| - 1], get) + get(avps[|avps| - 1].value)
  }

  /** `sum += v` on a uint64 for each visited value, starting from 0:
      the exact total wrapped modulo 2^64. */
  method SumUint64<V>(avps: seq<Avp<V>>, get: V -> uint64) returns (sum: uint64)
    requires Records(avps)
    ensures sum == Total(avps, get) % TwoTo64
  {
    sum := 0;
    for i := 0 to |avps|
      invariant sum == Total(avps[..i], get) % TwoTo64
    {
      assert avps[..i + 1][..i] == avps[..i];
      WrapAdd(Total(avps[..i], get), get(avps[i].value));
      sum := (sum + get(avps[i].value)) % TwoTo64;
    }
    assert avps[..|avps|] == avps;
  }

  /** Adding to the wrapped running sum wraps the exact sum. */
  lemma WrapAdd(a: nat, x: nat)
    ensures (a % TwoTo64 + x) % TwoTo64 == (a + x) % TwoTo64
  {
    var m := TwoTo64;
    assert a == (a / m) * m + a % m;
    assert a + x == (a / m) * m + (a % m + x);
    ModMultiple(a / m, a % m + x);
  }

  lemma ModMultiple(k: nat, y: nat)
    ensures (k * TwoTo64 + y) % TwoTo64 == y % TwoTo64
  {
    var m := TwoTo64;
    var z := k * m + y;
    assert z == (k + y / m) * m + y % m;
  }

  class AvpIndexer<V> {
    var index: Index<V>

    /** Every bucket holds only entries filed under its own identifier. */
    ghost predicate Valid()
      reads this
    {
      forall id | id in index :: Filed(index[id], id)
    }

    /** `NewAvpIndexer`: index every AVP of the message, roots in order. */
    constructor (roots: seq<Avp<V>>)
      requires NonNilAll(roots)
      ensures Valid() && index == IndexOf(roots)
    {
      index := map[];
      new;
      for i := 0 to |roots|
        invariant Valid()
        invariant NonNilAll(roots[..i])
        invariant index == AddAll(map[], WalkAll(None, roots[..i]))
      {
        BuildPathElementsIndex(None, roots[i]);
        assert roots[..i + 1] == roots[..i] + [roots[i]];
        assert NonNilAll([roots[i]]);
        WalkAllConcat(None, roots[..i], [roots[i]]);
        assert WalkAll(None, [roots[i]]) == Walk(None, roots[i]);
        AddAllConcat(map[], WalkAll(None, roots[..i]), Walk(None, roots[i]));
      }
      assert roots[..|roots|] == roots;
    }

    /** `buildPathElementsIndex`: append the entries of the children (under
        this AVP's path element) and then this AVP's own entry. */
    method BuildPathElementsIndex(parent: Option<Path>, avp: Avp<V>)
      requires Valid() && NonNil(avp)
      modifies this
      ensures Valid() && index == AddAll(old(index), Walk(parent, avp))
      decreases avp
    {
      var aid := AvpId(avp.vendorCode, avp.attributeCode);
      var pe := Path(aid, parent);
      var children := avp.grouped;
      if |children| > 0 {
        for i := 0 to |children|
          invariant Valid()
          invariant NonNilAll(children[..i])
          invariant index == AddAll(old(index), WalkAll(Some(pe), children[..i]))
        {
          assert children[i] in avp.grouped;
          BuildPathElementsIndex(Some(pe), children[i]);
          assert children[..i + 1] == children[..i] + [children[i]];
          assert NonNilAll([children[i]]);
          WalkAllConcat(Some(pe), children[..i], [children[i]]);
          assert WalkAll(Some(pe), [children[i]]) == Walk(Some(pe), children[i]);
          AddAllConcat(old(index), WalkAll(Some(pe), children[..i]), Walk(Some(pe), children[i]));
        }
        assert children[..|children|] == children;
      }
      ghost var before := index;
      index := index[aid := Bucket(index, aid) + [Leaf(pe, avp)]];
      assert index == AddAll(before, [Leaf(pe, avp)]);
      AddAllConcat(old(index), WalkAll(Some(pe), children), [Leaf(pe, avp)]);
    }

    /** `getDecoderIntfcp`: the decoded value of the first entry in the
        bucket of `path.id` that matches `path`, or `dflt`. */
    method GetDecoderIntfcp(path: Path, dflt: V) returns (r: V)
      requires Valid()
      ensures r == Lookup(index, path, dflt)
    {
      var b := Bucket(index, path.id);
      for i := 0 to |b|
        invariant forall j :: 0 <= j < i ==> !Matches(b[j].path, Some(path))
      {
        if Matches(b[i].path, Some(path)) {
          return b[i].avp.value;
        }
      }
      return dflt;
    }

    /** `getDecoderIntfc`: first-match lookup of (vendorId, attrId) below
        the query chain `parent` (None: anywhere in the message). */
    method GetDecoderIntfc(parent: Option<Path>, vendorId: uint32, attrId: uint32, dflt: V) returns (r: V)
      requires Valid()
      ensures r == Lookup(index, Path(AvpId(vendorId, attrId), parent), dflt)
    {
      r := GetDecoderIntfcp(Path(AvpId(vendorId, attrId), parent), dflt);
    }

    /** The typed getters (`GetUint32`, `GetUint64`, ...) on the indexer:
        first match anywhere in the message, or the caller's zero value. */
    method Get(vendorId: uint32, attrId: uint32, dflt: V) returns (r: V)
      requires Valid()
      ensures r == Lookup(index, Path(AvpId(vendorId, attrId), None), dflt)
    {
      r := GetDecoderIntfc(None, vendorId, attrId, dflt);
    }

    /** `visitIntfcp`: call back once per matching entry of the bucket, in
        bucket order, and count the calls. */
    method VisitIntfcp(path: Path) returns (cc: nat, visited: seq<Avp<V>>)
      requires Valid()
      ensures visited == MatchedAvps(Bucket(index, path.id), path)
      ensures cc == |visited|
    {
      var b := Bucket(index, path.id);
      cc, visited := 0, [];
      for i := 0 to |b|
        invariant visited == MatchedAvps(b[..i], path)
        invariant cc == |visited|
      {
        MatchedAvpsSnoc(b, i, path);
        if Matches(b[i].path, Some(path)) {
          cc := cc + 1;
          visited := visited + [b[i].avp];
        }
      }
      assert b[..|b|] == b;
    }

    /** `visitAvpp`. */
    method VisitAvpp(parent: Option<Path>, vendorId: uint32, attrId: uint32) returns (cc: nat, visited: seq<Avp<V>>)
      requires Valid()
      ensures visited == MatchedAvps(Bucket(index, AvpId(vendorId, attrId)), Path(AvpId(vendorId, attrId), parent))
      ensures cc == |visited|
    {
      cc, visited := VisitIntfcp(Path(AvpId(vendorId, attrId), parent));
    }

    /** `VisitAvp` on the indexer: every occurrence of (vendorId, attrId)
        anywhere in the message. */
    method VisitAvp(vendorId: uint32, attrId: uint32) returns (cc: nat, visited: seq<Avp<V>>)
      requires Valid()
      ensures visited == MatchedAvps(Bucket(index, AvpId(vendorId, attrId)), Path(AvpId(vendorId, attrId), None))
      ensures cc == |visited|
    {
      cc, visited := VisitAvpp(None, vendorId, attrId);
    }

    /** `AccumulateUint64` on the indexer: the wrapped sum of the values
        of every occurrence of (vendorId, attrId). `get` reads an AVP's
        decoded value as an unsigned 64-bit integer. */
    method AccumulateUint64(vendorId: uint32, attrId: uint32, get: V -> uint64) returns (sum: uint64)
      requires Valid()
      ensures Filed(Bucket(index, AvpId(vendorId, attrId)), AvpId(vendorId, attrId))
      ensures sum == Total(MatchedAvps(Bucket(index, AvpId(vendorId, attrId)), Path(AvpId(vendorId, attrId), None)), get) % TwoTo64
    {
      var _, visited := VisitAvp(vendorId, attrId);
      sum := SumUint64(visited, get);
    }

    /** `FromGroup` on the indexer: a view whose query chain is the single
        required enclosing group (vendorId, attrId). */
    function FromGroup(vendorId: uint32, attrId: uint32): (r: Scoped<V>)
      ensures r.indexer == this && Ids(r.parent) == [AvpId(vendorId, attrId)]
    {
      Scoped(this, Path(AvpId(vendorId, attrId), None))
    }
  }

  /** `avpIndexerWithPath`: the indexer plus a query chain of required
      enclosing groups, innermost first. */
  datatype Scoped<V> = Scoped(indexer: AvpIndexer<V>, parent: Path)
  {
    /** `FromGroup` on a view: one more required group, which becomes the
        innermost one; the receiver itself is a value and stays as it was. */
    function FromGroup(vendorId: uint32, attrId: uint32): (r: Scoped<V>)
      ensures r.indexer == indexer && Ids(r.parent) == [AvpId(vendorId, attrId)] + Ids(parent)
    {
      this.(parent := Path(AvpId(vendorId, attrId), Some(parent)))
    }

    /** The typed getters on a view: first match below the view's chain. */
    method Get(vendorId: uint32, attrId: uint32, dflt: V) returns (r: V)
      requires indexer.Valid()
      ensures r == Lookup(indexer.index, Path(AvpId(vendorId, attrId), Some(parent)), dflt)
    {
      r := indexer.GetDecoderIntfc(Some(parent), vendorId, attrId, dflt);
    }

    /** `VisitAvp` on a view. */
    method VisitAvp(vendorId: uint32, attrId: uint32) returns (cc: nat, visited: seq<Avp<V>>)
      requires indexer.Valid()
      ensures visited == MatchedAvps(Bucket(indexer.index, AvpId(vendorId, attrId)), Path(AvpId(vendorId, attrId), Some(parent)))
      ensures cc == |visited|
    {
      cc, visited := indexer.VisitAvpp(Some(parent), vendorId, attrId);
    }

    /** `AccumulateUint64` on a view. */
    method AccumulateUint64(vendorId: uint32, attrId: uint32, get: V -> uint64) returns (sum: uint64)
      requires indexer.Valid()
      ensures Filed(Bucket(indexer.index, AvpId(vendorId, attrId)), AvpId(vendorId, attrId))
      ensures sum == Total(MatchedAvps(Bucket(indexer.index, AvpId(vendorId, attrId)), Path(AvpId(vendorId, attrId), Some(parent))), get) % TwoTo64
    {
      var _, visited := VisitAvp(vendorId, attrId);
      sum := SumUint64(visited, get);
    }
  }
}
