/** Path elements and the asymmetric path matcher.
    A stored occurrence path names an AVP and every group enclosing it, up to
    the message root; a query path names an AVP and only the innermost
    enclosing groups the caller cares about. */
module Paths {
  import opened AvpTypes

  /** One element of an ancestor chain: an identifier and the element of the
      enclosing group, or None at the message root. */
  datatype Path = Path(id: AvpId, parent: Option<Path>)

  /** The identifiers along the chain, innermost first. */
  function Ids(p: Path): (ids: seq<AvpId>)
    ensures |ids| >= 1 && ids[0] == p.id
    ensures |ids| == 1 <==> p.parent.None?
    decreases p
  {
    [p.id] + if p.parent.None? then [] else Ids(p.parent.value)
  }

  /** `p.matches(q)`: does the stored path `p` satisfy the query `q`?
      A nil query matches anything; otherwise the identifiers must agree and,
      when the query names a parent, `p` must have one that matches it. */
  predicate Matches(p: Path, q: Option<Path>)
    decreases q
  {
    || q.None?
    || (&& p.id.vendorId == q.value.id.vendorId
        && p.id.attrId == q.value.id.attrId
        && (|| q.value.parent.None?
            || (p.parent.Some? && Matches(p.parent.value, q.value.parent))))
  }

  /** A non-nil query matches exactly the stored paths whose chain begins with
      the query's chain: the query anchors the innermost levels and ignores
      everything above them. */
  lemma {:induction false} MatchesIffPrefix(p: Path, q: Path)
    ensures Matches(p, Some(q)) <==> Ids(q) <= Ids(p)
    decreases q
  {
    match q.parent
    case None =>
      assert Ids(q) == [q.id];
    case Some(qp) =>
      if p.parent.Some? {
        var pp := p.parent.value;
        MatchesIffPrefix(pp, qp);
        assert Ids(p) == [p.id] + Ids(pp);
        assert Ids(q) == [q.id] + Ids(qp);
        if Ids(q) <= Ids(p) {
          assert Ids(qp) == Ids(q)[1..] <= Ids(p)[1..] == Ids(pp);
        }
        if q.id == p.id && Ids(qp) <= Ids(pp) {
          assert Ids(q) <= Ids(p);
        }
      } else {
        assert Ids(p) == [p.id];
        assert |Ids(q)| >= 2;
      }
  }

  /** The chain of identifiers determines the path. */
  lemma {:induction false} IdsInjective(p: Path, q: Path)
    requires Ids(p) == Ids(q)
    ensures p == q
    decreases p
  {
    assert p.id == q.id;
    if p.parent.Some? && q.parent.Some? {
      assert Ids(p.parent.value) == Ids(p)[1..] == Ids(q)[1..] == Ids(q.parent.value);
      IdsInjective(p.parent.value, q.parent.value);
    }
  }

  /** Every path matches itself used as a query. */
  lemma {:induction false} MatchesReflexive(p: Path)
    ensures Matches(p, Some(p))
  {
    MatchesIffPrefix(p, p);
  }

  /** Matching in both directions happens only between equal paths. */
  lemma {:induction false} MatchesAntisymmetric(p: Path, q: Path)
    requires Matches(p, Some(q)) && Matches(q, Some(p))
    ensures p == q
  {
    MatchesIffPrefix(p, q);
    MatchesIffPrefix(q, p);
    IdsInjective(p, q);
  }

  /** A stored path that satisfies a query satisfies every shorter query the
      first one satisfies. */
  lemma {:induction false} MatchesTransitive(p: Path, q: Path, r: Path)
    requires Matches(p, Some(q)) && Matches(q, Some(r))
    ensures Matches(p, Some(r))
  {
    MatchesIffPrefix(p, q);
    MatchesIffPrefix(q, r);
    MatchesIffPrefix(p, r);
  }

  /** The matcher is not symmetric: a longer stored path satisfies a query
      that is its own innermost part, but not the other way round. */
  lemma {:induction false} MatchesNotSymmetric(p: Path, q: Path)
    requires Ids(q) < Ids(p)
    ensures Matches(p, Some(q)) && !Matches(q, Some(p))
  {
    MatchesIffPrefix(p, q);
    MatchesIffPrefix(q, p);
  }

  /** The documented instance: stored [id, A, B] matches query [id, A];
      stored [id, A] does not match query [id, A, B]. */
  lemma {:induction false} MatchesNotSymmetricExample(id: AvpId, a: AvpId, b: AvpId)
    ensures Matches(Path(id, Some(Path(a, Some(Path(b, None))))), Some(Path(id, Some(Path(a, None)))))
    ensures !Matches(Path(id, Some(Path(a, None))), Some(Path(id, Some(Path(a, Some(Path(b, None)))))))
  {
    var p := Path(id, Some(Path(a, Some(Path(b, None)))));
    var q := Path(id, Some(Path(a, None)));
    assert Ids(Path(b, None)) == [b];
    assert Ids(Path(a, None)) == [a];
    assert Ids(Path(a, Some(Path(b, None)))) == [a, b];
    assert Ids(q) == [id, a];
    assert Ids(p) == [id, a, b];
    MatchesNotSymmetric(p, q);
  }
}
