/** Identifiers and the decoded AVP tree the indexer consumes.
    An AVP (Attribute-Value Pair, RFC 6733 section 4) carries a vendor id,
    an attribute code, a name, a decoded value and, when grouped, an ordered
    list of child AVPs. A nil pointer in the tree is the `Nil` constructor. */
module AvpTypes {

  datatype Option<+T> = None | Some(value: T)

  type uint32 = x: int | 0 <= x < 0x1_0000_0000
  type uint64 = x: int | 0 <= x < 0x1_0000_0000_0000_0000

  const TwoTo64: nat := 0x1_0000_0000_0000_0000

  /** The (vendor, attribute) pair that names an AVP type, wherever it sits. */
  datatype AvpId = AvpId(vendorId: uint32, attrId: uint32)

  /** A decoded AVP. `value` is what the decoder hands out for it (its
      GetDecoder() result), kept opaque; `decoded` is its decoded text. */
  datatype Avp<V> =
    | Nil
    | Avp(vendorCode: uint32, attributeCode: uint32, attributeName: string,
          decodedValue: string, value: V, grouped: seq<Avp<V>>)
  {
    /** The identifier the index files this AVP under. */
    function Id(): AvpId
      requires Avp?
    {
      AvpId(vendorCode, attributeCode)
    }
  }

  /** No nil pointer anywhere in the tree rooted at `avp`. */
  predicate NonNil<V>(avp: Avp<V>)
  {
    avp.Avp? && forall i :: 0 <= i < |avp.grouped| ==> NonNil(avp.grouped[i])
  }

  predicate NonNilAll<V>(avps: seq<Avp<V>>)
  {
    forall i :: 0 <= i < |avps| ==> NonNil(avps[i])
  }

  /** Number of AVPs (grouped ones included) in the tree rooted at `avp`. */
  function Size<V>(avp: Avp<V>): nat
  {
    if avp.Nil? then 0 else 1 + SizeAll(avp.grouped)
  }

  function SizeAll<V>(avps: seq<Avp<V>>): nat
  {
    if avps == [] then 0 else Size(avps[0]) + SizeAll(avps[1..])
  }
}
