# Diameter AVP path indexer — a Dafny model

This project models the path-indexing and path-matching engine of `avputils.go`.
The engine works on the decoded AVPs of a Diameter message. An AVP
(Attribute-Value Pair, RFC 6733 section 4) carries a vendor id, an attribute
code, a name, a decoded value and, when grouped, an ordered list of child AVPs.

- **Index builder.** `NewAvpIndexer` and `buildPathElementsIndex` walk the AVP
  tree depth first. They file one leaf entry per AVP under the AVP's own
  `(vendorId, attrId)`. An entry holds the AVP and its occurrence path: its own
  id, then the ids of its enclosing groups up to the root. Children are filed
  before their group's own entry. The model keeps this as a class
  (`Indexer.AvpIndexer`) whose `index` map field is updated in place. It is
  proved equal to a specification function of the tree (`PathIndex.IndexOf`).
- **Matcher.** `pathElement.matches` is an asymmetric predicate. A stored path
  matches a query exactly when the query's id chain is a prefix of the stored
  chain.
- **Query construction.** `FromGroup` on the indexer or on a scoped view adds
  one required enclosing group, which becomes the innermost one. The scoped
  view is a value (`Indexer.Scoped`).
- **Retrieval.** There is first-match lookup with a caller default, visit-all
  with a count, and a wrapping 64-bit sum.
- **Helpers.** These are the diagnostic keys `skey`/`skey2`, the free leaf
  visitors `VisitAvp`/`VisitAvps`, and `AddAvpDataToMap`.

Modelling choices:

- The decoded value of an AVP (its `GetDecoder()` result) is an opaque type
  parameter `V`.
- A nil `*AVP` is the constructor `Avp.Nil`.
- A callback `f` is modelled by returning the sequence of AVPs it would be
  called with, in call order.
- `AccumulateUint64` takes `get: V -> uint64`. This stands for the source's
  type assertion followed by `Get()`.

Files:

| file | module | contents |
|---|---|---|
| avp_types.dfy | AvpTypes | `uint32`/`uint64`, `AvpId`, the AVP tree, `Option`, tree size |
| paths.dfy | Paths | path elements, `Matches`, its prefix characterisation and order properties |
| keys.dfy | Keys | `skey`/`skey2` and a parser proving they lose nothing |
| path_index.dfy | PathIndex | leaf entries, the builder's walk as functions, bucket lemmas |
| indexer.dfy | Indexer | the `AvpIndexer` class, the `Scoped` view, the retrieval methods |
| queries.dfy | Queries | what lookups, visits and sums answer over a message's index |
| avp_visit.dfy | AvpVisit | free `VisitAvp`/`VisitAvps` and `AddAvpDataToMap` |

Two orderings matter:

- **Bucket order is post-order.** A group's own entry is appended after all of
  its children's entries (avputils.go:75-85). `PathIndex.Preorder` is the
  reference enumeration that the walk is proved to be a permutation of.
- **Last write wins in `AddAvpDataToMap`.** Every leaf whose name is already a
  key overwrites that key, so the last such leaf in visiting order wins
  (avputils.go:313-314, 322-323).

## Model

| member | source | states |
|---|---|---|
| Paths.MatchesIffPrefix | avputils.go:303-311 | A stored path matches a non-nil query exactly when the query's id chain (own id, then required parents) is a prefix of the stored chain. A nil query always matches, by definition of `Matches`. |
| Paths.MatchesReflexive | avputils.go:306-311 | Every path matches itself used as a query. |
| Paths.MatchesAntisymmetric | avputils.go:303-311 | Matching holds in both directions only between equal paths. |
| Paths.MatchesTransitive | avputils.go:306-311 | A stored path that meets a query also meets every query that the first query itself meets. |
| Paths.MatchesNotSymmetric | avputils.go:303-304 | If a query's chain is a proper prefix of a stored chain, the stored path matches the query but not the other way round. |
| Paths.MatchesNotSymmetricExample | avputils.go:303-311 | Stored `[id, A, B]` matches query `[id, A]`; stored `[id, A]` does not match query `[id, A, B]`. |
| Paths.IdsInjective | avputils.go:29-33 | A path element is determined by its chain of ids, so equal chains mean equal paths. |
| Keys.DecimalRoundTrip | avputils.go:96 | The decimal rendering of a number parses back to that number. |
| Keys.KeyRoundTrip | avputils.go:89-104 | `skey` renders `v/a`, with `*` for the all-ones sentinel in either field. It parses back to the same id, so distinct ids get distinct keys. It never contains `.`. |
| Keys.PathRoundTrip | avputils.go:106-112 | `skey2` is the element's key, then `.` and the parent's `skey2`. It parses back to the same path, so the rendering is the chain of keys, innermost first. |
| PathIndex.BucketOfAddAll | avputils.go:85 | Appending entries extends each bucket by exactly the new entries with its id, in order. No other bucket changes. |
| PathIndex.WalkAllConcat | avputils.go:57-59 | Sibling AVPs are walked in document order: the walk of `a + b` is the walk of `a`, then the walk of `b`. |
| PathIndex.IndexBuckets | avputils.go:47-61 | The bucket of every id in the built index is exactly the walk's entries with that id, in walk order. |
| PathIndex.WalkEntries | avputils.go:63-85 | Every entry from walking an AVP below a chain `p` is filed under its own AVP's id. Its AVP is nil-free, and its path hangs below `p`. |
| PathIndex.WalkIsPostOrder | avputils.go:75-85 | The group's own entry comes last, and every earlier entry lies strictly inside the group. An AVP with no children contributes its own entry alone. |
| PathIndex.WalkPermutesPreorder | avputils.go:63-85 | The walk is a permutation of the pre-order enumeration, which lists each AVP once. The number of entries equals the number of AVPs in the tree. |
| PathIndex.RootsIndexed | avputils.go:57-59 | Every root AVP is indexed with a path whose parent is nil. |
| PathIndex.ChildrenIndexed | avputils.go:70-79 | For every indexed AVP, each child is indexed with the AVP's path as its parent. By induction from the roots, every AVP at any depth is indexed under its chain of enclosing groups. |
| Indexer.AvpIndexer.constructor | avputils.go:47-61 | `NewAvpIndexer` leaves an index equal to `IndexOf(roots)`: all roots walked in order from an empty map. Every bucket holds only its own id's entries. |
| Indexer.AvpIndexer.BuildPathElementsIndex | avputils.go:63-87 | Appends the children's entries, each under this AVP's path element, and then this AVP's own entry. The new map is the old map with exactly `Walk(parent, avp)` appended. |
| Indexer.FirstMatch | avputils.go:228-235 | Returns the position of the earliest bucket entry that matches the query (no earlier entry matches), or none when no entry matches. |
| Indexer.AvpIndexer.GetDecoderIntfcp | avputils.go:228-235 | Returns the decoded value of the first matching entry in the bucket of `path.id`, or the caller's default when nothing matches. |
| Indexer.AvpIndexer.GetDecoderIntfc | avputils.go:216-226 | Performs the same first-match lookup for a query built from `(vendorId, attrId)` and the given parent chain. |
| Indexer.AvpIndexer.Get | avputils.go:114-117 | A typed getter on the indexer: first match of the id anywhere in the message, or the default. |
| Indexer.Scoped.Get | avputils.go:119-122 | A typed getter on a view: first match of the id below the view's chain, or the default. |
| Indexer.AvpIndexer.VisitIntfcp | avputils.go:254-263 | The callback receives exactly the matching entries' AVPs, once each, in bucket order. The count returned is the number of calls. |
| Indexer.AvpIndexer.VisitAvpp | avputils.go:247-253 | Visit-all for the query built from `(vendorId, attrId)` and the parent chain. |
| Indexer.AvpIndexer.VisitAvp | avputils.go:237-240 | Visit-all on the indexer, with no required group. |
| Indexer.Scoped.VisitAvp | avputils.go:242-245 | Visit-all on a view, below the view's chain. |
| Indexer.SumUint64 | avputils.go:267-271 | Adding the visited values into a `uint64` from 0 yields their exact sum modulo 2^64. |
| Indexer.AvpIndexer.AccumulateUint64 | avputils.go:265-272 | Returns the exact sum of the values of every occurrence of the id, modulo 2^64. With no match it returns 0. |
| Indexer.Scoped.AccumulateUint64 | avputils.go:274-281 | Returns the same wrapped sum over the occurrences below the view's chain. |
| Indexer.AvpIndexer.FromGroup | avputils.go:285-291 | The view shares the indexer, and its chain is the single group `(vendorId, attrId)` with a nil parent. |
| Indexer.Scoped.FromGroup | avputils.go:293-301 | The new view's chain is `(vendorId, attrId)` followed by the old chain, so the latest call is the innermost required group. The receiver is a value and is unchanged. |
| Queries.FromGroupComposes | avputils.go:286-301 | Two `FromGroup` calls, `outer` then `inner`, give a view over the same indexer whose chain is exactly `[inner, outer]` with a nil parent above. Every getter, visit and sum on that view therefore answers the hand-built query `[id, inner, outer]`. |
| Queries.FirstMatchHeadsVisit | avputils.go:228-263 | Nothing matches exactly when visit-all calls back zero times. Otherwise the first AVP visited is the one that first-match returns. |
| Queries.FirstMatchByPrefix | avputils.go:228-235 | First match is the earliest entry whose id chain starts with the query's chain. |
| Queries.ScopedQueryMeaning | avputils.go:285-311 | A query for `id` below a chain matches a stored path exactly when the ids agree and the stored path's enclosing groups, innermost first, begin with the chain. Ancestors above the chain do not matter. |
| Queries.RootQueryMatchesWholeBucket | avputils.go:216-226 | A query with no required group matches every entry of its bucket. Visit-all sees the whole bucket, and first-match takes its first entry. |
| Queries.RootQueryFindsEveryOccurrence | avputils.go:47-85 | Over a message's index, the root-scoped visit of an id sees every AVP carrying that id at any depth, in index order. The root-scoped lookup returns the first of them, or the default. |
| Queries.TotalOrderIndependent | avputils.go:265-272 | The exact sum of two runs of visited values does not depend on which run is visited first. |
| Queries.TotalPermutation | avputils.go:265-281 | The exact sum does not depend on the order of the visited values: any two runs holding the same AVPs with the same multiplicities have the same total, and so the same wrapped `uint64` result. |
| Queries.ScopingByTypeNotInstance | avputils.go:285-291 | In a message with two root instances of G = (0, 100) holding A = (0, 10) with values 5 and 7, the root lookup of A gives 5 and the sum below G gives 12. |
| AvpVisit.VisitAvp | avputils.go:365-376 | The free visitor is called only with non-nil AVPs without children. A non-nil childless AVP is visited alone. |
| AvpVisit.VisitAvps | avputils.go:378-383 | Visiting every root calls the visitor only with non-nil childless AVPs. |
| AvpVisit.VisitAvpReaches | avputils.go:365-376 | For any tree, nil AVPs included, the visitor is called with `x` exactly when `x` is a non-nil childless AVP reached by descending only through non-nil AVPs that have children. |
| AvpVisit.VisitAvpsReaches | avputils.go:378-383 | For any list of roots, nil AVPs included, the visitor is called with `x` exactly when `x` is such a leaf below one of the roots. |
| AvpVisit.GroupOfNilsVisitsNothing | avputils.go:366-372 | A non-nil group whose children are all nil takes the grouped branch, so the visitor is never called for it or below it. |
| AvpVisit.VisitAllMatchesIndexWalk | avputils.go:365-383 | For a nil-free tree, the free visitor sees exactly the childless AVPs of the index walk, in the same order. |
| AvpVisit.WriteLeavesLastWins | avputils.go:313-326 | The writes never add or remove a key. Each key ends with the decoded value of the last leaf of that name, or keeps its old value when no leaf has the name. |
| AvpVisit.AddAvpDataToMap | avputils.go:313-326 | The result has the same keys as `data`. Each key holds the last value written by a leaf in visiting order. Nil AVPs are skipped, and grouped AVPs are descended into and never written themselves. |

## Left out

- Typed getters for `float32`, `float64`, `time.Time` and `net.IP` (avputils.go:164-192, 204-212). They are floating point and library types. Like the integer and string getters, they are the first-match rule plus a cast. All typed getters appear as one generic `Get` per receiver over the opaque value `V`.
- The unchecked type assertions and `Get()` calls on decoded values (avputils.go:116-211, 269, 278). They belong to the decoder library, which is not part of this model. `AccumulateUint64` takes them as the parameter `get`.
- Indexer.AvpIndexer.GetDecoderIntfc: the `dif != nil` test (avputils.go:222) is not modelled. In the model a decoded value is never nil, so that branch cannot be taken.
- Indexer.AvpIndexer.constructor: requires a tree without nil AVPs. The source dereferences every AVP it indexes and would panic on a nil one. The same holds for `BuildPathElementsIndex`.
- `JsonFromAvpFields` (avputils.go:329-337) is not modelled. It relies on JSON marshalling, and it discards errors.
- `PrintAvps` and `PrintAvp` (avputils.go:340-363) are not modelled. They only print to standard output.
- Wildcard matching is not modelled. The sentinel (avputils.go:89) affects only the `skey` rendering, and `matches` ignores it, as the source's TODO says.
- The exact `fmt.Sprintf` behaviour is not modelled. `%d` on a `uint32` is written out as a plain decimal rendering.
- Pointer sharing is not modelled. Path elements are immutable values in the model, so the source's sharing of ancestor chains between entries cannot be observed.
- The AVP structure is modelled as an acyclic tree of values. The source follows `Grouped` pointers, so a cyclic AVP graph would make it recurse forever (avputils.go:75-78, 320-321, 369-372). The model cannot represent such a graph, nor one `*AVP` shared between two positions.
- Callback side effects are modelled as traces. A callback passed to a visit is replaced by the returned sequence of AVPs it would receive.
- AvpVisit.AddAvpDataToMap: the source mutates the caller's map in place. The model returns the updated map instead.
- The Go diameter decoder (`layers.Diameter`, `layers.AVP`) is not part of this model. The model receives its output as the `Avp` tree.
