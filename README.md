# Mycelium provenance node — attribute set and construction

This project models the core of Mycelium's provenance node in Dafny. A
`Mycelium` node carries an ordered list of `Attribute`s and an ordered list
of child nodes, its `roots`. There are three attribute kinds:

- `OriginSpore`: the sporeprint of the Spore that created the node.
- `OriginMoment`: the creation time, in nanoseconds since the UNIX epoch, as a `u128`.
- `OriginSignature`: signature bytes.

The model covers these operations:

- the kind-only comparison `shallow_eq`;
- the accessors `get_attrs` and `get_roots`;
- the first-match lookup `get_attr`;
- the single-pass origin extraction `get_origin`;
- the upsert `set_attr`, which retains the other kinds and then pushes the new attribute;
- the constructor `Mycelium::new`.

Modules, one per source file:

- `Attributes` (attributes.dfy): the `Attribute` datatype and the pure
  specification functions. `ShallowEq` compares variants. `FirstOfKind` is the
  lookup. `OriginOf` is the front-to-back fold of `get_origin`. `RemoveKind`
  is `retain`, and `Upsert` is retain-then-push. `KindUnique` is the
  documented "no duplicates" invariant. The module also holds the lemmas about
  these functions.
- `Node` (mycelium.dfy): the class `Mycelium`, with fields `attributes` and
  `roots`. Its constructor and the static `New` model `Mycelium::new`. Its
  methods model the `impl Mycelium` blocks of both source files. `GetAttr`
  and `GetOrigin` are loops proved against `FirstOfKind` and `OriginOf`.
  `SetAttr` updates `attributes` in place.
- `Spores` (spore.dfy): `Sporeprint` as a 32-byte sequence. A `Spore` is
  reduced to a source of its sporeprint.
- `Errors` (errors.dfy): the error variants as plain datatypes.
- `Results` (results.dfy): `Option` and `Result`.

The system clock is a parameter. `ClockReading` is the outcome of
`duration_since(UNIX_EPOCH)`: either the nanoseconds elapsed (zero at the
epoch itself), or how far strictly before the epoch the clock reads.

`get_origin` (src/attributes.rs:39-45) walks the whole list with no early
exit, so the last `OriginSpore` and the last `OriginMoment` win
(`OriginSporeLastWins`, `OriginMomentLastWins`).

## Model

| member | source | states |
|---|---|---|
| Attributes.ShallowEq | src/attributes.rs:10-13 | true exactly when both attributes are the same variant, whatever their payloads |
| Attributes.ShallowEqIsEquivalence | src/attributes.rs:11-13 | shallow equality is reflexive, symmetric and transitive |
| Attributes.FirstOfKind | src/attributes.rs:24-31 | a found attribute is an element of the list and has the query's kind |
| Attributes.FirstOfKindNoneIff | src/attributes.rs:24-31 | the lookup returns None if and only if no attribute in the list has the query's kind |
| Attributes.FirstOfKindAt | src/attributes.rs:25-28 | if index i has the query's kind and no earlier index does, the lookup returns exactly the element at i |
| Attributes.FirstOfKindIgnoresPayload | src/attributes.rs:24-26 | two queries of the same kind give the same answer; the query's payload is irrelevant |
| Attributes.OriginSporeNoneIff | src/attributes.rs:36-48 | the identity component is None if and only if the list holds no OriginSpore |
| Attributes.OriginSporeLastWins | src/attributes.rs:39-45 | the identity component is the payload of the last OriginSpore in the list |
| Attributes.OriginMomentNoneIff | src/attributes.rs:36-48 | the moment component is None if and only if the list holds no OriginMoment |
| Attributes.OriginMomentLastWins | src/attributes.rs:39-45 | the moment component is the payload of the last OriginMoment in the list |
| Attributes.OriginAgreesWithFirstOfKind | src/attributes.rs:17-48 | under the no-duplicate-kinds invariant, each origin component is present exactly when the get_attr lookup of that kind succeeds, and both give the same payload |
| Attributes.OriginDisagreesOnDuplicates | src/attributes.rs:24-48 | with two OriginSpore entries, get_origin reports the last one and get_attr reports the first one, so the invariant is what makes them agree |
| Attributes.RemoveKind | src/attributes.rs:53 | retain leaves no attribute of the removed kind, only elements of the input, and is no longer than the input |
| Attributes.RemoveKindIsSubsequence | src/attributes.rs:53 | retain keeps the surviving attributes in their original relative order |
| Attributes.RemoveKindKeepsOthers | src/attributes.rs:53 | retain keeps every attribute of another kind exactly as many times as it occurred |
| Attributes.RemoveKindPreservesKindUnique | src/attributes.rs:53 | retain cannot create duplicate kinds |
| Attributes.RemoveKindKeepsLookup | src/attributes.rs:53 | retain does not change what a lookup of another kind finds |
| Attributes.Upsert | src/attributes.rs:52-57 | after set_attr(x) the list ends with x, and no other element has x's kind, so exactly one attribute of that kind remains |
| Attributes.UpsertPreservesKindUnique | src/attributes.rs:17-57 | set_attr preserves the documented no-duplicate-kinds invariant |
| Attributes.UpsertReplaces | src/attributes.rs:52-57 | setting y after x of the same kind gives the same list as setting y alone, so the latest payload wins |
| Attributes.UpsertIdempotent | src/attributes.rs:52-57 | applying set_attr(x) twice gives the same list as applying it once |
| Attributes.UpsertThenLookup | src/attributes.rs:24-55 | after set_attr(x), get_attr of x's kind returns Some(x) |
| Attributes.UpsertKeepsOtherLookups | src/attributes.rs:24-55 | after set_attr(x), get_attr of any other kind returns what it returned before |
| Node.FreshAttributes | src/mycelium.rs:17-22 | the initial attribute list has origin (Some(sporeprint), Some(now)), has no duplicate kinds and has no OriginSignature |
| Node.Mycelium.constructor | src/mycelium.rs:17-23 | the node holds exactly [OriginSpore(sporeprint), OriginMoment(now)] in that order and empty roots; both origin components are present, no kind is duplicated and no signature is present |
| Node.Mycelium.New | src/mycelium.rs:11-24 | fails with SystemTimeError exactly when the clock reads before the epoch; otherwise returns a fresh node stamped with the sporeprint and the elapsed nanoseconds, with no roots |
| Node.Mycelium.GetRoots | src/mycelium.rs:28-30 | returns the node's roots unchanged and modifies nothing |
| Node.Mycelium.GetAttrs | src/attributes.rs:19-21 | returns the attribute list unchanged and modifies nothing |
| Node.Mycelium.GetAttr | src/attributes.rs:24-31 | the loop with early return yields the first attribute of the query's kind, and None exactly when the list has none of that kind |
| Node.Mycelium.GetOrigin | src/attributes.rs:36-48 | the single pass yields the origin fold of the attribute list, where the last identity and the last moment win and signatures are skipped |
| Node.Mycelium.SetAttr | src/attributes.rs:52-57 | always returns Ok; the new list is retain-then-push of the old one; the no-duplicates invariant is kept; a lookup of the new kind then returns the new attribute; roots are not touched |

## Left out

- Signing, verifying and resolving a Spore are foreign cryptography. A Spore is modelled only as the sporeprint it reports.
- The system clock is not modelled. Its reading (nanoseconds since the epoch, or the distance before it) is a parameter of `Node.Mycelium.New`.
- `Node.Mycelium.GetRoots`: roots are a sequence of object references. Rust's exclusive ownership of child nodes (no aliasing, no cycles) is not expressed, because no modelled operation mutates roots.
- Error message strings, and the `Debug`/`PartialEq` derives, are not modelled. Datatype equality stands in for `PartialEq`.
- Hashing, sign/verify of a node, scan, add, prune, reference children and a `LastUpdate` attribute do not occur in src/attributes.rs or src/mycelium.rs, so they are not part of this model.
- tests/spore.rs exercises a concrete DID-based Spore that is not part of this model.
