/** The attribute set of a provenance node (src/attributes.rs): the
    `Attribute` values, their "shallow" (kind-only) comparison, and the pure
    specifications of the list operations that `Node.Mycelium` performs on
    its `attributes` vector: first-of-kind lookup, the origin fold and the
    retain-then-push upsert. */
module Attributes {
  import opened Results
  import opened Spores

  const U128_LIMIT: int := 0x1_0000_0000_0000_0000_0000_0000_0000_0000

  /** `u128`: nanoseconds since the UNIX epoch. */
  type U128 = n: int | 0 <= n < U128_LIMIT

  datatype Attribute =
    | OriginSpore(sporeprint: Sporeprint)   // the Spore that created the node
    | OriginMoment(moment: U128)            // creation time, ns since the epoch
    | OriginSignature(signature: seq<bv8>)  // signature over the node

  /** `std::mem::discriminant`: which variant, payload ignored. */
  function Discriminant(a: Attribute): (d: nat)
    ensures d < 3
  {
    match a
    case OriginSpore(_) => 0
    case OriginMoment(_) => 1
    case OriginSignature(_) => 2
  }

  /** `shallow_eq`: the two attributes are the same variant. */
  function ShallowEq(a: Attribute, b: Attribute): (same: bool)
    ensures same <==> ((a.OriginSpore? && b.OriginSpore?)
                    || (a.OriginMoment? && b.OriginMoment?)
                    || (a.OriginSignature? && b.OriginSignature?))
  {
    Discriminant(a) == Discriminant(b)
  }

  /** `shallow_eq` is an equivalence relation. */
  lemma ShallowEqIsEquivalence(a: Attribute, b: Attribute, c: Attribute)
    ensures ShallowEq(a, a)
    ensures ShallowEq(a, b) == ShallowEq(b, a)
    ensures ShallowEq(a, b) && ShallowEq(b, c) ==> ShallowEq(a, c)
  {
  }

  /** Some attribute of the list is of `q`'s kind. */
  predicate HasKind(attrs: seq<Attribute>, q: Attribute)
  {
    exists i :: 0 <= i < |attrs| && ShallowEq(attrs[i], q)
  }

  /** The documented invariant: no two attributes of the same kind. */
  predicate KindUnique(attrs: seq<Attribute>)
  {
    forall i, j :: 0 <= i < j < |attrs| ==> !ShallowEq(attrs[i], attrs[j])
  }

  // ---------------------------------------------------------------------
  // get_attr

  /** The first attribute of `q`'s kind, scanning from the front. */
  function FirstOfKind(attrs: seq<Attribute>, q: Attribute): (r: Option<Attribute>)
    ensures r.Some? ==> r.value in attrs && ShallowEq(r.value, q)
  {
    if |attrs| == 0 then None
    else if ShallowEq(attrs[0], q) then Some(attrs[0])
    else FirstOfKind(attrs[1..], q)
  }

  /** Lookup finds nothing exactly when no attribute has `q`'s kind. */
  lemma {:induction false} FirstOfKindNoneIff(attrs: seq<Attribute>, q: Attribute)
    ensures FirstOfKind(attrs, q).None? <==> !HasKind(attrs, q)
  {
    if |attrs| > 0 {
      FirstOfKindNoneIff(attrs[1..], q);
      if !ShallowEq(attrs[0], q) && HasKind(attrs, q) {
        var i :| 0 <= i < |attrs| && ShallowEq(attrs[i], q);
        assert attrs[1..][i - 1] == attrs[i];
      }
    }
  }

  /** Lookup returns the attribute at the first index of `q`'s kind. */
  lemma {:induction false} FirstOfKindAt(attrs: seq<Attribute>, q: Attribute, i: nat)
    requires i < |attrs| && ShallowEq(attrs[i], q)
    requires forall j :: 0 <= j < i ==> !ShallowEq(attrs[j], q)
    ensures FirstOfKind(attrs, q) == Some(attrs[i])
  {
    if i > 0 {
      assert !ShallowEq(attrs[0], q);
      forall j | 0 <= j < i - 1
        ensures !ShallowEq(attrs[1..][j], q)
      {
        assert attrs[1..][j] == attrs[j + 1];
      }
      FirstOfKindAt(attrs[1..], q, i - 1);
    }
  }

  /** The payload of the query is irrelevant: only its kind matters. */
  lemma {:induction false} FirstOfKindIgnoresPayload(attrs: seq<Attribute>, q1: Attribute, q2: Attribute)
    requires ShallowEq(q1, q2)
    ensures FirstOfKind(attrs, q1) == FirstOfKind(attrs, q2)
  {
    if |attrs| > 0 {
      FirstOfKindIgnoresPayload(attrs[1..], q1, q2);
    }
  }

  /** Lookup in a concatenation looks in the second part only on a miss. */
  lemma {:induction false} FirstOfKindAppend(a: seq<Attribute>, b: seq<Attribute>, q: Attribute)
    ensures FirstOfKind(a + b, q)
         == if FirstOfKind(a, q).Some? then FirstOfKind(a, q) else FirstOfKind(b, q)
  {
    if |a| == 0 {
      assert a + b == b;
    } else {
      assert (a + b)[1..] == a[1..] + b;
      FirstOfKindAppend(a[1..], b, q);
    }
  }

  // ---------------------------------------------------------------------
  // get_origin

  /** `(Option<Sporeprint>, Option<u128>)` as returned by `get_origin`. */
  type Origin = (Option<Sporeprint>, Option<U128>)

  /** One iteration of the `get_origin` loop: the matching component is
      overwritten, a signature is skipped. */
  function OriginStep(o: Origin, a: Attribute): Origin
  {
    match a
    case OriginSpore(s) => (Some(s), o.1)
    case OriginMoment(m) => (o.0, Some(m))
    case OriginSignature(_) => o
  }

  /** The origin accumulated over the whole list, front to back. */
  function OriginOf(attrs: seq<Attribute>): Origin
  {
    if |attrs| == 0 then (None, None)
    else OriginStep(OriginOf(attrs[..|attrs| - 1]), attrs[|attrs| - 1])
  }

  /** The identity component is present exactly when an `OriginSpore` is. */
  lemma {:induction false} OriginSporeNoneIff(attrs: seq<Attribute>)
    ensures OriginOf(attrs).0.None? <==> forall i :: 0 <= i < |attrs| ==> !attrs[i].OriginSpore?
  {
    if |attrs| > 0 {
      var init := attrs[..|attrs| - 1];
      OriginSporeNoneIff(init);
      assert forall i :: 0 <= i < |init| ==> init[i] == attrs[i];
    }
  }

  /** When present, the identity is that of the last `OriginSpore`. */
  lemma {:induction false} OriginSporeLastWins(attrs: seq<Attribute>, i: nat)
    requires i < |attrs| && attrs[i].OriginSpore?
    requires forall j :: i < j < |attrs| ==> !attrs[j].OriginSpore?
    ensures OriginOf(attrs).0 == Some(attrs[i].sporeprint)
  {
    var init := attrs[..|attrs| - 1];
    if i < |attrs| - 1 {
      assert forall j :: i < j < |init| ==> init[j] == attrs[j];
      OriginSporeLastWins(init, i);
    }
  }

  /** The moment component is present exactly when an `OriginMoment` is. */
  lemma {:induction false} OriginMomentNoneIff(attrs: seq<Attribute>)
    ensures OriginOf(attrs).1.None? <==> forall i :: 0 <= i < |attrs| ==> !attrs[i].OriginMoment?
  {
    if |attrs| > 0 {
      var init := attrs[..|attrs| - 1];
      OriginMomentNoneIff(init);
      assert forall i :: 0 <= i < |init| ==> init[i] == attrs[i];
    }
  }

  /** When present, the moment is that of the last `OriginMoment`. */
  lemma {:induction false} OriginMomentLastWins(attrs: seq<Attribute>, i: nat)
    requires i < |attrs| && attrs[i].OriginMoment?
    requires forall j :: i < j < |attrs| ==> !attrs[j].OriginMoment?
    ensures OriginOf(attrs).1 == Some(attrs[i].moment)
  {
    var init := attrs[..|attrs| - 1];
    if i < |attrs| - 1 {
      assert forall j :: i < j < |init| ==> init[j] == attrs[j];
      OriginMomentLastWins(init, i);
    }
  }

  /** Under the no-duplicates invariant, `get_origin` agrees with
      `get_attr(OriginSpore(_))` and `get_attr(OriginMoment(_))`. */
  lemma {:induction false} OriginAgreesWithFirstOfKind(attrs: seq<Attribute>, s: Sporeprint, m: U128)
    requires KindUnique(attrs)
    ensures OriginOf(attrs).0.Some? <==> FirstOfKind(attrs, OriginSpore(s)).Some?
    ensures OriginOf(attrs).0.Some? ==>
              FirstOfKind(attrs, OriginSpore(s)) == Some(OriginSpore(OriginOf(attrs).0.value))
    ensures OriginOf(attrs).1.Some? <==> FirstOfKind(attrs, OriginMoment(m)).Some?
    ensures OriginOf(attrs).1.Some? ==>
              FirstOfKind(attrs, OriginMoment(m)) == Some(OriginMoment(OriginOf(attrs).1.value))
  {
    OriginSporeNoneIff(attrs);
    FirstOfKindNoneIff(attrs, OriginSpore(s));
    if i :| 0 <= i < |attrs| && attrs[i].OriginSpore? {
      assert forall j :: 0 <= j < |attrs| && j != i ==> !ShallowEq(attrs[j], attrs[i]);
      OriginSporeLastWins(attrs, i);
      FirstOfKindAt(attrs, OriginSpore(s), i);
    }
    OriginMomentNoneIff(attrs);
    FirstOfKindNoneIff(attrs, OriginMoment(m));
    if i :| 0 <= i < |attrs| && attrs[i].OriginMoment? {
      assert forall j :: 0 <= j < |attrs| && j != i ==> !ShallowEq(attrs[j], attrs[i]);
      OriginMomentLastWins(attrs, i);
      FirstOfKindAt(attrs, OriginMoment(m), i);
    }
  }

  /** Without the invariant the two disagree: with two `OriginSpore`
      entries, `get_origin` reports the last and `get_attr` the first. */
  lemma OriginDisagreesOnDuplicates(a: Sporeprint, b: Sporeprint)
    requires a != b
    ensures OriginOf([OriginSpore(a), OriginSpore(b)]).0 == Some(b)
    ensures FirstOfKind([OriginSpore(a), OriginSpore(b)], OriginSpore(b)) == Some(OriginSpore(a))
    ensures var attrs := [OriginSpore(a), OriginSpore(b)];
      FirstOfKind(attrs, OriginSpore(b)) != Some(OriginSpore(OriginOf(attrs).0.value))
  {
    var attrs := [OriginSpore(a), OriginSpore(b)];
    assert attrs[..1] == [OriginSpore(a)];
  }

  // ---------------------------------------------------------------------
  // set_attr

  /** `retain(|x| !x.shallow_eq(attribute))`: keep, in order, every
      attribute of a different kind than `x`. */
  function RemoveKind(attrs: seq<Attribute>, x: Attribute): (r: seq<Attribute>)
    ensures |r| <= |attrs|
    ensures forall i :: 0 <= i < |r| ==> !ShallowEq(r[i], x) && r[i] in attrs
  {
    if |attrs| == 0 then []
    else if ShallowEq(attrs[0], x) then RemoveKind(attrs[1..], x)
    else [attrs[0]] + RemoveKind(attrs[1..], x)
  }

  /** `s` is obtained from `t` by deleting elements (order kept). */
  predicate IsSubsequence(s: seq<Attribute>, t: seq<Attribute>)
    decreases |t|
  {
    |s| == 0 ||
    (|t| > 0 && ((s[0] == t[0] && IsSubsequence(s[1..], t[1..])) || IsSubsequence(s, t[1..])))
  }

  /** Retain keeps the surviving attributes in their relative order. */
  lemma {:induction false} RemoveKindIsSubsequence(attrs: seq<Attribute>, x: Attribute)
    ensures IsSubsequence(RemoveKind(attrs, x), attrs)
  {
    if |attrs| > 0 {
      RemoveKindIsSubsequence(attrs[1..], x);
      if !ShallowEq(attrs[0], x) {
        assert ([attrs[0]] + RemoveKind(attrs[1..], x))[1..] == RemoveKind(attrs[1..], x);
      }
    }
  }

  /** Retain keeps every attribute of another kind, as often as it occurred. */
  lemma {:induction false} RemoveKindKeepsOthers(attrs: seq<Attribute>, x: Attribute, a: Attribute)
    requires !ShallowEq(a, x)
    ensures multiset(RemoveKind(attrs, x))[a] == multiset(attrs)[a]
  {
    if |attrs| > 0 {
      RemoveKindKeepsOthers(attrs[1..], x, a);
      assert attrs == [attrs[0]] + attrs[1..];
    }
  }

  /** Retain removes nothing when no attribute has `x`'s kind. */
  lemma {:induction false} RemoveKindNoop(attrs: seq<Attribute>, x: Attribute)
    requires forall i :: 0 <= i < |attrs| ==> !ShallowEq(attrs[i], x)
    ensures RemoveKind(attrs, x) == attrs
  {
    if |attrs| > 0 {
      RemoveKindNoop(attrs[1..], x);
    }
  }

  /** Retain distributes over concatenation. */
  lemma {:induction false} RemoveKindAppend(a: seq<Attribute>, b: seq<Attribute>, x: Attribute)
    ensures RemoveKind(a + b, x) == RemoveKind(a, x) + RemoveKind(b, x)
  {
    if |a| == 0 {
      assert a + b == b;
    } else {
      assert (a + b)[1..] == a[1..] + b;
      RemoveKindAppend(a[1..], b, x);
    }
  }

  /** Retain depends on the kind of `x` only. */
  lemma {:induction false} RemoveKindIgnoresPayload(attrs: seq<Attribute>, x: Attribute, y: Attribute)
    requires ShallowEq(x, y)
    ensures RemoveKind(attrs, x) == RemoveKind(attrs, y)
  {
    if |attrs| > 0 {
      RemoveKindIgnoresPayload(attrs[1..], x, y);
    }
  }

  /** Retain does not change what a lookup of another kind finds. */
  lemma {:induction false} RemoveKindKeepsLookup(attrs: seq<Attribute>, x: Attribute, q: Attribute)
    requires !ShallowEq(q, x)
    ensures FirstOfKind(RemoveKind(attrs, x), q) == FirstOfKind(attrs, q)
  {
    if |attrs| > 0 {
      RemoveKindKeepsLookup(attrs[1..], x, q);
      if !ShallowEq(attrs[0], x) {
        assert ([attrs[0]] + RemoveKind(attrs[1..], x))[1..] == RemoveKind(attrs[1..], x);
      }
    }
  }

  /** The attribute list after `set_attr(x)`: retain, then push `x`. */
  function Upsert(attrs: seq<Attribute>, x: Attribute): (r: seq<Attribute>)
    ensures |r| > 0 && r[|r| - 1] == x
    ensures forall i :: 0 <= i < |r| - 1 ==> !ShallowEq(r[i], x)
  {
    RemoveKind(attrs, x) + [x]
  }

  /** `set_attr` preserves the no-duplicate-kinds invariant. */
  lemma {:induction false} UpsertPreservesKindUnique(attrs: seq<Attribute>, x: Attribute)
    requires KindUnique(attrs)
    ensures KindUnique(Upsert(attrs, x))
  {
    RemoveKindPreservesKindUnique(attrs, x);
  }

  /** Retain keeps the invariant (a filter cannot create duplicates). */
  lemma {:induction false} RemoveKindPreservesKindUnique(attrs: seq<Attribute>, x: Attribute)
    requires KindUnique(attrs)
    ensures KindUnique(RemoveKind(attrs, x))
  {
    if |attrs| > 0 {
      assert KindUnique(attrs[1..]) by {
        forall i, j | 0 <= i < j < |attrs| - 1
          ensures !ShallowEq(attrs[1..][i], attrs[1..][j])
        {
          assert attrs[1..][i] == attrs[i + 1] && attrs[1..][j] == attrs[j + 1];
        }
      }
      RemoveKindPreservesKindUnique(attrs[1..], x);
      if !ShallowEq(attrs[0], x) {
        var rest := RemoveKind(attrs[1..], x);
        forall j | 0 <= j < |rest|
          ensures !ShallowEq(attrs[0], rest[j])
        {
          var k :| 0 <= k < |attrs[1..]| && attrs[1..][k] == rest[j];
          assert attrs[k + 1] == rest[j];
        }
      }
    }
  }

  /** Setting an attribute of the same kind twice leaves only the later
      one: `set_attr(y)` after `set_attr(x)` is `set_attr(y)` alone. */
  lemma {:induction false} UpsertReplaces(attrs: seq<Attribute>, x: Attribute, y: Attribute)
    requires ShallowEq(x, y)
    ensures Upsert(Upsert(attrs, x), y) == Upsert(attrs, y)
  {
    var kept := RemoveKind(attrs, x);
    RemoveKindAppend(kept, [x], y);
    RemoveKindNoop(kept, y);
    RemoveKindIgnoresPayload(attrs, x, y);
    assert RemoveKind([x], y) == [];
  }

  /** `set_attr` is idempotent. */
  lemma UpsertIdempotent(attrs: seq<Attribute>, x: Attribute)
    ensures Upsert(Upsert(attrs, x), x) == Upsert(attrs, x)
  {
    UpsertReplaces(attrs, x, x);
  }

  /** After `set_attr(x)`, `get_attr` of `x`'s kind returns `x`. */
  lemma UpsertThenLookup(attrs: seq<Attribute>, x: Attribute, q: Attribute)
    requires ShallowEq(q, x)
    ensures FirstOfKind(Upsert(attrs, x), q) == Some(x)
  {
    var r := Upsert(attrs, x);
    FirstOfKindAt(r, q, |r| - 1);
  }

  /** After `set_attr(x)`, `get_attr` of any other kind is unchanged. */
  lemma UpsertKeepsOtherLookups(attrs: seq<Attribute>, x: Attribute, q: Attribute)
    requires !ShallowEq(q, x)
    ensures FirstOfKind(Upsert(attrs, x), q) == FirstOfKind(attrs, q)
  {
    FirstOfKindAppend(RemoveKind(attrs, x), [x], q);
    RemoveKindKeepsLookup(attrs, x, q);
  }
}
