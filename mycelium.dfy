/** The provenance node (src/mycelium.rs) together with the methods that
    src/attributes.rs adds to it. A `Mycelium` owns an ordered attribute
    list and an ordered list of child nodes, its `roots`. */
module Node {
  import opened Results
  import opened Errors
  import opened Spores
  import opened Attributes

  /** The outcome of `SystemTime::now().duration_since(UNIX_EPOCH)`:
      nanoseconds elapsed since the epoch (zero at the epoch itself), or how
      far strictly before it the clock reads. The system clock itself is a parameter of the model. */
  datatype ClockReading =
    | SinceEpoch(nanos: U128)
    | BeforeEpoch(behind: Positive)

  /** The attribute list every freshly constructed node starts with. */
  lemma FreshAttributes(sp: Sporeprint, now: U128)
    ensures var attrs := [OriginSpore(sp), OriginMoment(now)];
      && OriginOf(attrs) == (Some(sp), Some(now))
      && KindUnique(attrs)
      && forall sig :: FirstOfKind(attrs, OriginSignature(sig)) == None
  {
    var attrs := [OriginSpore(sp), OriginMoment(now)];
    assert attrs[..1] == [OriginSpore(sp)];
  }

  class Mycelium {
    var attributes: seq<Attribute>
    var roots: seq<Mycelium>

    /** `Mycelium::new` once the clock has been read: the origin identity
        and moment, in that order, and no roots. */
    constructor (spore: Spore, now: U128)
      ensures attributes == [OriginSpore(spore.sporeprint), OriginMoment(now)]
      ensures roots == []
      ensures OriginOf(attributes) == (Some(spore.sporeprint), Some(now))
      ensures KindUnique(attributes)
      ensures forall sig :: FirstOfKind(attributes, OriginSignature(sig)) == None
    {
      var attrs := [OriginSpore(spore.sporeprint), OriginMoment(now)];
      FreshAttributes(spore.sporeprint, now);
      attributes := attrs;
      roots := [];
    }

    /** `Mycelium::new`: fails with `SystemTimeError` exactly when the clock
        reads before the epoch, and otherwise builds a fresh node. */
    static method New(spore: Spore, clock: ClockReading) returns (r: Result<Mycelium, MyceliumError>)
      ensures r.Err? <==> clock.BeforeEpoch?
      ensures clock.BeforeEpoch? ==> r == Err(SystemTimeError(clock.behind))
      ensures clock.SinceEpoch? ==>
                && fresh(r.value)
                && r.value.attributes == [OriginSpore(spore.sporeprint), OriginMoment(clock.nanos)]
                && r.value.roots == []
    {
      match clock
      case BeforeEpoch(behind) =>
        r := Err(SystemTimeError(behind));
      case SinceEpoch(now) =>
        var node := new Mycelium(spore, now);
        r := Ok(node);
    }

    /** `get_roots`: the children, unchanged; the node is not modified. */
    method GetRoots() returns (r: seq<Mycelium>)
      ensures r == roots
    {
      r := roots;
    }

    /** `get_attrs`: the attribute list, unchanged; the node is not modified. */
    method GetAttrs() returns (r: seq<Attribute>)
      ensures r == attributes
    {
      r := attributes;
    }

    /** `get_attr`: scans the attributes front to back and returns the first
        one of the query's kind. */
    method GetAttr(attribute: Attribute) returns (r: Option<Attribute>)
      ensures r == FirstOfKind(attributes, attribute)
      ensures r.None? <==> !HasKind(attributes, attribute)
    {
      FirstOfKindNoneIff(attributes, attribute);
      for i := 0 to |attributes|
        invariant FirstOfKind(attributes[i..], attribute) == FirstOfKind(attributes, attribute)
      {
        if ShallowEq(attributes[i], attribute) {
          return Some(attributes[i]);
        }
        assert attributes[i..][1..] == attributes[i + 1..];
      }
      r := None;
    }

    /** `get_origin`: one pass over the attributes, overwriting the identity
        or the moment component whenever one is met. */
    method GetOrigin() returns (origin: Origin)
      ensures origin == OriginOf(attributes)
    {
      origin := (None, None);
      for i := 0 to |attributes|
        invariant origin == OriginOf(attributes[..i])
      {
        match attributes[i] {
          case OriginSpore(sporeprint) => origin := (Some(sporeprint), origin.1);
          case OriginMoment(moment) => origin := (origin.0, Some(moment));
          case OriginSignature(_) =>
        }
        assert attributes[..i + 1][..i] == attributes[..i];
      }
      assert attributes[..|attributes|] == attributes;
    }

    /** `set_attr`: drops every attribute of the new one's kind (`retain`),
        appends the new one (`push`) and always succeeds. */
    method SetAttr(attribute: Attribute) returns (r: Result<(), MyceliumError>)
      modifies this`attributes
      ensures r == Ok(())
      ensures attributes == Upsert(old(attributes), attribute)
      ensures KindUnique(old(attributes)) ==> KindUnique(attributes)
      ensures FirstOfKind(attributes, attribute) == Some(attribute)
    {
      attributes := RemoveKind(attributes, attribute);
      attributes := attributes + [attribute];
      if KindUnique(old(attributes)) {
        UpsertPreservesKindUnique(old(attributes), attribute);
      }
      UpsertThenLookup(old(attributes), attribute, attribute);
      r := Ok(());
    }
  }
}
