/** Metadata extraction: the validation attributes of a type and, per
    property, the property's own validation attributes once the instances
    that reflection copied over from the property's declared type are taken
    out again. Removal is by reference identity, never by equality of
    configuration. */
module Metadata {
  import opened Annotations

  // ---------------------------------------------------------------------------
  // Specification functions
  // ---------------------------------------------------------------------------

  /** The elements of `s`, in order, that are not the very same instance as
      some element of `removed`. */
  function Without(s: seq<Attribute>, removed: seq<Attribute>): (r: seq<Attribute>)
    ensures |r| <= |s|
    decreases |s|
  {
    if s == [] then []
    else Without(s[..|s| - 1], removed) + (if s[|s| - 1] in removed then [] else [s[|s| - 1]])
  }

  /** `OfType<ValidationAttribute>()`: the validation attributes of `s`, in order. */
  function ValidationOnly(s: seq<Attribute>): (r: seq<Attribute>)
    ensures |r| <= |s|
    ensures forall a | a in r :: a in s && a.IsValidationAttribute()
    decreases |s|
  {
    if s == [] then []
    else ValidationOnly(s[..|s| - 1]) + (if s[|s| - 1].IsValidationAttribute() then [s[|s| - 1]] else [])
  }

  /** The list stored for one property: its validation attributes, without the
      instances that are also attributes of the property's declared type. */
  function PropertyRules(p: PropertyDescriptor, describe: TypeId -> TypeDescriptor): seq<Attribute> {
    ValidationOnly(Without(p.attributes, describe(p.propertyType).attributes))
  }

  /** The `Properties` dictionary after writing each property's list under its
      name, in descriptor order (a later property of the same name overwrites). */
  function PropertyMap(ps: seq<PropertyDescriptor>, describe: TypeId -> TypeDescriptor): map<string, seq<Attribute>>
    decreases |ps|
  {
    if ps == [] then map[]
    else PropertyMap(ps[..|ps| - 1], describe)[ps[|ps| - 1].name := PropertyRules(ps[|ps| - 1], describe)]
  }

  /** The validation attributes of a type itself. */
  function TypeRules(t: TypeId, describe: TypeId -> TypeDescriptor): seq<Attribute> {
    ValidationOnly(describe(t).attributes)
  }

  // ---------------------------------------------------------------------------
  // Lemmas about identity-based removal
  // ---------------------------------------------------------------------------

  /** Removal works element by element, so it keeps the relative order:
      removing from a concatenation is concatenating the removals. */
  lemma {:induction false} WithoutAppend(a: seq<Attribute>, b: seq<Attribute>, removed: seq<Attribute>)
    ensures Without(a + b, removed) == Without(a, removed) + Without(b, removed)
    decreases |b|
  {
    if b == [] {
      assert a + b == a;
    } else {
      var b', x := b[..|b| - 1], b[|b| - 1];
      assert (a + b)[..|a + b| - 1] == a + b';
      assert (a + b)[|a + b| - 1] == x;
      WithoutAppend(a, b', removed);
    }
  }

  /** Removing the instances of `r1` and then those of `r2` is removing the
      instances of both: the per-type-attribute passes compose. */
  lemma {:induction false} WithoutTwice(s: seq<Attribute>, r1: seq<Attribute>, r2: seq<Attribute>)
    ensures Without(Without(s, r1), r2) == Without(s, r1 + r2)
    decreases |s|
  {
    if s != [] {
      var init, x := s[..|s| - 1], s[|s| - 1];
      var tail := if x in r1 then [] else [x];
      WithoutTwice(init, r1, r2);
      WithoutAppend(Without(init, r1), tail, r2);
      if x !in r1 {
        assert tail[..0] == [];
        assert Without(tail, r2) == (if x in r2 then [] else [x]);
      }
    }
  }

  /** An element survives exactly when it was there and is not the same
      instance as any removed attribute. */
  lemma {:induction false} WithoutMembership(s: seq<Attribute>, removed: seq<Attribute>, x: Attribute)
    ensures x in Without(s, removed) <==> x in s && x !in removed
    decreases |s|
  {
    if s != [] {
      WithoutMembership(s[..|s| - 1], removed, x);
      assert s == s[..|s| - 1] + [s[|s| - 1]];
    }
  }

  /** Every occurrence of a removed instance goes, every occurrence of any other
      attribute stays: repeated entries and distinct but equally configured
      instances keep their multiplicity. */
  lemma {:induction false} WithoutCount(s: seq<Attribute>, removed: seq<Attribute>, x: Attribute)
    ensures multiset(Without(s, removed))[x] == if x in removed then 0 else multiset(s)[x]
    decreases |s|
  {
    if s != [] {
      var init, last := s[..|s| - 1], s[|s| - 1];
      WithoutCount(init, removed, x);
      assert s == init + [last];
      assert multiset(s) == multiset(init) + multiset{last};
      assert Without(s, removed) == Without(init, removed) + (if last in removed then [] else [last]);
    }
  }

  /** Something is removed exactly when some element is one of the removed
      instances; when nothing is removed the list is unchanged. */
  lemma {:induction false} WithoutShrinks(s: seq<Attribute>, removed: seq<Attribute>)
    ensures |Without(s, removed)| < |s| <==> exists k :: 0 <= k < |s| && s[k] in removed
    ensures |Without(s, removed)| == |s| ==> Without(s, removed) == s
    decreases |s|
  {
    if s != [] {
      var init := s[..|s| - 1];
      WithoutShrinks(init, removed);
      assert s == init + [s[|s| - 1]];
      if exists k :: 0 <= k < |init| && init[k] in removed {
        var k :| 0 <= k < |init| && init[k] in removed;
        assert s[k] in removed;
      }
      if exists k :: 0 <= k < |s| && s[k] in removed {
        var k :| 0 <= k < |s| && s[k] in removed;
        if k < |init| {
          assert init[k] in removed;
        }
      }
    }
  }

  /** The `OfType` filter also works element by element and keeps the order. */
  lemma {:induction false} ValidationOnlyAppend(a: seq<Attribute>, b: seq<Attribute>)
    ensures ValidationOnly(a + b) == ValidationOnly(a) + ValidationOnly(b)
    decreases |b|
  {
    if b == [] {
      assert a + b == a;
    } else {
      assert (a + b)[..|a + b| - 1] == a + b[..|b| - 1];
      assert (a + b)[|a + b| - 1] == b[|b| - 1];
      ValidationOnlyAppend(a, b[..|b| - 1]);
    }
  }

  /** The filter keeps every validation attribute as often as it occurs, and
      nothing else; so `Attributes` is exactly the type's validation rules. */
  lemma {:induction false} ValidationOnlyCount(s: seq<Attribute>, x: Attribute)
    ensures multiset(ValidationOnly(s))[x] == if x.IsValidationAttribute() then multiset(s)[x] else 0
    decreases |s|
  {
    if s != [] {
      ValidationOnlyCount(s[..|s| - 1], x);
      assert s == s[..|s| - 1] + [s[|s| - 1]];
    }
  }

  /** What a stored property list holds: each validation attribute of the
      property that is not an instance of its declared type's attributes, as
      often as it occurs on the property, and nothing else. */
  lemma PropertyRulesCount(p: PropertyDescriptor, describe: TypeId -> TypeDescriptor, x: Attribute)
    ensures multiset(PropertyRules(p, describe))[x] ==
      if x.IsValidationAttribute() && x !in describe(p.propertyType).attributes then multiset(p.attributes)[x] else 0
  {
    ValidationOnlyCount(Without(p.attributes, describe(p.propertyType).attributes), x);
    WithoutCount(p.attributes, describe(p.propertyType).attributes, x);
  }

  /** No stored property list holds an instance of the declared type's attributes. */
  lemma PropertyRulesExclude(p: PropertyDescriptor, describe: TypeId -> TypeDescriptor, x: Attribute)
    requires x in PropertyRules(p, describe)
    ensures x.IsValidationAttribute() && x in p.attributes && x !in describe(p.propertyType).attributes
  {
    WithoutMembership(p.attributes, describe(p.propertyType).attributes, x);
  }

  // ---------------------------------------------------------------------------
  // Lemmas about the Properties dictionary
  // ---------------------------------------------------------------------------

  /** Writing the next property's list extends the dictionary built so far. */
  lemma PropertyMapStep(ps: seq<PropertyDescriptor>, k: nat, describe: TypeId -> TypeDescriptor)
    requires k < |ps|
    ensures PropertyMap(ps[..k + 1], describe) == PropertyMap(ps[..k], describe)[ps[k].name := PropertyRules(ps[k], describe)]
  {
    assert ps[..k + 1][..k] == ps[..k];
  }

  /** Every property gets an entry under its name, even an empty one, and
      there are no other entries. */
  lemma {:induction false} PropertyMapKeys(ps: seq<PropertyDescriptor>, describe: TypeId -> TypeDescriptor)
    ensures PropertyMap(ps, describe).Keys == set p | p in ps :: p.name
    decreases |ps|
  {
    if ps != [] {
      PropertyMapKeys(ps[..|ps| - 1], describe);
      assert ps == ps[..|ps| - 1] + [ps[|ps| - 1]];
    }
  }

  /** The entry of a property that no later property shadows is that
      property's own list. */
  lemma {:induction false} PropertyMapAt(ps: seq<PropertyDescriptor>, describe: TypeId -> TypeDescriptor, i: nat)
    requires i < |ps|
    requires forall j | i < j < |ps| :: ps[j].name != ps[i].name
    ensures ps[i].name in PropertyMap(ps, describe)
    ensures PropertyMap(ps, describe)[ps[i].name] == PropertyRules(ps[i], describe)
    decreases |ps|
  {
    if i < |ps| - 1 {
      PropertyMapAt(ps[..|ps| - 1], describe, i);
    }
  }

  /** Every entry is the list of some property of that name. */
  lemma {:induction false} PropertyMapFrom(ps: seq<PropertyDescriptor>, describe: TypeId -> TypeDescriptor, name: string)
    requires name in PropertyMap(ps, describe)
    ensures exists i :: 0 <= i < |ps| && ps[i].name == name && PropertyMap(ps, describe)[name] == PropertyRules(ps[i], describe)
    decreases |ps|
  {
    var last := |ps| - 1;
    if ps[last].name != name {
      PropertyMapFrom(ps[..last], describe, name);
      var i :| 0 <= i < last && ps[..last][i].name == name
        && PropertyMap(ps[..last], describe)[name] == PropertyRules(ps[..last][i], describe);
      assert ps[i] == ps[..last][i];
    }
  }

  // ---------------------------------------------------------------------------
  // The extraction itself
  // ---------------------------------------------------------------------------

  /** One step of the backward walk: moving the boundary from i + 1 down to i
      either removes before[i] (when it is the instance) or keeps it. */
  lemma StepBack(before: seq<Attribute>, i: nat, x: Attribute)
    requires i < |before|
    ensures before[..i + 1] == before[..i] + [before[i]]
    ensures before[..i] + Without(before[i..], [x])
         == before[..i] + (if before[i] == x then [] else [before[i]]) + Without(before[i + 1..], [x])
  {
    WithoutAppend([before[i]], before[i + 1..], [x]);
    assert [before[i]] + before[i + 1..] == before[i..];
    assert [before[i]][..0] == [];
  }

  /** The inner loop of the dedup pass: walk the list from the back and
      `RemoveAt` every element that is the very instance `attr`, raising
      `removedAttribute` on each removal. */
  method RemoveInstance(attributes: seq<Attribute>, attr: Attribute, removedBefore: bool)
    returns (remaining: seq<Attribute>, removedAttribute: bool)
    ensures remaining == Without(attributes, [attr])
    ensures removedAttribute <==> removedBefore || |remaining| < |attributes|
  {
    remaining := attributes;
    removedAttribute := removedBefore;
    var i := |remaining| - 1;
    while i >= 0
      invariant -1 <= i < |attributes|
      invariant remaining == attributes[..i + 1] + Without(attributes[i + 1..], [attr])
      invariant |remaining| <= |attributes|
      invariant removedAttribute <==> removedBefore || |remaining| < |attributes|
    {
      // the indices up to i are untouched, so remaining[i] is attributes[i]
      StepBack(attributes, i, attr);
      if attr == remaining[i] {
        assert remaining[..i] == attributes[..i];
        assert remaining[i + 1..] == Without(attributes[i + 1..], [attr]);
        remaining := remaining[..i] + remaining[i + 1..];
        removedAttribute := true;
      }
      i := i - 1;
    }
    assert attributes[..0] == [];
    assert attributes[0..] == attributes;
  }

  /** The dedup pass of the constructor over a private copy of a property's
      attributes: every element that is the very same instance as some
      attribute of the declared type is removed; `removedAttribute` says
      whether anything was. */
  method RemoveTypeAttributes(attributes: seq<Attribute>, typeAttributes: seq<Attribute>)
    returns (remaining: seq<Attribute>, removedAttribute: bool)
    ensures remaining == Without(attributes, typeAttributes)
    ensures removedAttribute <==> exists k :: 0 <= k < |attributes| && attributes[k] in typeAttributes
    ensures !removedAttribute ==> remaining == attributes
  {
    remaining := attributes;
    removedAttribute := false;
    WithoutShrinks(attributes, []);
    assert typeAttributes[..0] == [];
    var j := 0;
    while j < |typeAttributes|
      invariant 0 <= j <= |typeAttributes|
      invariant remaining == Without(attributes, typeAttributes[..j])
      invariant removedAttribute <==> |remaining| < |attributes|
    {
      var attr := typeAttributes[j];
      remaining, removedAttribute := RemoveInstance(remaining, attr, removedAttribute);
      WithoutTwice(attributes, typeAttributes[..j], [attr]);
      assert typeAttributes[..j + 1] == typeAttributes[..j] + [attr];
      j := j + 1;
    }
    assert typeAttributes[..j] == typeAttributes;
    WithoutShrinks(attributes, typeAttributes);
  }

  /** The metadata of one type, built once and then only read. */
  class ObjectMetadata {
    var Attributes: seq<Attribute>
    var Properties: map<string, seq<Attribute>>

    /** `new ObjectMetadata(type)`, with the host's reflection passed in as `describe`. */
    constructor (t: TypeId, describe: TypeId -> TypeDescriptor)
      ensures Attributes == TypeRules(t, describe)
      ensures Properties == PropertyMap(describe(t).properties, describe)
    {
      Attributes := ValidationOnly(describe(t).attributes);
      Properties := map[];
      new;
      var properties := describe(t).properties;
      var k := 0;
      while k < |properties|
        invariant 0 <= k <= |properties|
        invariant Attributes == TypeRules(t, describe)
        invariant Properties == PropertyMap(properties[..k], describe)
      {
        var property := properties[k];
        var attributes := property.attributes;
        var typeAttributes := describe(property.propertyType).attributes;
        var remaining, removedAttribute := RemoveTypeAttributes(attributes, typeAttributes);
        // either branch holds the same attributes in the same order
        var attributesToUse := if removedAttribute then remaining else property.attributes;
        assert attributesToUse == Without(property.attributes, typeAttributes);
        Properties := Properties[property.name := ValidationOnly(attributesToUse)];
        PropertyMapStep(properties, k, describe);
        k := k + 1;
      }
      assert properties[..k] == properties;
    }
  }
}
