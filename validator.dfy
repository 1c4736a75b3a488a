/** The validator: three toggles, a process-wide metadata cache, and the
    three-stage run over an instance (properties, then the type's own rules,
    then the IValidatableObject hook). */
module Validation {
  import opened Annotations
  import opened Metadata
  import opened Evaluation
  import opened Summaries

  /** `after` still holds every entry of `before`, unchanged. */
  predicate Extends(before: map<TypeId, ObjectMetadata>, after: map<TypeId, ObjectMetadata>) {
    before.Keys <= after.Keys && forall t | t in before :: after[t] == before[t]
  }

  /** The static `ConcurrentDictionary<Type, ObjectMetadata>`, used
      sequentially. It is shared by every validator that holds it and is
      tied to the process's reflection, `describe`. */
  class MetadataCache {
    const describe: TypeId -> TypeDescriptor
    var entries: map<TypeId, ObjectMetadata>

    /** Every cached entry is the metadata of its type. */
    ghost predicate Valid()
      reads this, entries.Values
    {
      forall t | t in entries ::
        entries[t].Attributes == TypeRules(t, describe)
        && entries[t].Properties == PropertyMap(describe(t).properties, describe)
    }

    constructor (describe: TypeId -> TypeDescriptor)
      ensures Valid() && this.describe == describe && entries == map[]
    {
      this.describe := describe;
      entries := map[];
    }
  }

  class Validator<V> {
    /** Set to true for compatibility with the stock DataAnnotations validator. */
    var StopIfRequiredValidatorFails: bool
    /** Set to false for compatibility with the stock DataAnnotations validator. */
    var RunModelLevelValidatorsIfPropertyValidatorsFail: bool
    var BreakOnFirstError: bool

    const cache: MetadataCache
    const host: Host<V>

    constructor (cache: MetadataCache, host: Host<V>)
      ensures this.cache == cache && this.host == host
      ensures !StopIfRequiredValidatorFails && RunModelLevelValidatorsIfPropertyValidatorsFail && !BreakOnFirstError
    {
      this.cache := cache;
      this.host := host;
      StopIfRequiredValidatorFails := false;
      RunModelLevelValidatorsIfPropertyValidatorsFail := true;
      BreakOnFirstError := false;
    }

    /** The current values of the three toggles. */
    function Settings(): Toggles
      reads this
    {
      Toggles(StopIfRequiredValidatorFails, RunModelLevelValidatorsIfPropertyValidatorsFail, BreakOnFirstError)
    }

    /** `Validate(instance, context)`. */
    method Validate(instance: V, context: Option<ValidationContext<V>>) returns (summary: ValidationSummary)
      requires cache.Valid()
      modifies cache
      ensures cache.Valid() && Extends(old(cache.entries), cache.entries)
      ensures cache.entries.Keys
           == old(cache.entries).Keys
            + (if host.propertyNames(instance) == [] then {} else {host.typeOf(instance)})
            + (if StopsAfter(Settings(), PropertyStage(Settings(), host, cache.describe, instance)) then {}
               else {host.typeOf(ContextOrDefault(instance, context).instance)})
      ensures summary == NewValidationSummary(ValidateErrors(Settings(), host, cache.describe, instance, context))
    {
      var ctx := if context.Some? then context.value else ValidationContext(instance, None);
      var errors: seq<ValidationResult> := [];
      var propertyErrors := GetPropertyValidationErrors(instance, ctx);
      errors := errors + propertyErrors;

      assert errors == PropertyStage(Settings(), host, cache.describe, instance);
      if |errors| > 0 && (!RunModelLevelValidatorsIfPropertyValidatorsFail || BreakOnFirstError) {
        summary := NewValidationSummary(errors);
        return;
      }

      var modelErrors := GetModelLevelValidationErrors(instance, ctx);
      errors := errors + modelErrors;

      if |errors| > 0 && (!RunModelLevelValidatorsIfPropertyValidatorsFail || BreakOnFirstError) {
        summary := NewValidationSummary(errors);
        return;
      }

      if host.isValidatable(instance) {
        // GetIValidatableObjectValidationErrors: the hook's own results
        errors := errors + host.validate(instance, ctx);
      }
      summary := NewValidationSummary(errors);
    }

    /** The type-level rules of the context's object, evaluated against the instance. */
    method GetModelLevelValidationErrors(instance: V, context: ValidationContext<V>) returns (errors: seq<ValidationResult>)
      requires cache.Valid()
      modifies cache
      ensures cache.Valid() && Extends(old(cache.entries), cache.entries)
      ensures cache.entries.Keys == old(cache.entries).Keys + {host.typeOf(context.instance)}
      ensures errors == ModelStage(Settings(), host, cache.describe, instance, context)
    {
      var attributes := GetTypeValidationAttributes(context);
      ghost var evaluated;
      errors, evaluated := GetValidationErrors(instance, context, attributes);
    }

    /** The failures of every property that has rules, property by property;
        BreakOnFirstError does not end this loop. */
    method GetPropertyValidationErrors(instance: V, context: ValidationContext<V>) returns (errors: seq<ValidationResult>)
      requires cache.Valid()
      modifies cache
      ensures cache.Valid() && Extends(old(cache.entries), cache.entries)
      ensures cache.entries.Keys
           == old(cache.entries).Keys + (if host.propertyNames(instance) == [] then {} else {host.typeOf(instance)})
      ensures errors == PropertyStage(Settings(), host, cache.describe, instance)
    {
      var properties := GetProperties(instance, context);
      // the lookups below find the instance's type cached
      ghost var keys := cache.entries.Keys;
      YieldedShape(host, cache.describe, instance, host.propertyNames(instance));
      ghost var names := NamesWithRules(cache.describe, host.typeOf(instance), host.propertyNames(instance));
      ghost var rules := MetadataRules(host, cache.describe);
      ghost var cfg := Settings();
      errors := [];
      var k := 0;
      while k < |properties|
        invariant 0 <= k <= |properties|
        invariant cache.Valid() && Extends(old(cache.entries), cache.entries)
        invariant cache.entries.Keys == keys
        invariant errors == PropertyErrors(cfg, host.evaluate, rules, properties[..k])
      {
        var property := properties[k];
        assert property == EntryFor(host, instance, names[k]);
        assert names[k] in host.propertyNames(instance);
        var attributes := GetPropertyValidationAttributes(property.context);
        assert attributes == rules(property.context);
        var memberErrors;
        ghost var evaluated;
        memberErrors, evaluated := GetValidationErrors(property.value, property.context, attributes);
        assert memberErrors == EntryErrors(cfg, host.evaluate, rules, property);
        PropertyErrorsStep(cfg, host.evaluate, rules, properties, k);
        errors := errors + memberErrors;
        k := k + 1;
      }
      assert properties[..k] == properties;
    }

    /** The failures of one member. The first RequiredAttribute is evaluated
        first and only once; the others follow in list order. `evaluated`
        records which attributes were evaluated, in order. */
    method GetValidationErrors(value: V, validationContext: ValidationContext<V>, attributes: seq<Attribute>)
      returns (errors: seq<ValidationResult>, ghost evaluated: seq<Attribute>)
      ensures errors == MemberErrors(Settings(), host.evaluate, value, validationContext, attributes)
      ensures evaluated == EvaluationOrder(Settings(), host.evaluate, value, validationContext, attributes)
    {
      errors := [];
      evaluated := [];
      var required := FirstRequired(attributes);

      if required.Some? {
        var valResult := host.evaluate(required.value, value, validationContext);
        evaluated := [required.value];
        if valResult.Some? && StopIfRequiredValidatorFails {
          errors := errors + [valResult.value];
          return;
        }
      }

      // errors is always empty here: a failing required attribute was either
      // returned above or dropped
      if |errors| > 0 && BreakOnFirstError {
        assert false;
        return;
      }

      ghost var cfg := Settings();
      assert !RequiredStops(cfg, host.evaluate, value, validationContext, attributes);
      // the candidates evaluated so far; under BreakOnFirstError each of them passed
      ghost var considered: seq<Attribute> := [];
      var i := 0;
      while i < |attributes|
        invariant 0 <= i <= |attributes|
        invariant errors == Failures(host.evaluate, value, validationContext, attributes[..i], required)
        invariant BreakOnFirstError ==> errors == []
        invariant considered == Candidates(attributes[..i], required)
        invariant BreakOnFirstError ==> forall k | 0 <= k < |considered| :: host.evaluate(considered[k], value, validationContext).None?
      {
        var attr := attributes[i];
        assert attributes[..i + 1][..i] == attributes[..i];
        if required != Some(attr) {
          var valResult := host.evaluate(attr, value, validationContext);
          if valResult.Some? {
            errors := errors + [valResult.value];
            if BreakOnFirstError {
              evaluated := RequiredPrefix(required) + considered + [attr];
              BreakExit(cfg, host.evaluate, value, validationContext, attributes, i, considered, valResult.value);
              break;
            }
          }
          considered := considered + [attr];
        }
        i := i + 1;
      }
      if i == |attributes| {
        assert attributes[..i] == attributes;
        evaluated := RequiredPrefix(required) + considered;
        LoopExit(cfg, host.evaluate, value, validationContext, attributes, considered);
      }
    }

    /** The properties of the instance that have rules, each with a context
        naming it and its value. */
    method GetProperties(instance: V, validationContext: ValidationContext<V>) returns (propertyValues: seq<PropertyEntry<V>>)
      requires cache.Valid()
      modifies cache
      ensures cache.Valid() && Extends(old(cache.entries), cache.entries)
      ensures cache.entries.Keys
           == old(cache.entries).Keys + (if host.propertyNames(instance) == [] then {} else {host.typeOf(instance)})
      ensures propertyValues == Yielded(host, cache.describe, instance, host.propertyNames(instance))
    {
      var properties := host.propertyNames(instance);
      ghost var t, describe := host.typeOf(instance), cache.describe;
      // the types looked up so far: the instance's, once a property was
      ghost var added: set<TypeId> := {};
      propertyValues := [];
      var k := 0;
      while k < |properties|
        invariant 0 <= k <= |properties|
        invariant cache.Valid() && Extends(old(cache.entries), cache.entries)
        invariant added == (if k == 0 then {} else {t})
        invariant cache.entries.Keys == old(cache.entries).Keys + added
        invariant propertyValues == Yielded(host, describe, instance, properties[..k])
      {
        var name := properties[k];
        var context := ValidationContext(instance, Some(name));
        var attributes := GetPropertyValidationAttributes(context);
        added := {t};
        assert attributes == PropertyRulesOf(describe, t, name) by {
          assert ContextRules(host, describe, context) == PropertyRulesOf(describe, t, name);
        }
        YieldedStep(host, describe, instance, properties, k);
        if |attributes| > 0 {
          propertyValues := propertyValues + [PropertyEntry(context, host.getValue(instance, name))];
        }
        k := k + 1;
      }
      assert properties[..k] == properties;
    }

    /** The list the metadata stores under the context's member name, or an
        empty list when there is none. */
    method GetPropertyValidationAttributes(validationContext: ValidationContext<V>) returns (attributes: seq<Attribute>)
      requires cache.Valid()
      requires validationContext.memberName.Some?
      modifies cache
      ensures cache.Valid() && Extends(old(cache.entries), cache.entries)
      ensures cache.entries.Keys == old(cache.entries).Keys + {host.typeOf(validationContext.instance)}
      ensures attributes == ContextRules(host, cache.describe, validationContext)
    {
      var typeItem := GetMetadata(host.typeOf(validationContext.instance));
      var name := validationContext.memberName.value;
      if name in typeItem.Properties {
        attributes := typeItem.Properties[name];
      } else {
        attributes := [];
      }
    }

    /** The validation attributes of the context's object type. */
    method GetTypeValidationAttributes(validationContext: ValidationContext<V>) returns (attributes: seq<Attribute>)
      requires cache.Valid()
      modifies cache
      ensures cache.Valid() && Extends(old(cache.entries), cache.entries)
      ensures cache.entries.Keys == old(cache.entries).Keys + {host.typeOf(validationContext.instance)}
      ensures attributes == TypeRules(host.typeOf(validationContext.instance), cache.describe)
    {
      var item := GetMetadata(host.typeOf(validationContext.instance));
      attributes := item.Attributes;
    }

    /** `Cache.GetOrAdd(type, CreateMetadata)`: the cached entry when there is
        one; otherwise new metadata, which is added. No entry is replaced. */
    method GetMetadata(t: TypeId) returns (md: ObjectMetadata)
      requires cache.Valid()
      modifies cache
      ensures cache.Valid() && Extends(old(cache.entries), cache.entries)
      ensures md.Attributes == TypeRules(t, cache.describe)
      ensures md.Properties == PropertyMap(cache.describe(t).properties, cache.describe)
      ensures old(t in cache.entries) ==> md == old(cache.entries[t]) && cache.entries == old(cache.entries)
      ensures old(t !in cache.entries) ==> fresh(md) && cache.entries == old(cache.entries)[t := md]
    {
      if t in cache.entries {
        md := cache.entries[t];
      } else {
        md := CreateMetadata(t);
        cache.entries := cache.entries[t := md];
      }
    }

    method CreateMetadata(t: TypeId) returns (md: ObjectMetadata)
      ensures fresh(md)
      ensures md.Attributes == TypeRules(t, cache.describe)
      ensures md.Properties == PropertyMap(cache.describe(t).properties, cache.describe)
    {
      md := new ObjectMetadata(t, cache.describe);
    }
  }
}
