# BetterDataAnnotationsValidator, modelled in Dafny

BetterDataAnnotationsValidator is a validation engine on top of .NET
DataAnnotations. You give it an object whose properties and type carry
validation attributes (rules). It returns a `ValidationSummary`: the failures
in the order they were found, and a `Success` flag.

This project models the engine's core and proves what it computes.

- **Metadata extraction** is the `ObjectMetadata(Type)` constructor, in
  `object_metadata.dfy`. It keeps the type's own validation attributes. For each
  property it copies the attribute list and removes, with a backward `RemoveAt`
  loop, every element that is the *same instance* as an attribute of the
  property's declared type. It stores the validation attributes that remain
  under the property's name. Attributes are a Dafny class, so `==` is reference
  identity, the same as `ReferenceEquals`. Two instances configured alike are
  still two, and neither is removed because of the other.
- **The orchestrator** is the `Validator` class, in `validator.dfy`. It has three
  toggles: `StopIfRequiredValidatorFails`, `RunModelLevelValidatorsIfPropertyValidatorsFail`
  and `BreakOnFirstError`. It also has a get-or-add metadata cache keyed by type.
  - Per member, `GetValidationErrors` evaluates the first `RequiredAttribute`,
    then the other attributes in order.
  - `Validate` runs three stages: the property rules, then the type's own rules,
    then the `IValidatableObject` hook. There is an early exit between
    consecutive stages.
- **The summary** is `ValidationSummary`, in `validation_summary.dfy`. It is a
  value whose `Success` flag agrees with its results, enforced as a subset type.

## How the parts fit together

- `annotations.dfy` holds the boundary values:
  - attributes
  - `ValidationResult`
  - the part of `ValidationContext` the engine reads (the instance and `MemberName`)
  - the property and type descriptors that reflection hands out
- `evaluation.dfy` defines, as functions, what each stage computes:
  - `MemberErrors` and `EvaluationOrder` for one member
  - `Yielded` for `GetProperties`
  - `PropertyStage`, `ModelStage`, `HookStage` and `ValidateErrors` for a whole run

  It also proves the lemmas that say what these functions mean.
- The imperative methods in `validator.dfy` and `object_metadata.dfy` loop,
  append, remove by index (as `RemoveAt` does, on the private copy of the list) and return early as the C# does. Each one is proved to
  compute exactly the function that specifies it.

The host environment appears as parameters:
- **Type-level reflection** (`TypeDescriptor.GetAttributes` and
  `TypeDescriptor.GetProperties` on a type) is a function
  `describe: TypeId -> TypeDescriptor`. It is held by the cache because it is
  process-wide.
- **The instance facilities** are fields of a `Host` value. That covers the
  runtime type of an object, the property names reflection reports for an
  instance, property values, the evaluation of one rule
  (`GetValidationResult`, where `None` is `ValidationResult.Success`), and the
  hook with its results.

## Behaviour worth knowing

Three behaviours of the code are easy to misread; each is proved.

1. **A failing required attribute is reported only when `StopIfRequiredValidatorFails`
   is set** (Validator.cs:88-94).
   - The failure is added only on the early-return path. Otherwise it is
     discarded, and only the other attributes' failures are reported
     (`RequiredOutcomeIgnored`). With the default toggles, a member whose
     required attribute fails and whose other rule passes reports nothing
     (`DefaultDropsRequiredFailure`).
   - As a consequence, the check at Validator.cs:97 can never fire: `errors` is
     always empty there. It is modelled as a branch holding `assert false`, so
     the verifier proves it is dead.
2. **Deduplication removes every occurrence** of a type-attribute instance from the
   property's list (ObjectMetadata.cs:29-41), and keeps every other attribute,
   including distinct instances configured alike (`WithoutCount`,
   `PropertyRulesCount`, `PropertyRulesExclude`).
3. **`BreakOnFirstError` does not bound the whole result to one entry.**
   - It stops within one member (Validator.cs:110) and between stages
     (Validator.cs:33, 40). It does not stop the loop over properties
     (Validator.cs:71-74), so each failing property contributes one failure
     (`EachPropertyContributes`, `BreakLimitsPropertyStage`).
   - The hook's results are appended unconditionally (Validator.cs:45-48;
     `StagesInOrder`, `BreakOnFirstErrorBound`).

## Model

| member | source | states |
|---|---|---|
| Summaries.NewValidationSummary | BetterDataAnnotationsValidator/ValidationSummary.cs:8-15 | the summary keeps the given results in order and `Success` holds exactly when there are none; the subset type keeps that agreement for the summary's lifetime |
| Metadata.ValidationOnly | BetterDataAnnotationsValidator/ObjectMetadata.cs:17 | the `OfType<ValidationAttribute>` filter returns only validation attributes taken from its input, never more than it was given |
| Metadata.ValidationOnlyAppend | BetterDataAnnotationsValidator/ObjectMetadata.cs:17 | the filter works element by element: filtering a concatenation concatenates the filtered parts, so order is kept |
| Metadata.ValidationOnlyCount | BetterDataAnnotationsValidator/ObjectMetadata.cs:17 | every validation attribute is kept as many times as it occurs; every other attribute is dropped |
| Metadata.WithoutAppend | BetterDataAnnotationsValidator/ObjectMetadata.cs:31-39 | identity removal keeps the relative order of the survivors: removing from a concatenation concatenates the removals |
| Metadata.WithoutTwice | BetterDataAnnotationsValidator/ObjectMetadata.cs:29-41 | a removal pass for one list of instances, then another, equals one removal for both together |
| Metadata.WithoutMembership | BetterDataAnnotationsValidator/ObjectMetadata.cs:29-41 | an attribute survives if and only if it was in the list and is not the same instance as any removed attribute |
| Metadata.WithoutCount | BetterDataAnnotationsValidator/ObjectMetadata.cs:31-35 | every occurrence of a removed instance goes; every other attribute, including a repeated entry or a distinct instance configured alike, keeps its count |
| Metadata.WithoutShrinks | BetterDataAnnotationsValidator/ObjectMetadata.cs:28-42 | the list gets shorter exactly when some element is one of the removed instances; when nothing is removed the list is unchanged |
| Metadata.PropertyRulesCount | BetterDataAnnotationsValidator/ObjectMetadata.cs:23-44 | a stored property list holds each validation attribute of the property that is not an instance of the declared type's attributes, as often as it occurs on the property, and nothing else |
| Metadata.PropertyRulesExclude | BetterDataAnnotationsValidator/ObjectMetadata.cs:29-44 | every element of a stored list is a validation attribute of the property and is not reference-identical to any attribute of its declared type |
| Metadata.PropertyMapStep | BetterDataAnnotationsValidator/ObjectMetadata.cs:44 | writing the next property extends the dictionary built so far with that property's list under its name |
| Metadata.PropertyMapKeys | BetterDataAnnotationsValidator/ObjectMetadata.cs:21-44 | the `Properties` keys are exactly the names of the type's properties: each property, even one with an empty list, gets an entry |
| Metadata.PropertyMapAt | BetterDataAnnotationsValidator/ObjectMetadata.cs:21-44 | the entry of a property that no later property of the same name shadows is that property's own list |
| Metadata.PropertyMapFrom | BetterDataAnnotationsValidator/ObjectMetadata.cs:21-44 | every entry is the list of some property of that name |
| Metadata.StepBack | BetterDataAnnotationsValidator/ObjectMetadata.cs:31-39 | one step of the backward walk either removes the element at `i`, when it is the instance, or keeps it; nothing below `i` changes |
| Metadata.RemoveInstance | BetterDataAnnotationsValidator/ObjectMetadata.cs:31-40 | the backward `RemoveAt` loop removes every occurrence of the instance and skips none; the flag is raised exactly when something was removed |
| Metadata.RemoveTypeAttributes | BetterDataAnnotationsValidator/ObjectMetadata.cs:28-41 | the dedup pass leaves exactly the property's attributes that are not type-attribute instances; `removedAttribute` holds if and only if some element was such an instance, and when it is false the copy equals the original list |
| Metadata.ObjectMetadata.constructor | BetterDataAnnotationsValidator/ObjectMetadata.cs:15-46 | `Attributes` is the type's validation attributes in order, and `Properties` maps each property name to its deduplicated validation attributes, whichever branch of `removedAttribute` is taken |
| Evaluation.FirstRequiredIsFirst | BetterDataAnnotationsValidator/Validator.cs:84 | `FirstOrDefault(a => a is RequiredAttribute)` finds a required attribute if and only if there is one, and then one at an index before which none is required |
| Evaluation.CandidatesAppend | BetterDataAnnotationsValidator/Validator.cs:100-104 | the skip-the-required filter of the main loop works element by element |
| Evaluation.FailuresAppend | BetterDataAnnotationsValidator/Validator.cs:100-108 | the failures of the main loop over a concatenation are the failures of the parts, in order |
| Evaluation.UpToAllPass | BetterDataAnnotationsValidator/Validator.cs:100-113 | when no candidate fails, the `break` never fires and every candidate is evaluated |
| Evaluation.UpToStopsAt | BetterDataAnnotationsValidator/Validator.cs:104-110 | under `BreakOnFirstError` evaluation ends at the first failure, whatever follows |
| Evaluation.UpToShape | BetterDataAnnotationsValidator/Validator.cs:100-113 | the run evaluated under `BreakOnFirstError` is a prefix of the candidates; all but its last element pass, and it stops short only at a failure |
| Evaluation.BreakExit | BetterDataAnnotationsValidator/Validator.cs:106-110 | at the `break`, the failure just found is the member's only failure and the evaluated run ends with it |
| Evaluation.LoopExit | BetterDataAnnotationsValidator/Validator.cs:100-115 | a loop that runs to the end has found all the member's failures and evaluated every candidate |
| Evaluation.RequiredNotCandidate | BetterDataAnnotationsValidator/Validator.cs:102 | the required attribute is never evaluated a second time in the main loop, even if the list holds it twice |
| Evaluation.RequiredEvaluatedOnce | BetterDataAnnotationsValidator/Validator.cs:84-104 | the first required attribute is evaluated first and exactly once; when it fails and the validator stops on it, nothing else is evaluated |
| Evaluation.OthersInListOrder | BetterDataAnnotationsValidator/Validator.cs:99-113 | after the required attribute, the run of other attributes is a prefix of the list without the required one; without `BreakOnFirstError` it is the whole of it, with it every attribute but the last passes and a run cut short ends in a failure |
| Evaluation.CandidatesMembership | BetterDataAnnotationsValidator/Validator.cs:100-104 | the main loop considers exactly the attributes of the list other than the required one, and all of them when there is no required attribute |
| Evaluation.BreakLimitsMember | BetterDataAnnotationsValidator/Validator.cs:90-110 | under `BreakOnFirstError` one member reports at most one failure |
| Evaluation.RequiredFailureStops | BetterDataAnnotationsValidator/Validator.cs:88-94 | a failing required attribute with `StopIfRequiredValidatorFails` set is the member's whole result |
| Evaluation.RequiredOutcomeIgnored | BetterDataAnnotationsValidator/Validator.cs:88-115 | with `StopIfRequiredValidatorFails` off, the required attribute's outcome has no effect: two evaluations that agree on the other attributes give the same failures |
| Evaluation.FailuresIgnoreSkipped | BetterDataAnnotationsValidator/Validator.cs:100-104 | the main loop's failures do not depend on the outcome of the skipped required attribute |
| Evaluation.DefaultDropsRequiredFailure | BetterDataAnnotationsValidator/Validator.cs:86-115 | with the default toggles, a failing required attribute followed by a passing rule gives no failure at all |
| Evaluation.NamesWithRules | BetterDataAnnotationsValidator/Validator.cs:125-134 | every property name kept is one of the instance's properties with a non-empty metadata list |
| Evaluation.NamesWithRulesComplete | BetterDataAnnotationsValidator/Validator.cs:125-134 | conversely, every property of the instance with a non-empty metadata list is kept |
| Evaluation.YieldedShape | BetterDataAnnotationsValidator/Validator.cs:125-134 | `GetProperties` yields, in descriptor order, one entry per kept name, each with a context naming that property and the property's value; a name is kept if and only if it is a property of the instance with a non-empty list |
| Evaluation.NoRulesNothingYielded | BetterDataAnnotationsValidator/Validator.cs:125-134 | when no property has rules, nothing is yielded |
| Evaluation.PropertyErrorsAppend | BetterDataAnnotationsValidator/Validator.cs:71-74 | the property stage concatenates the failures of the yielded properties in order |
| Evaluation.BreakLimitsPropertyStage | BetterDataAnnotationsValidator/Validator.cs:71-74 | under `BreakOnFirstError` the property stage reports at most one failure per yielded property |
| Evaluation.EachPropertyContributes | BetterDataAnnotationsValidator/Validator.cs:71-74 | `BreakOnFirstError` does not stop the property loop: two failing properties give at least two failures |
| Evaluation.PropertyFailureEndsRun | BetterDataAnnotationsValidator/Validator.cs:31-36 | a property failure, with `RunModelLevelValidatorsIfPropertyValidatorsFail` off or `BreakOnFirstError` on, makes the result exactly the property failures; model-level rules and the hook add nothing |
| Evaluation.StagesInOrder | BetterDataAnnotationsValidator/Validator.cs:31-48 | results are property failures, then model-level failures, then hook results, cut only at a stage boundary by an early exit; the hook's results are all appended whenever neither exit fires |
| Evaluation.BreakOnFirstErrorBound | BetterDataAnnotationsValidator/Validator.cs:33-47 | under `BreakOnFirstError`: property failures, if any, are the whole result with at most one per yielded property; else a single model-level failure; else exactly the hook's results |
| Evaluation.NoRulesMeansSuccess | BetterDataAnnotationsValidator/Validator.cs:26-52 | an instance with no validation attribute on any property or on its type, and no hook, yields no failures, with the default context or any context whose object is the instance |
| Validation.MetadataCache.constructor | BetterDataAnnotationsValidator/Validator.cs:24 | the cache starts empty and consistent with reflection |
| Validation.Validator.constructor | BetterDataAnnotationsValidator/Validator.cs:15-22 | the defaults: `StopIfRequiredValidatorFails` false, `RunModelLevelValidatorsIfPropertyValidatorsFail` true, `BreakOnFirstError` false |
| Validation.Validator.Validate | BetterDataAnnotationsValidator/Validator.cs:26-52 | the summary is built from exactly the results of the three-stage run, with both early exits; the cache keeps its entries, stays consistent, and grows by at most the instance's and the context object's types: the instance's type exactly when it has properties, the context object's type exactly when the run reaches the model-level stage |
| Validation.Validator.GetModelLevelValidationErrors | BetterDataAnnotationsValidator/Validator.cs:61-64 | the failures of the context object's type-level rules, evaluated as for one member; afterwards the context object's type is cached, and no other type is added |
| Validation.Validator.GetPropertyValidationErrors | BetterDataAnnotationsValidator/Validator.cs:66-77 | the failures of every yielded property, property by property, each against its own metadata list; the only type added to the cache is the instance's, and it is added exactly when the instance has properties |
| Validation.Validator.GetValidationErrors | BetterDataAnnotationsValidator/Validator.cs:79-116 | returns exactly the member's failures and evaluates exactly the attributes `EvaluationOrder` lists; the line-97 exit is proved unreachable |
| Validation.Validator.GetProperties | BetterDataAnnotationsValidator/Validator.cs:119-137 | yields exactly the properties that have rules, in order, with their contexts and values; the instance's type is cached exactly when the instance has properties, and no other type is added |
| Validation.Validator.GetPropertyValidationAttributes | BetterDataAnnotationsValidator/Validator.cs:140-150 | the metadata list stored under the member's name, or an empty list when the name has no entry; afterwards the context object's type is cached (`GetMetadata`, line 140), and no other type is added |
| Validation.Validator.GetTypeValidationAttributes | BetterDataAnnotationsValidator/Validator.cs:152-156 | the validation attributes of the context object's type; afterwards that type is cached (`GetMetadata`, line 152), and no other type is added |
| Validation.Validator.GetMetadata | BetterDataAnnotationsValidator/Validator.cs:158-161 | get-or-add: returns the cached entry when present and leaves the cache unchanged; otherwise it adds fresh metadata for that type only; no entry is ever replaced |
| Validation.Validator.CreateMetadata | BetterDataAnnotationsValidator/Validator.cs:163-166 | fresh metadata for the type, as the constructor builds it |

## Left out

- Reflection: `TypeDescriptor.GetAttributes`, `TypeDescriptor.GetProperties` and `PropertyDescriptor.GetValue` are host facilities. They are parameters of the model (`describe`, `Host.propertyNames`, `Host.getValue`). The properties reported for an instance and the metadata of its type are independent inputs. A name with no metadata entry gets an empty list, as in the source. `describe` is fixed for the whole run: reflection is assumed not to change once a type's metadata is cached. A `TypeDescriptor.AddAttributes` or `AddProvider` call made after that would leave a stale cached `ObjectMetadata`, and `MetadataCache.Valid()` would then no longer hold.
- `ValidationAttribute.GetValidationResult` is a library rule. It is an uninterpreted function (`Host.evaluate`).
- `IValidatableObject.Validate` and its wrapper `GetIValidatableObjectValidationErrors` (Validator.cs:54-59) are an external hook. The hook is an abstract returned sequence (`Host.validate`), called inline in `Validate`.
- Thread-safety of the `ConcurrentDictionary` is not modelled; the cache is a sequential get-or-add map. Its static, process-wide sharing becomes a cache object passed to the validator.
- `ValidationContext` is reduced to its instance and `MemberName`. Its `Items` and the parent context, which Validator.cs:127-128 passes as the service provider, are not modelled.
- The interface in `IValidator.cs` has no logic and is not part of this model.
- The virtual overridability of the protected methods is not modelled. Neither is the parameterless `ObjectMetadata()` constructor, which does nothing.
- The copies of `ObjectMetadata` and `ValidationSummary` nested in `Validator.cs` (lines 168-225) are the same as the standalone files, which are modelled once.
- The `AttributeCollection` wrapping at ObjectMetadata.cs:42 is not modelled. Both branches are the list of attributes that remain, in order.
- Summaries.NewValidationSummary: `Results` is the very list passed in. The model is a value, so a later mutation of that list through another reference is not modelled.
- Validation.Validator.GetPropertyValidationAttributes: requires a member name. `TryGetValue` with a null `MemberName` throws, and the model does not model that exception. Every caller passes a context that names a property.
- An attribute list with the same required instance at two positions is handled as the source does: both positions are skipped by the main loop.
- The other validator variants of the repository (a strict non-generic one and a generic one) are in files that are not part of this model.
