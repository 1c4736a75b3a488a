/** What a validation run computes, as functions of the configuration, the
    host's reflection and rules, and the instance. The imperative validator
    is proved to compute exactly these; the lemmas below say what they mean. */
module Evaluation {
  import opened Annotations
  import opened Metadata

  /** The three toggles of the validator. */
  datatype Toggles = Toggles(
    stopIfRequiredValidatorFails: bool,
    runModelLevelValidatorsIfPropertyValidatorsFail: bool,
    breakOnFirstError: bool)

  /** The host facilities the validator calls into, besides the type-level
      reflection that lives with the metadata cache:
      the runtime type of an object, the properties reflection reports for an
      instance (by name) and their values, the evaluation of one rule
      (None is `ValidationResult.Success`), and the optional
      `IValidatableObject` hook with what it returns. */
  datatype Host<!V> = Host(
    typeOf: V -> TypeId,
    propertyNames: V -> seq<string>,
    getValue: (V, string) -> V,
    evaluate: (Attribute, V, ValidationContext<V>) -> Option<ValidationResult>,
    isValidatable: V -> bool,
    validate: (V, ValidationContext<V>) -> seq<ValidationResult>)

  /** One `KeyValuePair<ValidationContext, object>` of `GetProperties`. */
  datatype PropertyEntry<V> = PropertyEntry(context: ValidationContext<V>, value: V)

  // ---------------------------------------------------------------------------
  // One member: GetValidationErrors
  // ---------------------------------------------------------------------------

  /** `FirstOrDefault(a => a is RequiredAttribute)`. */
  function FirstRequired(attrs: seq<Attribute>): Option<Attribute>
    decreases |attrs|
  {
    if attrs == [] then None
    else if attrs[0].IsRequiredAttribute() then Some(attrs[0])
    else FirstRequired(attrs[1..])
  }

  /** FirstRequired finds a required attribute exactly when there is one, and
      then the first: one at an index before which none is required. */
  lemma {:induction false} FirstRequiredIsFirst(attrs: seq<Attribute>)
    ensures var r := FirstRequired(attrs);
      && (r.None? <==> forall k | 0 <= k < |attrs| :: !attrs[k].IsRequiredAttribute())
      && (r.Some? ==> r.value.IsRequiredAttribute())
      && (r.Some? ==> exists k | 0 <= k < |attrs| ::
            (attrs[k] == r.value && forall j | 0 <= j < k :: !attrs[j].IsRequiredAttribute()))
    decreases |attrs|
  {
    if attrs != [] && !attrs[0].IsRequiredAttribute() {
      FirstRequiredIsFirst(attrs[1..]);
      assert forall k | 1 <= k < |attrs| :: attrs[k] == attrs[1..][k - 1];
      var r := FirstRequired(attrs[1..]);
      if r.Some? {
        var k :| 0 <= k < |attrs[1..]| && attrs[1..][k] == r.value
          && forall j | 0 <= j < k :: !attrs[1..][j].IsRequiredAttribute();
        assert attrs[k + 1] == r.value;
      }
    } else if attrs != [] {
      assert attrs[0] == FirstRequired(attrs).value;
    }
  }

  predicate IsPrefix<T(==)>(s: seq<T>, t: seq<T>) {
    |s| <= |t| && s == t[..|s|]
  }

  /** `[required]` when there is a required attribute, else nothing. */
  function RequiredPrefix(required: Option<Attribute>): seq<Attribute> {
    if required.Some? then [required.value] else []
  }

  /** The attributes that the main loop evaluates: every element of `attrs`
      that is not the very instance `skip`, in order. */
  function Candidates(attrs: seq<Attribute>, skip: Option<Attribute>): seq<Attribute>
    decreases |attrs|
  {
    if attrs == [] then []
    else Candidates(attrs[..|attrs| - 1], skip) + (if skip == Some(attrs[|attrs| - 1]) then [] else [attrs[|attrs| - 1]])
  }

  /** The failures of the attributes other than `skip`, in list order. */
  function Failures<V>(
    eval: (Attribute, V, ValidationContext<V>) -> Option<ValidationResult>,
    value: V, ctx: ValidationContext<V>, attrs: seq<Attribute>, skip: Option<Attribute>): seq<ValidationResult>
    decreases |attrs|
  {
    if attrs == [] then []
    else
      var init := Failures(eval, value, ctx, attrs[..|attrs| - 1], skip);
      var a := attrs[|attrs| - 1];
      if skip == Some(a) || eval(a, value, ctx).None? then init
      else init + [eval(a, value, ctx).value]
  }

  /** The required attribute is present, fails, and the validator is told to
      stop on that: the early return of the required block. */
  predicate RequiredStops<V>(
    cfg: Toggles, eval: (Attribute, V, ValidationContext<V>) -> Option<ValidationResult>,
    value: V, ctx: ValidationContext<V>, attrs: seq<Attribute>)
  {
    var required := FirstRequired(attrs);
    required.Some? && eval(required.value, value, ctx).Some? && cfg.stopIfRequiredValidatorFails
  }

  /** The failures reported for one member. The required attribute's own
      failure is reported only when the validator stops on it; otherwise it
      is dropped, and the result is the failures of the other attributes,
      cut to the first one under BreakOnFirstError. */
  function MemberErrors<V>(
    cfg: Toggles, eval: (Attribute, V, ValidationContext<V>) -> Option<ValidationResult>,
    value: V, ctx: ValidationContext<V>, attrs: seq<Attribute>): seq<ValidationResult>
  {
    var required := FirstRequired(attrs);
    if RequiredStops(cfg, eval, value, ctx, attrs) then [eval(required.value, value, ctx).value]
    else
      var rest := Failures(eval, value, ctx, attrs, required);
      if cfg.breakOnFirstError && |rest| > 1 then rest[..1] else rest
  }

  lemma {:induction false} CandidatesAppend(a: seq<Attribute>, b: seq<Attribute>, skip: Option<Attribute>)
    ensures Candidates(a + b, skip) == Candidates(a, skip) + Candidates(b, skip)
    decreases |b|
  {
    if b == [] {
      assert a + b == a;
    } else {
      assert (a + b)[..|a + b| - 1] == a + b[..|b| - 1];
      assert (a + b)[|a + b| - 1] == b[|b| - 1];
      CandidatesAppend(a, b[..|b| - 1], skip);
    }
  }

  lemma {:induction false} FailuresAppend<V>(
    eval: (Attribute, V, ValidationContext<V>) -> Option<ValidationResult>,
    value: V, ctx: ValidationContext<V>, a: seq<Attribute>, b: seq<Attribute>, skip: Option<Attribute>)
    ensures Failures(eval, value, ctx, a + b, skip) == Failures(eval, value, ctx, a, skip) + Failures(eval, value, ctx, b, skip)
    decreases |b|
  {
    if b == [] {
      assert a + b == a;
    } else {
      assert (a + b)[..|a + b| - 1] == a + b[..|b| - 1];
      assert (a + b)[|a + b| - 1] == b[|b| - 1];
      FailuresAppend(eval, value, ctx, a, b[..|b| - 1], skip);
    }
  }

  /** The candidates up to and including the first that fails. */
  function UpToFirstFailure<V>(
    eval: (Attribute, V, ValidationContext<V>) -> Option<ValidationResult>,
    value: V, ctx: ValidationContext<V>, cs: seq<Attribute>): seq<Attribute>
    decreases |cs|
  {
    if cs == [] then []
    else if eval(cs[0], value, ctx).Some? then [cs[0]]
    else [cs[0]] + UpToFirstFailure(eval, value, ctx, cs[1..])
  }

  /** The attributes one call evaluates, in the order it evaluates them: the
      required attribute first, then the other candidates, all of them or,
      under BreakOnFirstError, up to the first failure. */
  function EvaluationOrder<V>(
    cfg: Toggles, eval: (Attribute, V, ValidationContext<V>) -> Option<ValidationResult>,
    value: V, ctx: ValidationContext<V>, attrs: seq<Attribute>): seq<Attribute>
  {
    var required := FirstRequired(attrs);
    var candidates := Candidates(attrs, required);
    if RequiredStops(cfg, eval, value, ctx, attrs) then [required.value]
    else RequiredPrefix(required) + (if cfg.breakOnFirstError then UpToFirstFailure(eval, value, ctx, candidates) else candidates)
  }

  /** With no failing candidate, all of them are evaluated. */
  lemma {:induction false} UpToAllPass<V>(
    eval: (Attribute, V, ValidationContext<V>) -> Option<ValidationResult>,
    value: V, ctx: ValidationContext<V>, cs: seq<Attribute>)
    requires forall k | 0 <= k < |cs| :: eval(cs[k], value, ctx).None?
    ensures UpToFirstFailure(eval, value, ctx, cs) == cs
    decreases |cs|
  {
    if cs != [] {
      assert forall k | 0 <= k < |cs[1..]| :: cs[1..][k] == cs[k + 1];
      UpToAllPass(eval, value, ctx, cs[1..]);
    }
  }

  /** Evaluation stops at the end of a run of passing candidates that ends in a failure. */
  lemma {:induction false} UpToStopsAt<V>(
    eval: (Attribute, V, ValidationContext<V>) -> Option<ValidationResult>,
    value: V, ctx: ValidationContext<V>, xs: seq<Attribute>, ys: seq<Attribute>)
    requires xs != [] && eval(xs[|xs| - 1], value, ctx).Some?
    requires forall k | 0 <= k < |xs| - 1 :: eval(xs[k], value, ctx).None?
    ensures UpToFirstFailure(eval, value, ctx, xs + ys) == xs
    decreases |xs|
  {
    if |xs| > 1 {
      assert (xs + ys)[1..] == xs[1..] + ys;
      assert forall k | 0 <= k < |xs[1..]| :: xs[1..][k] == xs[k + 1];
      UpToStopsAt(eval, value, ctx, xs[1..], ys);
    }
  }

  /** What the evaluated run is: a prefix of the candidates in which every
      element but the last passes, and which stops short of the end only at
      a failure. */
  lemma {:induction false} UpToShape<V>(
    eval: (Attribute, V, ValidationContext<V>) -> Option<ValidationResult>,
    value: V, ctx: ValidationContext<V>, cs: seq<Attribute>)
    ensures var u := UpToFirstFailure(eval, value, ctx, cs);
      && IsPrefix(u, cs)
      && (forall k | 0 <= k < |u| - 1 :: eval(u[k], value, ctx).None?)
      && (|u| < |cs| ==> u != [] && eval(u[|u| - 1], value, ctx).Some?)
    decreases |cs|
  {
    if cs != [] && eval(cs[0], value, ctx).None? {
      var u' := UpToFirstFailure(eval, value, ctx, cs[1..]);
      UpToShape(eval, value, ctx, cs[1..]);
      assert forall k | 1 <= k < |u'| + 1 :: ([cs[0]] + u')[k] == u'[k - 1];
    }
  }

  /** The step at which a BreakOnFirstError call leaves its loop: the
      candidates up to index `i` passed except `attrs[i]`, which failed with
      `f`, so the evaluated run ends there and `f` is the member's only
      failure. */
  lemma {:induction false} BreakExit<V>(
    cfg: Toggles, eval: (Attribute, V, ValidationContext<V>) -> Option<ValidationResult>,
    value: V, ctx: ValidationContext<V>, attrs: seq<Attribute>, i: nat, considered: seq<Attribute>, f: ValidationResult)
    requires cfg.breakOnFirstError && !RequiredStops(cfg, eval, value, ctx, attrs)
    requires i < |attrs|
    requires Candidates(attrs[..i + 1], FirstRequired(attrs)) == considered + [attrs[i]]
    requires forall k | 0 <= k < |considered| :: eval(considered[k], value, ctx).None?
    requires eval(attrs[i], value, ctx) == Some(f)
    requires Failures(eval, value, ctx, attrs[..i + 1], FirstRequired(attrs)) == [f]
    ensures MemberErrors(cfg, eval, value, ctx, attrs) == [f]
    ensures EvaluationOrder(cfg, eval, value, ctx, attrs) == RequiredPrefix(FirstRequired(attrs)) + considered + [attrs[i]]
  {
    var skip := FirstRequired(attrs);
    assert attrs[..i + 1] + attrs[i + 1..] == attrs;
    FailuresAppend(eval, value, ctx, attrs[..i + 1], attrs[i + 1..], skip);
    CandidatesAppend(attrs[..i + 1], attrs[i + 1..], skip);
    var xs := considered + [attrs[i]];
    assert forall k | 0 <= k < |xs| - 1 :: xs[k] == considered[k];
    UpToStopsAt(eval, value, ctx, xs, Candidates(attrs[i + 1..], skip));
    var rest := Failures(eval, value, ctx, attrs, skip);
    assert rest[..1] == [f];
  }

  /** The end of a loop that ran through the whole list: the failures found
      are the member's failures and every candidate was evaluated. */
  lemma LoopExit<V>(
    cfg: Toggles, eval: (Attribute, V, ValidationContext<V>) -> Option<ValidationResult>,
    value: V, ctx: ValidationContext<V>, attrs: seq<Attribute>, considered: seq<Attribute>)
    requires !RequiredStops(cfg, eval, value, ctx, attrs)
    requires considered == Candidates(attrs, FirstRequired(attrs))
    requires cfg.breakOnFirstError ==> Failures(eval, value, ctx, attrs, FirstRequired(attrs)) == []
    requires cfg.breakOnFirstError ==> forall k | 0 <= k < |considered| :: eval(considered[k], value, ctx).None?
    ensures MemberErrors(cfg, eval, value, ctx, attrs) == Failures(eval, value, ctx, attrs, FirstRequired(attrs))
    ensures EvaluationOrder(cfg, eval, value, ctx, attrs) == RequiredPrefix(FirstRequired(attrs)) + considered
  {
    if cfg.breakOnFirstError {
      UpToAllPass(eval, value, ctx, considered);
    }
  }

  /** The candidates are exactly the attributes of the list other than the
      skipped instance; with nothing to skip, the whole list. */
  lemma {:induction false} CandidatesMembership(attrs: seq<Attribute>, skip: Option<Attribute>, a: Attribute)
    ensures a in Candidates(attrs, skip) <==> a in attrs && skip != Some(a)
    ensures skip.None? ==> Candidates(attrs, skip) == attrs
    decreases |attrs|
  {
    if attrs != [] {
      CandidatesMembership(attrs[..|attrs| - 1], skip, a);
      assert attrs == attrs[..|attrs| - 1] + [attrs[|attrs| - 1]];
    }
  }

  /** The required attribute is never among the candidates. */
  lemma {:induction false} RequiredNotCandidate(attrs: seq<Attribute>, r: Attribute)
    ensures r !in Candidates(attrs, Some(r))
    decreases |attrs|
  {
    if attrs != [] {
      RequiredNotCandidate(attrs[..|attrs| - 1], r);
    }
  }

  /** The first required attribute is evaluated first and exactly once (a
      repeated reference to the same instance is skipped); when it fails and
      the validator stops on it, nothing else is evaluated. */
  lemma RequiredEvaluatedOnce<V>(
    cfg: Toggles, eval: (Attribute, V, ValidationContext<V>) -> Option<ValidationResult>,
    value: V, ctx: ValidationContext<V>, attrs: seq<Attribute>, r: Attribute)
    requires FirstRequired(attrs) == Some(r)
    ensures var order := EvaluationOrder(cfg, eval, value, ctx, attrs);
      order != [] && order[0] == r && multiset(order)[r] == 1
    ensures RequiredStops(cfg, eval, value, ctx, attrs) ==> EvaluationOrder(cfg, eval, value, ctx, attrs) == [r]
  {
    var order := EvaluationOrder(cfg, eval, value, ctx, attrs);
    if RequiredStops(cfg, eval, value, ctx, attrs) {
      assert order == [r];
    } else {
      var cs := Candidates(attrs, Some(r));
      RequiredNotCandidate(attrs, r);
      var tail := cs;
      if cfg.breakOnFirstError {
        UpToShape(eval, value, ctx, cs);
        tail := UpToFirstFailure(eval, value, ctx, cs);
        assert tail == cs[..|tail|];
      }
      assert r !in tail;
      assert order == [r] + tail;
      assert multiset(order) == multiset([r]) + multiset(tail);
      assert multiset(tail)[r] == 0;
    }
  }

  /** After the required attribute, the other attributes are evaluated in
      list order: all of them, or under BreakOnFirstError those up to the
      first failure, which is then the last one evaluated. */
  lemma OthersInListOrder<V>(
    cfg: Toggles, eval: (Attribute, V, ValidationContext<V>) -> Option<ValidationResult>,
    value: V, ctx: ValidationContext<V>, attrs: seq<Attribute>)
    requires !RequiredStops(cfg, eval, value, ctx, attrs)
    ensures var pre := RequiredPrefix(FirstRequired(attrs));
      var order := EvaluationOrder(cfg, eval, value, ctx, attrs);
      |pre| <= |order| && order[..|pre|] == pre
    ensures var run := EvaluationOrder(cfg, eval, value, ctx, attrs)[|RequiredPrefix(FirstRequired(attrs))|..];
      var cs := Candidates(attrs, FirstRequired(attrs));
      && IsPrefix(run, cs)
      && (!cfg.breakOnFirstError ==> run == cs)
      && (cfg.breakOnFirstError ==> forall k | 0 <= k < |run| - 1 :: eval(run[k], value, ctx).None?)
      && (|run| < |cs| ==> cfg.breakOnFirstError && run != [] && eval(run[|run| - 1], value, ctx).Some?)
  {
    var required := FirstRequired(attrs);
    var pre := RequiredPrefix(required);
    var cs := Candidates(attrs, required);
    var order := EvaluationOrder(cfg, eval, value, ctx, attrs);
    if cfg.breakOnFirstError {
      var u := UpToFirstFailure(eval, value, ctx, cs);
      UpToShape(eval, value, ctx, cs);
      assert order == pre + u;
      assert order[..|pre|] == pre && order[|pre|..] == u;
    } else {
      assert order == pre + cs;
      assert order[..|pre|] == pre && order[|pre|..] == cs;
    }
  }

  /** Under BreakOnFirstError one member reports at most one failure. */
  lemma BreakLimitsMember<V>(
    cfg: Toggles, eval: (Attribute, V, ValidationContext<V>) -> Option<ValidationResult>,
    value: V, ctx: ValidationContext<V>, attrs: seq<Attribute>)
    requires cfg.breakOnFirstError
    ensures |MemberErrors(cfg, eval, value, ctx, attrs)| <= 1
  {
  }

  /** When the required attribute fails and the validator stops on it, that
      failure is the member's whole result. */
  lemma RequiredFailureStops<V>(
    cfg: Toggles, eval: (Attribute, V, ValidationContext<V>) -> Option<ValidationResult>,
    value: V, ctx: ValidationContext<V>, attrs: seq<Attribute>, r: Attribute)
    requires FirstRequired(attrs) == Some(r) && eval(r, value, ctx).Some?
    requires cfg.stopIfRequiredValidatorFails
    ensures MemberErrors(cfg, eval, value, ctx, attrs) == [eval(r, value, ctx).value]
  {
  }

  /** When the validator does not stop on the required attribute, what the
      required attribute returns has no effect at all: two rule sets that
      agree on every other attribute give the same result, so a failing
      required attribute is silently dropped. */
  lemma {:induction false} RequiredOutcomeIgnored<V>(
    cfg: Toggles, e1: (Attribute, V, ValidationContext<V>) -> Option<ValidationResult>,
    e2: (Attribute, V, ValidationContext<V>) -> Option<ValidationResult>,
    value: V, ctx: ValidationContext<V>, attrs: seq<Attribute>, r: Attribute)
    requires !cfg.stopIfRequiredValidatorFails
    requires FirstRequired(attrs) == Some(r)
    requires forall a | a in attrs && a != r :: e1(a, value, ctx) == e2(a, value, ctx)
    ensures MemberErrors(cfg, e1, value, ctx, attrs) == MemberErrors(cfg, e2, value, ctx, attrs)
  {
    FailuresIgnoreSkipped(e1, e2, value, ctx, attrs, r);
  }

  lemma {:induction false} FailuresIgnoreSkipped<V>(
    e1: (Attribute, V, ValidationContext<V>) -> Option<ValidationResult>,
    e2: (Attribute, V, ValidationContext<V>) -> Option<ValidationResult>,
    value: V, ctx: ValidationContext<V>, attrs: seq<Attribute>, r: Attribute)
    requires forall a | a in attrs && a != r :: e1(a, value, ctx) == e2(a, value, ctx)
    ensures Failures(e1, value, ctx, attrs, Some(r)) == Failures(e2, value, ctx, attrs, Some(r))
    decreases |attrs|
  {
    if attrs != [] {
      var init := attrs[..|attrs| - 1];
      assert forall a | a in init :: a in attrs;
      FailuresIgnoreSkipped(e1, e2, value, ctx, init, r);
    }
  }

  /** The default configuration on a member whose required attribute fails and
      whose other attributes pass reports nothing. */
  lemma DefaultDropsRequiredFailure<V>(
    eval: (Attribute, V, ValidationContext<V>) -> Option<ValidationResult>,
    value: V, ctx: ValidationContext<V>, required: Attribute, other: Attribute)
    requires required.IsRequiredAttribute() && !other.IsRequiredAttribute()
    requires eval(required, value, ctx).Some? && eval(other, value, ctx).None?
    ensures MemberErrors(Toggles(false, true, false), eval, value, ctx, [required, other]) == []
  {
    var attrs := [required, other];
    assert attrs[1..] == [other];
    assert FirstRequired(attrs) == Some(required);
    assert attrs[..1] == [required];
    assert [required][..0] == [];
    assert Failures(eval, value, ctx, [required], Some(required)) == [];
    assert Failures(eval, value, ctx, attrs, Some(required)) == [];
  }

  // ---------------------------------------------------------------------------
  // Properties: GetProperties, GetPropertyValidationAttributes,
  // GetPropertyValidationErrors
  // ---------------------------------------------------------------------------

  /** The list stored under `name` in the metadata of type t, or the empty
      list when the metadata has no entry of that name. */
  function PropertyRulesOf(describe: TypeId -> TypeDescriptor, t: TypeId, name: string): seq<Attribute> {
    var properties := PropertyMap(describe(t).properties, describe);
    if name in properties then properties[name] else []
  }

  /** The rules of the member a property context names (a context with no
      member name is never given to this lookup). */
  function ContextRules<V>(host: Host<V>, describe: TypeId -> TypeDescriptor, ctx: ValidationContext<V>): seq<Attribute> {
    match ctx.memberName
    case Some(name) => PropertyRulesOf(describe, host.typeOf(ctx.instance), name)
    case None => []
  }

  /** The context and value `GetProperties` yields for one property. */
  function EntryFor<V>(host: Host<V>, instance: V, name: string): PropertyEntry<V> {
    PropertyEntry(ValidationContext(instance, Some(name)), host.getValue(instance, name))
  }

  /** The names, in descriptor order, whose metadata list is non-empty. */
  function NamesWithRules(describe: TypeId -> TypeDescriptor, t: TypeId, names: seq<string>): (r: seq<string>)
    ensures forall n | n in r :: n in names && PropertyRulesOf(describe, t, n) != []
    decreases |names|
  {
    if names == [] then []
    else
      var last := names[|names| - 1];
      NamesWithRules(describe, t, names[..|names| - 1]) + (if PropertyRulesOf(describe, t, last) != [] then [last] else [])
  }

  /** Conversely, every name whose metadata list is non-empty is kept. */
  lemma {:induction false} NamesWithRulesComplete(describe: TypeId -> TypeDescriptor, t: TypeId, names: seq<string>)
    ensures forall n | n in names && PropertyRulesOf(describe, t, n) != [] :: n in NamesWithRules(describe, t, names)
    decreases |names|
  {
    if names != [] {
      var init := names[..|names| - 1];
      NamesWithRulesComplete(describe, t, init);
      assert names == init + [names[|names| - 1]];
    }
  }

  /** What `GetProperties` yields for the first names of the instance's
      properties. */
  function Yielded<V>(host: Host<V>, describe: TypeId -> TypeDescriptor, instance: V, names: seq<string>): seq<PropertyEntry<V>>
    decreases |names|
  {
    if names == [] then []
    else
      var last := names[|names| - 1];
      Yielded(host, describe, instance, names[..|names| - 1])
        + (if PropertyRulesOf(describe, host.typeOf(instance), last) != [] then [EntryFor(host, instance, last)] else [])
  }

  /** `GetPropertyValidationAttributes` as a lookup from contexts to rules. */
  function MetadataRules<V>(host: Host<V>, describe: TypeId -> TypeDescriptor): ValidationContext<V> -> seq<Attribute> {
    ctx => ContextRules(host, describe, ctx)
  }

  /** What `GetPropertyValidationErrors` collects over the yielded properties,
      each evaluated against the rules `rules` gives for its context. */
  function PropertyErrors<V>(cfg: Toggles, eval: (Attribute, V, ValidationContext<V>) -> Option<ValidationResult>,
                             rules: ValidationContext<V> -> seq<Attribute>, entries: seq<PropertyEntry<V>>): seq<ValidationResult>
    decreases |entries|
  {
    if entries == [] then []
    else PropertyErrors(cfg, eval, rules, entries[..|entries| - 1]) + EntryErrors(cfg, eval, rules, entries[|entries| - 1])
  }

  /** The failures of one yielded property. */
  function EntryErrors<V>(cfg: Toggles, eval: (Attribute, V, ValidationContext<V>) -> Option<ValidationResult>,
                          rules: ValidationContext<V> -> seq<Attribute>, e: PropertyEntry<V>): seq<ValidationResult> {
    MemberErrors(cfg, eval, e.value, e.context, rules(e.context))
  }

  lemma YieldedStep<V>(host: Host<V>, describe: TypeId -> TypeDescriptor, instance: V, names: seq<string>, k: nat)
    requires k < |names|
    ensures Yielded(host, describe, instance, names[..k + 1])
         == Yielded(host, describe, instance, names[..k])
          + (if PropertyRulesOf(describe, host.typeOf(instance), names[k]) != [] then [EntryFor(host, instance, names[k])] else [])
  {
    assert names[..k + 1][..k] == names[..k];
  }

  /** `GetProperties` yields exactly the properties with a non-empty metadata
      list, in descriptor order, each with the instance and its own name. */
  lemma {:induction false} YieldedShape<V>(host: Host<V>, describe: TypeId -> TypeDescriptor, instance: V, names: seq<string>)
    ensures var ns := NamesWithRules(describe, host.typeOf(instance), names);
      var ys := Yielded(host, describe, instance, names);
      |ys| == |ns| && forall k | 0 <= k < |ys| :: ys[k] == EntryFor(host, instance, ns[k])
    ensures forall n :: n in NamesWithRules(describe, host.typeOf(instance), names)
                        <==> n in names && PropertyRulesOf(describe, host.typeOf(instance), n) != []
    decreases |names|
  {
    NamesWithRulesComplete(describe, host.typeOf(instance), names);
    if names != [] {
      YieldedShape(host, describe, instance, names[..|names| - 1]);
    }
  }

  lemma PropertyErrorsStep<V>(cfg: Toggles, eval: (Attribute, V, ValidationContext<V>) -> Option<ValidationResult>,
                              rules: ValidationContext<V> -> seq<Attribute>, entries: seq<PropertyEntry<V>>, k: nat)
    requires k < |entries|
    ensures PropertyErrors(cfg, eval, rules, entries[..k + 1])
         == PropertyErrors(cfg, eval, rules, entries[..k]) + EntryErrors(cfg, eval, rules, entries[k])
  {
    assert entries[..k + 1][..k] == entries[..k];
  }

  lemma {:induction false} PropertyErrorsAppend<V>(cfg: Toggles, eval: (Attribute, V, ValidationContext<V>) -> Option<ValidationResult>,
                                                   rules: ValidationContext<V> -> seq<Attribute>,
                                                   a: seq<PropertyEntry<V>>, b: seq<PropertyEntry<V>>)
    ensures PropertyErrors(cfg, eval, rules, a + b) == PropertyErrors(cfg, eval, rules, a) + PropertyErrors(cfg, eval, rules, b)
    decreases |b|
  {
    if b == [] {
      assert a + b == a;
    } else {
      var b', x := b[..|b| - 1], b[|b| - 1];
      var ab := a + b;
      assert ab[..|ab| - 1] == a + b';
      assert ab[|ab| - 1] == x;
      PropertyErrorsAppend(cfg, eval, rules, a, b');
      assert PropertyErrors(cfg, eval, rules, ab)
          == PropertyErrors(cfg, eval, rules, a + b') + EntryErrors(cfg, eval, rules, x);
    }
  }

  /** BreakOnFirstError stops within a member but not the loop over the
      properties: each property contributes at most one failure. */
  lemma {:induction false} BreakLimitsPropertyStage<V>(cfg: Toggles, eval: (Attribute, V, ValidationContext<V>) -> Option<ValidationResult>,
                                                       rules: ValidationContext<V> -> seq<Attribute>, entries: seq<PropertyEntry<V>>)
    requires cfg.breakOnFirstError
    ensures |PropertyErrors(cfg, eval, rules, entries)| <= |entries|
    decreases |entries|
  {
    if entries != [] {
      var e := entries[|entries| - 1];
      BreakLimitsPropertyStage(cfg, eval, rules, entries[..|entries| - 1]);
      BreakLimitsMember(cfg, eval, e.value, e.context, rules(e.context));
    }
  }

  /** ... and it does not stop the later properties: two failing properties
      report two failures even under BreakOnFirstError. */
  lemma EachPropertyContributes<V>(cfg: Toggles, eval: (Attribute, V, ValidationContext<V>) -> Option<ValidationResult>,
                                   rules: ValidationContext<V> -> seq<Attribute>, e1: PropertyEntry<V>, e2: PropertyEntry<V>)
    requires EntryErrors(cfg, eval, rules, e1) != []
    requires EntryErrors(cfg, eval, rules, e2) != []
    ensures |PropertyErrors(cfg, eval, rules, [e1, e2])| >= 2
  {
    assert [e1, e2][..1] == [e1];
    assert [e1][..0] == [];
  }

  // ---------------------------------------------------------------------------
  // The whole run: Validate
  // ---------------------------------------------------------------------------

  /** `context ?? new ValidationContext(instance)`. */
  function ContextOrDefault<V>(instance: V, context: Option<ValidationContext<V>>): ValidationContext<V> {
    if context.Some? then context.value else ValidationContext(instance, None)
  }

  /** The property stage of `Validate`. */
  function PropertyStage<V>(cfg: Toggles, host: Host<V>, describe: TypeId -> TypeDescriptor, instance: V): seq<ValidationResult> {
    PropertyErrors(cfg, host.evaluate, MetadataRules(host, describe), Yielded(host, describe, instance, host.propertyNames(instance)))
  }

  /** The model-level stage: the type attributes of the context's object
      evaluated against the instance. */
  function ModelStage<V>(cfg: Toggles, host: Host<V>, describe: TypeId -> TypeDescriptor, instance: V, ctx: ValidationContext<V>): seq<ValidationResult> {
    MemberErrors(cfg, host.evaluate, instance, ctx, TypeRules(host.typeOf(ctx.instance), describe))
  }

  /** The results of the `IValidatableObject` hook, if the instance has one. */
  function HookStage<V>(host: Host<V>, instance: V, ctx: ValidationContext<V>): seq<ValidationResult> {
    if host.isValidatable(instance) then host.validate(instance, ctx) else []
  }

  /** The early exit between stages. */
  predicate StopsAfter(cfg: Toggles, errors: seq<ValidationResult>) {
    errors != [] && (!cfg.runModelLevelValidatorsIfPropertyValidatorsFail || cfg.breakOnFirstError)
  }

  /** The results of one `Validate` call. */
  function ValidateErrors<V>(cfg: Toggles, host: Host<V>, describe: TypeId -> TypeDescriptor,
                             instance: V, context: Option<ValidationContext<V>>): seq<ValidationResult>
  {
    var ctx := ContextOrDefault(instance, context);
    var p := PropertyStage(cfg, host, describe, instance);
    if StopsAfter(cfg, p) then p
    else
      var pm := p + ModelStage(cfg, host, describe, instance, ctx);
      if StopsAfter(cfg, pm) then pm
      else pm + HookStage(host, instance, ctx)
  }

  /** A property failure with RunModelLevelValidatorsIfPropertyValidatorsFail
      off, or with BreakOnFirstError on, ends the run after the property
      stage: neither the model-level rules nor the hook contribute. */
  lemma PropertyFailureEndsRun<V>(cfg: Toggles, host: Host<V>, describe: TypeId -> TypeDescriptor,
                                  instance: V, context: Option<ValidationContext<V>>)
    requires PropertyStage(cfg, host, describe, instance) != []
    requires !cfg.runModelLevelValidatorsIfPropertyValidatorsFail || cfg.breakOnFirstError
    ensures ValidateErrors(cfg, host, describe, instance, context) == PropertyStage(cfg, host, describe, instance)
  {
  }

  /** The results run through the stages in order and are cut only at a stage
      boundary: the property failures come first; anything after them only
      when the first early exit did not fire; hook results only when neither
      fired and the instance has a hook, and then all of them, even under
      BreakOnFirstError. */
  lemma StagesInOrder<V>(cfg: Toggles, host: Host<V>, describe: TypeId -> TypeDescriptor,
                         instance: V, context: Option<ValidationContext<V>>)
    ensures var r := ValidateErrors(cfg, host, describe, instance, context);
      var ctx := ContextOrDefault(instance, context);
      var p := PropertyStage(cfg, host, describe, instance);
      var m := ModelStage(cfg, host, describe, instance, ctx);
      && IsPrefix(p, r)
      && IsPrefix(r, p + m + HookStage(host, instance, ctx))
      && (|r| > |p| ==> !StopsAfter(cfg, p) && IsPrefix(p + m, r))
      && (|r| > |p + m| ==> !StopsAfter(cfg, p + m) && host.isValidatable(instance))
      && (!StopsAfter(cfg, p) && !StopsAfter(cfg, p + m) ==> r == p + m + HookStage(host, instance, ctx))
  {
  }

  /** Under BreakOnFirstError the run reports one failure per failing property
      at most, or a single model-level failure; only the hook, whose results
      are appended unconditionally, can add more. */
  lemma BreakOnFirstErrorBound<V>(cfg: Toggles, host: Host<V>, describe: TypeId -> TypeDescriptor,
                                  instance: V, context: Option<ValidationContext<V>>)
    requires cfg.breakOnFirstError
    ensures var r := ValidateErrors(cfg, host, describe, instance, context);
      var p := PropertyStage(cfg, host, describe, instance);
      var ctx := ContextOrDefault(instance, context);
      if p != [] then r == p && |r| <= |NamesWithRules(describe, host.typeOf(instance), host.propertyNames(instance))|
      else if ModelStage(cfg, host, describe, instance, ctx) != [] then |r| == 1
      else r == HookStage(host, instance, ctx)
  {
    var entries := Yielded(host, describe, instance, host.propertyNames(instance));
    BreakLimitsPropertyStage(cfg, host.evaluate, MetadataRules(host, describe), entries);
    YieldedShape(host, describe, instance, host.propertyNames(instance));
    var ctx := ContextOrDefault(instance, context);
    BreakLimitsMember(cfg, host.evaluate, instance, ctx, TypeRules(host.typeOf(ctx.instance), describe));
  }

  lemma {:induction false} NoRulesNothingYielded(describe: TypeId -> TypeDescriptor, t: TypeId, names: seq<string>)
    requires forall n | n in names :: PropertyRulesOf(describe, t, n) == []
    ensures NamesWithRules(describe, t, names) == []
    decreases |names|
  {
    if names != [] {
      assert forall n | n in names[..|names| - 1] :: n in names;
      NoRulesNothingYielded(describe, t, names[..|names| - 1]);
    }
  }

  /** An instance with no validation attribute on any property or on its
      type, and no hook, validates successfully, with the default context or
      any context whose object is the instance. */
  lemma NoRulesMeansSuccess<V>(cfg: Toggles, host: Host<V>, describe: TypeId -> TypeDescriptor, instance: V,
                               context: Option<ValidationContext<V>>)
    requires ContextOrDefault(instance, context).instance == instance
    requires forall n | n in host.propertyNames(instance) :: PropertyRulesOf(describe, host.typeOf(instance), n) == []
    requires TypeRules(host.typeOf(instance), describe) == []
    requires !host.isValidatable(instance)
    ensures ValidateErrors(cfg, host, describe, instance, context) == []
  {
    NoRulesNothingYielded(describe, host.typeOf(instance), host.propertyNames(instance));
    YieldedShape(host, describe, instance, host.propertyNames(instance));
  }
}
