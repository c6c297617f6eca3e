/**
 * The current builder's `filter`: which records of the catalog end up in the generated
 * table, given the Cargo features enabled for the build. A group/subgroup rule (additive or
 * subtractive), an optional version ceiling and three modifier rules are applied one after
 * the other, each keeping the order of what it is given.
 */
module Policy {
  import opened Results
  import opened Seqs
  import opened Text
  import opened Decimal
  import opened Features
  import opened Catalog

  /** Why the feature environment cannot be turned into a policy (each is a panic in `filter`). */
  datatype ConfigError =
    | BadVersionFeature    // a `CARGO_FEATURE_V...` key whose rest is not a `u16`
    | ConflictingVersions  // more than one version key

  /** The feature switches `filter` reads before it looks at any record. */
  datatype Policy = Policy(
    additive: bool,
    skinTones: bool,
    genders: bool,
    hairStyles: bool,
    ceiling: Option<nat>)

  /** The environment keys `filter` reads as version features. */
  function VersionKeys(env: set<string>): (keys: set<string>)
    ensures keys <= env
    ensures forall k :: k in env && StartsWith(k, VersionKeyPrefix) ==> k in keys
    ensures forall k :: k in keys ==> StartsWith(k, VersionKeyPrefix)
  {
    set k | k in env && StartsWith(k, VersionKeyPrefix)
  }

  lemma SingletonMember<T>(s: set<T>, x: T)
    requires |s| == 1 && x in s
    ensures s == {x}
  {
    assert |s - {x}| == 0;
  }

  /**
   * The optional version ceiling. Every version key is parsed before the keys are counted,
   * so a key that does not parse is reported even when there are several.
   */
  function VersionCeiling(env: set<string>): (r: Result<Option<nat>, ConfigError>)
    ensures r == Err(BadVersionFeature) <==> exists k :: k in VersionKeys(env) && VersionKeyValue(k).None?
    ensures r == Err(ConflictingVersions)
      <==> (forall k :: k in VersionKeys(env) ==> VersionKeyValue(k).Some?) && |VersionKeys(env)| > 1
    ensures r == Ok(None) <==> VersionKeys(env) == {}
    ensures r.Ok? && r.value.Some? ==>
      exists k :: VersionKeys(env) == {k} && VersionKeyValue(k) == r.value
    ensures r.Ok? && r.value.Some? ==> r.value.value <= U16Max
  {
    var keys := VersionKeys(env);
    if exists k :: k in keys && VersionKeyValue(k).None? then Err(BadVersionFeature)
    else if |keys| > 1 then Err(ConflictingVersions)
    else if keys == {} then Ok(None)
    else
      var k :| k in keys;
      SingletonMember(keys, k);
      Ok(VersionKeyValue(k))
  }

  /** The switches `filter` reads: `additive`, the three modifier features and the version ceiling. */
  function PolicyFromEnv(env: set<string>): (r: Result<Policy, ConfigError>)
    ensures r.Err? <==> VersionCeiling(env).Err?
    ensures r.Err? ==> r.error == VersionCeiling(env).error
    ensures r.Ok? ==>
      && r.value.additive == HasEnvFeature(env, "additive")
      && r.value.skinTones == HasEnvFeature(env, "skin-tones")
      && r.value.genders == HasEnvFeature(env, "genders")
      && r.value.hairStyles == HasEnvFeature(env, "hair-styles")
      && r.value.ceiling == VersionCeiling(env).value
  {
    match VersionCeiling(env)
    case Err(e) => Err(e)
    case Ok(ceiling) =>
      Ok(Policy(
        HasEnvFeature(env, "additive"),
        HasEnvFeature(env, "skin-tones"),
        HasEnvFeature(env, "genders"),
        HasEnvFeature(env, "hair-styles"),
        ceiling))
  }

  /**
   * `filterable`: a record without the modifier always passes; one with it passes when the
   * feature is on in additive mode, or off in subtractive mode.
   */
  function Filterable(additive: bool, flag: bool, hasModifier: bool): (r: bool)
    ensures r <==> !hasModifier || flag == additive
  {
    if !hasModifier then true
    else if additive then flag
    else !flag
  }

  /** The record's group or subgroup is enabled as a feature. */
  predicate Included(env: set<string>, e: Emoji) {
    HasEnvFeature(env, e.group) || HasEnvFeature(env, e.subgroup)
  }

  /** The group/subgroup rule: additive mode keeps what is included, subtractive mode what is not. */
  predicate InScope(p: Policy, env: set<string>, e: Emoji) {
    if p.additive then Included(env, e) else !Included(env, e)
  }

  predicate WithinCeiling(p: Policy, e: Emoji) {
    match p.ceiling
    case Some(v) => e.version <= v
    case None => true
  }

  /** All five rules at once. */
  predicate Passes(p: Policy, env: set<string>, e: Emoji) {
    && InScope(p, env, e)
    && WithinCeiling(p, e)
    && Filterable(p.additive, p.skinTones, e.hasSkinTone)
    && Filterable(p.additive, p.genders, e.hasGender)
    && Filterable(p.additive, p.hairStyles, e.hasHairStyle)
  }

  // The five closures `filter` chains, and their conjunction, each named once.

  function ScopeRule(p: Policy, env: set<string>): Emoji -> bool {
    (e: Emoji) => InScope(p, env, e)
  }

  function CeilingRule(p: Policy): Emoji -> bool {
    (e: Emoji) => WithinCeiling(p, e)
  }

  function SkinToneRule(p: Policy): Emoji -> bool {
    (e: Emoji) => Filterable(p.additive, p.skinTones, e.hasSkinTone)
  }

  function GenderRule(p: Policy): Emoji -> bool {
    (e: Emoji) => Filterable(p.additive, p.genders, e.hasGender)
  }

  function HairStyleRule(p: Policy): Emoji -> bool {
    (e: Emoji) => Filterable(p.additive, p.hairStyles, e.hasHairStyle)
  }

  function PassRule(p: Policy, env: set<string>): Emoji -> bool {
    (e: Emoji) => Passes(p, env, e)
  }

  /** The chain of five filters, in the order `filter` applies them. */
  function Select(p: Policy, env: set<string>, es: seq<Emoji>): (r: seq<Emoji>)
    ensures |r| <= |es|
    ensures forall e :: e in r ==> e in es && Passes(p, env, e)
  {
    var scoped := Keep(es, ScopeRule(p, env));
    var current := Keep(scoped, CeilingRule(p));
    var skins := Keep(current, SkinToneRule(p));
    var genders := Keep(skins, GenderRule(p));
    var r := Keep(genders, HairStyleRule(p));
    assert forall e :: e in r ==> e in es && Passes(p, env, e) by {
      forall e | e in r
        ensures e in es && Passes(p, env, e)
      {
        KeepSound(genders, HairStyleRule(p), e);
        KeepSound(skins, GenderRule(p), e);
        KeepSound(current, SkinToneRule(p), e);
        KeepSound(scoped, CeilingRule(p), e);
        KeepSound(es, ScopeRule(p, env), e);
      }
    }
    r
  }

  /** The glyphs of the records, in order (`.map(|emoji| emoji.emoji)`). */
  function Glyphs(es: seq<Emoji>): (r: seq<string>)
    ensures |r| == |es|
    ensures forall i :: 0 <= i < |es| ==> r[i] == es[i].glyph
    ensures forall g :: g in r <==> exists e :: e in es && e.glyph == g
  {
    seq(|es|, i requires 0 <= i < |es| => es[i].glyph)
  }

  /** `filter`: the glyphs of the records the enabled features select. */
  function Filter(c: Collection, env: set<string>): (r: Result<seq<string>, ConfigError>)
    ensures r.Err? <==> VersionCeiling(env).Err?
    ensures r.Err? ==> r.error == VersionCeiling(env).error
    ensures r.Ok? ==> r.value == Glyphs(Keep(c.emojis, PassRule(PolicyFromEnv(env).value, env)))
    ensures r.Ok? ==> forall g :: g in r.value <==>
      exists e :: e in c.emojis && Passes(PolicyFromEnv(env).value, env, e) && e.glyph == g
  {
    match PolicyFromEnv(env)
    case Err(e) => Err(e)
    case Ok(p) =>
      SelectIsConjunction(p, env, c.emojis);
      SelectAllMembers(p, env, c.emojis);
      Ok(Glyphs(Select(p, env, c.emojis)))
  }

  /** A record is selected exactly when it is in the catalog and passes, for every record at once. */
  lemma SelectAllMembers(p: Policy, env: set<string>, es: seq<Emoji>)
    ensures forall e :: e in Select(p, env, es) <==> e in es && Passes(p, env, e)
  {
    forall e
      ensures e in Select(p, env, es) <==> e in es && Passes(p, env, e)
    {
      SelectMembers(p, env, es, e);
    }
  }

  /** The five rules joined one after the other, as the chain of filters joins them. */
  function Chain(p: Policy, env: set<string>): Emoji -> bool {
    Both(Both(Both(Both(ScopeRule(p, env), CeilingRule(p)), SkinToneRule(p)), GenderRule(p)), HairStyleRule(p))
  }

  lemma ChainIsPasses(p: Policy, env: set<string>, x: Emoji)
    ensures Chain(p, env)(x) == PassRule(p, env)(x)
  {
    var f1, f2, f3, f4, f5 := ScopeRule(p, env), CeilingRule(p), SkinToneRule(p), GenderRule(p), HairStyleRule(p);
    assert Both(f1, f2)(x) == (f1(x) && f2(x));
    assert Both(Both(f1, f2), f3)(x) == (Both(f1, f2)(x) && f3(x));
    assert Both(Both(Both(f1, f2), f3), f4)(x) == (Both(Both(f1, f2), f3)(x) && f4(x));
    assert Chain(p, env)(x) == (Both(Both(Both(f1, f2), f3), f4)(x) && f5(x));
    assert PassRule(p, env)(x) == Passes(p, env, x);
  }

  /** The chain of filters keeps exactly the records that pass all five rules, in order. */
  lemma SelectIsConjunction(p: Policy, env: set<string>, es: seq<Emoji>)
    ensures Select(p, env, es) == Keep(es, PassRule(p, env))
  {
    var f1, f2, f3, f4, f5 := ScopeRule(p, env), CeilingRule(p), SkinToneRule(p), GenderRule(p), HairStyleRule(p);
    KeepBoth(es, f1, f2);
    KeepBoth(es, Both(f1, f2), f3);
    KeepBoth(es, Both(Both(f1, f2), f3), f4);
    KeepBoth(es, Both(Both(Both(f1, f2), f3), f4), f5);
    forall x | x in es
      ensures Chain(p, env)(x) == PassRule(p, env)(x)
    {
      ChainIsPasses(p, env, x);
    }
    KeepExtensional(es, Chain(p, env), PassRule(p, env));
  }

  /** A record is selected exactly when it is in the catalog and passes all five rules. */
  lemma SelectMembers(p: Policy, env: set<string>, es: seq<Emoji>, e: Emoji)
    ensures e in Select(p, env, es) <==> e in es && Passes(p, env, e)
  {
    SelectIsConjunction(p, env, es);
    if e in es && Passes(p, env, e) {
      KeepContains(es, PassRule(p, env), e);
    }
    if e in Select(p, env, es) {
      KeepSound(es, PassRule(p, env), e);
    }
  }

  /** Selection keeps the catalog's order: the result is a subsequence of the records. */
  lemma SelectIsSubsequence(p: Policy, env: set<string>, es: seq<Emoji>)
    ensures IsSubsequence(Select(p, env, es), es)
  {
    SelectIsConjunction(p, env, es);
    KeepIsSubsequence(es, PassRule(p, env));
  }

  /** A lower ceiling selects a subsequence of what a higher one selects, and any ceiling a subsequence of none. */
  lemma CeilingMonotone(p: Policy, env: set<string>, es: seq<Emoji>, low: nat, high: nat)
    requires low <= high
    ensures IsSubsequence(Select(p.(ceiling := Some(low)), env, es), Select(p.(ceiling := Some(high)), env, es))
    ensures IsSubsequence(Select(p.(ceiling := Some(high)), env, es), Select(p.(ceiling := None), env, es))
  {
    var pl, ph, pn := p.(ceiling := Some(low)), p.(ceiling := Some(high)), p.(ceiling := None);
    SelectIsConjunction(pl, env, es);
    SelectIsConjunction(ph, env, es);
    SelectIsConjunction(pn, env, es);
    KeepMonotone(es, PassRule(pl, env), PassRule(ph, env));
    KeepMonotone(es, PassRule(ph, env), PassRule(pn, env));
  }

  /** Every selected record is no newer than the ceiling. */
  lemma SelectedWithinCeiling(p: Policy, env: set<string>, es: seq<Emoji>, e: Emoji)
    requires p.ceiling.Some? && e in Select(p, env, es)
    ensures e.version <= p.ceiling.value
  {
    SelectMembers(p, env, es, e);
  }

  /** No modifier on a record, so the modifier rules never drop it. */
  predicate Plain(e: Emoji) {
    !e.hasSkinTone && !e.hasGender && !e.hasHairStyle
  }

  /** On a record without modifiers and without a ceiling, the two modes disagree. */
  lemma ModesDisagree(p: Policy, env: set<string>, x: Emoji)
    requires p.ceiling.None? && Plain(x)
    ensures PassRule(p.(additive := true), env)(x) <==> !PassRule(p.(additive := false), env)(x)
  {
    assert PassRule(p.(additive := true), env)(x) == Included(env, x);
    assert PassRule(p.(additive := false), env)(x) == !Included(env, x);
  }

  /**
   * For records without modifiers and without a ceiling, additive and subtractive mode split
   * the catalog: every such record is selected in exactly one of the two modes.
   */
  lemma ModesPartition(p: Policy, env: set<string>, es: seq<Emoji>)
    requires p.ceiling.None?
    requires forall e :: e in es ==> Plain(e)
    ensures forall e :: e in es ==>
      (e in Select(p.(additive := true), env, es) <==> e !in Select(p.(additive := false), env, es))
    ensures |Select(p.(additive := true), env, es)| + |Select(p.(additive := false), env, es)| == |es|
  {
    var pa, ps := p.(additive := true), p.(additive := false);
    forall e | e in es
      ensures PassRule(pa, env)(e) <==> !PassRule(ps, env)(e)
      ensures e in Select(pa, env, es) <==> e !in Select(ps, env, es)
    {
      ModesDisagree(p, env, e);
      SelectMembers(pa, env, es, e);
      SelectMembers(ps, env, es, e);
    }
    SelectIsConjunction(pa, env, es);
    SelectIsConjunction(ps, env, es);
    KeepComplement(es, PassRule(pa, env), PassRule(ps, env));
  }

  /** The policy an environment without any feature yields: subtractive, no modifier feature, no ceiling. */
  lemma EmptyEnvPolicy()
    ensures PolicyFromEnv({}) == Ok(Policy(false, false, false, false, None))
  {
    assert VersionKeys({}) == {};
  }

  /** Under the subtractive policy with no feature enabled, every record passes. */
  lemma NothingEnabledPasses(x: Emoji)
    ensures PassRule(Policy(false, false, false, false, None), {})(x)
  {
    assert !Included({}, x);
    assert Passes(Policy(false, false, false, false, None), {}, x);
  }

  /** The subtractive policy with no feature enabled keeps every record. */
  lemma NothingEnabledSelectsAll(es: seq<Emoji>)
    ensures Select(Policy(false, false, false, false, None), {}, es) == es
  {
    var p := Policy(false, false, false, false, None);
    forall x | x in es
      ensures PassRule(p, {})(x)
    {
      NothingEnabledPasses(x);
    }
    SelectIsConjunction(p, {}, es);
    KeepAll(es, PassRule(p, {}));
  }

  /** With no feature enabled at all, nothing is filtered out: every glyph, in catalog order. */
  lemma EmptyEnvKeepsAll(c: Collection)
    ensures Filter(c, {}) == Ok(Glyphs(c.emojis))
  {
    EmptyEnvPolicy();
    NothingEnabledSelectsAll(c.emojis);
  }

  /** Enabling exactly one version feature sets the ceiling to the version it was written for. */
  lemma VersionFeatureSetsCeiling(env: set<string>, version: nat)
    requires version <= U16Max
    requires VersionKeys(env) == {EnvKey(ToFeatureVersion(version))}
    ensures VersionCeiling(env) == Ok(Some(version))
  {
    VersionFeatureRoundTrip(version);
  }

  /** Version features for two different versions map to two different keys. */
  lemma VersionFeatureKeysDiffer(v: nat, w: nat)
    requires v <= U16Max && w <= U16Max && v != w
    ensures EnvKey(ToFeatureVersion(v)) != EnvKey(ToFeatureVersion(w))
  {
    VersionFeatureRoundTrip(v);
    VersionFeatureRoundTrip(w);
  }

  /** Two distinct version keys that both parse are a conflict, whatever the catalog. */
  lemma TwoVersionKeysConflict(env: set<string>, a: string, b: string, c: Collection)
    requires a != b && VersionKeys(env) == {a, b}
    requires VersionKeyValue(a).Some? && VersionKeyValue(b).Some?
    ensures Filter(c, env) == Err(ConflictingVersions)
  {
    assert |VersionKeys(env)| == 2;
    assert VersionCeiling(env) == Err(ConflictingVersions);
  }

  /** Enabling the version features of two different versions is a conflict, whatever the catalog. */
  lemma TwoVersionFeaturesConflict(env: set<string>, v: nat, w: nat, c: Collection)
    requires v <= U16Max && w <= U16Max && v != w
    requires VersionKeys(env) == {EnvKey(ToFeatureVersion(v)), EnvKey(ToFeatureVersion(w))}
    ensures Filter(c, env) == Err(ConflictingVersions)
  {
    VersionFeatureKeysDiffer(v, w);
    VersionFeatureRoundTrip(v);
    VersionFeatureRoundTrip(w);
    TwoVersionKeysConflict(env, EnvKey(ToFeatureVersion(v)), EnvKey(ToFeatureVersion(w)), c);
  }

  /** A version key whose rest is not a number stops the build, whatever else is enabled. */
  lemma BadVersionKeyIsFatal(env: set<string>, key: string, c: Collection)
    requires key in env && StartsWith(key, VersionKeyPrefix) && VersionKeyValue(key).None?
    ensures Filter(c, env) == Err(BadVersionFeature)
  {
    assert key in VersionKeys(env);
    assert VersionCeiling(env) == Err(BadVersionFeature);
  }
}
