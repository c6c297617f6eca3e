/**
 * Cargo feature names and the environment keys Cargo exports for them. Both catalog
 * builders derive feature names from the data file's labels with the same normalisation,
 * and look features up by the same `CARGO_FEATURE_<NAME>` key; the enabled features are
 * given as the set of environment keys that are present.
 */
module Features {
  import opened Results
  import opened Text
  import opened Decimal

  /** What the normalisation guarantees: no spaces, no ampersands, no ASCII capitals. */
  predicate IsFeatureName(s: string) {
    && ' ' !in s
    && '&' !in s
    && forall i :: 0 <= i < |s| ==> !IsAsciiUpper(s[i])
  }

  /** `to_feature_name`: lower-case, then spaces become `-`, then `&` becomes `and`. */
  function ToFeatureName(raw: string): (r: string)
    ensures IsFeatureName(r)
  {
    var lower := AsciiLower(raw);
    var dashed := ReplaceChar(lower, ' ', "-");
    var r := ReplaceChar(dashed, '&', "and");
    assert forall c :: c in r ==> c in lower || c in "-" || c in "and";
    assert forall c :: c in lower ==> !IsAsciiUpper(c);
    assert forall i :: 0 <= i < |r| ==> r[i] in r;
    r
  }

  /** A string that already is a feature name normalises to itself. */
  lemma FeatureNameFixed(s: string)
    requires IsFeatureName(s)
    ensures ToFeatureName(s) == s
  {
    assert AsciiLower(s) == s;
    ReplaceCharAbsent(s, ' ', "-");
    ReplaceCharAbsent(s, '&', "and");
  }

  /** Normalising a feature name again changes nothing. */
  lemma FeatureNameIdempotent(raw: string)
    ensures ToFeatureName(ToFeatureName(raw)) == ToFeatureName(raw)
  {
    FeatureNameFixed(ToFeatureName(raw));
  }

  lemma LowerKeepsPunctuation(s: string, c: char)
    requires !IsAsciiUpper(c) && !IsAsciiLower(c)
    ensures c in AsciiLower(s) <==> c in s
  {
    if c in AsciiLower(s) {
      var i :| 0 <= i < |s| && AsciiLower(s)[i] == c;
      assert s[i] == c;
    }
    if c in s {
      var i :| 0 <= i < |s| && s[i] == c;
      assert AsciiLower(s)[i] == c;
    }
  }

  lemma LowerPhrase(a: string, b: string)
    requires ' ' !in a && '&' !in a && ' ' !in b && '&' !in b
    ensures AsciiLower(a + " & " + b) == AsciiLower(a) + " & " + AsciiLower(b)
    ensures ' ' !in AsciiLower(a) && '&' !in AsciiLower(a)
    ensures ' ' !in AsciiLower(b) && '&' !in AsciiLower(b)
  {
    AsciiLowerConcat(a + " & ", b);
    AsciiLowerConcat(a, " & ");
    assert AsciiLower(" & ") == " & ";
    LowerKeepsPunctuation(a, ' ');
    LowerKeepsPunctuation(a, '&');
    LowerKeepsPunctuation(b, ' ');
    LowerKeepsPunctuation(b, '&');
  }

  lemma DashPhrase(a: string, b: string)
    requires ' ' !in a && ' ' !in b
    ensures ReplaceChar(a + " & " + b, ' ', "-") == a + "-&-" + b
  {
    ReplaceCharConcat(a + " & ", b, ' ', "-");
    ReplaceCharConcat(a, " & ", ' ', "-");
    ReplaceCharAbsent(a, ' ', "-");
    ReplaceCharAbsent(b, ' ', "-");
    assert ReplaceChar(" & ", ' ', "-") == "-&-";
  }

  lemma AndPhrase(a: string, b: string)
    requires '&' !in a && '&' !in b
    ensures ReplaceChar(a + "-&-" + b, '&', "and") == a + "-and-" + b
  {
    ReplaceCharConcat(a + "-&-", b, '&', "and");
    ReplaceCharConcat(a, "-&-", '&', "and");
    ReplaceCharAbsent(a, '&', "and");
    ReplaceCharAbsent(b, '&', "and");
    assert ReplaceChar("-&-", '&', "and") == "-and-";
  }

  /**
   * A label of two words joined by ` & ` becomes the two words lower-cased and
   * joined by `-and-`.
   */
  lemma AmpersandPhraseName(a: string, b: string)
    requires ' ' !in a && '&' !in a && ' ' !in b && '&' !in b
    ensures ToFeatureName(a + " & " + b) == AsciiLower(a) + "-and-" + AsciiLower(b)
  {
    LowerPhrase(a, b);
    DashPhrase(AsciiLower(a), AsciiLower(b));
    AndPhrase(AsciiLower(a), AsciiLower(b));
  }

  lemma SmileysPhrase()
    ensures ToFeatureName("Smileys" + " & " + "Emotion") == AsciiLower("Smileys") + "-and-" + AsciiLower("Emotion")
  {
    AmpersandPhraseName("Smileys", "Emotion");
  }

  lemma SmileysLowered()
    ensures AsciiLower("Smileys") + "-and-" + AsciiLower("Emotion") == "smileys-and-emotion"
  {
    assert AsciiLower("Smileys") == "smileys";
    assert AsciiLower("Emotion") == "emotion";
  }

  /** The data file's first group label becomes the feature `smileys-and-emotion`. */
  lemma SmileysAndEmotionName()
    ensures ToFeatureName("Smileys & Emotion") == "smileys-and-emotion"
  {
    SmileysPhrase();
    SmileysLowered();
    assert "Smileys" + " & " + "Emotion" == "Smileys & Emotion";
  }

  const FeaturePrefix := "CARGO_FEATURE_"

  /** `has_env_feature`'s key: upper-case, `-` becomes `_`, behind `CARGO_FEATURE_`. */
  function EnvKey(feature: string): (k: string)
    ensures StartsWith(k, FeaturePrefix)
    ensures '-' !in k
  {
    var upper := AsciiUpper(feature);
    FeaturePrefix + ReplaceChar(upper, '-', "_")
  }

  /** `has_env_feature(feature)`: the feature's key is present in the environment. */
  predicate HasEnvFeature(env: set<string>, feature: string) {
    EnvKey(feature) in env
  }

  /** Features are looked up regardless of ASCII case: a name and its lower- or upper-cased form are the same feature. */
  lemma HasEnvFeatureIgnoresCase(env: set<string>, feature: string)
    ensures HasEnvFeature(env, AsciiLower(feature)) == HasEnvFeature(env, feature)
    ensures HasEnvFeature(env, AsciiUpper(feature)) == HasEnvFeature(env, feature)
  {
    CaseMappingsForget(feature);
    assert AsciiUpper(AsciiUpper(feature)) == AsciiUpper(feature);
  }

  /** A key is as long as the prefix and the feature name together. */
  lemma EnvKeyLength(feature: string)
    ensures |EnvKey(feature)| == |FeaturePrefix| + |feature|
  {
    ReplaceCharLength(AsciiUpper(feature), '-', "_");
  }

  /** A space in a feature name survives into its key. */
  lemma EnvKeyKeepsSpace(feature: string)
    requires ' ' in feature
    ensures ' ' in EnvKey(feature)
  {
    var i :| 0 <= i < |feature| && feature[i] == ' ';
    assert AsciiUpper(feature)[i] == ' ';
    ReplaceCharKeeps(AsciiUpper(feature), '-', "_", ' ');
  }

  /** The key of a normalised feature name has no space. */
  lemma FeatureKeyHasNoSpace(feature: string)
    requires IsFeatureName(feature)
    ensures ' ' !in EnvKey(feature)
  {
  }

  /** Every environment key whose presence selects a version ceiling starts with this. */
  const VersionKeyPrefix := "CARGO_FEATURE_V"

  /** `to_feature_version`: `v` followed by the version zero-padded to four digits. */
  function ToFeatureVersion(version: nat): (f: string)
    requires version <= U16Max
    ensures |f| >= 5 && f[0] == 'v' && AllDigits(f[1..])
  {
    "v" + PadZeros(ToDecimal(version), 4)
  }

  /** How the filter reads a version key: every `CARGO_FEATURE_V` removed, the rest parsed as a `u16`. */
  function VersionKeyValue(key: string): (v: Option<nat>)
    ensures v.Some? ==> v.value <= U16Max
  {
    ParseU16(ReplaceAll(key, VersionKeyPrefix, ""))
  }

  /** Upper-casing leaves a string without ASCII lower-case letters untouched. */
  lemma UpperOfDigits(s: string)
    requires AllDigits(s)
    ensures AsciiUpper(s) == s
  {
  }

  /** The key of a feature `v<digits>` is the version prefix followed by the digits. */
  lemma VersionFeatureKey(digits: string)
    requires AllDigits(digits)
    ensures EnvKey("v" + digits) == VersionKeyPrefix + digits
  {
    assert AsciiUpper("v" + digits) == "V" + digits;
    assert '-' !in "V" + digits;
    ReplaceCharAbsent("V" + digits, '-', "_");
  }

  /** Removing the version prefix from such a key leaves the digits. */
  lemma StripVersionPrefix(digits: string)
    requires AllDigits(digits)
    ensures ReplaceAll(VersionKeyPrefix + digits, VersionKeyPrefix, "") == digits
  {
    ReplaceLeading(VersionKeyPrefix, digits, "");
    assert 'C' !in digits;
    AbsentByFirstChar(digits, VersionKeyPrefix);
    ReplaceAbsent(digits, VersionKeyPrefix, "");
  }

  /**
   * The key Cargo exports for a version feature is a version key, and reading it back
   * gives the version the feature was written for.
   */
  lemma VersionFeatureRoundTrip(version: nat)
    requires version <= U16Max
    ensures StartsWith(EnvKey(ToFeatureVersion(version)), VersionKeyPrefix)
    ensures VersionKeyValue(EnvKey(ToFeatureVersion(version))) == Some(version)
  {
    var digits := PadZeros(ToDecimal(version), 4);
    PaddedDecimalRoundTrip(version, 4);
    VersionFeatureKey(digits);
    StripVersionPrefix(digits);
  }

  /** A version whose decimal text already has four digits is written without padding. */
  lemma FeatureVersionOfFourDigits(version: nat, digits: string)
    requires version <= U16Max && ToDecimal(version) == digits && |digits| == 4
    ensures ToFeatureVersion(version) == "v" + digits
  {
  }

  /** A version whose decimal text has three digits gets one leading zero. */
  lemma FeatureVersionOfThreeDigits(version: nat, digits: string)
    requires version <= U16Max && ToDecimal(version) == digits && |digits| == 3
    ensures ToFeatureVersion(version) == "v0" + digits
  {
    assert Zeros(1) == "0";
  }

  /** The name the features file carries for version 15.1. */
  lemma FeatureVersion1501(version: nat)
    requires version == 1501
    ensures ToFeatureVersion(version) == "v1501"
  {
    Decimal1501();
    FeatureVersionOfFourDigits(version, "1501");
  }

  /** The name the features file carries for version 1.0: padded to four digits. */
  lemma FeatureVersion100()
    ensures ToFeatureVersion(100) == "v0100"
  {
    Decimal100();
    FeatureVersionOfThreeDigits(100, "100");
  }

}
