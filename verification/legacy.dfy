/**
 * The older catalog builder (`generator`). It reads the data file with the same line shapes as
 * the current one, but records keep the raw header labels and the version token as text, there
 * is no "component" exclusion and no error for a missing context, and one feature list holds the
 * group and subgroup names in header order. Its `filter` uses `<label>` and `skip-<label>`
 * features.
 */
module LegacyCatalog {
  import opened Results
  import opened Seqs
  import opened Text
  import opened Features
  import opened EmojiTest

  /** One record: the glyph, the raw labels in force, and the version token without its `E`s. */
  datatype Record = Record(glyph: string, group: string, subgroup: string, version: string)

  /** What `Collection::all` returns: the records and the normalised header names. */
  datatype Collection = Collection(emojis: seq<Record>, features: seq<string>)

  datatype Builder = Builder(group: string, subgroup: string, out: Collection)

  /** One line of the data file as the loop body reads it, once trimmed. */
  datatype Line =
    | Skip                                       // empty, another comment, or not fully-qualified
    | GroupHeader(name: Option<string>)          // the raw label; None when `: ` is missing
    | SubgroupHeader(name: Option<string>)
    | Data(fields: Result<DataFields, Problem>)  // a fully-qualified data line, split

  /** How the loop body tells lines apart, in the order it tests them. */
  function Classify(raw: string): (l: Line)
    ensures l.GroupHeader? <==> IsGroupHeader(Trim(raw))
    ensures l.SubgroupHeader? <==> IsSubgroupHeader(Trim(raw))
    ensures l.Data? <==> IsCandidate(Trim(raw))
    ensures l.GroupHeader? || l.SubgroupHeader? ==> l.name == HeaderLabel(Trim(raw))
    ensures l.Data? ==> l.fields == SplitDataLine(Trim(raw))
  {
    var line := Trim(raw);
    HeadersAreComments(line);
    if line == [] then
      assert !IsFullyQualified(line);
      Skip
    else if IsGroupHeader(line) then GroupHeader(HeaderLabel(line))
    else if IsSubgroupHeader(line) then SubgroupHeader(HeaderLabel(line))
    else if IsComment(line) || !IsFullyQualified(line) then Skip
    else Data(SplitDataLine(line))
  }

  function ClassifyAll(lines: seq<string>): (ls: seq<Line>)
    ensures |ls| == |lines|
    ensures forall i :: 0 <= i < |lines| ==> ls[i] == Classify(lines[i])
  {
    seq(|lines|, i requires 0 <= i < |lines| => Classify(lines[i]))
  }

  const Start: Builder := Builder("", "", Collection([], []))

  /** One iteration of the loop: only a header without a label or a data line without a version token fails. */
  function Step(b: Builder, l: Line): (r: Result<Builder, Problem>)
    ensures l.Skip? ==> r == Ok(b)
    ensures r.Ok? ==> Appends(b.out.emojis, r.value.out.emojis) && (!l.Data? ==> r.value.out.emojis == b.out.emojis)
    ensures r.Ok? ==> Appends(b.out.features, r.value.out.features)
  {
    match l
    case Skip => Ok(b)
    case GroupHeader(None) => Err(MissingField)
    case GroupHeader(Some(g)) =>
      Ok(b.(group := g, out := b.out.(features := b.out.features + [ToFeatureName(g)])))
    case SubgroupHeader(None) => Err(MissingField)
    case SubgroupHeader(Some(s)) =>
      Ok(b.(subgroup := s, out := b.out.(features := b.out.features + [ToFeatureName(s)])))
    case Data(Err(p)) => Err(p)
    case Data(Ok(f)) =>
      var r := Record(f.glyph, b.group, b.subgroup, StripE(f.versionToken));
      Ok(b.(out := b.out.(emojis := b.out.emojis + [r])))
  }

  /** The fold over the classified lines; the first failing line ends it with that line's error. */
  function Scan(ls: seq<Line>): (r: Result<Builder, ParseError>)
    ensures r.Err? ==> r.error.line < |ls|
    decreases |ls|
  {
    if |ls| == 0 then Ok(Start)
    else
      match Scan(ls[..|ls| - 1])
      case Err(e) => Err(e)
      case Ok(b) =>
        match Step(b, ls[|ls| - 1])
        case Err(p) => Err(ParseError(|ls| - 1, p))
        case Ok(b') => Ok(b')
  }

  /** `Collection::all`, over the data file's lines. */
  function All(lines: seq<string>): (r: Result<Collection, ParseError>)
    ensures r.Err? ==> r.error.line < |lines|
  {
    match Scan(ClassifyAll(lines))
    case Err(e) => Err(e)
    case Ok(b) => Ok(b.out)
  }

  lemma ScanSnoc(prefix: seq<Line>, l: Line)
    ensures Scan(prefix + [l]).Ok? ==>
      && Scan(prefix).Ok? && Step(Scan(prefix).value, l).Ok?
      && Scan(prefix + [l]).value == Step(Scan(prefix).value, l).value
    ensures Scan(prefix).Err? ==> Scan(prefix + [l]) == Scan(prefix)
    ensures Scan(prefix).Ok? && Step(Scan(prefix).value, l).Err? ==>
      Scan(prefix + [l]) == Err(ParseError(|prefix|, Step(Scan(prefix).value, l).error))
  {
    assert (prefix + [l])[..|prefix|] == prefix;
  }

  // A reference reading of the fold.

  /** The raw label of the last group header with a label, or empty. */
  function GroupAt(ls: seq<Line>): string
    decreases |ls|
  {
    if |ls| == 0 then ""
    else
      var l := ls[|ls| - 1];
      if l.GroupHeader? && l.name.Some? then l.name.value else GroupAt(ls[..|ls| - 1])
  }

  /** The raw label of the last subgroup header with a label, or empty; a new group does not reset it. */
  function SubgroupAt(ls: seq<Line>): string
    decreases |ls|
  {
    if |ls| == 0 then ""
    else
      var l := ls[|ls| - 1];
      if l.SubgroupHeader? && l.name.Some? then l.name.value else SubgroupAt(ls[..|ls| - 1])
  }

  /** The normalised names of all headers, groups and subgroups interleaved in file order. */
  function FeaturesOf(ls: seq<Line>): seq<string>
    decreases |ls|
  {
    if |ls| == 0 then []
    else
      var l := ls[|ls| - 1];
      FeaturesOf(ls[..|ls| - 1])
        + (if (l.GroupHeader? || l.SubgroupHeader?) && l.name.Some? then [ToFeatureName(l.name.value)] else [])
  }

  /** A record per split data line, under the raw labels in force, in order. */
  function RecordsOf(ls: seq<Line>): seq<Record>
    decreases |ls|
  {
    if |ls| == 0 then []
    else
      var prefix, l := ls[..|ls| - 1], ls[|ls| - 1];
      RecordsOf(prefix)
        + (if l.Data? && l.fields.Ok?
           then [Record(l.fields.value.glyph, GroupAt(prefix), SubgroupAt(prefix), StripE(l.fields.value.versionToken))]
           else [])
  }

  predicate Agrees(b: Builder, ls: seq<Line>) {
    && b.group == GroupAt(ls)
    && b.subgroup == SubgroupAt(ls)
    && b.out.emojis == RecordsOf(ls)
    && b.out.features == FeaturesOf(ls)
  }

  lemma ReferenceSnoc(prefix: seq<Line>, l: Line)
    ensures var ls := prefix + [l];
      && GroupAt(ls) == (if l.GroupHeader? && l.name.Some? then l.name.value else GroupAt(prefix))
      && SubgroupAt(ls) == (if l.SubgroupHeader? && l.name.Some? then l.name.value else SubgroupAt(prefix))
      && FeaturesOf(ls) == FeaturesOf(prefix)
           + (if (l.GroupHeader? || l.SubgroupHeader?) && l.name.Some? then [ToFeatureName(l.name.value)] else [])
      && RecordsOf(ls) == RecordsOf(prefix)
           + (if l.Data? && l.fields.Ok?
              then [Record(l.fields.value.glyph, GroupAt(prefix), SubgroupAt(prefix), StripE(l.fields.value.versionToken))]
              else [])
  {
    assert (prefix + [l])[..|prefix|] == prefix;
  }

  lemma StepAgrees(b: Builder, prefix: seq<Line>, l: Line)
    requires Agrees(b, prefix) && Step(b, l).Ok?
    ensures Agrees(Step(b, l).value, prefix + [l])
  {
    ReferenceSnoc(prefix, l);
  }

  /** Whenever the fold succeeds, its context, records and feature list are those of the reference reading. */
  lemma {:induction false} ScanMatchesReference(ls: seq<Line>)
    ensures Scan(ls).Ok? ==> Agrees(Scan(ls).value, ls)
    decreases |ls|
  {
    if |ls| > 0 && Scan(ls).Ok? {
      var prefix, l := ls[..|ls| - 1], ls[|ls| - 1];
      ScanSnoc(prefix, l);
      assert prefix + [l] == ls;
      ScanMatchesReference(prefix);
      StepAgrees(Scan(prefix).value, prefix, l);
    }
  }

  /** A line that fails whatever came before it: a header without a label, or a data line that does not split. */
  predicate Bad(l: Line) {
    ((l.GroupHeader? || l.SubgroupHeader?) && l.name.None?) || (l.Data? && l.fields.Err?)
  }

  lemma StepFailsExactly(b: Builder, l: Line)
    ensures Step(b, l).Err? <==> Bad(l)
  {
  }

  /**
   * The fold fails exactly when some line is bad, and then it reports the first bad line.
   * Unlike the current builder, the context never causes an error.
   */
  lemma {:induction false} ScanFailsAtFirstBadLine(ls: seq<Line>)
    ensures Scan(ls).Ok? <==> forall i :: 0 <= i < |ls| ==> !Bad(ls[i])
    ensures Scan(ls).Err? ==>
      var i := Scan(ls).error.line;
      Bad(ls[i]) && forall j :: 0 <= j < i ==> !Bad(ls[j])
    decreases |ls|
  {
    if |ls| > 0 {
      var prefix, l := ls[..|ls| - 1], ls[|ls| - 1];
      ScanSnoc(prefix, l);
      assert prefix + [l] == ls;
      ScanFailsAtFirstBadLine(prefix);
      assert forall j :: 0 <= j < |prefix| ==> prefix[j] == ls[j];
      if Scan(prefix).Ok? {
        StepFailsExactly(Scan(prefix).value, l);
      }
    }
  }

  /** Without any header line, every record carries an empty group and subgroup. */
  lemma {:induction false} NoHeaderNoLabels(ls: seq<Line>)
    requires forall i :: 0 <= i < |ls| ==> !ls[i].GroupHeader? && !ls[i].SubgroupHeader?
    ensures GroupAt(ls) == "" && SubgroupAt(ls) == "" && FeaturesOf(ls) == []
    ensures forall r :: r in RecordsOf(ls) ==> r.group == "" && r.subgroup == ""
    decreases |ls|
  {
    if |ls| > 0 {
      var prefix := ls[..|ls| - 1];
      assert forall i :: 0 <= i < |prefix| ==> prefix[i] == ls[i];
      NoHeaderNoLabels(prefix);
    }
  }

  /** A file of one split data line yields one record with empty labels and no features. */
  lemma SingleDataLine(line: string, f: DataFields)
    requires Classify(line) == Data(Ok(f))
    ensures All([line]) == Ok(Collection([Record(f.glyph, "", "", StripE(f.versionToken))], []))
  {
    var l := Data(Ok(f));
    var r := Record(f.glyph, "", "", StripE(f.versionToken));
    assert ClassifyAll([line]) == [] + [l];
    assert Step(Start, l) == Ok(Builder("", "", Collection([r], []))) by {
      assert [] + [r] == [r];
    }
    ScanSnoc([], l);
  }

  /**
   * A data line before any header is not an error: it yields a record with empty labels.
   * The file's first data line, read alone, is such a record.
   */
  lemma DataLineWithoutContext(codes: string, glyph: string, token: string, name: string)
    requires codes == "1F600 ; fully-qualified " && glyph == "\U{1F600}" && token == "E1.0" && name == "grinning face"
    ensures All([codes + "# " + glyph + " " + token + " " + name])
      == Ok(Collection([Record("\U{1F600}", "", "", "1.0")], []))
  {
    var line := codes + "# " + glyph + " " + token + " " + name;
    GrinningLineLaidOut(codes, glyph, token, name);
    DataLineShape(codes, 8, glyph, token, name);
    SingleDataLine(line, DataFields(glyph, token));
    assert StripE(token) == "1.0" by {
      assert token == "E" + "1.0";
      StripLeadingE("1.0");
    }
  }

  // The filter.

  /** The key Cargo exports when the `additive` feature is enabled. */
  const AdditiveKey := "CARGO_FEATURE_ADDITIVE"

  /** Every key of a `skip-` feature starts with this. */
  const SkipKeyPrefix := "CARGO_FEATURE_SKIP_"

  /**
   * How a label is turned into the feature name it is looked up under: the source uses the raw
   * label; the corrected filter uses the normalised name the feature list declares.
   */
  datatype Lookup = RawLabel | FeatureName

  function NameFor(lookup: Lookup, raw: string): string {
    match lookup
    case RawLabel => raw
    case FeatureName => ToFeatureName(raw)
  }

  /** The record's group or subgroup feature is enabled. */
  predicate Included(env: set<string>, lookup: Lookup, r: Record) {
    HasEnvFeature(env, NameFor(lookup, r.group)) || HasEnvFeature(env, NameFor(lookup, r.subgroup))
  }

  /** The record's `skip-` group or subgroup feature is enabled. */
  predicate Skipped(env: set<string>, lookup: Lookup, r: Record) {
    HasEnvFeature(env, "skip-" + NameFor(lookup, r.group)) || HasEnvFeature(env, "skip-" + NameFor(lookup, r.subgroup))
  }

  /** Additive mode keeps what is included and not skipped; otherwise everything not skipped. */
  predicate Kept(env: set<string>, lookup: Lookup, r: Record) {
    if AdditiveKey in env then Included(env, lookup, r) && !Skipped(env, lookup, r)
    else !Skipped(env, lookup, r)
  }

  function KeepRule(env: set<string>, lookup: Lookup): Record -> bool {
    (r: Record) => Kept(env, lookup, r)
  }

  /** The records the filter keeps, in catalog order. */
  function Selected(c: Collection, env: set<string>, lookup: Lookup): seq<Record> {
    Keep(c.emojis, KeepRule(env, lookup))
  }

  function Glyphs(rs: seq<Record>): (gs: seq<string>)
    ensures |gs| == |rs|
    ensures forall i :: 0 <= i < |rs| ==> gs[i] == rs[i].glyph
    ensures forall g :: g in gs <==> exists r :: r in rs && r.glyph == g
  {
    seq(|rs|, i requires 0 <= i < |rs| => rs[i].glyph)
  }

  /** `filter` as written: labels are looked up raw. */
  function FilterAsWritten(c: Collection, env: set<string>): (gs: seq<string>)
    ensures |gs| <= |c.emojis|
    ensures forall g :: g in gs <==> exists r :: r in c.emojis && Kept(env, RawLabel, r) && r.glyph == g
  {
    SelectedAllMembers(c, env, RawLabel);
    Glyphs(Selected(c, env, RawLabel))
  }

  /** `filter` corrected: labels are looked up under their feature names. */
  function Filter(c: Collection, env: set<string>): (gs: seq<string>)
    ensures |gs| <= |c.emojis|
    ensures forall g :: g in gs <==> exists r :: r in c.emojis && Kept(env, FeatureName, r) && r.glyph == g
  {
    SelectedAllMembers(c, env, FeatureName);
    Glyphs(Selected(c, env, FeatureName))
  }

  /** A record is selected exactly when it is in the catalog and kept, for every record at once. */
  lemma SelectedAllMembers(c: Collection, env: set<string>, lookup: Lookup)
    ensures forall r :: r in Selected(c, env, lookup) <==> r in c.emojis && Kept(env, lookup, r)
  {
    forall r
      ensures r in Selected(c, env, lookup) <==> r in c.emojis && Kept(env, lookup, r)
    {
      SelectedMembers(c, env, lookup, r);
    }
  }

  /** A record is selected exactly when it is in the catalog and kept. */
  lemma SelectedMembers(c: Collection, env: set<string>, lookup: Lookup, r: Record)
    ensures r in Selected(c, env, lookup) <==> r in c.emojis && Kept(env, lookup, r)
  {
    if r in c.emojis && Kept(env, lookup, r) {
      KeepContains(c.emojis, KeepRule(env, lookup), r);
    }
    if r in Selected(c, env, lookup) {
      KeepSound(c.emojis, KeepRule(env, lookup), r);
    }
  }

  /** The filter keeps catalog order: its records are a subsequence of the catalog's. */
  lemma SelectedIsSubsequence(c: Collection, env: set<string>, lookup: Lookup)
    ensures IsSubsequence(Selected(c, env, lookup), c.emojis)
  {
    KeepIsSubsequence(c.emojis, KeepRule(env, lookup));
  }

  lemma SkipPrefixKey(skip: string, upper: string)
    requires skip == "skip-" && upper == AsciiUpper(skip)
    ensures upper == "SKIP-" && ReplaceChar(upper, '-', "_") == "SKIP_"
  {
    assert upper == "SKIP-";
    assert ReplaceChar("SKIP-", '-', "_") == "SKIP_";
  }

  /** The key of a `skip-` feature is the skip prefix followed by the rest of the name's key. */
  lemma SkipKey(name: string)
    ensures EnvKey("skip-" + name) == SkipKeyPrefix + ReplaceChar(AsciiUpper(name), '-', "_")
  {
    var skip := "skip-";
    AsciiUpperConcat(skip, name);
    SkipPrefixKey(skip, AsciiUpper(skip));
    ReplaceCharConcat(AsciiUpper(skip), AsciiUpper(name), '-', "_");
  }

  lemma SkipKeyStarts(name: string)
    ensures StartsWith(EnvKey("skip-" + name), SkipKeyPrefix)
  {
    SkipKey(name);
    var rest := ReplaceChar(AsciiUpper(name), '-', "_");
    assert (SkipKeyPrefix + rest)[..|SkipKeyPrefix|] == SkipKeyPrefix;
  }

  /** Keys that are neither `additive` nor a `skip-` key do not change whether a record is kept outside additive mode. */
  lemma PlainKeysIrrelevant(env: set<string>, extra: set<string>, lookup: Lookup, r: Record)
    requires AdditiveKey !in env && AdditiveKey !in extra
    requires forall k :: k in extra ==> !StartsWith(k, SkipKeyPrefix)
    ensures KeepRule(env + extra, lookup)(r) == KeepRule(env, lookup)(r)
  {
    SkipKeyStarts(NameFor(lookup, r.group));
    SkipKeyStarts(NameFor(lookup, r.subgroup));
    assert Kept(env + extra, lookup, r) == Kept(env, lookup, r);
  }

  /**
   * Outside additive mode, enabling plain group or subgroup features (any keys other than
   * `additive` and the `skip-` keys) changes nothing.
   */
  lemma NonAdditiveIgnoresPlainFeatures(c: Collection, env: set<string>, extra: set<string>, lookup: Lookup)
    requires AdditiveKey !in env && AdditiveKey !in extra
    requires forall k :: k in extra ==> !StartsWith(k, SkipKeyPrefix)
    ensures Selected(c, env + extra, lookup) == Selected(c, env, lookup)
  {
    forall r | r in c.emojis
      ensures KeepRule(env + extra, lookup)(r) == KeepRule(env, lookup)(r)
    {
      PlainKeysIrrelevant(env, extra, lookup, r);
    }
    KeepExtensional(c.emojis, KeepRule(env + extra, lookup), KeepRule(env, lookup));
  }

  // What the raw lookup misses.

  /**
   * As written, a label containing a space (every two-word group such as "Smileys & Emotion")
   * is looked up under a key with a space, which no declared feature has: with only declared
   * features enabled, such a record is neither included nor skipped by that label.
   */
  lemma RawLabelWithSpaceNeverMatches(env: set<string>, raw: string)
    requires forall k :: k in env ==> ' ' !in k
    requires ' ' in raw
    ensures !HasEnvFeature(env, NameFor(RawLabel, raw))
    ensures !HasEnvFeature(env, "skip-" + NameFor(RawLabel, raw))
  {
    EnvKeyKeepsSpace(raw);
    assert ' ' in "skip-" + raw by {
      var i :| 0 <= i < |raw| && raw[i] == ' ';
      assert ("skip-" + raw)[5 + i] == ' ';
    }
    EnvKeyKeepsSpace("skip-" + raw);
  }

  /** A catalog of one record filters to its glyph when the record is kept, and to nothing otherwise. */
  lemma SingleRecordFilter(r: Record, env: set<string>, lookup: Lookup)
    ensures Kept(env, lookup, r) ==> Glyphs(Selected(Collection([r], []), env, lookup)) == [r.glyph]
    ensures !Kept(env, lookup, r) ==> Glyphs(Selected(Collection([r], []), env, lookup)) == []
  {
    assert [r][..0] == [];
  }

  /**
   * As written, a record whose group label has a space is kept outside additive mode whenever
   * only declared features are enabled and its subgroup's skip feature is not one of them:
   * the skip feature of its group is never seen.
   */
  lemma SpacedGroupNeverSkipped(env: set<string>, r: Record)
    requires forall k :: k in env ==> ' ' !in k
    requires AdditiveKey !in env
    requires ' ' in r.group && EnvKey("skip-" + r.subgroup) !in env
    ensures Kept(env, RawLabel, r)
  {
    RawLabelWithSpaceNeverMatches(env, r.group);
  }

  const SmileysLabel := "Smileys & Emotion"

  /** Two words joined by a space contain a space. */
  lemma LabelWithSpace(a: string, b: string)
    ensures ' ' in a + " " + b
  {
    assert (a + " " + b)[|a|] == ' ';
  }

  /** `skip-` followed by a feature name is a feature name. */
  lemma SkipFeatureName(feature: string)
    requires IsFeatureName(feature)
    ensures IsFeatureName("skip-" + feature)
  {
    var s := "skip-" + feature;
    assert forall i :: 5 <= i < |s| ==> s[i] == feature[i - 5];
  }

  /** The key Cargo exports for `skip-smileys-and-emotion`, the skip feature declared for the first group. */
  lemma SmileysSkipKey(feature: string, key: string)
    requires feature == ToFeatureName(SmileysLabel) && key == EnvKey("skip-" + feature)
    ensures ' ' !in key && |key| == 38
  {
    SmileysAndEmotionName();
    SkipFeatureName(feature);
    FeatureKeyHasNoSpace("skip-" + feature);
    EnvKeyLength("skip-" + feature);
  }

  /**
   * When the only enabled feature has a key without a space, the raw lookup keeps a record
   * whose group label has a space, unless that key is `additive` (additive mode with nothing
   * included) or the record's subgroup skip key.
   */
  lemma SpacedRecordKept(r: Record, env: set<string>, key: string)
    requires ' ' in r.group
    requires ' ' !in key && key != AdditiveKey && key != EnvKey("skip-" + r.subgroup) && env == {key}
    ensures Kept(env, RawLabel, r)
  {
    SpacedGroupNeverSkipped(env, r);
  }

  /**
   * The as-written filter keeps the file's first record although `skip-smileys-and-emotion`,
   * the skip feature declared for its group, is the only feature enabled.
   */
  lemma SkipIgnoredAsWritten(r: Record, env: set<string>)
    requires r == Record("\U{1F600}", SmileysLabel, "face-smiling", "1.0")
    requires env == {EnvKey("skip-" + ToFeatureName(SmileysLabel))}
    ensures Kept(env, RawLabel, r)
    ensures FilterAsWritten(Collection([r], []), env) == [r.glyph]
  {
    var key := EnvKey("skip-" + ToFeatureName(SmileysLabel));
    SmileysSkipKey(ToFeatureName(SmileysLabel), key);
    EnvKeyLength("skip-" + r.subgroup);
    assert key != AdditiveKey && key != EnvKey("skip-" + r.subgroup);
    LabelWithSpace("Smileys", "& Emotion");
    SpacedRecordKept(r, env, key);
    SingleRecordFilter(r, env, RawLabel);
  }

  /** With the corrected lookup, enabling the skip feature of a record's group or subgroup drops it. */
  lemma SkipHonoured(c: Collection, env: set<string>, r: Record)
    requires EnvKey("skip-" + ToFeatureName(r.group)) in env || EnvKey("skip-" + ToFeatureName(r.subgroup)) in env
    ensures r !in Selected(c, env, FeatureName)
  {
    SelectedMembers(c, env, FeatureName, r);
  }

  /** With the corrected lookup, the file's first record is dropped when its group's skip feature is enabled. */
  lemma SkipHonouredExample(r: Record, env: set<string>)
    requires r == Record("\U{1F600}", SmileysLabel, "face-smiling", "1.0")
    requires env == {EnvKey("skip-" + ToFeatureName(SmileysLabel))}
    ensures Filter(Collection([r], []), env) == []
  {
    assert EnvKey("skip-" + ToFeatureName(r.group)) in env;
    SingleRecordFilter(r, env, FeatureName);
  }
}
