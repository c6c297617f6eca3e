/**
 * The current catalog builder (`hashmoji_generator`): `Collection::all` folds over the lines
 * of the data file with a running group/subgroup context, and produces the fully-qualified
 * records outside the "component" group, the group and subgroup feature names, and the set
 * of versions seen. The fold is `Scan`, one line at a time through `Step`.
 */
module Catalog {
  import opened Results
  import opened Seqs
  import opened Text
  import opened Decimal
  import opened Features
  import opened EmojiTest

  /** One record: a glyph with its normalised taxonomy, encoded version and modifier flags. */
  datatype Emoji = Emoji(
    glyph: string,
    group: string,
    subgroup: string,
    version: nat,
    hasGender: bool,
    hasSkinTone: bool,
    hasHairStyle: bool)

  /** What `Collection::all` returns. */
  datatype Collection = Collection(
    emojis: seq<Emoji>,
    groupFeatures: seq<string>,
    subgroupFeatures: seq<string>,
    versions: set<nat>)

  /** The fold's accumulator: the current context and everything collected so far. */
  datatype Builder = Builder(group: string, subgroup: string, out: Collection)

  /** The group whose glyphs (skin-tone swatches, hair components) are never offered. */
  const Component := "component"

  // Modifier flags, each a membership test on the glyph's code points.

  predicate HasGender(glyph: string) {
    '\U{2640}' in glyph || '\U{2642}' in glyph || '\U{1F468}' in glyph || '\U{1F469}' in glyph
  }

  predicate HasSkinTone(glyph: string) {
    || '\U{1F3FB}' in glyph || '\U{1F3FC}' in glyph || '\U{1F3FD}' in glyph
    || '\U{1F3FE}' in glyph || '\U{1F3FF}' in glyph
  }

  predicate HasHairStyle(glyph: string) {
    '\U{1F9B0}' in glyph || '\U{1F9B1}' in glyph || '\U{1F9B3}' in glyph || '\U{1F9B2}' in glyph
  }

  /** The five skin-tone modifiers are exactly the code points U+1F3FB..U+1F3FF. */
  lemma SkinToneIsModifierRange(glyph: string)
    ensures HasSkinTone(glyph) <==> exists i :: 0 <= i < |glyph| && '\U{1F3FB}' <= glyph[i] <= '\U{1F3FF}'
  {
    if exists i :: 0 <= i < |glyph| && '\U{1F3FB}' <= glyph[i] <= '\U{1F3FF}' {
      var i :| 0 <= i < |glyph| && '\U{1F3FB}' <= glyph[i] <= '\U{1F3FF}';
      var c := glyph[i];
      assert c == '\U{1F3FB}' || c == '\U{1F3FC}' || c == '\U{1F3FD}' || c == '\U{1F3FE}' || c == '\U{1F3FF}';
    }
  }

  /** The four hair-style components are exactly the code points U+1F9B0..U+1F9B3. */
  lemma HairStyleIsComponentRange(glyph: string)
    ensures HasHairStyle(glyph) <==> exists i :: 0 <= i < |glyph| && '\U{1F9B0}' <= glyph[i] <= '\U{1F9B3}'
  {
    if exists i :: 0 <= i < |glyph| && '\U{1F9B0}' <= glyph[i] <= '\U{1F9B3}' {
      var i :| 0 <= i < |glyph| && '\U{1F9B0}' <= glyph[i] <= '\U{1F9B3}';
      var c := glyph[i];
      assert c == '\U{1F9B0}' || c == '\U{1F9B1}' || c == '\U{1F9B2}' || c == '\U{1F9B3}';
    }
  }

  /**
   * The version token read as a `u16`: every `E` removed, split on `.`, the first two parts
   * parsed, and encoded as major*100+minor (so E15.1 is 1501). A non-number, a missing
   * minor part or a result beyond 16 bits is an error.
   */
  function DecodeVersion(token: string): (r: Result<nat, Problem>)
    ensures r.Ok? ==> r.value <= U16Max
    ensures IndexOf(StripE(token), ".").None? ==> r.Err?
    ensures var parts := Split(StripE(token), ".");
      ParseU16(parts[0]).None? || (|parts| >= 2 && ParseU16(parts[1]).None?) ==> r == Err(BadNumber)
    ensures var parts := Split(StripE(token), ".");
      r.Ok? ==>
        && |parts| >= 2 && ParseU16(parts[0]).Some? && ParseU16(parts[1]).Some?
        && r.value == ParseU16(parts[0]).value * 100 + ParseU16(parts[1]).value
  {
    SplitSingle(StripE(token), ".");
    DecodeParts(Split(StripE(token), "."))
  }

  /**
   * The pieces of the stripped token read as major and minor version. Pieces after the
   * second are never looked at.
   */
  function DecodeParts(parts: seq<string>): (r: Result<nat, Problem>)
    requires |parts| >= 1
    ensures r.Ok? ==> r.value <= U16Max
    ensures |parts| < 2 ==> r.Err?
    ensures ParseU16(parts[0]).None? || (|parts| >= 2 && ParseU16(parts[1]).None?) ==> r == Err(BadNumber)
    ensures r.Ok? <==>
      && |parts| >= 2 && ParseU16(parts[0]).Some? && ParseU16(parts[1]).Some?
      && ParseU16(parts[0]).value * 100 + ParseU16(parts[1]).value <= U16Max
    ensures r.Ok? ==> r.value == ParseU16(parts[0]).value * 100 + ParseU16(parts[1]).value
  {
    match ParseU16(parts[0])
    case None => Err(BadNumber)
    case Some(major) =>
      if |parts| < 2 then Err(MissingField)
      else
        match ParseU16(parts[1])
        case None => Err(BadNumber)
        case Some(minor) =>
          if major * 100 + minor > U16Max then Err(VersionOverflow) else Ok(major * 100 + minor)
  }

  lemma StripVersionToken(major: string, minor: string)
    requires AllDigits(major) && AllDigits(minor)
    ensures StripE("E" + major + "." + minor) == major + "." + minor
  {
    var rest := major + "." + minor;
    assert 'E' !in major && 'E' !in minor;
    assert 'E' !in rest;
    assert "E" + major + "." + minor == "E" + rest;
    StripLeadingE(rest);
  }

  lemma SplitVersion(major: string, minor: string)
    requires AllDigits(major) && AllDigits(minor)
    ensures Split(major + "." + minor, ".") == [major, minor]
  {
    assert '.' !in major;
    SplitAt(major, ".", minor);
    assert '.' !in minor;
    SplitWhole(minor, ".");
  }

  /** A token whose first two pieces parse decodes to major*100+minor, whatever pieces follow. */
  lemma DecodeVersionOfParts(token: string, parts: seq<string>, major: nat, minor: nat)
    requires Split(StripE(token), ".") == parts && |parts| >= 2
    requires ParseU16(parts[0]) == Some(major) && ParseU16(parts[1]) == Some(minor)
    requires major * 100 + minor <= U16Max
    ensures DecodeVersion(token) == Ok(major * 100 + minor)
  {
    assert DecodeParts(parts) == Ok(major * 100 + minor);
  }

  /** Writing `E<major>.<minor>` and decoding it gives major*100+minor back. */
  lemma VersionRoundTrip(major: nat, minor: nat)
    requires major * 100 + minor <= U16Max
    ensures DecodeVersion("E" + ToDecimal(major) + "." + ToDecimal(minor)) == Ok(major * 100 + minor)
  {
    var a, b := ToDecimal(major), ToDecimal(minor);
    StripVersionToken(a, b);
    SplitVersion(a, b);
    assert major <= U16Max && minor <= U16Max;
    DecimalRoundTrip(major);
    DecimalRoundTrip(minor);
    DecodeVersionOfParts("E" + a + "." + b, [a, b], major, minor);
  }

  lemma DecodeE15Point1()
    ensures DecodeVersion("E15.1") == Ok(1501)
  {
    DecimalStep(1, 5);
    assert ToDecimal(15) == "15";
    assert ToDecimal(1) == "1";
    VersionRoundTrip(15, 1);
    assert "E" + "15" + "." + "1" == "E15.1";
  }

  lemma DecodeE1Point0()
    ensures DecodeVersion("E1.0") == Ok(100)
  {
    assert ToDecimal(1) == "1";
    assert ToDecimal(0) == "0";
    VersionRoundTrip(1, 0);
    assert "E" + "1" + "." + "0" == "E1.0";
  }

  /** E15.1 encodes as 1501 and E1.0 as 100. */
  lemma VersionExamples()
    ensures DecodeVersion("E15.1") == Ok(1501)
    ensures DecodeVersion("E1.0") == Ok(100)
  {
    DecodeE15Point1();
    DecodeE1Point0();
  }

  /** A token without a `.` once its `E`s are gone is rejected. */
  lemma VersionNeedsMinor(token: string)
    requires '.' !in StripE(token)
    ensures DecodeVersion(token).Err?
  {
    AbsentByFirstChar(StripE(token), ".");
  }

  /** For minor parts below 100 the encoding orders versions as (major, minor) pairs. */
  lemma VersionEncodingOrdered(major1: nat, minor1: nat, major2: nat, minor2: nat)
    requires minor1 < 100 && minor2 < 100
    ensures major1 * 100 + minor1 <= major2 * 100 + minor2
        <==> major1 < major2 || (major1 == major2 && minor1 <= minor2)
  {
    if major1 < major2 {
      assert major1 * 100 + 100 <= major2 * 100;
    } else if major1 > major2 {
      assert major2 * 100 + 100 <= major1 * 100;
    }
  }


  /** What a data line contributes before the group and subgroup are attached. */
  datatype Fields = Fields(glyph: string, version: nat, hasGender: bool, hasSkinTone: bool, hasHairStyle: bool)

  /** The glyph, encoded version and modifier flags of a data line. */
  function DecodeFields(line: string): (r: Result<Fields, Problem>)
    ensures r.Ok? <==> SplitDataLine(line).Ok? && DecodeVersion(SplitDataLine(line).value.versionToken).Ok?
    ensures r.Ok? ==> r.value.glyph == SplitDataLine(line).value.glyph && ' ' !in r.value.glyph
    ensures r.Ok? ==> Ok(r.value.version) == DecodeVersion(SplitDataLine(line).value.versionToken)
    ensures r.Ok? ==> r.value.version <= U16Max
    ensures r.Ok? ==> (r.value.hasGender <==> HasGender(r.value.glyph))
    ensures r.Ok? ==> (r.value.hasSkinTone <==> HasSkinTone(r.value.glyph))
    ensures r.Ok? ==> (r.value.hasHairStyle <==> HasHairStyle(r.value.glyph))
  {
    match SplitDataLine(line)
    case Err(p) => Err(p)
    case Ok(parts) =>
      var glyph := parts.glyph;
      match DecodeVersion(parts.versionToken)
      case Err(p) => Err(p)
      case Ok(version) => Ok(Fields(glyph, version, HasGender(glyph), HasSkinTone(glyph), HasHairStyle(glyph)))
  }

  /** The record for decoded fields under a group and subgroup. */
  function Attach(f: Fields, group: string, subgroup: string): Emoji {
    Emoji(f.glyph, group, subgroup, f.version, f.hasGender, f.hasSkinTone, f.hasHairStyle)
  }

  /** One line of the data file as the loop body reads it, once trimmed. */
  datatype Line =
    | Skip                                   // empty, another comment, or not fully-qualified
    | GroupHeader(name: Option<string>)      // the normalised label; None when `: ` is missing
    | SubgroupHeader(name: Option<string>)
    | Data(fields: Result<Fields, Problem>)  // a fully-qualified data line, decoded

  /** A header's label, normalised, if the header has one. */
  function HeaderName(line: string): (r: Option<string>)
    ensures r.Some? <==> HeaderLabel(line).Some?
    ensures r.Some? ==> r.value == ToFeatureName(HeaderLabel(line).value)
  {
    match HeaderLabel(line)
    case None => None
    case Some(raw) => Some(ToFeatureName(raw))
  }

  /** How the loop body tells lines apart, in the order it tests them. */
  function Classify(raw: string): (l: Line)
    ensures l.GroupHeader? <==> IsGroupHeader(Trim(raw))
    ensures l.SubgroupHeader? <==> IsSubgroupHeader(Trim(raw))
    ensures l.Data? <==> IsCandidate(Trim(raw))
    ensures l.GroupHeader? || l.SubgroupHeader? ==> l.name == HeaderName(Trim(raw))
    ensures l.Data? ==> l.fields == DecodeFields(Trim(raw))
  {
    var line := Trim(raw);
    HeadersAreComments(line);
    if line == [] then
      assert !IsFullyQualified(line);
      Skip
    else if IsGroupHeader(line) then GroupHeader(HeaderName(line))
    else if IsSubgroupHeader(line) then SubgroupHeader(HeaderName(line))
    else if IsComment(line) || !IsFullyQualified(line) then Skip
    else Data(DecodeFields(line))
  }

  /** Every line of the file, classified. */
  function ClassifyAll(lines: seq<string>): (ls: seq<Line>)
    ensures |ls| == |lines|
    ensures forall i :: 0 <= i < |lines| ==> ls[i] == Classify(lines[i])
  {
    seq(|lines|, i requires 0 <= i < |lines| => Classify(lines[i]))
  }

  /** What classification guarantees: normalised labels and 16-bit versions. */
  predicate Proper(l: Line) {
    && (l.GroupHeader? && l.name.Some? ==> IsFeatureName(l.name.value))
    && (l.SubgroupHeader? && l.name.Some? ==> IsFeatureName(l.name.value))
    && (l.Data? && l.fields.Ok? ==> l.fields.value.version <= U16Max)
  }

  lemma ClassifyIsProper(raw: string)
    ensures Proper(Classify(raw))
  {
  }

  /** The promises `Collection::all` keeps about what it returns. */
  predicate WellFormed(c: Collection) {
    && (forall e :: e in c.emojis ==>
          && e.group != [] && e.subgroup != [] && e.group != Component
          && IsFeatureName(e.group) && IsFeatureName(e.subgroup)
          && e.version <= U16Max)
    && (forall g :: g in c.groupFeatures ==> g != Component && IsFeatureName(g))
    && (forall g :: g in c.subgroupFeatures ==> IsFeatureName(g))
    && c.versions == set e | e in c.emojis :: e.version
  }

  predicate Valid(b: Builder) {
    IsFeatureName(b.group) && IsFeatureName(b.subgroup) && WellFormed(b.out)
  }

  const Start: Builder := Builder("", "", Collection([], [], [], {}))

  /** A record appended, its version recorded. */
  function AddRecord(c: Collection, e: Emoji): Collection {
    c.(emojis := c.emojis + [e], versions := c.versions + {e.version})
  }

  /**
   * One iteration of the loop in `Collection::all`. A header without a label, a data line
   * with no group or subgroup in force, and a data line that does not decode are errors;
   * everything inside the "component" group except its group header is passed over.
   */
  function Step(b: Builder, l: Line): (r: Result<Builder, Problem>)
    ensures l.Skip? ==> r == Ok(b)
    ensures r.Ok? ==> Appends(b.out.emojis, r.value.out.emojis) && (!l.Data? ==> r.value.out.emojis == b.out.emojis)
    ensures r.Ok? ==> Appends(b.out.groupFeatures, r.value.out.groupFeatures)
    ensures r.Ok? ==> Appends(b.out.subgroupFeatures, r.value.out.subgroupFeatures)
  {
    match l
    case Skip => Ok(b)
    case GroupHeader(None) => Err(MissingField)
    case GroupHeader(Some(g)) =>
      if g == Component then Ok(b.(group := g))
      else Ok(b.(group := g, out := b.out.(groupFeatures := b.out.groupFeatures + [g])))
    case SubgroupHeader(None) => Err(MissingField)
    case SubgroupHeader(Some(s)) =>
      if b.group == Component then Ok(b)
      else Ok(b.(subgroup := s, out := b.out.(subgroupFeatures := b.out.subgroupFeatures + [s])))
    case Data(r) =>
      if b.group == Component then Ok(b)
      else if b.group == [] || b.subgroup == [] then Err(MissingContext)
      else
        match r
        case Err(p) => Err(p)
        case Ok(f) => Ok(b.(out := AddRecord(b.out, Attach(f, b.group, b.subgroup))))
  }

  lemma AddRecordKeepsWellFormed(c: Collection, e: Emoji)
    requires WellFormed(c)
    requires e.group != [] && e.subgroup != [] && e.group != Component
    requires IsFeatureName(e.group) && IsFeatureName(e.subgroup) && e.version <= U16Max
    ensures WellFormed(AddRecord(c, e))
  {
    var es := c.emojis + [e];
    assert (set x | x in es :: x.version) == (set x | x in c.emojis :: x.version) + {e.version};
  }

  /** Every step from a valid builder over a properly classified line keeps it valid. */
  lemma StepKeepsValid(b: Builder, l: Line)
    requires Valid(b) && Proper(l)
    ensures Step(b, l).Ok? ==> Valid(Step(b, l).value)
  {
    if l.Data? && l.fields.Ok? && b.group != Component && b.group != [] && b.subgroup != [] {
      AddRecordKeepsWellFormed(b.out, Attach(l.fields.value, b.group, b.subgroup));
    }
  }

  /** The fold over the classified lines; the first failing line ends it with that line's error. */
  function Scan(ls: seq<Line>): (r: Result<Builder, ParseError>)
    ensures r.Err? ==> r.error.line < |ls|
    decreases |ls|
  {
    if |ls| == 0 then Ok(Start)
    else
      match Scan(ls[..|ls| - 1])
      case Err(e) => Err(e)
      case Ok(b) =>
        match Step(b, ls[|ls| - 1])
        case Err(p) => Err(ParseError(|ls| - 1, p))
        case Ok(b') => Ok(b')
  }

  /** Folding properly classified lines keeps the builder valid throughout. */
  lemma {:induction false} ScanKeepsValid(ls: seq<Line>)
    requires forall i :: 0 <= i < |ls| ==> Proper(ls[i])
    ensures Scan(ls).Ok? ==> Valid(Scan(ls).value)
    decreases |ls|
  {
    if |ls| > 0 {
      var prefix := ls[..|ls| - 1];
      assert forall i :: 0 <= i < |prefix| ==> prefix[i] == ls[i];
      ScanKeepsValid(prefix);
      if Scan(prefix).Ok? {
        StepKeepsValid(Scan(prefix).value, ls[|ls| - 1]);
      }
    }
  }

  /** `Collection::all`, over the data file's lines. */
  function All(lines: seq<string>): (r: Result<Collection, ParseError>)
    ensures r.Ok? ==> WellFormed(r.value)
    ensures r.Err? ==> r.error.line < |lines|
  {
    var ls := ClassifyAll(lines);
    assert forall i :: 0 <= i < |ls| ==> Proper(ls[i]) by {
      forall i | 0 <= i < |ls| ensures Proper(ls[i]) {
        ClassifyIsProper(lines[i]);
      }
    }
    ScanKeepsValid(ls);
    match Scan(ls)
    case Err(e) => Err(e)
    case Ok(b) => Ok(b.out)
  }

  /** `All` reports what the fold over the classified lines reports. */
  lemma AllIsScan(lines: seq<string>)
    ensures Scan(ClassifyAll(lines)).Err? ==> All(lines) == Err(Scan(ClassifyAll(lines)).error)
    ensures Scan(ClassifyAll(lines)).Ok? ==> All(lines) == Ok(Scan(ClassifyAll(lines)).value.out)
  {
  }

  /** The fold over one more line is one more step, and only a successful prefix takes it. */
  lemma ScanSnoc(prefix: seq<Line>, l: Line)
    ensures Scan(prefix + [l]).Ok? ==>
      && Scan(prefix).Ok? && Step(Scan(prefix).value, l).Ok?
      && Scan(prefix + [l]).value == Step(Scan(prefix).value, l).value
    ensures Scan(prefix).Err? ==> Scan(prefix + [l]) == Scan(prefix)
    ensures Scan(prefix).Ok? && Step(Scan(prefix).value, l).Err? ==>
      Scan(prefix + [l]) == Err(ParseError(|prefix|, Step(Scan(prefix).value, l).error))
  {
    assert (prefix + [l])[..|prefix|] == prefix;
  }

  // A reference reading of the fold: each part of the result described on its own.

  /** The group in force after `ls`: the label of the last group header, or empty. */
  function GroupAt(ls: seq<Line>): string
    decreases |ls|
  {
    if |ls| == 0 then ""
    else
      var l := ls[|ls| - 1];
      if l.GroupHeader? && l.name.Some? then l.name.value else GroupAt(ls[..|ls| - 1])
  }

  /**
   * The subgroup in force after `ls`: the label of the last subgroup header met while
   * the group was not "component", or empty. A new group does not reset it.
   */
  function SubgroupAt(ls: seq<Line>): string
    decreases |ls|
  {
    if |ls| == 0 then ""
    else
      var prefix, l := ls[..|ls| - 1], ls[|ls| - 1];
      if l.SubgroupHeader? && l.name.Some? && GroupAt(prefix) != Component then l.name.value
      else SubgroupAt(prefix)
  }

  /** Group header labels other than "component", in order, repeats kept. */
  function GroupFeatures(ls: seq<Line>): seq<string>
    decreases |ls|
  {
    if |ls| == 0 then []
    else
      var l := ls[|ls| - 1];
      GroupFeatures(ls[..|ls| - 1])
        + (if l.GroupHeader? && l.name.Some? && l.name.value != Component then [l.name.value] else [])
  }

  /** Subgroup header labels met while the group was not "component", in order. */
  function SubgroupFeatures(ls: seq<Line>): seq<string>
    decreases |ls|
  {
    if |ls| == 0 then []
    else
      var prefix, l := ls[..|ls| - 1], ls[|ls| - 1];
      SubgroupFeatures(prefix)
        + (if l.SubgroupHeader? && l.name.Some? && GroupAt(prefix) != Component then [l.name.value] else [])
  }

  /** The decoded data lines outside "component", under the group and subgroup in force, in order. */
  function Emitted(ls: seq<Line>): seq<Emoji>
    decreases |ls|
  {
    if |ls| == 0 then []
    else
      var prefix, l := ls[..|ls| - 1], ls[|ls| - 1];
      Emitted(prefix)
        + (if l.Data? && l.fields.Ok? && GroupAt(prefix) != Component
           then [Attach(l.fields.value, GroupAt(prefix), SubgroupAt(prefix))] else [])
  }

  /** The builder after `ls` agrees with the reference reading. */
  predicate Agrees(b: Builder, ls: seq<Line>) {
    && b.group == GroupAt(ls)
    && b.subgroup == SubgroupAt(ls)
    && b.out.emojis == Emitted(ls)
    && b.out.groupFeatures == GroupFeatures(ls)
    && b.out.subgroupFeatures == SubgroupFeatures(ls)
  }

  /** The reference reading of one more line, unfolded once. */
  lemma ReferenceSnoc(prefix: seq<Line>, l: Line)
    ensures var ls := prefix + [l];
      && GroupAt(ls) == (if l.GroupHeader? && l.name.Some? then l.name.value else GroupAt(prefix))
      && SubgroupAt(ls) == (if l.SubgroupHeader? && l.name.Some? && GroupAt(prefix) != Component then l.name.value else SubgroupAt(prefix))
      && GroupFeatures(ls) == GroupFeatures(prefix)
           + (if l.GroupHeader? && l.name.Some? && l.name.value != Component then [l.name.value] else [])
      && SubgroupFeatures(ls) == SubgroupFeatures(prefix)
           + (if l.SubgroupHeader? && l.name.Some? && GroupAt(prefix) != Component then [l.name.value] else [])
      && Emitted(ls) == Emitted(prefix)
           + (if l.Data? && l.fields.Ok? && GroupAt(prefix) != Component
              then [Attach(l.fields.value, GroupAt(prefix), SubgroupAt(prefix))] else [])
  {
    assert (prefix + [l])[..|prefix|] == prefix;
  }

  /** One step from an agreeing builder agrees with the reference one line further on. */
  lemma StepAgrees(b: Builder, prefix: seq<Line>, l: Line)
    requires Agrees(b, prefix) && Step(b, l).Ok?
    ensures Agrees(Step(b, l).value, prefix + [l])
  {
    ReferenceSnoc(prefix, l);
  }

  /**
   * Whenever the fold succeeds, its context, records and feature lists are those of the
   * reference reading.
   */
  lemma {:induction false} ScanMatchesReference(ls: seq<Line>)
    ensures Scan(ls).Ok? ==> Agrees(Scan(ls).value, ls)
    decreases |ls|
  {
    if |ls| > 0 && Scan(ls).Ok? {
      var prefix, l := ls[..|ls| - 1], ls[|ls| - 1];
      ScanSnoc(prefix, l);
      assert prefix + [l] == ls;
      ScanMatchesReference(prefix);
      StepAgrees(Scan(prefix).value, prefix, l);
    }
  }

  /**
   * When a line breaks the fold after `prefix`: a header without a label, or a data line
   * outside "component" with no group or subgroup in force or that does not decode.
   */
  predicate Breaks(prefix: seq<Line>, l: Line) {
    || ((l.GroupHeader? || l.SubgroupHeader?) && l.name.None?)
    || (l.Data? && GroupAt(prefix) != Component
        && (GroupAt(prefix) == [] || SubgroupAt(prefix) == [] || l.fields.Err?))
  }

  /** After a successful prefix, the next line fails exactly when it breaks, and a missing context is reported as such. */
  lemma StepFailsExactly(prefix: seq<Line>, l: Line)
    requires Scan(prefix).Ok?
    ensures Scan(prefix + [l]).Err? <==> Breaks(prefix, l)
    ensures l.Data? && GroupAt(prefix) != Component && (GroupAt(prefix) == [] || SubgroupAt(prefix) == []) ==>
      Scan(prefix + [l]) == Err(ParseError(|prefix|, MissingContext))
  {
    ScanSnoc(prefix, l);
    ScanMatchesReference(prefix);
  }

  /** A failing prefix fails the whole input with the same error: the first bad line wins. */
  lemma {:induction false} ScanKeepsError(ls: seq<Line>, k: nat)
    requires k <= |ls| && Scan(ls[..k]).Err?
    ensures Scan(ls) == Scan(ls[..k])
    decreases |ls|
  {
    if k < |ls| {
      var prefix, l := ls[..|ls| - 1], ls[|ls| - 1];
      assert prefix[..k] == ls[..k];
      ScanKeepsError(prefix, k);
      ScanSnoc(prefix, l);
      assert prefix + [l] == ls;
    } else {
      assert ls[..k] == ls;
    }
  }

  /** An error names the line where the fold stops: every line before it folds, and that line breaks. */
  lemma {:induction false} ScanErrorIsFirstFailure(ls: seq<Line>)
    requires Scan(ls).Err?
    ensures var i := Scan(ls).error.line;
      Scan(ls[..i]).Ok? && Breaks(ls[..i], ls[i])
    decreases |ls|
  {
    var prefix, l := ls[..|ls| - 1], ls[|ls| - 1];
    ScanSnoc(prefix, l);
    assert prefix + [l] == ls;
    if Scan(prefix).Err? {
      ScanErrorIsFirstFailure(prefix);
      var i := Scan(prefix).error.line;
      assert prefix[..i] == ls[..i];
    } else {
      assert ls[..|prefix|] == prefix;
      StepFailsExactly(prefix, l);
    }
  }

  /** A data line without a group or subgroup in force, outside "component", makes the whole file fail there. */
  lemma MissingContextIsFatal(lines: seq<string>, i: nat)
    requires i < |lines|
    requires var ls := ClassifyAll(lines)[..i];
      Scan(ls).Ok? && IsCandidate(Trim(lines[i])) && GroupAt(ls) != Component && (GroupAt(ls) == [] || SubgroupAt(ls) == [])
    ensures All(lines) == Err(ParseError(i, MissingContext))
  {
    var ls := ClassifyAll(lines);
    assert ls[i].Data?;
    PrefixSnoc(ls, i);
    StepFailsExactly(ls[..i], ls[i]);
    assert Scan(ls[..i + 1]) == Err(ParseError(i, MissingContext));
    ScanKeepsError(ls, i + 1);
    AllIsScan(lines);
  }

  // Classifying lines laid out as the data file lays them out.

  /** A group header line whose label has no colon and ends in a non-space names its group. */
  lemma ClassifyGroupHeader(name: string)
    requires |name| > 0 && ':' !in name && !IsWhitespace(name[|name| - 1])
    ensures Classify("# group: " + name) == GroupHeader(Some(ToFeatureName(name)))
  {
    var line := "# group: " + name;
    TrimUnchanged(line);
    assert line[..8] == "# group:";
    HeaderLabelOf("# group", name);
    assert "# group" + ": " + name == line;
  }

  /** A subgroup header line whose label has no colon and ends in a non-space names its subgroup. */
  lemma ClassifySubgroupHeader(name: string)
    requires |name| > 0 && ':' !in name && !IsWhitespace(name[|name| - 1])
    ensures Classify("# subgroup: " + name) == SubgroupHeader(Some(ToFeatureName(name)))
  {
    var line := "# subgroup: " + name;
    TrimUnchanged(line);
    assert line[..8] != "# group:" by {
      assert line[..8][2] == 's';
    }
    assert line[..11] == "# subgroup:";
    HeaderLabelOf("# subgroup", name);
    assert "# subgroup" + ": " + name == line;
  }

  /** The pieces of a fully-qualified data line (`fully-qualified` at offset `at`) whose version token decodes to `version`. */
  predicate DataLineReady(codes: string, at: nat, glyph: string, token: string, name: string, version: nat) {
    DataLineLaidOut(codes, at, glyph, token, name) && DecodeVersion(token) == Ok(version)
  }

  /** A fully-qualified data line decodes to its glyph, its version and the glyph's flags. */
  lemma ClassifyDataLine(codes: string, at: nat, glyph: string, token: string, name: string, version: nat)
    requires DataLineReady(codes, at, glyph, token, name, version)
    ensures Classify(codes + "# " + glyph + " " + token + " " + name)
      == Data(Ok(Fields(glyph, version, HasGender(glyph), HasSkinTone(glyph), HasHairStyle(glyph))))
  {
    DataLineShape(codes, at, glyph, token, name);
  }

  lemma FaceSmilingName()
    ensures ToFeatureName("face-smiling") == "face-smiling"
  {
    assert IsFeatureName("face-smiling");
    FeatureNameFixed("face-smiling");
  }

  lemma GrinningFlags()
    ensures !HasGender("\U{1F600}") && !HasSkinTone("\U{1F600}") && !HasHairStyle("\U{1F600}")
  {
  }

  lemma GrinningLineReady(codes: string, glyph: string, token: string, name: string)
    requires codes == "1F600 ; fully-qualified " && glyph == "\U{1F600}" && token == "E1.0" && name == "grinning face"
    ensures DataLineReady(codes, 8, glyph, token, name, 100)
  {
    GrinningLineLaidOut(codes, glyph, token, name);
    DecodeE1Point0();
  }

  const GrinningFields := Fields("\U{1F600}", 100, false, false, false)

  const Grinning := Emoji("\U{1F600}", "smileys-and-emotion", "face-smiling", 100, false, false, false)

  lemma GroupLineParts(raw: string, name: string)
    requires raw == "# group: Smileys & Emotion" && name == "Smileys & Emotion"
    ensures raw == "# group: " + name
    ensures |name| > 0 && ':' !in name && !IsWhitespace(name[|name| - 1])
  {
  }

  lemma ClassifyFirstLine(raw: string)
    requires raw == "# group: Smileys & Emotion"
    ensures Classify(raw) == GroupHeader(Some("smileys-and-emotion"))
  {
    var name := "Smileys & Emotion";
    GroupLineParts(raw, name);
    ClassifyGroupHeader(name);
    SmileysAndEmotionName();
  }

  lemma SubgroupLineParts(raw: string, name: string)
    requires raw == "# subgroup: face-smiling" && name == "face-smiling"
    ensures raw == "# subgroup: " + name
    ensures |name| > 0 && ':' !in name && !IsWhitespace(name[|name| - 1])
  {
  }

  lemma ClassifySecondLine(raw: string)
    requires raw == "# subgroup: face-smiling"
    ensures Classify(raw) == SubgroupHeader(Some("face-smiling"))
  {
    var name := "face-smiling";
    SubgroupLineParts(raw, name);
    ClassifySubgroupHeader(name);
    FaceSmilingName();
  }

  lemma GrinningLineParts(raw: string, codes: string, glyph: string, token: string, name: string)
    requires raw == "1F600 ; fully-qualified # \U{1F600} E1.0 grinning face"
    requires codes == "1F600 ; fully-qualified " && glyph == "\U{1F600}" && token == "E1.0" && name == "grinning face"
    ensures raw == codes + "# " + glyph + " " + token + " " + name
  {
  }

  lemma ClassifyThirdLine(raw: string)
    requires raw == "1F600 ; fully-qualified # \U{1F600} E1.0 grinning face"
    ensures Classify(raw) == Data(Ok(GrinningFields))
  {
    var codes, glyph, token, name := "1F600 ; fully-qualified ", "\U{1F600}", "E1.0", "grinning face";
    GrinningLineParts(raw, codes, glyph, token, name);
    GrinningLineReady(codes, glyph, token, name);
    ClassifyDataLine(codes, 8, glyph, token, name, 100);
    GrinningFlags();
  }

  lemma ClassifyFirstLines(lines: seq<string>, ls: seq<Line>)
    requires |lines| == 3 && ls == ClassifyAll(lines)
    requires lines[0] == "# group: Smileys & Emotion" && lines[1] == "# subgroup: face-smiling"
    requires lines[2] == "1F600 ; fully-qualified # \U{1F600} E1.0 grinning face"
    ensures ls == [GroupHeader(Some("smileys-and-emotion")), SubgroupHeader(Some("face-smiling")), Data(Ok(GrinningFields))]
  {
    ClassifyFirstLine(lines[0]);
    ClassifySecondLine(lines[1]);
    ClassifyThirdLine(lines[2]);
    SeqOfThree(ls, GroupHeader(Some("smileys-and-emotion")), SubgroupHeader(Some("face-smiling")), Data(Ok(GrinningFields)));
  }

  lemma FirstLinesFold()
    ensures Scan([GroupHeader(Some("smileys-and-emotion")), SubgroupHeader(Some("face-smiling")), Data(Ok(GrinningFields))])
      == Ok(Builder("smileys-and-emotion", "face-smiling",
                    Collection([Grinning], ["smileys-and-emotion"], ["face-smiling"], {100})))
  {
    var l0, l1, l2 := GroupHeader(Some("smileys-and-emotion")), SubgroupHeader(Some("face-smiling")), Data(Ok(GrinningFields));
    var b1 := Builder("smileys-and-emotion", "", Collection([], ["smileys-and-emotion"], [], {}));
    var b2 := Builder("smileys-and-emotion", "face-smiling", Collection([], ["smileys-and-emotion"], ["face-smiling"], {}));
    var b3 := Builder("smileys-and-emotion", "face-smiling",
                      Collection([Grinning], ["smileys-and-emotion"], ["face-smiling"], {100}));
    assert Step(Start, l0) == Ok(b1) by {
      assert [] + ["smileys-and-emotion"] == ["smileys-and-emotion"];
    }
    assert Step(b1, l1) == Ok(b2) by {
      assert [] + ["face-smiling"] == ["face-smiling"];
    }
    assert Step(b2, l2) == Ok(b3) by {
      assert Attach(GrinningFields, "smileys-and-emotion", "face-smiling") == Grinning;
      assert [] + [Grinning] == [Grinning];
      assert {} + {100} == {100};
    }
    ScanSnoc([], l0);
    assert [] + [l0] == [l0];
    ScanSnoc([l0], l1);
    assert [l0] + [l1] == [l0, l1];
    ScanSnoc([l0, l1], l2);
    assert [l0, l1] + [l2] == [l0, l1, l2];
  }

  /**
   * The data file's first lines give one record: the grinning face under
   * `smileys-and-emotion`/`face-smiling`, version 100, no modifier flags; each label is
   * declared once and the version is recorded.
   */
  lemma FirstRecordExample(lines: seq<string>)
    requires lines == ["# group: Smileys & Emotion", "# subgroup: face-smiling",
                       "1F600 ; fully-qualified # \U{1F600} E1.0 grinning face"]
    ensures All(lines) == Ok(Collection([Grinning], ["smileys-and-emotion"], ["face-smiling"], {100}))
  {
    ClassifyFirstLines(lines, ClassifyAll(lines));
    FirstLinesFold();
    AllIsScan(lines);
  }
}
