/**
 * The line format of `emoji-test.txt`, the data file published with Unicode Technical
 * Standard #51 (Unicode Emoji), as both catalog builders read it. Each line is trimmed
 * first; then it is a group header (`# group: <label>`), a subgroup header
 * (`# subgroup: <label>`), another comment (`#...`), or a data line such as
 * `1F600 ; fully-qualified # 😀 E1.0 grinning face`: code points, `;`, the qualification
 * status of section 1.4 of the standard, then `# `, the glyph, its `E<major>.<minor>`
 * version and its name, separated by single spaces.
 */
module EmojiTest {
  import opened Results
  import opened Text

  /** Why a builder gives up on a line (each is a panic in the builders). */
  datatype Problem =
    | MissingField     // an expected `: `, `# ` or space-separated token is absent
    | BadNumber        // a version part is not a `u16`
    | VersionOverflow  // major*100+minor does not fit in a `u16`
    | MissingContext   // a data line before any group or subgroup header

  /** A problem together with the (0-based) index of the line that caused it. */
  datatype ParseError = ParseError(line: nat, problem: Problem)

  predicate IsGroupHeader(line: string) { StartsWith(line, "# group:") }

  predicate IsSubgroupHeader(line: string) { StartsWith(line, "# subgroup:") }

  predicate IsComment(line: string) { StartsWith(line, "#") }

  lemma HeadersAreComments(line: string)
    ensures IsGroupHeader(line) ==> IsComment(line)
    ensures IsSubgroupHeader(line) ==> IsComment(line)
    ensures !(IsGroupHeader(line) && IsSubgroupHeader(line))
  {
    if IsGroupHeader(line) {
      assert line[..8][2] == 'g';
      assert line[..1] == line[..8][..1];
    }
    if IsSubgroupHeader(line) {
      assert line[..11][2] == 's';
      assert line[..1] == line[..11][..1];
    }
  }

  /** `line.split(": ").nth(1)`: the header's label. */
  function HeaderLabel(line: string): Option<string> {
    Field(line, ": ", 1)
  }

  /** A header `<tag>: <label>` yields its label when neither part holds a colon. */
  lemma HeaderLabelOf(tag: string, name: string)
    requires ':' !in tag && ':' !in name
    ensures HeaderLabel(tag + ": " + name) == Some(name)
  {
    SplitAt(tag, ": ", name);
    SplitWhole(name, ": ");
  }

  predicate IsFullyQualified(line: string) { Contains(line, "fully-qualified") }

  /** A line the builders turn into a record (given a usable context): not a comment, and fully-qualified. */
  predicate IsCandidate(line: string) {
    !IsComment(line) && IsFullyQualified(line)
  }

  /** The two tokens read from a data line: the glyph and its version token. */
  datatype DataFields = DataFields(glyph: string, versionToken: string)

  /**
   * `line.split("# ").nth(1)`, then its first and second space-separated tokens; a missing
   * `# ` or a missing second token is an error.
   */
  function SplitDataLine(line: string): (r: Result<DataFields, Problem>)
    ensures r.Ok? ==> ' ' !in r.value.glyph && ' ' !in r.value.versionToken
    ensures r.Err? ==> r.error == MissingField
    ensures IndexOf(line, "# ").None? ==> r.Err?
  {
    match Field(line, "# ", 1)
    case None => Err(MissingField)
    case Some(annotation) =>
      var tokens := Split(annotation, " ");
      if |tokens| < 2 then Err(MissingField)
      else
        SplitPiecesFree(annotation, " ");
        ContainsChar(tokens[0], ' ');
        ContainsChar(tokens[1], ' ');
        Ok(DataFields(tokens[0], tokens[1]))
  }

  lemma AnnotationOf(codes: string, annotation: string)
    requires '#' !in codes && '#' !in annotation
    ensures Field(codes + "# " + annotation, "# ", 1) == Some(annotation)
  {
    SplitAt(codes, "# ", annotation);
    SplitWhole(annotation, "# ");
  }

  lemma TokensOf(glyph: string, token: string, name: string)
    requires ' ' !in glyph && ' ' !in token
    ensures var tokens := Split(glyph + " " + token + " " + name, " ");
      |tokens| >= 2 && tokens[0] == glyph && tokens[1] == token
  {
    SplitAt(glyph, " ", token + " " + name);
    SplitAt(token, " ", name);
    assert glyph + " " + token + " " + name == glyph + " " + (token + " " + name);
  }

  /** A data line laid out as the format describes yields its glyph and version token. */
  lemma DataLineFields(codes: string, glyph: string, token: string, name: string)
    requires '#' !in codes && '#' !in glyph && '#' !in token && '#' !in name
    requires ' ' !in glyph && ' ' !in token
    ensures SplitDataLine(codes + "# " + glyph + " " + token + " " + name) == Ok(DataFields(glyph, token))
  {
    var annotation := glyph + " " + token + " " + name;
    assert '#' !in annotation;
    AnnotationOf(codes, annotation);
    assert codes + "# " + glyph + " " + token + " " + name == codes + "# " + annotation;
    TokensOf(glyph, token, name);
  }

  /** The version token with every `E` removed (`replace('E', "")`). */
  function StripE(token: string): (r: string)
    ensures 'E' !in r
  {
    ReplaceChar(token, 'E', "")
  }

  /** A token `E<rest>` without another `E` loses exactly its leading `E`. */
  lemma StripLeadingE(rest: string)
    requires 'E' !in rest
    ensures StripE("E" + rest) == rest
  {
    ReplaceCharConcat("E", rest, 'E', "");
    ReplaceCharAbsent(rest, 'E', "");
  }

  /** The text conditions alone: no stray `#`, single-token glyph and version, trimmed ends. */
  predicate DataLineLaidOut(codes: string, at: nat, glyph: string, token: string, name: string) {
    && |codes| > 0 && codes[0] != '#' && !IsWhitespace(codes[0]) && OccursAt(codes, "fully-qualified", at)
    && |name| > 0 && !IsWhitespace(name[|name| - 1])
    && '#' !in codes && '#' !in glyph && '#' !in token && '#' !in name
    && ' ' !in glyph && ' ' !in token
  }

  /** How the loop body reads a data line laid out as the format describes. */
  lemma DataLineShape(codes: string, at: nat, glyph: string, token: string, name: string)
    requires DataLineLaidOut(codes, at, glyph, token, name)
    ensures var line := codes + "# " + glyph + " " + token + " " + name;
      && Trim(line) == line && line != []
      && !IsGroupHeader(line) && !IsSubgroupHeader(line) && IsCandidate(line)
      && SplitDataLine(line) == Ok(DataFields(glyph, token))
  {
    var line := codes + "# " + glyph + " " + token + " " + name;
    assert line[|line| - 1] == name[|name| - 1];
    TrimUnchanged(line);
    assert line[..|codes|] == codes;
    assert !IsComment(line) && !IsGroupHeader(line) && !IsSubgroupHeader(line) by {
      assert line[..1] == [codes[0]];
      HeadersAreComments(line);
    }
    OccursContains(codes, "fully-qualified", at);
    assert codes + line[|codes|..] == line;
    ContainsExtended(codes, line[|codes|..], "fully-qualified");
    DataLineFields(codes, glyph, token, name);
  }

  /** The file's first data line, `1F600 ; fully-qualified # 😀 E1.0 grinning face`, is laid out as the format describes. */
  lemma GrinningLineLaidOut(codes: string, glyph: string, token: string, name: string)
    requires codes == "1F600 ; fully-qualified " && glyph == "\U{1F600}" && token == "E1.0" && name == "grinning face"
    ensures DataLineLaidOut(codes, 8, glyph, token, name)
  {
  }
}
