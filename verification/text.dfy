/**
 * The handful of Rust `str` operations the catalog builders use: `trim`, `starts_with`,
 * `contains`, `split(..).nth(..)`, `replace` and ASCII case mapping. Strings are `seq<char>`
 * with `char` a Unicode scalar value, so a Rust `&str` maps onto a `string` directly.
 */
module Text {
  import opened Results

  /** Rust's `char::is_whitespace`: the Unicode White_Space property. */
  predicate IsWhitespace(c: char) {
    || c == ' '
    || ('\t' <= c <= '\r')
    || c == '\U{85}' || c == '\U{A0}' || c == '\U{1680}'
    || ('\U{2000}' <= c <= '\U{200A}')
    || c == '\U{2028}' || c == '\U{2029}' || c == '\U{202F}' || c == '\U{205F}' || c == '\U{3000}'
  }

  function TrimStart(s: string): (r: string)
    ensures |r| <= |s| && r == s[|s| - |r|..]
    ensures r == [] || !IsWhitespace(r[0])
    ensures forall i :: 0 <= i < |s| - |r| ==> IsWhitespace(s[i])
    decreases |s|
  {
    if |s| > 0 && IsWhitespace(s[0]) then TrimStart(s[1..]) else s
  }

  function TrimEnd(s: string): (r: string)
    ensures |r| <= |s| && r == s[..|r|]
    ensures r == [] || !IsWhitespace(r[|r| - 1])
    ensures forall i :: |r| <= i < |s| ==> IsWhitespace(s[i])
    decreases |s|
  {
    if |s| > 0 && IsWhitespace(s[|s| - 1]) then TrimEnd(s[..|s| - 1]) else s
  }

  /** Rust's `str::trim`: leading and trailing whitespace removed. */
  function Trim(s: string): (r: string)
    ensures r == [] || (!IsWhitespace(r[0]) && !IsWhitespace(r[|r| - 1]))
    ensures exists i :: TrimmedAt(s, r, i)
  {
    var t := TrimStart(s);
    var r := TrimEnd(t);
    assert TrimmedAt(s, r, |s| - |t|);
    r
  }

  /** `r` is the piece of `s` starting at `i`, and everything of `s` around it is whitespace. */
  predicate TrimmedAt(s: string, r: string, i: int) {
    && 0 <= i <= |s| - |r|
    && r == s[i..i + |r|]
    && (forall k :: 0 <= k < i ==> IsWhitespace(s[k]))
    && (forall k :: i + |r| <= k < |s| ==> IsWhitespace(s[k]))
  }

  /** Trimming twice is trimming once. */
  lemma TrimIdempotent(s: string)
    ensures Trim(Trim(s)) == Trim(s)
  {
    var r := Trim(s);
    if |r| > 0 {
      TrimUnchanged(r);
    }
  }

  /** A string that neither starts nor ends with whitespace is its own trim. */
  lemma TrimUnchanged(s: string)
    requires |s| > 0 && !IsWhitespace(s[0]) && !IsWhitespace(s[|s| - 1])
    ensures Trim(s) == s
  {
  }

  predicate StartsWith(s: string, prefix: string) {
    |prefix| <= |s| && s[..|prefix|] == prefix
  }

  /** `p` occurs in `s` starting at position `j`. */
  predicate OccursAt(s: string, p: string, j: int) {
    0 <= j && j + |p| <= |s| && s[j..j + |p|] == p
  }

  lemma OccursShift(s: string, p: string, j: int)
    requires |s| > 0 && 0 <= j
    ensures OccursAt(s[1..], p, j) <==> OccursAt(s, p, j + 1)
  {
    if 0 <= j && j + |p| <= |s| - 1 {
      assert s[1..][j..j + |p|] == s[j + 1..j + 1 + |p|];
    }
  }

  /** Position of the leftmost occurrence of `p` in `s`, the match Rust's searchers report first. */
  function IndexOf(s: string, p: string): (r: Option<nat>)
    requires |p| > 0
    ensures r.Some? ==> OccursAt(s, p, r.value)
    ensures r.Some? ==> forall j :: 0 <= j < r.value ==> !OccursAt(s, p, j)
    ensures r.None? ==> forall j :: !OccursAt(s, p, j)
    decreases |s|
  {
    if |s| < |p| then None
    else if s[..|p|] == p then Some(0)
    else
      match IndexOf(s[1..], p)
      case None =>
        assert forall j :: !OccursAt(s, p, j) by {
          forall j ensures !OccursAt(s, p, j) {
            if j >= 1 {
              OccursShift(s, p, j - 1);
            }
          }
        }
        None
      case Some(i) =>
        OccursShift(s, p, i);
        assert forall j :: 0 < j <= i ==> !OccursAt(s, p, j) by {
          forall j | 0 < j <= i ensures !OccursAt(s, p, j) {
            OccursShift(s, p, j - 1);
          }
        }
        Some(i + 1)
  }

  /** Rust's `str::contains` with a string pattern. */
  predicate Contains(s: string, p: string)
    requires |p| > 0
  {
    IndexOf(s, p).Some?
  }

  /** A one-character pattern occurs exactly when the character does. */
  lemma ContainsChar(s: string, c: char)
    ensures Contains(s, [c]) <==> c in s
  {
    if c in s {
      var j :| 0 <= j < |s| && s[j] == c;
      assert OccursAt(s, [c], j);
    }
    if Contains(s, [c]) {
      var i := IndexOf(s, [c]).value;
      assert s[i..i + 1][0] == s[i];
    }
  }

  /** Glues `parts` back together with `sep` between neighbours (Rust's `join`). */
  function Join(parts: seq<string>, sep: string): string
    requires |parts| > 0
    decreases |parts|
  {
    if |parts| == 1 then parts[0] else parts[0] + sep + Join(parts[1..], sep)
  }

  /**
   * Rust's `str::split` with a non-empty pattern: the pieces between the leftmost
   * non-overlapping occurrences of `sep`. There is always at least one piece.
   */
  function Split(s: string, sep: string): (parts: seq<string>)
    requires |sep| > 0
    ensures |parts| >= 1
    decreases |s|
  {
    match IndexOf(s, sep)
    case None => [s]
    case Some(i) => [s[..i]] + Split(s[i + |sep|..], sep)
  }

  /** A leading piece followed by more pieces joins as the piece, `sep`, and the rest joined. */
  lemma JoinCons(head: string, rest: seq<string>, sep: string)
    requires |rest| > 0
    ensures Join([head] + rest, sep) == head + sep + Join(rest, sep)
  {
    assert ([head] + rest)[1..] == rest;
  }

  /** Cutting `s` around an occurrence of `sep` and putting it back together gives `s`. */
  lemma Reassemble(s: string, sep: string, i: nat)
    requires OccursAt(s, sep, i)
    ensures s[..i] + sep + s[i + |sep|..] == s
  {
  }

  /** Joining the pieces with `sep` gives the string back. */
  lemma {:induction false} SplitJoin(s: string, sep: string)
    requires |sep| > 0
    ensures Join(Split(s, sep), sep) == s
    decreases |s|
  {
    match IndexOf(s, sep)
    case None =>
    case Some(i) =>
      var head, tail := s[..i], s[i + |sep|..];
      SplitJoin(tail, sep);
      JoinCons(head, Split(tail, sep), sep);
      Reassemble(s, sep, i);
  }

  /** There is a single piece exactly when `sep` does not occur. */
  lemma SplitSingle(s: string, sep: string)
    requires |sep| > 0
    ensures |Split(s, sep)| == 1 <==> IndexOf(s, sep).None?
  {
  }

  /** No piece contains `sep`. */
  lemma {:induction false} SplitPiecesFree(s: string, sep: string)
    requires |sep| > 0
    ensures forall k :: 0 <= k < |Split(s, sep)| ==> IndexOf(Split(s, sep)[k], sep).None?
    decreases |s|
  {
    match IndexOf(s, sep)
    case None =>
    case Some(i) =>
      var head, tail := s[..i], s[i + |sep|..];
      var rest := Split(tail, sep);
      SplitPiecesFree(tail, sep);
      assert forall j :: !OccursAt(head, sep, j) by {
        forall j | OccursAt(head, sep, j) ensures false {
          assert head[j..j + |sep|] == s[j..j + |sep|];
          assert OccursAt(s, sep, j) && j < i;
        }
      }
      assert Split(s, sep) == [head] + rest;
      assert forall k :: 1 <= k < |Split(s, sep)| ==> Split(s, sep)[k] == rest[k - 1];
  }

  /** A string without the separator's first character is a single piece. */
  lemma SplitWhole(s: string, sep: string)
    requires |sep| > 0 && sep[0] !in s
    ensures Split(s, sep) == [s]
  {
    AbsentByFirstChar(s, sep);
  }

  /** The first separator after a stretch free of its first character ends the first piece. */
  lemma SplitAt(a: string, sep: string, b: string)
    requires |sep| > 0 && sep[0] !in a
    ensures Split(a + sep + b, sep) == [a] + Split(b, sep)
  {
    var s := a + sep + b;
    assert OccursAt(s, sep, |a|) by {
      assert s[|a|..|a| + |sep|] == sep;
    }
    forall j | 0 <= j < |a| ensures !OccursAt(s, sep, j) {
      assert s[j..j + |sep|][0] == a[j];
    }
    var i := IndexOf(s, sep).value;
    assert i == |a|;
    assert s[..i] == a;
    assert s[i + |sep|..] == b;
  }

  /** An occurrence anywhere makes `contains` true. */
  lemma OccursContains(s: string, p: string, j: int)
    requires |p| > 0 && OccursAt(s, p, j)
    ensures Contains(s, p)
  {
  }

  /** A pattern found in a string is still found once more text follows it. */
  lemma ContainsExtended(a: string, b: string, p: string)
    requires |p| > 0 && Contains(a, p)
    ensures Contains(a + b, p)
  {
    var j := IndexOf(a, p).value;
    assert (a + b)[j..j + |p|] == a[j..j + |p|];
    OccursContains(a + b, p, j);
  }

  /** Rust's `s.split(sep).nth(n)`: the n-th piece, if there are that many. */
  function Field(s: string, sep: string, n: nat): (r: Option<string>)
    requires |sep| > 0
  {
    var parts := Split(s, sep);
    if n < |parts| then Some(parts[n]) else None
  }

  /** Rust's `str::replace`: every leftmost non-overlapping occurrence of `pat` becomes `rep`. */
  function ReplaceAll(s: string, pat: string, rep: string): (r: string)
    requires |pat| > 0
    ensures forall c :: c in r ==> c in s || c in rep
    ensures |pat| == 1 && pat[0] !in rep ==> pat[0] !in r
    decreases |s|
  {
    if |s| == 0 then []
    else if StartsWith(s, pat) then
      assert |pat| == 1 ==> s[0] == pat[0];
      rep + ReplaceAll(s[|pat|..], pat, rep)
    else
      assert |pat| == 1 ==> s[..1] == [s[0]];
      [s[0]] + ReplaceAll(s[1..], pat, rep)
  }

  /** Replacing a pattern that never occurs changes nothing. */
  lemma {:induction false} ReplaceAbsent(s: string, pat: string, rep: string)
    requires |pat| > 0 && IndexOf(s, pat).None?
    ensures ReplaceAll(s, pat, rep) == s
    decreases |s|
  {
    if |s| > 0 {
      assert !OccursAt(s, pat, 0);
      assert forall j :: !OccursAt(s[1..], pat, j) by {
        forall j ensures !OccursAt(s[1..], pat, j) {
          if j >= 0 {
            OccursShift(s, pat, j);
          }
        }
      }
      ReplaceAbsent(s[1..], pat, rep);
      assert [s[0]] + s[1..] == s;
    }
  }

  /** A string with none of the pattern's first character cannot contain the pattern. */
  lemma AbsentByFirstChar(s: string, pat: string)
    requires |pat| > 0 && pat[0] !in s
    ensures IndexOf(s, pat).None?
  {
    forall j | 0 <= j && j + |pat| <= |s| ensures !OccursAt(s, pat, j) {
      assert s[j..j + |pat|][0] == s[j] != pat[0];
    }
  }

  /** A leading occurrence is replaced and scanning resumes right after it. */
  lemma ReplaceLeading(pat: string, s: string, rep: string)
    requires |pat| > 0
    ensures ReplaceAll(pat + s, pat, rep) == rep + ReplaceAll(s, pat, rep)
  {
    assert StartsWith(pat + s, pat);
    assert (pat + s)[|pat|..] == s;
  }

  /** Rust's `str::replace` with a `char` pattern: every `c` becomes `rep`. */
  function ReplaceChar(s: string, c: char, rep: string): (r: string)
    ensures forall x :: x in r ==> x in s || x in rep
    ensures c !in rep ==> c !in r
    decreases |s|
  {
    if |s| == 0 then [] else (if s[0] == c then rep else [s[0]]) + ReplaceChar(s[1..], c, rep)
  }

  /** Character replacement works piece by piece. */
  lemma {:induction false} ReplaceCharConcat(a: string, b: string, c: char, rep: string)
    ensures ReplaceChar(a + b, c, rep) == ReplaceChar(a, c, rep) + ReplaceChar(b, c, rep)
    decreases |a|
  {
    if |a| == 0 {
      assert a + b == b;
    } else {
      assert (a + b)[1..] == a[1..] + b;
      ReplaceCharConcat(a[1..], b, c, rep);
    }
  }

  /** Replacing a character that does not occur changes nothing. */
  lemma {:induction false} ReplaceCharAbsent(s: string, c: char, rep: string)
    requires c !in s
    ensures ReplaceChar(s, c, rep) == s
    decreases |s|
  {
    if |s| > 0 {
      ReplaceCharAbsent(s[1..], c, rep);
    }
  }

  /** Characters other than the replaced one survive the replacement. */
  lemma {:induction false} ReplaceCharKeeps(s: string, c: char, rep: string, x: char)
    requires x in s && x != c
    ensures x in ReplaceChar(s, c, rep)
    decreases |s|
  {
    if s[0] != x {
      assert x in s[1..];
      ReplaceCharKeeps(s[1..], c, rep, x);
    }
  }

  /** Replacing a character by a single character keeps the length. */
  lemma {:induction false} ReplaceCharLength(s: string, c: char, rep: string)
    requires |rep| == 1
    ensures |ReplaceChar(s, c, rep)| == |s|
    decreases |s|
  {
    if |s| > 0 {
      ReplaceCharLength(s[1..], c, rep);
    }
  }

  /** A string-pattern replacement of one character agrees with the character replacement. */
  lemma {:induction false} ReplaceAllOneChar(s: string, c: char, rep: string)
    ensures ReplaceAll(s, [c], rep) == ReplaceChar(s, c, rep)
    decreases |s|
  {
    if |s| > 0 {
      assert StartsWith(s, [c]) <==> s[0] == c by {
        assert s[..1] == [s[0]];
      }
      ReplaceAllOneChar(s[1..], c, rep);
    }
  }

  predicate IsAsciiUpper(c: char) { 'A' <= c <= 'Z' }
  predicate IsAsciiLower(c: char) { 'a' <= c <= 'z' }

  /** An ASCII capital becomes the lower-case letter at the same place in the alphabet; nothing else changes. */
  function LowerChar(c: char): (r: char)
    ensures !IsAsciiUpper(r)
    ensures IsAsciiUpper(c) ==> IsAsciiLower(r) && r as int - 'a' as int == c as int - 'A' as int
    ensures !IsAsciiUpper(c) ==> r == c
  {
    if IsAsciiUpper(c) then (c as int + 32) as char else c
  }

  /** An ASCII lower-case letter becomes the capital at the same place in the alphabet; nothing else changes. */
  function UpperChar(c: char): (r: char)
    ensures !IsAsciiLower(r)
    ensures IsAsciiLower(c) ==> IsAsciiUpper(r) && r as int - 'A' as int == c as int - 'a' as int
    ensures !IsAsciiLower(c) ==> r == c
  {
    if IsAsciiLower(c) then (c as int - 32) as char else c
  }

  /** The two case mappings undo each other on letters, and agree up to case on everything. */
  lemma CaseRoundTrip(c: char)
    ensures IsAsciiUpper(c) ==> UpperChar(LowerChar(c)) == c
    ensures IsAsciiLower(c) ==> LowerChar(UpperChar(c)) == c
    ensures UpperChar(LowerChar(c)) == UpperChar(c)
    ensures LowerChar(UpperChar(c)) == LowerChar(c)
  {
  }

  /** `to_lowercase`, restricted to the ASCII letters: exactly the capitals change, each to its lower-case letter. */
  function AsciiLower(s: string): (r: string)
    ensures |r| == |s|
    ensures forall i :: 0 <= i < |s| ==> r[i] == LowerChar(s[i])
    ensures forall i :: 0 <= i < |s| ==> (r[i] != s[i] <==> IsAsciiUpper(s[i]))
  {
    seq(|s|, i requires 0 <= i < |s| => LowerChar(s[i]))
  }

  /** `to_uppercase`, restricted to the ASCII letters: exactly the lower-case letters change, each to its capital. */
  function AsciiUpper(s: string): (r: string)
    ensures |r| == |s|
    ensures forall i :: 0 <= i < |s| ==> r[i] == UpperChar(s[i])
    ensures forall i :: 0 <= i < |s| ==> (r[i] != s[i] <==> IsAsciiLower(s[i]))
  {
    seq(|s|, i requires 0 <= i < |s| => UpperChar(s[i]))
  }

  /** Upper-casing forgets a previous lower-casing and vice versa: the two agree up to case. */
  lemma CaseMappingsForget(s: string)
    ensures AsciiUpper(AsciiLower(s)) == AsciiUpper(s)
    ensures AsciiLower(AsciiUpper(s)) == AsciiLower(s)
  {
    forall i | 0 <= i < |s|
      ensures AsciiUpper(AsciiLower(s))[i] == AsciiUpper(s)[i]
      ensures AsciiLower(AsciiUpper(s))[i] == AsciiLower(s)[i]
    {
      CaseRoundTrip(s[i]);
    }
  }

  lemma AsciiLowerConcat(a: string, b: string)
    ensures AsciiLower(a + b) == AsciiLower(a) + AsciiLower(b)
  {
  }

  lemma AsciiUpperConcat(a: string, b: string)
    ensures AsciiUpper(a + b) == AsciiUpper(a) + AsciiUpper(b)
  {
  }
}
