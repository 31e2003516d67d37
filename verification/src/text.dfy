/** The string predicates the model relies on: String.isBlank, String.trim,
    the `@NotBlank` constraint and the `\S+` pattern of `@Pattern`. */
module Text {
  import opened Results

  /** Character.isWhitespace: ASCII tab to carriage return, the file, group,
      record and unit separators, the space, and the Unicode space, line and
      paragraph separators other than the non-breaking ones. */
  predicate IsJavaWhitespace(c: char) {
    || c == ' '
    || ('\t' <= c <= '\r')
    || ('\U{1C}' <= c <= '\U{1F}')
    || c == '\U{1680}'
    || ('\U{2000}' <= c <= '\U{2006}')
    || ('\U{2008}' <= c <= '\U{200A}')
    || c == '\U{2028}' || c == '\U{2029}' || c == '\U{205F}' || c == '\U{3000}'
  }

  /** String.isBlank: empty, or whitespace only. */
  predicate IsBlank(s: string) {
    forall i :: 0 <= i < |s| ==> IsJavaWhitespace(s[i])
  }

  /** A null or blank name, the condition under which the login replaces it. */
  predicate IsNullOrBlank(v: Option<string>) {
    v.None? || IsBlank(v.value)
  }

  /** The characters `\s` matches in a java.util.regex pattern without the
      Unicode flag. */
  predicate IsRegexSpace(c: char) {
    c == ' ' || ('\t' <= c <= '\r')
  }

  /** The whole string matches `\S+`. */
  predicate MatchesNonSpaceRun(s: string) {
    |s| > 0 && forall i :: 0 <= i < |s| ==> !IsRegexSpace(s[i])
  }

  /** Drops the leading characters at or below U+0020. */
  function TrimStart(s: string): (r: string)
    ensures |r| <= |s| && r == s[|s| - |r|..]
    ensures forall i :: 0 <= i < |s| - |r| ==> s[i] <= ' '
    ensures |r| > 0 ==> r[0] > ' '
  {
    if |s| > 0 && s[0] <= ' ' then TrimStart(s[1..]) else s
  }

  /** Drops the trailing characters at or below U+0020. */
  function TrimEnd(s: string): (r: string)
    ensures |r| <= |s| && r == s[..|r|]
    ensures forall i :: |r| <= i < |s| ==> s[i] <= ' '
    ensures |r| > 0 ==> r[|r| - 1] > ' '
  {
    if |s| > 0 && s[|s| - 1] <= ' ' then TrimEnd(s[..|s| - 1]) else s
  }

  /** String.trim. */
  function Trim(s: string): string {
    TrimEnd(TrimStart(s))
  }

  /** The `@NotBlank` constraint as Hibernate Validator checks it: not null,
      and something is left after trimming. */
  predicate NotBlank(v: Option<string>) {
    v.Some? && |Trim(v.value)| > 0
  }

  /** Trimming leaves nothing exactly when every character is at or below
      U+0020, so `@NotBlank` holds iff some character is above the space. */
  lemma {:induction false} TrimEmptyIff(s: string)
    ensures |Trim(s)| == 0 <==> forall i :: 0 <= i < |s| ==> s[i] <= ' '
  {
    var t := TrimStart(s);
    if |t| > 0 {
      // the first kept character is above the space, and trimming the end
      // cannot remove it
      assert t[0] == s[|s| - |t|];
      assert |TrimEnd(t)| > 0;
    }
  }
}
