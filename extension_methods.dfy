/** `ExtensionMethods.Flatten`: a string with its ends trimmed and its spaces, line
    breaks and tabs deleted. `Environment.NewLine` is "\r\n", as on Windows. */
module ExtensionMethods {
  import opened Wrappers
  import opened DotNetStrings

  /** The characters `Flatten` deletes after trimming. */
  const FlattenedChars: set<char> := {' ', '\n', '\r', '\t'}

  /** `input.Flatten()`: null, empty and white-space-only strings come back as they
      are; any other string is trimmed, then every " ", "\r\n", "\n", "\r" and "\t" is
      replaced by the empty string, in that order. */
  function Flatten(input: Option<string>): (r: Option<string>)
    ensures IsNullOrWhiteSpace(input) ==> r == input
    ensures !IsNullOrWhiteSpace(input) ==> r.Some? && |r.value| <= |input.value|
    ensures !IsNullOrWhiteSpace(input) ==> forall i :: 0 <= i < |r.value| ==> r.value[i] !in FlattenedChars
  {
    if IsNullOrWhiteSpace(input) then input else Some(Replacements(Trim(input.value)))
  }

  /** The chain of `Replace(x, string.Empty)` calls. */
  function Replacements(s: string): (r: string)
    ensures r == Strip(s, FlattenedChars)
  {
    var r := ReplaceWithEmpty(ReplaceWithEmpty(ReplaceWithEmpty(ReplaceWithEmpty(ReplaceWithEmpty(
               s, " "), "\r\n"), "\n"), "\r"), "\t");
    FlattenDeletes(s);
    r
  }

  /** The chain of replacements deletes exactly the four characters: every other
      character of the trimmed string is kept, in order. */
  lemma FlattenDeletes(s: string)
    ensures ReplaceWithEmpty(ReplaceWithEmpty(ReplaceWithEmpty(ReplaceWithEmpty(ReplaceWithEmpty(
              s, " "), "\r\n"), "\n"), "\r"), "\t") == Strip(s, FlattenedChars)
  {
    var a := ReplaceWithEmpty(s, " ");
    ReplaceCharWithEmpty(s, ' ');
    var b := ReplaceWithEmpty(a, "\r\n");
    var c := ReplaceWithEmpty(b, "\n");
    ReplaceCharWithEmpty(b, '\n');
    var d := ReplaceWithEmpty(c, "\r");
    ReplaceCharWithEmpty(c, '\r');
    var e := ReplaceWithEmpty(d, "\t");
    ReplaceCharWithEmpty(d, '\t');
    StripStrip(b, {'\n'}, {'\r'});
    assert {'\n'} + {'\r'} == {'\n', '\r'};
    CrLfReplaceAbsorbed(a);
    StripStrip(s, {' '}, {'\n', '\r'});
    StripStrip(s, {' '} + {'\n', '\r'}, {'\t'});
    assert {' '} + {'\n', '\r'} + {'\t'} == FlattenedChars;
  }

  /** A string that is not blank flattens to its trim with the four characters deleted. */
  lemma FlattenIsStrippedTrim(input: string)
    requires !AllWhiteSpace(input)
    ensures Flatten(Some(input)) == Some(Strip(Trim(input), FlattenedChars))
  {
  }

  /** Deleting characters that are not at the two ends keeps both ends. */
  lemma StripKeepsEnds(s: string, cs: set<char>)
    requires s != [] && s[0] !in cs && s[|s| - 1] !in cs
    ensures var r := Strip(s, cs); r != [] && r[0] == s[0] && r[|r| - 1] == s[|s| - 1]
  {
    var init, last := s[..|s| - 1], s[|s| - 1];
    assert s == init + [last];
    StripConcat(init, [last], cs);
    assert Strip([last], cs) == [last];
  }

  /** A string that starts and ends with a character that is not white space and holds
      none of the four characters is left as it is. */
  lemma FlattenFixes(x: string)
    requires x != [] && !IsWhiteSpace(x[0]) && !IsWhiteSpace(x[|x| - 1])
    requires forall i :: 0 <= i < |x| ==> x[i] !in FlattenedChars
    ensures Flatten(Some(x)) == Some(x)
  {
    assert !AllWhiteSpace(x);
    TrimOfTrimmed(x);
    StripNothing(x, FlattenedChars);
  }

  /** None of the four characters is anything but white space. */
  lemma NotFlattened(c: char)
    requires !IsWhiteSpace(c)
    ensures c !in FlattenedChars
  {
  }

  /** Deleting the four characters from a string whose ends are not white space
      leaves a string whose ends are not white space. */
  lemma StrippedEnds(t: string)
    requires t != [] && !IsWhiteSpace(t[0]) && !IsWhiteSpace(t[|t| - 1])
    ensures var x := Strip(t, FlattenedChars);
      x != [] && !IsWhiteSpace(x[0]) && !IsWhiteSpace(x[|x| - 1])
  {
    NotFlattened(t[0]);
    NotFlattened(t[|t| - 1]);
    StripKeepsEnds(t, FlattenedChars);
  }

  /** Flattening twice is flattening once. */
  lemma FlattenIdempotent(input: Option<string>)
    ensures Flatten(Flatten(input)) == Flatten(input)
  {
    if !IsNullOrWhiteSpace(input) {
      FlattenIsStrippedTrim(input.value);
      StrippedEnds(Trim(input.value));
      FlattenFixes(Strip(Trim(input.value), FlattenedChars));
    }
  }

  /** White space other than the four characters survives inside the string: the
      vertical tab U+000B is white space, and `Flatten` keeps it. */
  lemma FlattenKeepsVerticalTab()
    ensures IsWhiteSpace('\U{000B}')
    ensures Flatten(Some("a\U{000B}b")) == Some("a\U{000B}b")
  {
    FlattenFixes("a\U{000B}b");
  }
}
