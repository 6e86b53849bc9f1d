/** The parts of the .NET string library the helpers rely on: `char.IsWhiteSpace`,
    `Trim`, `IsNullOrEmpty`, `IsNullOrWhiteSpace`, `Replace(x, "")` and case mapping.
    A .NET `string` that may be null is an `Option<string>`. */
module DotNetStrings {
  import opened Wrappers

  /** `char.IsWhiteSpace`: U+0009..U+000D, U+0020, U+0085, U+00A0 and the Unicode
      space, line and paragraph separators. */
  predicate IsWhiteSpace(c: char) {
    || c == ' ' || ('\t' <= c <= '\r') || c == '\U{0085}' || c == '\U{00A0}'
    || c == '\U{1680}' || ('\U{2000}' <= c <= '\U{200A}') || c == '\U{2028}'
    || c == '\U{2029}' || c == '\U{202F}' || c == '\U{205F}' || c == '\U{3000}'
  }

  predicate AllWhiteSpace(s: string) {
    forall i :: 0 <= i < |s| ==> IsWhiteSpace(s[i])
  }

  /** `string.IsNullOrEmpty`. */
  predicate IsNullOrEmpty(s: Option<string>) {
    s.None? || s.value == ""
  }

  /** `string.IsNullOrWhiteSpace`. */
  predicate IsNullOrWhiteSpace(s: Option<string>) {
    s.None? || AllWhiteSpace(s.value)
  }

  /** A null string read back through a COM property: COM strings have no null, it reads as "". */
  function OrEmpty(s: Option<string>): string {
    if s.Some? then s.value else ""
  }

  /** Removing the leading characters of the class `ws`. */
  function TrimStartWith(s: string, ws: char -> bool): (r: string)
    ensures |r| <= |s| && r == s[|s| - |r|..]
    ensures forall i :: 0 <= i < |s| - |r| ==> ws(s[i])
    ensures r != [] ==> !ws(r[0])
    decreases |s|
  {
    if s != [] && ws(s[0]) then TrimStartWith(s[1..], ws) else s
  }

  /** Removing the trailing characters of the class `ws`. */
  function TrimEndWith(s: string, ws: char -> bool): (r: string)
    ensures |r| <= |s| && r == s[..|r|]
    ensures forall i :: |r| <= i < |s| ==> ws(s[i])
    ensures r != [] ==> !ws(r[|r| - 1])
    decreases |s|
  {
    if s != [] && ws(s[|s| - 1]) then TrimEndWith(s[..|s| - 1], ws) else s
  }

  /** Both ends of `s` with the characters of the class `ws` removed. */
  function TrimWith(s: string, ws: char -> bool): (r: string)
    ensures |r| <= |s|
    ensures r != [] ==> !ws(r[0]) && !ws(r[|r| - 1])
    ensures r == [] <==> forall i :: 0 <= i < |s| ==> ws(s[i])
  {
    var t := TrimStartWith(s, ws);
    var r := TrimEndWith(t, ws);
    assert r != [] ==> r[0] == t[0];
    assert t != [] ==> r != [] by {
      if t != [] { assert !ws(t[0]); }
    }
    r
  }

  /** `string.Trim()`: white space removed from both ends. */
  function Trim(s: string): (r: string)
    ensures |r| <= |s|
    ensures r != [] ==> !IsWhiteSpace(r[0]) && !IsWhiteSpace(r[|r| - 1])
    ensures r == [] <==> AllWhiteSpace(s)
  {
    TrimWith(s, IsWhiteSpace)
  }

  /** Leading characters of the class in front of `t` are all removed. */
  lemma {:induction false} TrimStartPrepend(w: string, t: string, ws: char -> bool)
    requires forall i :: 0 <= i < |w| ==> ws(w[i])
    ensures TrimStartWith(w + t, ws) == TrimStartWith(t, ws)
    decreases |w|
  {
    if w == [] {
      assert w + t == t;
    } else {
      assert (w + t)[0] == w[0];
      assert (w + t)[1..] == w[1..] + t;
      TrimStartPrepend(w[1..], t, ws);
    }
  }

  /** Trailing text after a character outside the class survives removing the leading ones. */
  lemma {:induction false} TrimStartAppend(s: string, w: string, ws: char -> bool, k: nat)
    requires k < |s| && !ws(s[k])
    ensures TrimStartWith(s + w, ws) == TrimStartWith(s, ws) + w
    decreases |s|
  {
    assert (s + w)[0] == s[0];
    if ws(s[0]) {
      assert (s + w)[1..] == s[1..] + w;
      TrimStartAppend(s[1..], w, ws, k - 1);
    }
  }

  /** Trailing characters of the class after `t` are all removed. */
  lemma {:induction false} TrimEndAppend(t: string, w: string, ws: char -> bool)
    requires forall i :: 0 <= i < |w| ==> ws(w[i])
    ensures TrimEndWith(t + w, ws) == TrimEndWith(t, ws)
    decreases |w|
  {
    if w == [] {
      assert t + w == t;
    } else {
      var u := t + w;
      assert u[|u| - 1] == w[|w| - 1];
      assert u[..|u| - 1] == t + w[..|w| - 1];
      TrimEndAppend(t, w[..|w| - 1], ws);
    }
  }

  /** White space padding on either side makes no difference to the trim. */
  lemma TrimPadded(w1: string, s: string, w2: string)
    requires AllWhiteSpace(w1) && AllWhiteSpace(w2)
    ensures Trim(w1 + s + w2) == Trim(s)
  {
    if AllWhiteSpace(s) {
      assert AllWhiteSpace(w1 + s + w2) by {
        var u := w1 + s + w2;
        forall i | 0 <= i < |u| ensures IsWhiteSpace(u[i]) {
          if i < |w1| { assert u[i] == w1[i]; }
          else if i < |w1| + |s| { assert u[i] == s[i - |w1|]; }
          else { assert u[i] == w2[i - |w1| - |s|]; }
        }
      }
    } else {
      var k :| 0 <= k < |s| && !IsWhiteSpace(s[k]);
      assert w1 + s + w2 == w1 + (s + w2);
      TrimStartPrepend(w1, s + w2, IsWhiteSpace);
      TrimStartAppend(s, w2, IsWhiteSpace, k);
      TrimEndAppend(TrimStartWith(s, IsWhiteSpace), w2, IsWhiteSpace);
    }
  }

  /** A string whose two ends are not white space is its own trim. */
  lemma TrimOfTrimmed(s: string)
    requires s != [] ==> !IsWhiteSpace(s[0]) && !IsWhiteSpace(s[|s| - 1])
    ensures Trim(s) == s
  {
  }

  /** The characters of `s` that are not in `cs`, in order. */
  function Strip(s: string, cs: set<char>): (r: string)
    ensures |r| <= |s|
    ensures forall i :: 0 <= i < |r| ==> r[i] !in cs
    ensures forall c :: c in r <==> c in s && c !in cs
    decreases |s|
  {
    if s == [] then [] else (if s[0] in cs then [] else [s[0]]) + Strip(s[1..], cs)
  }

  lemma {:induction false} StripConcat(a: string, b: string, cs: set<char>)
    ensures Strip(a + b, cs) == Strip(a, cs) + Strip(b, cs)
    decreases |a|
  {
    if a == [] {
      assert a + b == b;
    } else {
      assert (a + b)[1..] == a[1..] + b;
      StripConcat(a[1..], b, cs);
    }
  }

  lemma {:induction false} StripStrip(s: string, a: set<char>, b: set<char>)
    ensures Strip(Strip(s, a), b) == Strip(s, a + b)
    decreases |s|
  {
    if s != [] {
      StripStrip(s[1..], a, b);
      var head := if s[0] in a then [] else [s[0]];
      StripConcat(head, Strip(s[1..], a), b);
    }
  }

  /** A string that has none of `cs` is left as it is. */
  lemma {:induction false} StripNothing(s: string, cs: set<char>)
    requires forall i :: 0 <= i < |s| ==> s[i] !in cs
    ensures Strip(s, cs) == s
    decreases |s|
  {
    if s != [] { StripNothing(s[1..], cs); }
  }

  /** `s.Replace(pattern, "")`: scanning left to right, every non-overlapping
      ordinal occurrence of `pattern` is deleted. */
  function ReplaceWithEmpty(s: string, pattern: string): (r: string)
    requires pattern != []
    ensures |r| <= |s|
    decreases |s|
  {
    if |s| < |pattern| then s
    else if s[..|pattern|] == pattern then ReplaceWithEmpty(s[|pattern|..], pattern)
    else [s[0]] + ReplaceWithEmpty(s[1..], pattern)
  }

  /** Replacing a one-character pattern deletes that character everywhere. */
  lemma {:induction false} ReplaceCharWithEmpty(s: string, c: char)
    ensures ReplaceWithEmpty(s, [c]) == Strip(s, {c})
    decreases |s|
  {
    if s != [] { ReplaceCharWithEmpty(s[1..], c); }
  }

  /** Once CR and LF are both deleted, deleting CR LF pairs first makes no difference. */
  lemma {:induction false} CrLfReplaceAbsorbed(s: string)
    ensures Strip(ReplaceWithEmpty(s, "\r\n"), {'\n', '\r'}) == Strip(s, {'\n', '\r'})
    decreases |s|
  {
    var cs := {'\n', '\r'};
    if |s| >= 2 {
      if s[..2] == "\r\n" {
        CrLfReplaceAbsorbed(s[2..]);
        assert s == s[..2] + s[2..];
        StripConcat(s[..2], s[2..], cs);
      } else {
        CrLfReplaceAbsorbed(s[1..]);
        StripConcat([s[0]], ReplaceWithEmpty(s[1..], "\r\n"), cs);
      }
    }
  }

  /** ASCII case mapping; the culture-dependent mapping of other letters is not modelled. */
  function ToLowerChar(c: char): char {
    if 'A' <= c <= 'Z' then (c as int + 32) as char else c
  }

  function ToUpperChar(c: char): char {
    if 'a' <= c <= 'z' then (c as int - 32) as char else c
  }

  function ToLower(s: string): (r: string)
    ensures |r| == |s|
  {
    seq(|s|, i requires 0 <= i < |s| => ToLowerChar(s[i]))
  }

  function ToUpper(s: string): (r: string)
    ensures |r| == |s|
  {
    seq(|s|, i requires 0 <= i < |s| => ToUpperChar(s[i]))
  }

  /** `a.ToLower() == b.ToLower()`. */
  predicate EqualsIgnoreCase(a: string, b: string) {
    ToLower(a) == ToLower(b)
  }
}
