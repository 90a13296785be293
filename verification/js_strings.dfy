/**
 * The few JavaScript string operations the navigation script relies on:
 * `trim`, `includes`, `replace` with a string pattern, and
 * `split("/").pop()`. Strings are sequences of UTF-16 code units in
 * JavaScript and sequences of characters here; none of the operations below
 * looks at more than single characters, so the difference does not show.
 */
module JsStrings {

  import opened Wrappers

  /** The characters `String.prototype.trim` removes: the WhiteSpace and
      LineTerminator code points of section 12.2 and 12.3 of ECMA-262
      (tab, line feed, vertical tab, form feed, carriage return, space,
      no-break space, the Unicode space separators, the line and paragraph
      separators and the byte order mark). */
  predicate IsJsWhitespace(c: char)
    ensures c == ' ' || c == '\t' || c == '\n' || c == '\r' ==> IsJsWhitespace(c)
    ensures ('0' <= c <= '9') || ('a' <= c <= 'z') || ('A' <= c <= 'Z') ==> !IsJsWhitespace(c)
  {
    var n := c as int;
    || n == 0x09 || n == 0x0A || n == 0x0B || n == 0x0C || n == 0x0D
    || n == 0x20 || n == 0xA0 || n == 0x1680
    || (0x2000 <= n <= 0x200A)
    || n == 0x2028 || n == 0x2029 || n == 0x202F || n == 0x205F
    || n == 0x3000 || n == 0xFEFF
  }

  /** Every character of `s` is whitespace (the empty string included). */
  predicate IsBlank(s: string) {
    forall i :: 0 <= i < |s| ==> IsJsWhitespace(s[i])
  }

  /** `s.trimStart()`: the suffix left once the leading whitespace is gone. */
  function TrimStart(s: string): (r: string)
    ensures |r| <= |s| && r == s[|s| - |r|..]
    ensures forall i :: 0 <= i < |s| - |r| ==> IsJsWhitespace(s[i])
    ensures r != [] ==> !IsJsWhitespace(r[0])
  {
    if |s| > 0 && IsJsWhitespace(s[0]) then TrimStart(s[1..]) else s
  }

  /** `s.trimEnd()`: the prefix left once the trailing whitespace is gone. */
  function TrimEnd(s: string): (r: string)
    ensures |r| <= |s| && r == s[..|r|]
    ensures forall i :: |r| <= i < |s| ==> IsJsWhitespace(s[i])
    ensures r != [] ==> !IsJsWhitespace(r[|r| - 1])
  {
    if |s| > 0 && IsJsWhitespace(s[|s| - 1]) then TrimEnd(s[..|s| - 1]) else s
  }

  /** `s.trim()`: whitespace removed from both ends. */
  function Trim(s: string): (r: string)
    ensures |r| <= |s|
    ensures r != [] ==> !IsJsWhitespace(r[0]) && !IsJsWhitespace(r[|r| - 1])
  {
    TrimEnd(TrimStart(s))
  }

  /** A trimmed string is empty exactly when the original was all whitespace:
      this is what makes `!field.value.trim()` a blank-field test. */
  lemma TrimEmptyIffBlank(s: string)
    ensures Trim(s) == [] <==> IsBlank(s)
  {
    var t := TrimStart(s);
    if Trim(s) == [] {
      assert t == [];
      forall i | 0 <= i < |s|
        ensures IsJsWhitespace(s[i])
      {
      }
    } else {
      var k := |s| - |t|;
      assert t != [];
      assert s[k] == t[0];
      assert !IsJsWhitespace(s[k]);
    }
  }

  /** `pat` occurs in `s` starting at index `i`. */
  predicate OccursAt(s: string, pat: string, i: int) {
    0 <= i && i + |pat| <= |s| && s[i..i + |pat|] == pat
  }

  /** `s.includes(pat)`, stated independently of how it is searched. */
  ghost predicate Includes(s: string, pat: string) {
    exists i :: OccursAt(s, pat, i)
  }

  /** The first index at or after `from` where `pat` occurs. */
  function IndexOfFrom(s: string, pat: string, from: nat): (r: Option<nat>)
    requires from <= |s|
    ensures r.Some? ==> from <= r.value && OccursAt(s, pat, r.value)
    ensures r.Some? ==> forall j :: from <= j < r.value ==> !OccursAt(s, pat, j)
    ensures r.None? ==> forall j :: from <= j ==> !OccursAt(s, pat, j)
    decreases |s| - from
  {
    if from + |pat| > |s| then None
    else if s[from..from + |pat|] == pat then Some(from)
    else IndexOfFrom(s, pat, from + 1)
  }

  /** `s.indexOf(pat)`, with `None` for JavaScript's -1. */
  function IndexOf(s: string, pat: string): (r: Option<nat>)
    ensures r.Some? ==> OccursAt(s, pat, r.value)
    ensures r.Some? ==> forall j :: 0 <= j < r.value ==> !OccursAt(s, pat, j)
    ensures r.None? <==> !Includes(s, pat)
  {
    IndexOfFrom(s, pat, 0)
  }

  /** `s.includes(pat)`. */
  predicate Contains(s: string, pat: string)
    ensures Contains(s, pat) <==> Includes(s, pat)
  {
    IndexOf(s, pat).Some?
  }

  /** `s.replace(pat, rep)` with a string pattern: only the FIRST occurrence
      is replaced, and `s` comes back unchanged when there is none. A `$` in
      the replacement would start one of JavaScript's substitution patterns
      (`$&`, `$$`, ...), which this model does not expand, so the
      replacement is kept free of it. */
  function ReplaceFirst(s: string, pat: string, rep: string): (r: string)
    requires '$' !in rep
    ensures !Includes(s, pat) ==> r == s
    ensures Includes(s, pat) ==>
      exists i :: OccursAt(s, pat, i)
        && (forall j :: 0 <= j < i ==> !OccursAt(s, pat, j))
        && r == s[..i] + rep + s[i + |pat|..]
  {
    match IndexOf(s, pat)
    case None => s
    case Some(i) => s[..i] + rep + s[i + |pat|..]
  }

  /** `s.split(sep).pop()` for a one-character separator: everything after
      the last separator, or all of `s` when it has none. */
  function LastSegment(s: string, sep: char): (r: string)
    ensures sep !in r
    ensures |r| <= |s| && r == s[|s| - |r|..]
    ensures |r| < |s| ==> s[|s| - |r| - 1] == sep
  {
    if |s| == 0 || s[|s| - 1] == sep then []
    else LastSegment(s[..|s| - 1], sep) + [s[|s| - 1]]
  }

  /** A string includes itself and each of its prefixes. */
  lemma IncludesPrefix(s: string, p: string)
    requires |p| <= |s| && s[..|p|] == p
    ensures Contains(s, p)
  {
    assert OccursAt(s, p, 0);
  }

  /** The segment after a separator that is followed by no other one. */
  lemma {:induction false} LastSegmentAfterSeparator(dir: string, sep: char, name: string)
    requires sep !in name
    ensures LastSegment(dir + [sep] + name, sep) == name
    decreases |name|
  {
    var s := dir + [sep] + name;
    if name != [] {
      var init := name[..|name| - 1];
      assert s[..|s| - 1] == dir + [sep] + init;
      LastSegmentAfterSeparator(dir, sep, init);
      assert name == init + [name[|name| - 1]];
    }
  }
}
