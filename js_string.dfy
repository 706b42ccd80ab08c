/**
 * The JavaScript string operations that the README rewriter relies on, stated over
 * Dafny strings: `startsWith`, `includes`, `indexOf`, `split('/').pop()`, the ASCII
 * case folding of a non-Unicode `/i` regular expression, and `String.prototype.replace`
 * with a string pattern (first occurrence only, with `$`-pattern expansion).
 */
module JsString {

  datatype Option<T> = None | Some(value: T)

  /** `s.startsWith(p)` */
  predicate StartsWith(s: string, p: string) {
    |p| <= |s| && s[..|p|] == p
  }

  /** `p` occurs in `s` beginning at index `i`. */
  predicate OccursAt(s: string, p: string, i: int) {
    0 <= i && i + |p| <= |s| && s[i..i + |p|] == p
  }

  /** An occurrence of `a + b` is an occurrence of `a` followed by one of `b`. */
  lemma OccursAtSplit(s: string, a: string, b: string, i: int)
    requires OccursAt(s, a + b, i)
    ensures OccursAt(s, a, i) && OccursAt(s, b, i + |a|)
  {
    assert s[i..i + |a|] == (a + b)[..|a|];
    assert s[i + |a|..i + |a| + |b|] == (a + b)[|a|..];
  }

  /** An occurrence of `a` directly followed by one of `b` is an occurrence of `a + b`. */
  lemma OccursAtJoin(s: string, a: string, b: string, i: int)
    requires OccursAt(s, a, i) && OccursAt(s, b, i + |a|)
    ensures OccursAt(s, a + b, i)
  {
    assert s[i..i + |a| + |b|] == s[i..i + |a|] + s[i + |a|..i + |a| + |b|];
  }

  /** The first index at or after `k` where `p` occurs in `s` (`s.indexOf(p, k)`). */
  function IndexFrom(s: string, p: string, k: nat): (r: Option<nat>)
    decreases |s| - k
    ensures r.Some? ==> k <= r.value && OccursAt(s, p, r.value)
    ensures r.Some? ==> forall j :: k <= j < r.value ==> !OccursAt(s, p, j)
    ensures r.None? ==> forall j :: k <= j ==> !OccursAt(s, p, j)
  {
    if k + |p| > |s| then None
    else if s[k..k + |p|] == p then Some(k)
    else IndexFrom(s, p, k + 1)
  }

  /** `s.indexOf(p)`, with `None` for -1. */
  function IndexOf(s: string, p: string): Option<nat> {
    IndexFrom(s, p, 0)
  }

  /** `s.includes(p)` */
  predicate Includes(s: string, p: string) {
    IndexOf(s, p).Some?
  }

  /** The first index at or after `k` where the character `c` stands in `s`. */
  function IndexOfChar(s: string, c: char, k: nat): (r: Option<nat>)
    decreases |s| - k
    ensures r.Some? ==> k <= r.value < |s| && s[r.value] == c
    ensures r.Some? ==> forall j :: k <= j < r.value ==> s[j] != c
    ensures r.None? ==> forall j :: k <= j < |s| ==> s[j] != c
  {
    if k >= |s| then None
    else if s[k] == c then Some(k)
    else IndexOfChar(s, c, k + 1)
  }

  /**
   * Case folding of a regular expression with the `i` flag and without `u`: a character
   * is compared through its upper-case form, but a non-ASCII character never folds onto
   * an ASCII one, so for the ASCII patterns used here folding A-Z is exact.
   */
  function Lower(c: char): char {
    if 'A' <= c <= 'Z' then (c as int + 32) as char else c
  }

  function LowerAscii(s: string): string {
    seq(|s|, i requires 0 <= i < |s| => Lower(s[i]))
  }

  /** `p` occurs in `s` at index `i`, ignoring ASCII case. */
  predicate OccursAtIgnoreCase(s: string, p: string, i: int) {
    0 <= i && i + |p| <= |s| && LowerAscii(s[i..i + |p|]) == LowerAscii(p)
  }

  predicate StartsWithIgnoreCase(s: string, p: string) {
    OccursAtIgnoreCase(s, p, 0)
  }

  predicate IncludesIgnoreCase(s: string, p: string) {
    exists i :: 0 <= i <= |s| - |p| && OccursAtIgnoreCase(s, p, i)
  }

  /** `s.split(sep)` for a one-character separator: never an empty array. */
  function Split(s: string, sep: char): (parts: seq<string>)
    decreases |s|
    ensures |parts| >= 1
  {
    match IndexOfChar(s, sep, 0)
    case None => [s]
    case Some(i) => [s[..i]] + Split(s[i + 1..], sep)
  }

  /** `s.split('/').pop()`: the last element of the split, which always exists. */
  function LastSegment(s: string): string {
    var parts := Split(s, '/');
    parts[|parts| - 1]
  }

  /** `s` ends with `t`. */
  predicate EndsWith(s: string, t: string) {
    |t| <= |s| && s[|s| - |t|..] == t
  }

  /**
   * The last segment is exactly the text after the last '/': it holds no '/', it ends `s`,
   * and it is either all of `s` or preceded by a '/'.
   */
  lemma {:induction false} LastSegmentIsTextAfterLastSlash(s: string)
    ensures forall k :: 0 <= k < |LastSegment(s)| ==> LastSegment(s)[k] != '/'
    ensures EndsWith(s, LastSegment(s))
    ensures |LastSegment(s)| == |s| || s[|s| - |LastSegment(s)| - 1] == '/'
    decreases |s|
  {
    match IndexOfChar(s, '/', 0)
    case None =>
      assert Split(s, '/') == [s];
    case Some(i) =>
      LastSegmentAfterSlash(s, i);
      LastSegmentIsTextAfterLastSlash(s[i + 1..]);
      EndsWithAfterSlash(s, i, LastSegment(s));
  }

  /** A suffix of the text after a '/' at `i` is a suffix of the whole, preceded by a '/'. */
  lemma EndsWithAfterSlash(s: string, i: nat, t: string)
    requires i < |s| && s[i] == '/'
    requires EndsWith(s[i + 1..], t)
    requires |t| == |s| - i - 1 || s[i + 1..][|s| - i - 1 - |t| - 1] == '/'
    ensures EndsWith(s, t)
    ensures |t| == |s| || s[|s| - |t| - 1] == '/'
  {
    var rest := s[i + 1..];
    assert s[|s| - |t|..] == rest[|rest| - |t|..];
    if |t| == |rest| {
      assert |s| - |t| - 1 == i;
    } else {
      assert s[|s| - |t| - 1] == rest[|rest| - |t| - 1];
    }
  }

  /** Past the first '/', the last segment is that of the rest of the text. */
  lemma LastSegmentAfterSlash(s: string, i: nat)
    requires IndexOfChar(s, '/', 0) == Some(i)
    ensures LastSegment(s) == LastSegment(s[i + 1..])
  {
    assert Split(s, '/') == [s[..i]] + Split(s[i + 1..], '/');
  }

  /**
   * The replacement text as `String.prototype.replace` expands it when the pattern is a
   * string (ECMAScript GetSubstitution without captures): `$$` gives `$`, `$&` the matched
   * text, `` $` `` the text before the match, `$'` the text after it; any other `$` is kept.
   */
  function Expand(template: string, matched: string, before: string, after: string): string
    decreases |template|
  {
    if |template| >= 2 && template[0] == '$' && template[1] in "$&`'" then
      var piece :=
        if template[1] == '$' then "$"
        else if template[1] == '&' then matched
        else if template[1] == '`' then before
        else after;
      piece + Expand(template[2..], matched, before, after)
    else if template == [] then []
    else [template[0]] + Expand(template[1..], matched, before, after)
  }

  /** A replacement text without `$` is inserted literally. */
  lemma {:induction false} ExpandWithoutDollar(template: string, matched: string, before: string, after: string)
    requires '$' !in template
    ensures Expand(template, matched, before, after) == template
    decreases |template|
  {
    if template != [] {
      assert template[0] != '$';
      ExpandWithoutDollar(template[1..], matched, before, after);
      assert template == [template[0]] + template[1..];
    }
  }

  /**
   * The four `$` patterns of GetSubstitution for a string pattern: `$$` gives one `$`, `$&`
   * the matched text, `` $` `` the text before the match and `$'` the text after it. A `$`
   * followed by any other character, or ending the template, is kept as it is.
   */
  lemma ExpandDollarPatterns(t: string, matched: string, before: string, after: string, c: char)
    ensures Expand("$$" + t, matched, before, after) == "$" + Expand(t, matched, before, after)
    ensures Expand("$&" + t, matched, before, after) == matched + Expand(t, matched, before, after)
    ensures Expand("$`" + t, matched, before, after) == before + Expand(t, matched, before, after)
    ensures Expand("$'" + t, matched, before, after) == after + Expand(t, matched, before, after)
    ensures c !in "$&`'" ==> Expand("$" + [c] + t, matched, before, after) == "$" + Expand([c] + t, matched, before, after)
    ensures Expand("$", matched, before, after) == "$"
  {
    assert ("$$" + t)[2..] == ("$&" + t)[2..] == ("$`" + t)[2..] == ("$'" + t)[2..] == t;
    assert ("$" + [c] + t)[1..] == [c] + t;
    assert Expand("$", matched, before, after) == "$" + Expand([], matched, before, after);
  }

  /**
   * `s.replace(pattern, replacement)` with a string pattern: only the first occurrence of
   * `pattern` is replaced; without an occurrence `s` is returned as it is.
   */
  function ReplaceFirst(s: string, pattern: string, replacement: string): string {
    match IndexOf(s, pattern)
    case None => s
    case Some(p) =>
      s[..p] + Expand(replacement, pattern, s[..p], s[p + |pattern|..]) + s[p + |pattern|..]
  }

  /**
   * `replace` swaps the first occurrence of the pattern, at or before any occurrence `i` the
   * caller knows of, for the expanded replacement, and keeps the text around it; a `$`-free
   * replacement is inserted as it is.
   */
  lemma ReplaceFirstAtFirstOccurrence(s: string, pattern: string, replacement: string, i: nat)
    requires OccursAt(s, pattern, i)
    ensures IndexOf(s, pattern).Some?
    ensures
      var p := IndexOf(s, pattern).value;
      var after := s[p + |pattern|..];
      && p <= i
      && OccursAt(s, pattern, p)
      && ReplaceFirst(s, pattern, replacement) == s[..p] + Expand(replacement, pattern, s[..p], after) + after
    ensures '$' !in replacement ==>
      var p := IndexOf(s, pattern).value;
      ReplaceFirst(s, pattern, replacement) == s[..p] + replacement + s[p + |pattern|..]
  {
    var p := IndexOf(s, pattern).value;
    if '$' !in replacement {
      ExpandWithoutDollar(replacement, pattern, s[..p], s[p + |pattern|..]);
    }
  }

  /**
   * Text lying wholly after an occurrence `i` of the pattern is untouched by `replace`: it
   * reappears shifted by the change in length, which for a `$`-free replacement is the
   * replacement's length less the pattern's. So when the pattern occurs more than once, a
   * later copy survives and the earliest is rewritten.
   */
  lemma TextAfterOccurrenceSurvives(s: string, pattern: string, replacement: string, i: nat, a: nat, b: nat)
    requires OccursAt(s, pattern, i)
    requires i + |pattern| <= a <= b <= |s|
    ensures IndexOf(s, pattern).Some?
    ensures
      var p := IndexOf(s, pattern).value;
      var d := |Expand(replacement, pattern, s[..p], s[p + |pattern|..])| - |pattern|;
      && |ReplaceFirst(s, pattern, replacement)| == |s| + d
      && ReplaceFirst(s, pattern, replacement)[a + d..b + d] == s[a..b]
    ensures '$' !in replacement ==>
      var d := |replacement| - |pattern|;
      && |ReplaceFirst(s, pattern, replacement)| == |s| + d
      && ReplaceFirst(s, pattern, replacement)[a + d..b + d] == s[a..b]
  {
    ReplaceFirstAtFirstOccurrence(s, pattern, replacement, i);
    var p := IndexOf(s, pattern).value;
    var tail := s[p + |pattern|..];
    var e := Expand(replacement, pattern, s[..p], tail);
    var d := |e| - |pattern|;
    assert ReplaceFirst(s, pattern, replacement)[a + d..b + d] == tail[a - p - |pattern|..b - p - |pattern|];
    if '$' !in replacement {
      ExpandWithoutDollar(replacement, pattern, s[..p], tail);
    }
  }

  /**
   * An occurrence of any text `t` wholly after an occurrence of the pattern survives
   * `replace`, shifted by the change in length.
   */
  lemma LaterOccurrenceSurvives(s: string, pattern: string, replacement: string, i: nat, t: string, a: nat)
    requires OccursAt(s, pattern, i) && i + |pattern| <= a && OccursAt(s, t, a)
    ensures IndexOf(s, pattern).Some?
    ensures
      var p := IndexOf(s, pattern).value;
      var d := |Expand(replacement, pattern, s[..p], s[p + |pattern|..])| - |pattern|;
      a + d >= 0 && OccursAt(ReplaceFirst(s, pattern, replacement), t, a + d)
    ensures '$' !in replacement ==>
      a + |replacement| - |pattern| >= 0 &&
      OccursAt(ReplaceFirst(s, pattern, replacement), t, a + |replacement| - |pattern|)
  {
    var r := ReplaceFirst(s, pattern, replacement);
    TextAfterOccurrenceSurvives(s, pattern, replacement, i, a, a + |t|);
    var p := IndexOf(s, pattern).value;
    var d := |Expand(replacement, pattern, s[..p], s[p + |pattern|..])| - |pattern|;
    assert r[a + d..a + |t| + d] == t;
    if '$' !in replacement {
      assert r[a + |replacement| - |pattern|..a + |t| + |replacement| - |pattern|] == t;
    }
  }
}
