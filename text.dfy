/**
 * String helpers with the semantics of the JavaScript built-ins the site relies on:
 * white space as matched by \s and removed by String.prototype.trim, first-occurrence
 * search and replacement, and suffix tests (plain and ASCII case-insensitive).
 * Strings are sequences of characters.
 */
module Text {
  import opened Wrappers

  /** ECMAScript WhiteSpace and LineTerminator code points (the class \s, and what trim() strips). */
  predicate IsSpace(c: char) {
    var n := c as int;
    n == 0x09 || n == 0x0A || n == 0x0B || n == 0x0C || n == 0x0D || n == 0x20 ||
    n == 0xA0 || n == 0x1680 || (0x2000 <= n <= 0x200A) || n == 0x2028 || n == 0x2029 ||
    n == 0x202F || n == 0x205F || n == 0x3000 || n == 0xFEFF
  }

  /** Every character of s is white space (true of the empty string). */
  predicate IsBlank(s: string) {
    forall i :: 0 <= i < |s| ==> IsSpace(s[i])
  }

  /** s without its leading white space. */
  function TrimStart(s: string): (r: string)
    ensures |r| <= |s|
  {
    if s != [] && IsSpace(s[0]) then TrimStart(s[1..]) else s
  }

  /** s without its trailing white space. */
  function TrimEnd(s: string): (r: string)
    ensures |r| <= |s|
  {
    if s != [] && IsSpace(s[|s| - 1]) then TrimEnd(s[..|s| - 1]) else s
  }

  /** String.prototype.trim. */
  function Trim(s: string): (r: string)
    ensures |r| <= |s|
  {
    TrimEnd(TrimStart(s))
  }

  /** TrimStart cuts a blank prefix and stops at the first non-space character. */
  lemma {:induction false} TrimStartCuts(s: string)
    ensures var r := TrimStart(s);
      r == s[|s| - |r|..] && IsBlank(s[..|s| - |r|]) && (r != [] ==> !IsSpace(r[0]))
    decreases |s|
  {
    if s != [] && IsSpace(s[0]) {
      TrimStartCuts(s[1..]);
      var r := TrimStart(s);
      assert s[1..][|s| - 1 - |r|..] == s[|s| - |r|..];
      assert s[..|s| - |r|] == [s[0]] + s[1..][..|s| - 1 - |r|];
    }
  }

  /** TrimEnd cuts a blank suffix and stops at the last non-space character. */
  lemma {:induction false} TrimEndCuts(s: string)
    ensures var r := TrimEnd(s);
      r == s[..|r|] && IsBlank(s[|r|..]) && (r != [] ==> !IsSpace(r[|r| - 1]))
    decreases |s|
  {
    if s != [] && IsSpace(s[|s| - 1]) {
      TrimEndCuts(s[..|s| - 1]);
      var r := TrimEnd(s);
      assert s[..|s| - 1][..|r|] == s[..|r|];
      assert s[|r|..] == s[..|s| - 1][|r|..] + [s[|s| - 1]];
    }
  }

  /**
   * Trim keeps a contiguous slice of s and cuts only white space: the slice is empty
   * exactly when s is blank, and otherwise neither of its ends is white space.
   */
  lemma TrimSpec(s: string)
    ensures var r := Trim(s);
      (exists a :: 0 <= a <= |s| - |r| && r == s[a..a + |r|] && IsBlank(s[..a]) && IsBlank(s[a + |r|..]))
      && (r != [] ==> !IsSpace(r[0]) && !IsSpace(r[|r| - 1]))
      && (r == [] <==> IsBlank(s))
  {
    var t := TrimStart(s);
    var r := TrimEnd(t);
    TrimStartCuts(s);
    TrimEndCuts(t);
    var a := |s| - |t|;
    assert r == s[a..a + |r|];
    assert s[a + |r|..] == t[|r|..];
    if r == [] {
      assert s == s[..a] + t;
    }
    if r != [] {
      assert !IsSpace(r[0]) by {
        assert r[0] == t[0];
      }
    }
  }

  /** An occurrence of p in s starts at index i. */
  predicate OccursAt(s: string, p: string, i: int) {
    0 <= i && i + |p| <= |s| && s[i..i + |p|] == p
  }

  /** p occurs somewhere in s (String.prototype.includes). */
  predicate Contains(s: string, p: string) {
    exists i | 0 <= i <= |s| :: OccursAt(s, p, i)
  }

  /** The first occurrence of p in s at or after index k. */
  function IndexFrom(s: string, p: string, k: nat): (r: Option<nat>)
    ensures r.Some? ==> k <= r.value && OccursAt(s, p, r.value)
    ensures r.Some? ==> forall j :: k <= j < r.value ==> !OccursAt(s, p, j)
    ensures r.None? ==> forall j :: k <= j ==> !OccursAt(s, p, j)
    decreases |s| - k
  {
    if k + |p| > |s| then None
    else if s[k..k + |p|] == p then Some(k)
    else IndexFrom(s, p, k + 1)
  }

  /** String.prototype.indexOf: the first occurrence of p in s, if any. */
  function IndexOf(s: string, p: string): (r: Option<nat>)
    ensures r.None? <==> !Contains(s, p)
  {
    IndexFrom(s, p, 0)
  }

  /**
   * String.prototype.replace with a pattern that matches exactly the text p (a string
   * pattern, or a regular expression without the g flag whose only match is that text):
   * the first occurrence of p is replaced by rep, and a string without p is returned as it is.
   */
  function ReplaceFirst(s: string, p: string, rep: string): (r: string)
    ensures !Contains(s, p) ==> |r| == |s|
    ensures Contains(s, p) ==> |r| == |s| - |p| + |rep|
  {
    match IndexOf(s, p)
    case None => s
    case Some(i) => s[..i] + rep + s[i + |p|..]
  }

  /** String.prototype.endsWith. */
  predicate EndsWith(s: string, suffix: string) {
    |suffix| <= |s| && s[|s| - |suffix|..] == suffix
  }

  /** ASCII lower-casing; every other character is its own case. */
  function AsciiLower(c: char): char {
    if 'A' <= c <= 'Z' then (c as int + 32) as char else c
  }

  /** s ends with the lower-case ASCII text suffix, ignoring the case of s's letters. */
  predicate EndsWithIgnoringCase(s: string, suffix: string) {
    |suffix| <= |s| && forall i :: 0 <= i < |suffix| ==> AsciiLower(s[|s| - |suffix| + i]) == suffix[i]
  }

  /** When p does not occur, replacing its first occurrence changes nothing. */
  lemma ReplaceFirstAbsent(s: string, p: string, rep: string)
    requires !Contains(s, p)
    ensures ReplaceFirst(s, p, rep) == s
  {
  }

  /**
   * When p occurs, the result is s with the FIRST occurrence of p cut out and rep put in its
   * place: nothing before that occurrence is touched, and rep is in the result.
   */
  lemma {:induction false} ReplaceFirstPresent(s: string, p: string, rep: string) returns (i: nat)
    requires Contains(s, p)
    ensures OccursAt(s, p, i) && forall j :: 0 <= j < i ==> !OccursAt(s, p, j)
    ensures ReplaceFirst(s, p, rep) == s[..i] + rep + s[i + |p|..]
    ensures OccursAt(ReplaceFirst(s, p, rep), rep, i) && Contains(ReplaceFirst(s, p, rep), rep)
  {
    i := IndexOf(s, p).value;
    var r := ReplaceFirst(s, p, rep);
    assert r[i..i + |rep|] == rep;
    assert OccursAt(r, rep, i);
  }
}
