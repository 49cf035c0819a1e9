/**
 * The two regular expressions used by both form validators, written as predicates on the
 * trimmed field value:
 *   email  ^[^\s@]+@[^\s@]+\.[^\s@]+$
 *   phone  ^[\+]?[0-9\s\-\(\)]{10,}$
 */
module Patterns {
  import opened Text

  /** A character of the class [^\s@]. */
  predicate Plain(c: char) {
    !IsSpace(c) && c != '@'
  }

  /** A run of characters of the class [^\s@] (possibly empty: callers add the "+"). */
  predicate AllPlain(s: string) {
    forall i :: 0 <= i < |s| ==> Plain(s[i])
  }

  /**
   * isValidEmail: s splits as  a '@' b '.' c  with a, b and c non-empty runs of [^\s@].
   * The regular expression is anchored at both ends, so the whole of s takes part.
   */
  predicate IsValidEmail(s: string)
    ensures IsValidEmail(s) ==> 5 <= |s| && Plain(s[0]) && Plain(s[|s| - 1])
  {
    exists i, j | 0 < i && i + 1 < j && j + 1 < |s| ::
      s[i] == '@' && s[j] == '.' && AllPlain(s[..i]) && AllPlain(s[i + 1..j]) && AllPlain(s[j + 1..])
  }

  /** The number of times c occurs in s. */
  function CountOf(s: string, c: char): (n: nat)
    ensures n <= |s|
  {
    if s == [] then 0 else (if s[0] == c then 1 else 0) + CountOf(s[1..], c)
  }

  lemma {:induction false} CountOfSplit(a: string, b: string, c: char)
    ensures CountOf(a + b, c) == CountOf(a, c) + CountOf(b, c)
  {
    if a == [] {
      assert a + b == b;
    } else {
      assert (a + b)[1..] == a[1..] + b;
      CountOfSplit(a[1..], b, c);
    }
  }

  lemma {:induction false} CountOfAbsent(s: string, c: char)
    requires forall k :: 0 <= k < |s| ==> s[k] != c
    ensures CountOf(s, c) == 0
  {
    if s != [] {
      CountOfAbsent(s[1..], c);
    }
  }

  lemma {:induction false} CountOfPositive(s: string, c: char, k: nat)
    requires k < |s| && s[k] == c
    ensures CountOf(s, c) > 0
  {
    if k > 0 {
      CountOfPositive(s[1..], c, k - 1);
    }
  }

  /**
   * A second reading of the email rule, by parts: no white space anywhere, exactly one '@',
   * at least one character before it, and a '.' after it that is neither the first nor
   * the last character of the part after the '@'.
   */
  predicate EmailByParts(s: string) {
    (forall k :: 0 <= k < |s| ==> !IsSpace(s[k])) &&
    CountOf(s, '@') == 1 &&
    exists i, j | 0 < i && i + 1 < j && j + 1 < |s| :: s[i] == '@' && s[j] == '.'
  }

  /** A character inside a run of [^\s@] is of that class. */
  lemma PlainAt(s: string, a: nat, b: nat, k: nat)
    requires a <= k < b <= |s| && AllPlain(s[a..b])
    ensures Plain(s[k])
  {
    assert s[k] == s[a..b][k - a];
  }

  /** A string the regular expression accepts has the parts. */
  lemma EmailPatternGivesParts(s: string)
    requires IsValidEmail(s)
    ensures EmailByParts(s)
  {
    var i, j :| 0 < i && i + 1 < j && j + 1 < |s| && s[i] == '@' && s[j] == '.' &&
      AllPlain(s[..i]) && AllPlain(s[i + 1..j]) && AllPlain(s[j + 1..]);
    assert s[..i] == s[0..i] && s[j + 1..] == s[j + 1..|s|];
    forall k | 0 <= k < |s| && k != i ensures Plain(s[k]) {
      if k < i {
        PlainAt(s, 0, i, k);
      } else if k < j {
        PlainAt(s, i + 1, j, k);
      } else if k > j {
        PlainAt(s, j + 1, |s|, k);
      }
    }
    CountOne(s, i);
  }

  /** A string whose only '@' is at i has exactly one. */
  lemma CountOne(s: string, i: nat)
    requires i < |s| && s[i] == '@'
    requires forall k :: 0 <= k < |s| && k != i ==> s[k] != '@'
    ensures CountOf(s, '@') == 1
  {
    var pre, post := s[..i], s[i + 1..];
    assert s == pre + [s[i]] + post;
    assert forall k :: 0 <= k < |post| ==> post[k] == s[i + 1 + k];
    CountOfSplit(pre + [s[i]], post, '@');
    CountOfSplit(pre, [s[i]], '@');
    CountOfAbsent(pre, '@');
    CountOfAbsent(post, '@');
  }

  /** In a string with exactly one '@', any '@' found is that one. */
  lemma OnlyAt(s: string, i: nat, k: nat)
    requires CountOf(s, '@') == 1 && i < |s| && k < |s| && s[i] == '@' && s[k] == '@'
    ensures i == k
  {
    if i != k {
      var lo, hi := if k < i then k else i, if k < i then i else k;
      assert s == s[..hi] + s[hi..];
      CountOfSplit(s[..hi], s[hi..], '@');
      CountOfPositive(s[..hi], '@', lo);
      CountOfPositive(s[hi..], '@', 0);
    }
  }

  /** A string with the parts is accepted by the regular expression. */
  lemma EmailPartsGivePattern(s: string)
    requires EmailByParts(s)
    ensures IsValidEmail(s)
  {
    var i, j :| 0 < i && i + 1 < j && j + 1 < |s| && s[i] == '@' && s[j] == '.';
    forall k | 0 <= k < |s| && k != i ensures Plain(s[k]) {
      if s[k] == '@' {
        OnlyAt(s, i, k);
      }
    }
    assert AllPlain(s[..i]);
    assert AllPlain(s[i + 1..j]);
    assert AllPlain(s[j + 1..]);
  }

  /** The regular expression and the reading by parts accept the same strings. */
  lemma EmailRuleByParts(s: string)
    ensures IsValidEmail(s) <==> EmailByParts(s)
  {
    if IsValidEmail(s) {
      EmailPatternGivesParts(s);
    }
    if EmailByParts(s) {
      EmailPartsGivePattern(s);
    }
  }

  /** A character of the class [0-9\s\-\(\)]. */
  predicate PhoneChar(c: char) {
    '0' <= c <= '9' || IsSpace(c) || c == '-' || c == '(' || c == ')'
  }

  predicate AllPhone(s: string) {
    forall i :: 0 <= i < |s| ==> PhoneChar(s[i])
  }

  /**
   * isValidPhone: an optional leading '+', then ten or more characters of [0-9\s\-\(\)].
   * '+' is not itself such a character, so a leading '+' can only be the optional one.
   */
  predicate IsValidPhone(s: string)
    ensures IsValidPhone(s) ==>
      |s| >= 10 && forall k :: 0 <= k < |s| ==> PhoneChar(s[k]) || (k == 0 && s[k] == '+')
  {
    var body := if s != [] && s[0] == '+' then s[1..] else s;
    |body| >= 10 && AllPhone(body)
  }

  /**
   * The regular expression read alternative by alternative, as a backtracking matcher
   * tries it: with the optional '+' taken, or with it skipped.
   */
  ghost predicate PhoneAlternatives(s: string) {
    (|s| >= 11 && s[0] == '+' && AllPhone(s[1..])) || (|s| >= 10 && AllPhone(s))
  }

  /** Deciding the optional '+' by the first character loses no match. */
  lemma PhoneRuleDeterministic(s: string)
    ensures IsValidPhone(s) <==> PhoneAlternatives(s)
  {
    if |s| >= 10 && AllPhone(s) {
      assert PhoneChar(s[0]);
    }
  }

  /** The phone rule asks for no digit at all: ten hyphens pass. */
  lemma PhoneNeedsNoDigit()
    ensures IsValidPhone("----------")
  {
  }

  /** Nine digits, even after a '+', are too few. */
  lemma NineDigitsRejected()
    ensures !IsValidPhone("123456789") && !IsValidPhone("+123456789")
  {
  }

  /** Accepted: a short address, and one with dots on both sides of the '@'. */
  lemma EmailAccepted()
    ensures IsValidEmail("a@b.c") && IsValidEmail("first.last@mail.example.org")
  {
    var s := "a@b.c";
    assert s[1] == '@' && s[3] == '.';
    assert s[..1] == "a" && s[2..3] == "b" && s[4..] == "c";
    assert AllPlain(s[..1]) && AllPlain(s[2..3]) && AllPlain(s[4..]);
    DottedEmailAccepted();
  }

  /** The address with dots on both sides of the '@' is accepted. */
  lemma DottedEmailAccepted()
    ensures IsValidEmail("first.last@mail.example.org")
  {
    var e := "first.last@mail.example.org";
    assert e[10] == '@' && e[15] == '.';
    assert e[..10] == "first.last" && e[11..15] == "mail" && e[16..] == "example.org";
    WordPlain("first.last");
    WordPlain("mail");
    WordPlain("example.org");
  }

  /** Lower-case letters and dots are all of the class [^\s@]. */
  lemma WordPlain(s: string)
    requires forall k :: 0 <= k < |s| ==> 'a' <= s[k] <= 'z' || s[k] == '.'
    ensures AllPlain(s)
  {
  }

  /** Rejected: no dot after the '@', white space inside, and a second '@'. */
  lemma EmailRejected()
    ensures !IsValidEmail("a@b") && !IsValidEmail("a b@c.d") && !IsValidEmail("a@b@c.d")
  {
    var w := "a b@c.d";
    assert IsSpace(w[1]);
    EmailRuleByParts(w);
    var t := "a@b@c.d";
    if IsValidEmail(t) {
      EmailPatternGivesParts(t);
      OnlyAt(t, 1, 3);
    }
  }
}
