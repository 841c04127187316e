/**
 * Email normalisation as `createUser` and `authenticateUser` perform it:
 * `email.toLowerCase().trim()` (src/services/user.js:72 and :116).
 */
module Email {

  /** The characters ECMAScript's String.prototype.trim removes: WhiteSpace and LineTerminator. */
  predicate IsTrimmable(c: char) {
    || c == '\t' || c == '\n' || c == '\U{000B}' || c == '\U{000C}' || c == '\r' || c == ' '
    || c == '\U{00A0}' || c == '\U{1680}' || ('\U{2000}' <= c <= '\U{200A}')
    || c == '\U{2028}' || c == '\U{2029}' || c == '\U{202F}' || c == '\U{205F}'
    || c == '\U{3000}' || c == '\U{FEFF}'
  }

  predicate IsUpper(c: char) {
    'A' <= c <= 'Z'
  }

  /** Lower-cases one character (ASCII letters only). */
  function LowerChar(c: char): (r: char)
    ensures !IsUpper(r)
    ensures IsUpper(c) ==> 'a' <= r <= 'z' && r as int - 'a' as int == c as int - 'A' as int
    ensures IsTrimmable(r) <==> IsTrimmable(c)
    ensures !IsUpper(c) ==> r == c
  {
    if IsUpper(c) then (c as int + 32) as char else c
  }

  function ToLower(s: string): (r: string)
    ensures |r| == |s|
    ensures forall i :: 0 <= i < |s| ==> r[i] == LowerChar(s[i])
  {
    seq(|s|, i requires 0 <= i < |s| => LowerChar(s[i]))
  }

  predicate NoUpper(s: string) {
    forall i :: 0 <= i < |s| ==> !IsUpper(s[i])
  }

  /** The number of trimmable characters at the start of `s`. */
  function LeadingPad(s: string): (k: nat)
    ensures k <= |s|
    ensures forall i :: 0 <= i < k ==> IsTrimmable(s[i])
    ensures k < |s| ==> !IsTrimmable(s[k])
  {
    if s != [] && IsTrimmable(s[0]) then 1 + LeadingPad(s[1..]) else 0
  }

  /** The number of trimmable characters at the end of `s`. */
  function TrailingPad(s: string): (k: nat)
    ensures k <= |s|
    ensures forall i :: |s| - k <= i < |s| ==> IsTrimmable(s[i])
    ensures k < |s| ==> !IsTrimmable(s[|s| - 1 - k])
  {
    if s != [] && IsTrimmable(s[|s| - 1]) then 1 + TrailingPad(s[..|s| - 1]) else 0
  }

  function TrimStart(s: string): string {
    s[LeadingPad(s)..]
  }

  function TrimEnd(s: string): string {
    s[..|s| - TrailingPad(s)]
  }

  /**
   * `s.trim()`: the result starts and ends with a kept character, and it is the
   * slice of `s` after the leading padding with only trimmable characters after it.
   */
  function Trim(s: string): (r: string)
    ensures IsTrimmed(r)
    ensures LeadingPad(s) + |r| <= |s|
    ensures r == s[LeadingPad(s)..LeadingPad(s) + |r|]
    ensures forall k :: LeadingPad(s) + |r| <= k < |s| ==> IsTrimmable(s[k])
  {
    var l := LeadingPad(s);
    var t := s[l..];
    assert forall k :: l <= k < |s| ==> s[k] == t[k - l];
    TrimEnd(t)
  }

  /** A string that begins and ends with a character trim keeps. */
  predicate IsTrimmed(s: string) {
    s == [] || (!IsTrimmable(s[0]) && !IsTrimmable(s[|s| - 1]))
  }

  /** The stored, looked-up form of an email address. */
  function Normalize(email: string): (r: string)
    ensures IsNormalized(r)
    ensures LeadingPad(email) + |r| <= |email|
    ensures forall i :: 0 <= i < |r| ==> r[i] == LowerChar(email[LeadingPad(email) + i])
    ensures forall k :: LeadingPad(email) + |r| <= k < |email| ==> IsTrimmable(email[k])
  {
    var t := ToLower(email);
    LeadingPadToLower(email);
    Trim(t)
  }

  /** Lower-casing leaves the leading padding where it was. */
  lemma LeadingPadToLower(s: string)
    ensures LeadingPad(ToLower(s)) == LeadingPad(s)
  {
  }

  lemma {:induction false} TrimOfTrimmed(s: string)
    requires IsTrimmed(s)
    ensures Trim(s) == s
  {
    assert LeadingPad(s) == 0;
    assert TrimStart(s) == s;
    assert TrailingPad(s) == 0;
  }

  /** The shape of a normalised address: no edge white space, no upper-case letter. */
  predicate IsNormalized(s: string) {
    IsTrimmed(s) && NoUpper(s)
  }

  /** The normalised addresses are exactly the fixed points of `Normalize`. */
  lemma {:induction false} NormalizedIffFixed(s: string)
    ensures IsNormalized(s) <==> Normalize(s) == s
  {
    if IsNormalized(s) {
      assert ToLower(s) == s;
      TrimOfTrimmed(s);
    }
  }

  /** Normalising an already normalised address changes nothing. */
  lemma {:induction false} NormalizeIdempotent(email: string)
    ensures Normalize(Normalize(email)) == Normalize(email)
  {
    var n := Normalize(email);
    assert ToLower(n) == n;
    TrimOfTrimmed(n);
  }

  /** Addresses that differ only in ASCII letter case or in surrounding white space normalise alike. */
  lemma {:induction false} NormalizeIgnoresCaseAndPadding(email: string, pre: string, post: string)
    requires forall i :: 0 <= i < |pre| ==> IsTrimmable(pre[i])
    requires forall i :: 0 <= i < |post| ==> IsTrimmable(post[i])
    ensures Normalize(pre + email + post) == Normalize(email)
    ensures Normalize(ToLower(email)) == Normalize(email)
  {
    var s := ToLower(email);
    assert ToLower(s) == s;
    assert ToLower(pre + email + post) == ToLower(pre) + s + ToLower(post);
    PaddedTrim(ToLower(pre), s, ToLower(post));
  }

  lemma {:induction false} PaddedTrim(pre: string, s: string, post: string)
    requires forall i :: 0 <= i < |pre| ==> IsTrimmable(pre[i])
    requires forall i :: 0 <= i < |post| ==> IsTrimmable(post[i])
    ensures Trim(pre + s + post) == Trim(s)
  {
    assert pre + s + post == pre + (s + post);
    LeadingPadAfter(pre, s + post);
    assert TrimStart(pre + s + post) == TrimStart(s + post);
    var l := LeadingPad(s);
    if l == |s| {
      LeadingPadAfter(s, post);
      assert TrimStart(s + post) == [] == TrimStart(s);
    } else {
      LeadingPadPrefix(s, post);
      assert TrimStart(s + post) == s[l..] + post;
      TrailingPadBefore(s[l..], post);
    }
  }

  /** A padding prefix adds its whole length to the leading pad. */
  lemma {:induction false} LeadingPadAfter(pre: string, s: string)
    requires forall i :: 0 <= i < |pre| ==> IsTrimmable(pre[i])
    ensures LeadingPad(pre + s) == |pre| + LeadingPad(s)
    decreases |pre|
  {
    if pre != [] {
      assert (pre + s)[1..] == pre[1..] + s;
      LeadingPadAfter(pre[1..], s);
    } else {
      assert pre + s == s;
    }
  }

  /** Appending text after a kept character does not move the leading pad. */
  lemma {:induction false} LeadingPadPrefix(s: string, post: string)
    requires LeadingPad(s) < |s|
    ensures LeadingPad(s + post) == LeadingPad(s)
    decreases |s|
  {
    if IsTrimmable(s[0]) {
      assert (s + post)[1..] == s[1..] + post;
      LeadingPadPrefix(s[1..], post);
    }
  }

  /** A padding suffix is dropped by the trailing trim. */
  lemma {:induction false} TrailingPadBefore(s: string, post: string)
    requires forall i :: 0 <= i < |post| ==> IsTrimmable(post[i])
    ensures TrimEnd(s + post) == TrimEnd(s)
    decreases |post|
  {
    if post != [] {
      var w := s + post;
      assert w[..|w| - 1] == s + post[..|post| - 1];
      TrailingPadBefore(s, post[..|post| - 1]);
    } else {
      assert s + post == s;
    }
  }
}
