/**
 * Character classes and string helpers shared by the sanitisers and validators:
 * ASCII whitespace (what `\s` matches and what `trim` strips), ASCII upper-casing,
 * `trim`, `includes`, and "the text after the last separator" (`split(sep).pop()`).
 */
module Text {

  /** ASCII whitespace: tab, line feed, vertical tab, form feed, carriage return and space. */
  predicate IsWhitespace(c: char) {
    c == ' ' || c == '\t' || c == '\n' || c == '\U{000B}' || c == '\U{000C}' || c == '\r'
  }

  predicate IsLower(c: char) {
    'a' <= c <= 'z'
  }

  /** ASCII upper-casing of one character: `a`..`z` become `A`..`Z`, every other character is kept. */
  function ToUpper(c: char): (u: char)
    ensures !IsLower(u)
    ensures IsLower(c) ==> 'A' <= u <= 'Z'
    ensures !IsLower(c) ==> u == c
  {
    if IsLower(c) then (c as int - 32) as char else c
  }

  /** `toUpperCase()` / `to_uppercase()` over ASCII. */
  function Upper(s: string): (r: string)
    ensures |r| == |s|
    ensures forall i :: 0 <= i < |s| ==> r[i] == ToUpper(s[i])
  {
    if s == [] then [] else [ToUpper(s[0])] + Upper(s[1..])
  }

  /** No ASCII lower-case letter occurs in `s`. */
  predicate NoLower(s: string) {
    forall i :: 0 <= i < |s| ==> !IsLower(s[i])
  }

  predicate NoWhitespace(s: string) {
    forall i :: 0 <= i < |s| ==> !IsWhitespace(s[i])
  }

  predicate AllWhitespace(s: string) {
    forall i :: 0 <= i < |s| ==> IsWhitespace(s[i])
  }

  /** A concatenation splits back into its two parts. */
  lemma SplitJoin<T>(a: seq<T>, b: seq<T>)
    ensures (a + b)[..|a|] == a && (a + b)[|a|..] == b
  {
  }

  /** Two pieces joined by one separator split back around it. */
  lemma SplitAround<T>(a: seq<T>, x: T, b: seq<T>)
    ensures var s := a + [x] + b;
      |s| == |a| + 1 + |b| && s[..|a|] == a && s[|a|] == x && s[|a| + 1..] == b
  {
    var s := a + [x] + b;
    assert s[..|a|] == a;
    assert s[|a| + 1..] == b;
  }

  /** Upper-casing a string without lower-case letters changes nothing. */
  lemma {:induction false} UpperIdentity(s: string)
    requires NoLower(s)
    ensures Upper(s) == s
  {
    if s != [] {
      UpperIdentity(s[1..]);
    }
  }

  /** Upper-casing works piece by piece. */
  lemma {:induction false} UpperAppend(a: string, b: string)
    ensures Upper(a + b) == Upper(a) + Upper(b)
    decreases |a|
  {
    if a == [] {
      assert a + b == b;
    } else {
      assert (a + b)[1..] == a[1..] + b;
      UpperAppend(a[1..], b);
    }
  }

  /** Two strings without lower-case letters join into one. */
  lemma NoLowerAppend(a: string, b: string)
    requires NoLower(a) && NoLower(b)
    ensures NoLower(a + b)
  {
    var s := a + b;
    forall i | 0 <= i < |s| ensures !IsLower(s[i]) {
      if i >= |a| {
        assert s[i] == b[i - |a|];
      }
    }
  }

  /** Neither the first nor the last character is whitespace. */
  predicate Trimmed(s: string) {
    s != [] ==> !IsWhitespace(s[0]) && !IsWhitespace(s[|s| - 1])
  }

  /** Leading whitespace removed. */
  function TrimStart(s: string): (r: string)
    ensures |r| <= |s| && r == s[|s| - |r|..]
    ensures forall i :: 0 <= i < |s| - |r| ==> IsWhitespace(s[i])
    ensures r != [] ==> !IsWhitespace(r[0])
  {
    if s != [] && IsWhitespace(s[0]) then TrimStart(s[1..]) else s
  }

  /** Trailing whitespace removed. */
  function TrimEnd(s: string): (r: string)
    ensures |r| <= |s| && r == s[..|r|]
    ensures forall i :: |r| <= i < |s| ==> IsWhitespace(s[i])
    ensures r != [] ==> !IsWhitespace(r[|r| - 1])
  {
    if s != [] && IsWhitespace(s[|s| - 1]) then TrimEnd(s[..|s| - 1]) else s
  }

  /** `trim()`: leading and trailing whitespace removed; empty exactly for blank input. */
  function Trim(s: string): (r: string)
    ensures r == [] <==> AllWhitespace(s)
    ensures Trimmed(r)
    ensures |r| <= |s|
    ensures NoWhitespace(s) ==> r == s
  {
    var u := TrimStart(s);
    var r := TrimEnd(u);
    assert r != [] ==> r[0] == u[0];
    assert u != [] ==> !IsWhitespace(u[0]);
    assert u != [] ==> u[0] == s[|s| - |u|];
    r
  }

  /** `trim()` cuts whitespace off both ends and keeps everything between them as it was. */
  lemma TrimKeepsInterior(s: string)
    ensures exists pre, post :: AllWhitespace(pre) && AllWhitespace(post) && s == pre + (Trim(s) + post)
  {
    var u := TrimStart(s);
    var pre := LeadingWhitespace(s);
    var post := TrailingWhitespace(u);
    var r := Trim(s);
    assert r == TrimEnd(u);
    assert s == pre + (r + post);
  }

  /** The whitespace `TrimStart` removes, in front of what it keeps. */
  lemma LeadingWhitespace(s: string) returns (pre: string)
    ensures AllWhitespace(pre) && s == pre + TrimStart(s)
  {
    pre := s[..|s| - |TrimStart(s)|];
    forall k | 0 <= k < |pre| ensures IsWhitespace(pre[k]) {
      assert pre[k] == s[k];
    }
  }

  /** The whitespace `TrimEnd` removes, behind what it keeps. */
  lemma TrailingWhitespace(u: string) returns (post: string)
    ensures AllWhitespace(post) && u == TrimEnd(u) + post
  {
    post := u[|TrimEnd(u)|..];
    forall k | 0 <= k < |post| ensures IsWhitespace(post[k]) {
      assert post[k] == u[|TrimEnd(u)| + k];
    }
  }

  /** A string that neither starts nor ends with whitespace is its own `trim()`. */
  lemma TrimmedIsFixed(s: string)
    requires Trimmed(s)
    ensures Trim(s) == s
  {
    assert TrimStart(s) == s;
    assert TrimEnd(s) == s;
  }

  /** `s.includes(sub)`: `sub` occurs in `s` as a contiguous piece. */
  predicate Contains(s: string, sub: string)
    decreases |s|
  {
    if |s| < |sub| then false
    else if s[..|sub|] == sub then true
    else Contains(s[1..], sub)
  }

  /** `sub` occurs at offset `k` of `s`. */
  predicate OccursAt(s: string, sub: string, k: int) {
    0 <= k && k + |sub| <= |s| && s[k..k + |sub|] == sub
  }

  /** `Contains` holds exactly when `sub` occurs at some offset. */
  lemma {:induction false} ContainsIff(s: string, sub: string)
    ensures Contains(s, sub) <==> exists k :: OccursAt(s, sub, k)
    decreases |s|
  {
    if |s| < |sub| {
      assert forall k :: !OccursAt(s, sub, k);
    } else if s[..|sub|] == sub {
      assert OccursAt(s, sub, 0);
    } else {
      ContainsIff(s[1..], sub);
      if Contains(s, sub) {
        var k :| OccursAt(s[1..], sub, k);
        assert s[k + 1..k + 1 + |sub|] == s[1..][k..k + |sub|];
        assert OccursAt(s, sub, k + 1);
      } else {
        forall k | OccursAt(s, sub, k) ensures OccursAt(s[1..], sub, k - 1) {
          assert s[0..0 + |sub|] == s[..|sub|];
          assert k != 0;
          assert s[1..][k - 1..k - 1 + |sub|] == s[k..k + |sub|];
        }
      }
    }
  }

  /** A piece placed between two strings is found in the concatenation. */
  lemma ContainsMiddle(a: string, sub: string, b: string)
    ensures Contains(a + sub + b, sub)
  {
    var s := a + sub + b;
    assert s[|a|..|a| + |sub|] == sub;
    assert OccursAt(s, sub, |a|);
    ContainsIff(s, sub);
  }

  /**
   * The text after the last occurrence of `sep` (the whole string when `sep` does not occur):
   * the last element of `s.split(sep)`.
   */
  function LastPiece(s: string, sep: char): (r: string)
    ensures |r| <= |s| && r == s[|s| - |r|..]
    ensures sep !in r
    ensures |r| < |s| ==> s[|s| - |r| - 1] == sep
  {
    if s == [] then []
    else if s[|s| - 1] == sep then []
    else LastPiece(s[..|s| - 1], sep) + [s[|s| - 1]]
  }

  /** A piece found in a string is still found after more text is appended. */
  lemma ContainsExtend(s: string, more: string, sub: string)
    requires Contains(s, sub)
    ensures Contains(s + more, sub)
  {
    ContainsIff(s, sub);
    var k :| OccursAt(s, sub, k);
    assert (s + more)[k..k + |sub|] == s[k..k + |sub|];
    assert OccursAt(s + more, sub, k);
    ContainsIff(s + more, sub);
  }
}
