/** The small pieces of Python string behaviour the dialogue core relies on:
    `str.lower`, `str.strip`, `str.find`, `in` on strings, slicing, and the
    character filters used by the phone heuristic. Characters are treated as
    ASCII for case and whitespace. */
module Text {

  import opened Wrappers

  /** Python's `str.isspace` on the ASCII range: space, tab through carriage
      return, and the four information separators U+001C..U+001F. */
  predicate IsSpace(c: char) {
    c == ' ' || ('\t' <= c <= '\r') || ('\U{1C}' <= c <= '\U{1F}')
  }

  /** `str.isdigit` on the ASCII range. */
  predicate IsDigit(c: char) {
    '0' <= c <= '9'
  }

  /** A character the phone heuristic keeps: a digit or a plus sign. */
  predicate IsPhoneChar(c: char) {
    IsDigit(c) || c == '+'
  }

  /** ASCII lower-casing of one character. */
  function Lower(c: char): char {
    if 'A' <= c <= 'Z' then (c as int + 32) as char else c
  }

  /** `s.lower()`: same length, every character lower-cased in place. */
  function LowerStr(s: string): (r: string)
    ensures |r| == |s|
    ensures forall i :: 0 <= i < |s| ==> r[i] == Lower(s[i])
  {
    seq(|s|, i requires 0 <= i < |s| => Lower(s[i]))
  }

  /** Lower-casing a lower-cased string changes nothing. */
  lemma LowerIdempotent(s: string)
    ensures LowerStr(LowerStr(s)) == LowerStr(s)
  {
  }

  /** Lower-casing commutes with slicing, so an index found in the
      lower-cased text is valid in the original text. */
  lemma LowerSlice(s: string, a: nat, b: nat)
    requires a <= b <= |s|
    ensures LowerStr(s[a..b]) == LowerStr(s)[a..b]
  {
  }

  function Min(a: int, b: int): int {
    if a <= b then a else b
  }

  function Max(a: int, b: int): int {
    if a >= b then a else b
  }

  /** `s[:n]` for a non-negative `n`. */
  function Take(s: string, n: nat): (r: string)
    ensures |r| == Min(n, |s|)
    ensures r == s[..|r|]
  {
    if n <= |s| then s[..n] else s
  }

  /** Taking at least the whole string keeps it whole. */
  lemma TakeAll(s: string, n: nat)
    requires |s| <= n
    ensures Take(s, n) == s
  {
    assert s[..|s|] == s;
  }

  // ---------------------------------------------------------------------------
  // strip

  /** First index at or after `i` that is not whitespace (or `|s|`). */
  function SkipSpaces(s: string, i: nat): (k: nat)
    requires i <= |s|
    ensures i <= k <= |s|
    ensures forall j :: i <= j < k ==> IsSpace(s[j])
    ensures k < |s| ==> !IsSpace(s[k])
    decreases |s| - i
  {
    if i < |s| && IsSpace(s[i]) then SkipSpaces(s, i + 1) else i
  }

  /** Smallest index `k >= lo` such that `s[k..e]` is all whitespace. */
  function SkipSpacesBack(s: string, lo: nat, e: nat): (k: nat)
    requires lo <= e <= |s|
    ensures lo <= k <= e
    ensures forall j :: k <= j < e ==> IsSpace(s[j])
    ensures lo < k ==> !IsSpace(s[k - 1])
    decreases e
  {
    if lo < e && IsSpace(s[e - 1]) then SkipSpacesBack(s, lo, e - 1) else e
  }

  /** The slice `s[lo..hi]` that `s.strip()` keeps: everything cut off on
      either side is whitespace, and the kept part neither starts nor ends
      with whitespace; it is empty only when `s` is all whitespace. */
  function StripBounds(s: string): (b: (nat, nat))
    ensures b.0 <= b.1 <= |s|
    ensures forall j :: 0 <= j < b.0 ==> IsSpace(s[j])
    ensures forall j :: b.1 <= j < |s| ==> IsSpace(s[j])
    ensures b.0 < b.1 ==> !IsSpace(s[b.0]) && !IsSpace(s[b.1 - 1])
    ensures b.0 == b.1 <==> forall j :: 0 <= j < |s| ==> IsSpace(s[j])
  {
    var lo := SkipSpaces(s, 0);
    (lo, SkipSpacesBack(s, lo, |s|))
  }

  /** `r` is `s` without some whitespace at either end: a slice of `s` with
      only whitespace before and after it. */
  predicate TrimOf(s: string, r: string) {
    exists a: nat :: a <= |s| && TrimAt(s, r, a)
  }

  /** `r` sits at `a` in `s` with only whitespace before and after it. */
  predicate TrimAt(s: string, r: string, a: nat) {
    && a + |r| <= |s|
    && s[a..a + |r|] == r
    && (forall j :: 0 <= j < a ==> IsSpace(s[j]))
    && (forall j :: a + |r| <= j < |s| ==> IsSpace(s[j]))
  }

  /** `s.strip()`. */
  function Strip(s: string): string {
    var b := StripBounds(s);
    s[b.0..b.1]
  }

  /** Stripping removes only surrounding whitespace. */
  lemma StripTrims(s: string)
    ensures TrimOf(s, Strip(s))
  {
    var b := StripBounds(s);
    var r := Strip(s);
    assert b.0 + |r| == b.1;
    assert s[b.0..b.0 + |r|] == r;
    assert forall j :: 0 <= j < b.0 ==> IsSpace(s[j]);
    assert forall j :: b.0 + |r| <= j < |s| ==> IsSpace(s[j]);
    assert TrimAt(s, r, b.0);
  }

  /** Stripping is idempotent: a stripped string has no whitespace left at
      either end. */
  lemma StripIdempotent(s: string)
    ensures Strip(Strip(s)) == Strip(s)
  {
    var r := Strip(s);
    var b := StripBounds(r);
    if |r| > 0 {
      assert !IsSpace(r[0]) && !IsSpace(r[|r| - 1]);
      assert b.0 == 0;
      assert b.1 == |r|;
    }
  }

  // ---------------------------------------------------------------------------
  // find / in

  /** `p` occurs in `s` starting at index `i`. */
  predicate OccursAt(s: string, p: string, i: nat) {
    i + |p| <= |s| && s[i..i + |p|] == p
  }

  /** `s.find(p, i)`: the first occurrence at or after `i`, or -1. */
  function FindFrom(s: string, p: string, i: nat): (r: int)
    ensures r == -1 || (i <= r && OccursAt(s, p, r))
    ensures r == -1 ==> forall j: nat :: i <= j ==> !OccursAt(s, p, j)
    ensures 0 <= r ==> forall j: nat :: i <= j < r ==> !OccursAt(s, p, j)
    decreases |s| - i
  {
    if i + |p| > |s| then -1
    else if OccursAt(s, p, i) then i
    else FindFrom(s, p, i + 1)
  }

  /** `s.find(p)`: the index of the first occurrence of `p` in `s`, or -1
      exactly when `p` occurs nowhere. */
  function Find(s: string, p: string): (r: int)
    ensures -1 <= r
    ensures r == -1 <==> forall j: nat :: !OccursAt(s, p, j)
    ensures 0 <= r ==> OccursAt(s, p, r) && forall j: nat :: j < r ==> !OccursAt(s, p, j)
  {
    FindFrom(s, p, 0)
  }

  /** Python's `p in s` for strings. */
  predicate Contains(s: string, p: string) {
    Find(s, p) >= 0
  }

  lemma ContainsAt(s: string, p: string, i: nat)
    requires OccursAt(s, p, i)
    ensures Contains(s, p)
  {
  }

  /** Every slice of `s` is contained in `s`. */
  lemma SliceContained(s: string, a: nat, b: nat)
    requires a <= b <= |s|
    ensures Contains(s, s[a..b])
  {
    ContainsAt(s, s[a..b], a);
  }

  /** Containment is transitive: an infix of an infix is an infix. */
  lemma {:induction false} ContainsTrans(s: string, m: string, p: string)
    requires Contains(s, m) && Contains(m, p)
    ensures Contains(s, p)
  {
    var i := Find(s, m);
    var j := Find(m, p);
    assert OccursAt(s, m, i) && OccursAt(m, p, j);
    assert s[i + j..i + j + |p|] == p by {
      forall k | 0 <= k < |p|
        ensures s[i + j + k] == p[k]
      {
        assert m[j + k] == s[i + j + k];
        assert p[k] == m[j + k];
      }
    }
    ContainsAt(s, p, i + j);
  }

  /** A string that avoids `p` passes that on to every one of its infixes. */
  lemma InfixAvoids(s: string, m: string, p: string)
    requires Contains(s, m) && !Contains(s, p)
    ensures !Contains(m, p)
  {
    if Contains(m, p) {
      ContainsTrans(s, m, p);
    }
  }

  /** Everything before the first occurrence of a non-empty `p` avoids `p`. */
  lemma {:induction false} PrefixBeforeFirstAvoids(s: string, p: string)
    requires |p| > 0 && Contains(s, p)
    ensures !Contains(s[..Find(s, p)], p)
  {
    var idx := Find(s, p);
    var pre := s[..idx];
    forall j: nat
      ensures !OccursAt(pre, p, j)
    {
      if j + |p| <= |pre| {
        assert j < idx && !OccursAt(s, p, j);
        assert pre[j..j + |p|] == s[j..j + |p|];
      }
    }
  }

  /** The stripped string is a piece of the original. */
  lemma StripContained(s: string)
    ensures Contains(s, Strip(s))
  {
    var b := StripBounds(s);
    SliceContained(s, b.0, b.1);
  }

  /** `any(k in t for k in ks)`. */
  function ContainsAny(t: string, ks: seq<string>): (r: bool)
    ensures r <==> exists i :: 0 <= i < |ks| && Contains(t, ks[i])
  {
    if ks == [] then false
    else if Contains(t, ks[0]) then true
    else
      var rest := ContainsAny(t, ks[1..]);
      assert forall i :: 1 <= i < |ks| ==> ks[i] == ks[1..][i - 1];
      rest
  }

  /** The position, in list order, of the first entry of `ks` (at or after
      `k`) that occurs in `t`. */
  function FirstContainedFrom(t: string, ks: seq<string>, k: nat): (r: Option<nat>)
    requires k <= |ks|
    ensures r.Some? ==> k <= r.value < |ks| && Contains(t, ks[r.value])
    ensures r.Some? ==> forall j :: k <= j < r.value ==> !Contains(t, ks[j])
    ensures r.None? ==> forall j :: k <= j < |ks| ==> !Contains(t, ks[j])
    decreases |ks| - k
  {
    if k == |ks| then None
    else if Contains(t, ks[k]) then Some(k)
    else FirstContainedFrom(t, ks, k + 1)
  }

  // ---------------------------------------------------------------------------
  // character filters

  /** `"".join(ch for ch in s if ch.isdigit() or ch == "+")`. */
  function PhoneChars(s: string): (r: string)
    ensures |r| <= |s|
    ensures forall i :: 0 <= i < |r| ==> IsPhoneChar(r[i])
    ensures (forall i :: 0 <= i < |s| ==> IsPhoneChar(s[i])) ==> r == s
    ensures (forall i :: 0 <= i < |s| ==> !IsPhoneChar(s[i])) ==> r == []
  {
    if s == [] then []
    else (if IsPhoneChar(s[0]) then [s[0]] else []) + PhoneChars(s[1..])
  }

  /** `s.replace(c, "")` for a single character. */
  function Without(s: string, c: char): (r: string)
    ensures |r| <= |s|
    ensures forall i :: 0 <= i < |r| ==> r[i] != c
  {
    if s == [] then []
    else (if s[0] == c then [] else [s[0]]) + Without(s[1..], c)
  }

  /** Number of ASCII digits in `s`. */
  function DigitCount(s: string): nat {
    if s == [] then 0 else (if IsDigit(s[0]) then 1 else 0) + DigitCount(s[1..])
  }

  lemma {:induction false} PhoneCharsAppend(a: string, b: string)
    ensures PhoneChars(a + b) == PhoneChars(a) + PhoneChars(b)
  {
    if a == [] {
      assert a + b == b;
    } else {
      assert (a + b)[1..] == a[1..] + b;
      PhoneCharsAppend(a[1..], b);
    }
  }

  /** Dropping the plus signs from the phone characters leaves exactly the
      digits: `len(digits.replace("+", ""))` counts the digits of `s`. */
  lemma {:induction false} PhoneDigitCount(s: string)
    ensures |Without(PhoneChars(s), '+')| == DigitCount(s)
  {
    if s != [] {
      PhoneDigitCount(s[1..]);
      var head: string := if IsPhoneChar(s[0]) then [s[0]] else [];
      WithoutAppend(head, PhoneChars(s[1..]), '+');
    }
  }

  lemma {:induction false} WithoutAppend(a: string, b: string, c: char)
    ensures Without(a + b, c) == Without(a, c) + Without(b, c)
  {
    if a == [] {
      assert a + b == b;
    } else {
      assert (a + b)[1..] == a[1..] + b;
      WithoutAppend(a[1..], b, c);
    }
  }

  /** Stripping never changes the phone characters: whitespace is neither a
      digit nor a plus sign. */
  lemma PhoneCharsOfStrip(s: string)
    ensures PhoneChars(Strip(s)) == PhoneChars(s)
  {
    var b := StripBounds(s);
    SpacesHaveNoPhoneChars(s, 0, b.0);
    SpacesHaveNoPhoneChars(s, b.1, |s|);
    PhoneCharsAround(s, b.0, b.1);
  }

  /** Slices without phone characters on either side of `s[lo..hi]` add none. */
  lemma PhoneCharsAround(s: string, lo: nat, hi: nat)
    requires lo <= hi <= |s|
    requires PhoneChars(s[0..lo]) == [] && PhoneChars(s[hi..|s|]) == []
    ensures PhoneChars(s) == PhoneChars(s[lo..hi])
  {
    SplitThree(s, lo, hi);
    PhoneCharsOfPieces(s[0..lo], s[lo..hi], s[hi..|s|]);
  }

  lemma SplitThree<T>(s: seq<T>, lo: nat, hi: nat)
    requires lo <= hi <= |s|
    ensures s == s[0..lo] + s[lo..hi] + s[hi..|s|]
  {
  }

  lemma PhoneCharsOfPieces(pre: string, mid: string, post: string)
    requires PhoneChars(pre) == [] && PhoneChars(post) == []
    ensures PhoneChars(pre + mid + post) == PhoneChars(mid)
  {
    PhoneCharsAppend(pre + mid, post);
    PhoneCharsAppend(pre, mid);
  }

  /** A run of whitespace holds no phone characters. */
  lemma SpacesHaveNoPhoneChars(s: string, lo: nat, hi: nat)
    requires lo <= hi <= |s|
    requires forall j :: lo <= j < hi ==> IsSpace(s[j])
    ensures PhoneChars(s[lo..hi]) == []
  {
    var w := s[lo..hi];
    assert forall i :: 0 <= i < |w| ==> w[i] == s[lo + i];
    assert forall i :: 0 <= i < |w| ==> !IsPhoneChar(w[i]);
  }
}
