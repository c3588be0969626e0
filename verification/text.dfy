/**
 * The string operations the query interpreter applies to the instruction text:
 * Python's `str.lower`, `str.strip`, the `in` containment test and `str.split(sep)`.
 */
module Text {
  import opened Wrappers

  /** Python's `str.isspace` on one character: the characters `str.strip()` removes. */
  predicate IsSpace(c: char) {
    || c == ' '
    || ('\t' <= c <= '\r')
    || ('\U{1C}' <= c <= '\U{1F}')
    || c == '\U{85}' || c == '\U{A0}' || c == '\U{1680}'
    || ('\U{2000}' <= c <= '\U{200A}')
    || c == '\U{2028}' || c == '\U{2029}' || c == '\U{202F}' || c == '\U{205F}' || c == '\U{3000}'
  }

  predicate IsUpper(c: char) {
    'A' <= c <= 'Z'
  }

  /** Lower-casing of one character (ASCII letters only). */
  function LowerChar(c: char): (d: char)
    ensures !IsUpper(d)
    ensures !IsUpper(c) ==> d == c
  {
    if IsUpper(c) then (c as int + 32) as char else c
  }

  /** `s.lower()`. */
  function Lower(s: string): (r: string)
    ensures |r| == |s|
    ensures forall k :: 0 <= k < |s| ==> r[k] == LowerChar(s[k])
  {
    if |s| == 0 then [] else [LowerChar(s[0])] + Lower(s[1..])
  }

  /** Lower-casing twice is lower-casing once. */
  lemma LowerIdempotent(s: string)
    ensures Lower(Lower(s)) == Lower(s)
  {
    var l := Lower(s);
    assert forall k :: 0 <= k < |l| ==> LowerChar(l[k]) == l[k];
  }

  /** Lower-casing leaves a text without capitals as it is. */
  lemma LowerUnchanged(s: string)
    requires forall k :: 0 <= k < |s| ==> !IsUpper(s[k])
    ensures Lower(s) == s
  {
  }

  predicate AllSpace(s: string) {
    forall k :: 0 <= k < |s| ==> IsSpace(s[k])
  }

  /** `s` with its leading whitespace removed (`str.lstrip()`). */
  function TrimStart(s: string): (r: string)
    ensures |r| <= |s|
    ensures |r| > 0 ==> !IsSpace(r[0])
  {
    if |s| > 0 && IsSpace(s[0]) then TrimStart(s[1..]) else s
  }

  /** `s` with its trailing whitespace removed (`str.rstrip()`). */
  function TrimEnd(s: string): (r: string)
    ensures |r| <= |s|
    ensures |r| > 0 ==> !IsSpace(r[|r| - 1]) && r[0] == s[0]
  {
    if |s| > 0 && IsSpace(s[|s| - 1]) then TrimEnd(s[..|s| - 1]) else s
  }

  /**
   * `s.strip()`: whitespace removed from both ends. The result neither starts nor ends
   * with whitespace; `StripInfix` shows it is the infix of `s` that only whitespace
   * surrounds, and `StripExact` that it is the largest such infix.
   */
  function Strip(s: string): (r: string)
    ensures |r| <= |s|
    ensures |r| > 0 ==> !IsSpace(r[0]) && !IsSpace(r[|r| - 1])
  {
    TrimEnd(TrimStart(s))
  }

  /** `s[a..b]` is surrounded by whitespace only. */
  predicate Surrounded(s: string, a: int, b: int) {
    0 <= a <= b <= |s| && AllSpace(s[..a]) && AllSpace(s[b..])
  }

  /** What `TrimStart` removes is a whitespace prefix. */
  lemma {:induction false} TrimStartSuffix(s: string) returns (a: nat)
    ensures a <= |s| && AllSpace(s[..a]) && TrimStart(s) == s[a..]
  {
    if |s| > 0 && IsSpace(s[0]) {
      var a' := TrimStartSuffix(s[1..]);
      a := a' + 1;
      assert s[..a] == [s[0]] + s[1..][..a'];
      assert s[1..][a'..] == s[a..];
    } else {
      a := 0;
    }
  }

  /** What `TrimEnd` removes is a whitespace suffix. */
  lemma {:induction false} TrimEndPrefix(s: string) returns (b: nat)
    ensures b <= |s| && AllSpace(s[b..]) && TrimEnd(s) == s[..b]
  {
    if |s| > 0 && IsSpace(s[|s| - 1]) {
      var init := s[..|s| - 1];
      b := TrimEndPrefix(init);
      forall k | b <= k < |s| ensures IsSpace(s[k]) {
        if k < |init| {
          assert init[b..][k - b] == s[k];
        }
      }
      assert init[..b] == s[..b];
    } else {
      b := |s|;
    }
  }

  /** The stripped text is an infix of `s` surrounded by whitespace only. */
  lemma StripInfix(s: string) returns (a: nat, b: nat)
    ensures Surrounded(s, a, b) && Strip(s) == s[a..b]
  {
    a := TrimStartSuffix(s);
    var u := s[a..];
    var e := TrimEndPrefix(u);
    b := a + e;
    assert u[e..] == s[b..];
    assert forall k :: 0 <= k < e ==> u[..e][k] == s[a..b][k];
  }

  /** A whitespace prefix that stops at a non-whitespace character is what `TrimStart` removes. */
  lemma {:induction false} TrimStartIs(s: string, a: nat)
    requires a <= |s| && AllSpace(s[..a])
    requires a < |s| ==> !IsSpace(s[a])
    ensures TrimStart(s) == s[a..]
  {
    if a > 0 {
      assert s[..a][0] == s[0];
      assert s[1..][..a - 1] == s[..a][1..];
      assert s[1..][a - 1..] == s[a..];
      TrimStartIs(s[1..], a - 1);
    }
  }

  /** A whitespace suffix that stops at a non-whitespace character is what `TrimEnd` removes. */
  lemma {:induction false} TrimEndIs(s: string, b: nat)
    requires b <= |s| && AllSpace(s[b..])
    requires 0 < b ==> !IsSpace(s[b - 1])
    ensures TrimEnd(s) == s[..b]
  {
    if b < |s| {
      var init := s[..|s| - 1];
      assert s[b..][|s| - 1 - b] == s[|s| - 1];
      assert init[b..] == s[b..][..|s| - 1 - b];
      assert init[..b] == s[..b];
      TrimEndIs(init, b);
    } else {
      assert s[..b] == s;
    }
  }

  /**
   * `s[a..b]` is the stripped text when it starts and ends with non-whitespace and only
   * whitespace surrounds it.
   */
  lemma StripExact(s: string, a: nat, b: nat)
    requires a < b <= |s|
    requires AllSpace(s[..a]) && AllSpace(s[b..])
    requires !IsSpace(s[a]) && !IsSpace(s[b - 1])
    ensures Strip(s) == s[a..b]
  {
    TrimStartIs(s, a);
    var u := s[a..];
    assert u[b - a..] == s[b..];
    assert u[b - a - 1] == s[b - 1];
    TrimEndIs(u, b - a);
    assert u[..b - a] == s[a..b];
  }

  /** Stripping a text that neither starts nor ends with whitespace leaves it as it is. */
  lemma StripUnchanged(s: string)
    requires |s| > 0 ==> !IsSpace(s[0]) && !IsSpace(s[|s| - 1])
    ensures Strip(s) == s
  {
    if |s| > 0 {
      StripExact(s, 0, |s|);
      assert s[0..|s|] == s;
    }
  }

  /** Stripping keeps a text free of capitals. */
  lemma StripNoUpper(s: string)
    requires forall k :: 0 <= k < |s| ==> !IsUpper(s[k])
    ensures forall k :: 0 <= k < |Strip(s)| ==> !IsUpper(Strip(s)[k])
  {
    var r := Strip(s);
    var a, b := StripInfix(s);
    forall k | 0 <= k < |r| ensures !IsUpper(r[k]) {
      assert r[k] == s[a + k];
    }
  }

  /** `sub` occurs in `s` starting at index `i`. */
  predicate Occurs(s: string, sub: string, i: int) {
    0 <= i && i + |sub| <= |s| && s[i..i + |sub|] == sub
  }

  /** The leftmost occurrence of `sub` in `s` at or after `from`. */
  function FindFrom(s: string, sub: string, from: nat): (r: Option<nat>)
    requires from <= |s|
    decreases |s| - from
    ensures r.Some? ==> from <= r.value && Occurs(s, sub, r.value)
    ensures r.Some? ==> forall k :: from <= k < r.value ==> !Occurs(s, sub, k)
    ensures r.None? ==> forall k :: from <= k ==> !Occurs(s, sub, k)
  {
    if Occurs(s, sub, from) then Some(from)
    else if from + |sub| >= |s| then None
    else FindFrom(s, sub, from + 1)
  }

  /** Index of the leftmost occurrence of `sub` in `s` (Python's `str.find`, as an Option). */
  function FindFirst(s: string, sub: string): (r: Option<nat>)
    ensures r.Some? ==> Occurs(s, sub, r.value) && forall k :: 0 <= k < r.value ==> !Occurs(s, sub, k)
    ensures r.None? ==> forall k :: !Occurs(s, sub, k)
  {
    FindFrom(s, sub, 0)
  }

  /** Python's `sub in s`: `FindFirst` finds an occurrence exactly when there is one. */
  predicate Contains(s: string, sub: string) {
    exists i :: 0 <= i <= |s| && Occurs(s, sub, i)
  }

  /** Every character of a text that `s` contains occurs in `s`. */
  lemma ContainedChars(s: string, sub: string, j: nat)
    requires j < |sub|
    ensures Contains(s, sub) ==> sub[j] in s
  {
    if Contains(s, sub) {
      var i :| 0 <= i <= |s| && Occurs(s, sub, i);
      assert s[i..i + |sub|][j] == s[i + j];
    }
  }

  /** Inverse of `Split`: `sep.join(parts)`. */
  function Join(parts: seq<string>, sep: string): string
    requires |parts| >= 1
  {
    if |parts| == 1 then parts[0] else parts[0] + sep + Join(parts[1..], sep)
  }

  lemma OccursInPrefix(s: string, sub: string, n: nat, k: int)
    requires n <= |s|
    requires Occurs(s[..n], sub, k)
    ensures Occurs(s, sub, k)
  {
    assert s[..n][k..k + |sub|] == s[k..k + |sub|];
  }

  /**
   * `s.split(sep)`: cut `s` at every non-overlapping occurrence of `sep`, scanning from the left.
   * Joining the parts with `sep` gives back `s`, and there are at least two parts
   * exactly when `sep` occurs in `s`.
   */
  function Split(s: string, sep: string): (parts: seq<string>)
    requires |sep| > 0
    decreases |s|
    ensures |parts| >= 1
    ensures Join(parts, sep) == s
    ensures |parts| >= 2 <==> Contains(s, sep)
  {
    match FindFirst(s, sep)
    case None => [s]
    case Some(i) =>
      var head := s[..i];
      var rest := Split(s[i + |sep|..], sep);
      assert s == head + sep + s[i + |sep|..];
      [head] + rest
  }

  /** No part of a split contains the separator. */
  lemma {:induction false} SplitPartsFree(s: string, sep: string)
    requires |sep| > 0
    decreases |s|
    ensures forall p :: p in Split(s, sep) ==> !Contains(p, sep)
  {
    match FindFirst(s, sep)
    case None =>
    case Some(i) =>
      forall k | Occurs(s[..i], sep, k) ensures false {
        OccursInPrefix(s, sep, i, k);
      }
      SplitPartsFree(s[i + |sep|..], sep);
  }

  /**
   * The first part of a split is the text before the leftmost occurrence of `sep`,
   * or all of `s` when `sep` does not occur.
   */
  lemma FirstPart(s: string, sep: string, p: string)
    requires |sep| > 0 && p == Split(s, sep)[0]
    ensures |p| <= |s| && s[..|p|] == p
    ensures |p| == |s| || (Occurs(s, sep, |p|) && FindFirst(s, sep) == Some(|p|))
  {
  }

  /** Splitting at the leftmost occurrence and continuing with the remainder. */
  lemma SplitStep(s: string, sep: string)
    requires |sep| > 0 && FindFirst(s, sep).Some?
    ensures Split(s, sep) == [s[..FindFirst(s, sep).value]] + Split(s[FindFirst(s, sep).value + |sep|..], sep)
  {
  }

  /** A text that starts with `sep` and has no other occurrence splits into "" and the rest. */
  lemma SplitAtStart(s: string, sep: string)
    requires |sep| > 0 && Occurs(s, sep, 0) && !Contains(s[|sep|..], sep)
    ensures Split(s, sep) == ["", s[|sep|..]]
  {
    SplitStep(s, sep);
  }

  /** A text with exactly one occurrence of `sep`, at `i`, splits into the text around it. */
  lemma SplitOnce(s: string, sep: string, i: nat)
    requires |sep| > 0 && FindFirst(s, sep) == Some(i) && !Contains(s[i + |sep|..], sep)
    ensures Split(s, sep) == [s[..i], s[i + |sep|..]]
  {
    SplitStep(s, sep);
  }

  lemma OccursInSuffix(s: string, sub: string, n: nat, k: int)
    requires n <= |s|
    requires Occurs(s[n..], sub, k)
    ensures Occurs(s, sub, n + k)
  {
    assert s[n..][k..k + |sub|] == s[n + k..n + k + |sub|];
  }

  lemma OccursShift(s: string, sub: string, n: nat, k: int)
    requires n <= k && Occurs(s, sub, k)
    ensures Occurs(s[n..], sub, k - n)
  {
    assert s[n..][k - n..k - n + |sub|] == s[k..k + |sub|];
  }

  /** No occurrence in the suffix from `n`: searching from `n` finds nothing. */
  lemma FindFromNone(s: string, sub: string, n: nat)
    requires n <= |s| && !Contains(s[n..], sub)
    ensures FindFrom(s, sub, n).None?
  {
    if FindFrom(s, sub, n).Some? {
      var v := FindFrom(s, sub, n).value;
      OccursShift(s, sub, n, v);
      assert false;
    }
  }

  /** The leftmost occurrence in the suffix from `n`, shifted by `n`, is what a search from `n` finds. */
  lemma FindFromSome(s: string, sub: string, n: nat, k: nat)
    requires n <= |s| && FindFirst(s[n..], sub) == Some(k)
    ensures FindFrom(s, sub, n) == Some(n + k)
  {
    OccursInSuffix(s, sub, n, k);
    var v := FindFrom(s, sub, n).value;
    OccursShift(s, sub, n, v);
  }

  lemma SliceOfSuffix(s: string, n: nat, m: nat)
    requires n + m <= |s|
    ensures s[n..][..m] == s[n..n + m]
  {
  }

  /** A first part that is the whole suffix from `n`: a search from `n` finds nothing. */
  lemma LastPartFrom(s: string, sep: string, n: nat)
    requires |sep| > 0 && n <= |s| && Split(s[n..], sep)[0] == s[n..]
    ensures FindFrom(s, sep, n) == None
  {
    SplitPartsFree(s[n..], sep);
    assert s[n..] in Split(s[n..], sep);
    FindFromNone(s, sep, n);
  }

  /**
   * The first part of a split of the suffix from `n` ends where a search from `n` finds
   * the next occurrence, or at the end of `s`.
   */
  lemma NextFrom(s: string, sep: string, n: nat) returns (b: nat)
    requires |sep| > 0 && n <= |s|
    ensures n <= b <= |s|
    ensures FindFrom(s, sep, n) == if b < |s| then Some(b) else None
    ensures Split(s[n..], sep)[0] == s[n..b]
  {
    var p := Split(s[n..], sep)[0];
    FirstPart(s[n..], sep, p);
    b := n + |p|;
    SliceOfSuffix(s, n, |p|);
    if b == |s| {
      assert s[n..b] == s[n..];
      LastPartFrom(s, sep, n);
    } else {
      FindFromSome(s, sep, n, |p|);
    }
  }

  /**
   * The second part of a split is the text from the end of the leftmost occurrence of
   * `sep` up to the next occurrence searched from there, or to the end of `s`.
   */
  lemma SecondPart(s: string, sep: string) returns (i: nat, b: nat)
    requires |sep| > 0 && Contains(s, sep)
    ensures FindFirst(s, sep) == Some(i)
    ensures i + |sep| <= b <= |s|
    ensures FindFrom(s, sep, i + |sep|) == if b < |s| then Some(b) else None
    ensures |Split(s, sep)| >= 2 && Split(s, sep)[1] == s[i + |sep|..b]
  {
    i := FindFirst(s, sep).value;
    var n := i + |sep|;
    assert |Split(s, sep)| >= 2 && Split(s, sep)[1] == Split(s[n..], sep)[0] by {
      SplitStep(s, sep);
    }
    b := NextFrom(s, sep, n);
  }

  /** Whatever a slice of `s` contains, `s` contains. */
  lemma ContainsInfix(s: string, sub: string, a: nat, b: nat)
    requires a <= b <= |s|
    ensures Contains(s[a..b], sub) ==> Contains(s, sub)
  {
    if Contains(s[a..b], sub) {
      var k :| 0 <= k <= b - a && Occurs(s[a..b], sub, k);
      assert s[..b][a..] == s[a..b];
      OccursInSuffix(s[..b], sub, a, k);
      OccursInPrefix(s, sub, b, a + k);
    }
  }

  /** Whatever the stripped text contains, the text contains. */
  lemma StripContains(s: string, sub: string)
    ensures Contains(Strip(s), sub) ==> Contains(s, sub)
  {
    var a, b := StripInfix(s);
    ContainsInfix(s, sub, a, b);
  }

  /**
   * A split yields exactly two parts iff `sep` occurs, and does not occur again
   * after its first occurrence.
   */
  lemma SplitTwo(s: string, sep: string)
    requires |sep| > 0
    ensures |Split(s, sep)| == 2 <==>
      FindFirst(s, sep).Some? && !Contains(s[FindFirst(s, sep).value + |sep|..], sep)
  {
  }
}
