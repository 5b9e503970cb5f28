/** The few string operations of Python's `str` that the bot and the crew wrapper rely on. */
module Text {
  import opened Wrappers

  /** The characters for which Python's `str.isspace()` holds; `str.strip()` removes exactly these. */
  predicate IsSpace(c: char) {
    || ('\t' <= c <= '\r')
    || ('\U{1c}' <= c <= ' ')
    || c == '\U{85}' || c == '\U{a0}' || c == '\U{1680}'
    || ('\U{2000}' <= c <= '\U{200a}')
    || c == '\U{2028}' || c == '\U{2029}' || c == '\U{202f}' || c == '\U{205f}' || c == '\U{3000}'
  }

  /** `s` has no whitespace at either end. */
  predicate Stripped(s: string) {
    s == [] || (!IsSpace(s[0]) && !IsSpace(s[|s| - 1]))
  }

  /** `r` occurs in `s` starting at offset `k`. */
  predicate InfixAt(r: string, s: string, k: nat) {
    k + |r| <= |s| && s[k..k + |r|] == r
  }

  /** The index of the first non-whitespace character at or after `i`, or `|s|` if none. */
  function SkipSpaces(s: string, i: nat): (j: nat)
    requires i <= |s|
    ensures i <= j <= |s|
    ensures forall k :: i <= k < j ==> IsSpace(s[k])
    ensures j < |s| ==> !IsSpace(s[j])
    decreases |s| - i
  {
    if i < |s| && IsSpace(s[i]) then SkipSpaces(s, i + 1) else i
  }

  /** The index just past the last non-whitespace character of `s[lo..hi]`, or `lo` if none. */
  function SkipSpacesBack(s: string, lo: nat, hi: nat): (j: nat)
    requires lo <= hi <= |s|
    ensures lo <= j <= hi
    ensures forall k :: j <= k < hi ==> IsSpace(s[k])
    ensures lo < j ==> !IsSpace(s[j - 1])
    decreases hi - lo
  {
    if lo < hi && IsSpace(s[hi - 1]) then SkipSpacesBack(s, lo, hi - 1) else hi
  }

  /** Where the text kept by `strip()` starts: just after the leading whitespace. */
  function StripStart(s: string): (k: nat)
    ensures k <= |s|
  {
    SkipSpaces(s, 0)
  }

  /** Where the text kept by `strip()` ends: just before the trailing whitespace. */
  function StripEnd(s: string): (k: nat)
    ensures StripStart(s) <= k <= |s|
  {
    SkipSpacesBack(s, StripStart(s), |s|)
  }

  /** Python's `s.strip()`: the infix left after dropping whitespace at both ends, which has no
      whitespace at either end; only whitespace is dropped. */
  function Strip(s: string): (r: string)
    ensures Stripped(r)
    ensures InfixAt(r, s, StripStart(s))
    ensures forall i :: 0 <= i < StripStart(s) ==> IsSpace(s[i])
    ensures forall i :: StripStart(s) + |r| <= i < |s| ==> IsSpace(s[i])
    ensures r == [] <==> forall i :: 0 <= i < |s| ==> IsSpace(s[i])
  {
    s[StripStart(s)..StripEnd(s)]
  }

  /** Stripping is idempotent: a stripped string is its own `strip()`. */
  lemma StripStripped(s: string)
    requires Stripped(s)
    ensures Strip(s) == s
  {
    assert s[0..|s|] == s;
  }

  /** `p` occurs in `t` at index `i`. */
  predicate IsAt(t: string, p: string, i: nat) {
    i + |p| <= |t| && t[i..i + |p|] == p
  }

  /** The first index at or after `from` where `p` occurs in `t` (Python's `t.find(p, from)`). */
  function FindFrom(t: string, p: string, from: nat): (r: Option<nat>)
    ensures r.Some? ==> from <= r.value && IsAt(t, p, r.value)
    ensures r.Some? ==> forall j :: from <= j < r.value ==> !IsAt(t, p, j)
    ensures r.None? ==> forall j :: from <= j ==> !IsAt(t, p, j)
    decreases |t| - from
  {
    if from + |p| > |t| then None
    else if IsAt(t, p, from) then Some(from)
    else FindFrom(t, p, from + 1)
  }

  /** `i` is the first index at or after `from` where `p` occurs in `t`. */
  ghost predicate FirstAt(t: string, p: string, from: nat, i: nat) {
    from <= i && IsAt(t, p, i) && forall j :: from <= j < i ==> !IsAt(t, p, j)
  }

  /** `find` reports exactly the first occurrence. */
  lemma FindFromFirstAt(t: string, p: string, from: nat, i: nat)
    ensures FindFrom(t, p, from) == Some(i) <==> FirstAt(t, p, from, i)
  {
    if FirstAt(t, p, from, i) {
      match FindFrom(t, p, from)
      case None =>
      case Some(k) =>
        assert !(k < i) && !(i < k);
    }
  }

  /** Python's `p in t`. */
  predicate Contains(t: string, p: string) {
    FindFrom(t, p, 0).Some?
  }

  lemma ContainsIff(t: string, p: string)
    ensures Contains(t, p) <==> exists i :: IsAt(t, p, i)
  {
    if Contains(t, p) {
      assert IsAt(t, p, FindFrom(t, p, 0).value);
    }
  }

  /** An occurrence inside an infix is an occurrence in the whole string. */
  lemma IsAtInfix(r: string, s: string, k: nat, p: string, i: nat)
    requires InfixAt(r, s, k) && IsAt(r, p, i)
    ensures IsAt(s, p, k + i)
  {
    forall j | 0 <= j < |p| ensures s[k + i + j] == p[j] {
      assert s[k + i + j] == s[k..k + |r|][i + j];
    }
    assert s[k + i..k + i + |p|] == p;
  }

  /** Whatever an infix contains, the whole string contains. */
  lemma ContainsInfix(r: string, s: string, k: nat, p: string)
    requires InfixAt(r, s, k) && Contains(r, p)
    ensures Contains(s, p)
  {
    ContainsIff(r, p);
    var i :| IsAt(r, p, i);
    IsAtInfix(r, s, k, p, i);
    ContainsIff(s, p);
  }

  /** An occurrence of a pattern that neither starts nor ends with whitespace survives stripping. */
  lemma ContainsStrip(s: string, p: string)
    requires Contains(s, p) && p != []
    requires !IsSpace(p[0]) && !IsSpace(p[|p| - 1])
    ensures Contains(Strip(s), p)
  {
    var i := FindFrom(s, p, 0).value;
    var k := StripStart(s);
    OccurrenceInsideStrip(s, p, i);
    IsAtInfixInverse(Strip(s), s, k, p, i);
    ContainsIff(Strip(s), p);
  }

  lemma OccurrenceInsideStrip(s: string, p: string, i: nat)
    requires IsAt(s, p, i) && p != []
    requires !IsSpace(p[0]) && !IsSpace(p[|p| - 1])
    ensures StripStart(s) <= i
    ensures i + |p| <= StripStart(s) + |Strip(s)|
  {
    assert s[i] == p[0] && !IsSpace(s[i]);
    assert s[i + |p| - 1] == p[|p| - 1] && !IsSpace(s[i + |p| - 1]);
  }

  /** An occurrence lying inside the infix is an occurrence in the infix. */
  lemma IsAtInfixInverse(r: string, s: string, k: nat, p: string, i: nat)
    requires InfixAt(r, s, k) && IsAt(s, p, i) && k <= i && i + |p| <= k + |r|
    ensures IsAt(r, p, i - k)
  {
    forall j | 0 <= j < |p| ensures r[i - k + j] == p[j] {
      assert r[i - k + j] == s[k..k + |r|][i - k + j] == s[i + j];
    }
    assert r[i - k..i - k + |p|] == p;
  }

  /** Python's `s.endswith(suffix)`. */
  predicate EndsWith(s: string, suffix: string) {
    |suffix| <= |s| && s[|s| - |suffix|..] == suffix
  }

  /** Python's `s.rfind(c)` for a single character: the last index holding `c`, or -1. */
  function LastIndexOf(s: string, c: char): (k: int)
    ensures -1 <= k < |s|
    ensures k >= 0 ==> s[k] == c
    ensures forall j :: k < j < |s| ==> s[j] != c
  {
    if s == [] then -1
    else if s[|s| - 1] == c then |s| - 1
    else LastIndexOf(s[..|s| - 1], c)
  }
}
