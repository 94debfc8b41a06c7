/**
 * The few Python string operations the session loop relies on:
 * `startswith`, `find`, `replace(old, new, 1)` and `strip()`.
 */
module PyStr {

  /** The characters Python's `str.strip()` removes: space, \t, \n, \r, \v and \f. */
  predicate IsSpace(c: char) {
    c == ' ' || c == '\t' || c == '\n' || c == '\r' || c == '\U{0B}' || c == '\U{0C}'
  }

  predicate AllSpace(s: string) {
    forall i :: 0 <= i < |s| ==> IsSpace(s[i])
  }

  /** Neither end of `s` is whitespace. */
  predicate Trimmed(s: string) {
    s == [] || (!IsSpace(s[0]) && !IsSpace(s[|s| - 1]))
  }

  predicate StartsWith(s: string, prefix: string) {
    prefix <= s
  }

  /** `pat` occurs in `s` starting at position `i`. */
  predicate OccursAt(s: string, pat: string, i: int) {
    0 <= i && i + |pat| <= |s| && s[i..i + |pat|] == pat
  }

  /** Python's `s.find(pat)`: the first position of `pat` in `s`, or -1. */
  function Find(s: string, pat: string): (r: int)
    ensures r == -1 || OccursAt(s, pat, r)
    ensures r == -1 ==> forall i :: !OccursAt(s, pat, i)
    ensures forall i :: 0 <= i < r ==> !OccursAt(s, pat, i)
    decreases |s|
  {
    if StartsWith(s, pat) then 0
    else if |s| <= |pat| then
      assert forall i :: OccursAt(s, pat, i) ==> i == 0;
      -1
    else
      var r := Find(s[1..], pat);
      assert forall i :: 1 <= i ==> (OccursAt(s, pat, i) <==> OccursAt(s[1..], pat, i - 1));
      if r == -1 then -1 else r + 1
  }

  /** Python's `s.replace(pat, repl, 1)`: the first occurrence of `pat` replaced. */
  function ReplaceOnce(s: string, pat: string, repl: string): (r: string)
    ensures (forall i :: !OccursAt(s, pat, i)) ==> r == s
    ensures (exists i :: OccursAt(s, pat, i)) ==> |r| == |s| - |pat| + |repl|
    ensures forall i :: OccursAt(s, pat, i) && (forall j :: 0 <= j < i ==> !OccursAt(s, pat, j)) ==>
              r == s[..i] + repl + s[i + |pat|..]
  {
    var i := Find(s, pat);
    if i < 0 then s else s[..i] + repl + s[i + |pat|..]
  }

  /** Removing a prefix by replacing its first occurrence drops exactly that prefix. */
  lemma ReplacePrefix(s: string, pat: string)
    requires StartsWith(s, pat)
    ensures ReplaceOnce(s, pat, "") == s[|pat|..]
  {
    assert OccursAt(s, pat, 0);
  }

  /** Python's `s.lstrip()`. */
  function StripLeft(s: string): (r: string)
    ensures |r| <= |s| && r == s[|s| - |r|..]
    ensures AllSpace(s[..|s| - |r|])
    ensures r == [] || !IsSpace(r[0])
    decreases |s|
  {
    if s != [] && IsSpace(s[0]) then StripLeft(s[1..]) else s
  }

  /** Python's `s.rstrip()`. */
  function StripRight(s: string): (r: string)
    ensures |r| <= |s| && r == s[..|r|]
    ensures AllSpace(s[|r|..])
    ensures r == [] || !IsSpace(r[|r| - 1])
    decreases |s|
  {
    if s != [] && IsSpace(s[|s| - 1]) then StripRight(s[..|s| - 1]) else s
  }

  /**
   * Python's `s.strip()`: neither end of the result is whitespace, and it
   * is empty exactly when `s` is all whitespace.
   */
  function Strip(s: string): (r: string)
    ensures Trimmed(r)
    ensures r == [] <==> AllSpace(s)
  {
    var left := StripLeft(s);
    assert left != [] ==> s[|s| - |left|] == left[0];
    StripRight(left)
  }

  /** `r` sits in `s` at position `i`, with only whitespace around it. */
  predicate Infix(s: string, r: string, i: int) {
    0 <= i <= |s| - |r| && r == s[i..i + |r|] && AllSpace(s[..i]) && AllSpace(s[i + |r|..])
  }

  /** `strip()` removes whitespace from the ends of `s` and nothing else. */
  lemma StripInfix(s: string)
    ensures Infix(s, Strip(s), |s| - |StripLeft(s)|)
  {
    var left := StripLeft(s);
    TrimmedInside(s, left, StripRight(left));
  }

  /**
   * A suffix `left` of `s` preceded only by whitespace, and a prefix `r` of
   * `left` followed only by whitespace: `r` sits in `s` with only whitespace
   * around it.
   */
  lemma TrimmedInside(s: string, left: string, r: string)
    requires |left| <= |s| && left == s[|s| - |left|..] && AllSpace(s[..|s| - |left|])
    requires |r| <= |left| && r == left[..|r|] && AllSpace(left[|r|..])
    ensures Infix(s, r, |s| - |left|)
  {
    var i := |s| - |left|;
    assert s[i..i + |r|] == left[..|r|];
    assert s[i + |r|..] == left[|r|..];
  }

  /** Stripping a text that has no surrounding whitespace leaves it unchanged. */
  lemma {:induction false} StripTrimmed(s: string)
    requires Trimmed(s)
    ensures Strip(s) == s
  {
    assert StripLeft(s) == s;
    assert StripRight(s) == s;
  }

  /** Whitespace around a trimmed text is exactly what `strip()` removes. */
  lemma {:induction false} StripPadded(pad: string, s: string, trail: string)
    requires AllSpace(pad) && AllSpace(trail) && Trimmed(s)
    ensures Strip(pad + s + trail) == s
  {
    if s == [] {
      assert pad + s + trail == pad + trail;
      assert AllSpace(pad + trail);
    } else {
      assert pad + s + trail == pad + (s + trail);
      StripLeftPadded(pad, s + trail);
      StripRightPadded(s, trail);
    }
  }

  lemma {:induction false} StripLeftPadded(pad: string, s: string)
    requires AllSpace(pad) && (s == [] || !IsSpace(s[0]))
    ensures StripLeft(pad + s) == s
    decreases |pad|
  {
    if pad != [] {
      assert (pad + s)[1..] == pad[1..] + s;
      StripLeftPadded(pad[1..], s);
    } else {
      assert pad + s == s;
    }
  }

  lemma {:induction false} StripRightPadded(s: string, trail: string)
    requires AllSpace(trail) && (s == [] || !IsSpace(s[|s| - 1]))
    ensures StripRight(s + trail) == s
    decreases |trail|
  {
    if trail != [] {
      var t := trail[..|trail| - 1];
      assert (s + trail)[..|s + trail| - 1] == s + t;
      StripRightPadded(s, t);
    } else {
      assert s + trail == s;
    }
  }
}
