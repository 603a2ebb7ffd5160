/** String primitives used by the pipeline: ASCII lower-casing, Python's
    `str.strip()`, suffix/prefix tests and substring containment (`t in s`). */
module Text {

  predicate IsAsciiUpper(c: char) {
    'A' <= c <= 'Z'
  }

  function LowerChar(c: char): char {
    if IsAsciiUpper(c) then (c as int + 32) as char else c
  }

  /** `s.lower()`, restricted to the ASCII letters A-Z. */
  function AsciiLower(s: string): string {
    seq(|s|, i requires 0 <= i < |s| => LowerChar(s[i]))
  }

  /** Lower-casing keeps the length, leaves no upper-case ASCII letter, maps
      each upper-case letter to its lower-case partner and keeps every other
      character. */
  lemma AsciiLowerSpec(s: string)
    ensures |AsciiLower(s)| == |s|
    ensures forall i :: 0 <= i < |s| ==> !IsAsciiUpper(AsciiLower(s)[i])
    ensures forall i :: 0 <= i < |s| ==>
      if IsAsciiUpper(s[i]) then AsciiLower(s)[i] as int == s[i] as int + 32 else AsciiLower(s)[i] == s[i]
  {
  }

  lemma AsciiLowerSlice(s: string, i: nat, j: nat)
    requires i <= j <= |s|
    ensures AsciiLower(s[i..j]) == AsciiLower(s)[i..j]
  {
  }

  /** The characters for which Python's `str.isspace()` holds, so those that
      `str.strip()` removes. */
  predicate IsSpace(c: char) {
    var n := c as int;
    || 9 <= n <= 13 || 28 <= n <= 32 || n == 0x85 || n == 0xA0 || n == 0x1680
    || 0x2000 <= n <= 0x200A || n == 0x2028 || n == 0x2029 || n == 0x202F
    || n == 0x205F || n == 0x3000
  }

  /** Lower-casing neither creates nor removes white space. */
  lemma LowerCharKeepsSpace(c: char)
    ensures IsSpace(LowerChar(c)) == IsSpace(c)
  {
  }

  /** `s.lstrip()`: drop leading white space. */
  function StripStart(s: string): (r: string)
    ensures |r| <= |s| && r == s[|s| - |r|..]
    ensures forall i :: 0 <= i < |s| - |r| ==> IsSpace(s[i])
    ensures r != [] ==> !IsSpace(r[0])
    decreases |s|
  {
    if s != [] && IsSpace(s[0]) then StripStart(s[1..]) else s
  }

  /** `s.rstrip()`: drop trailing white space. */
  function StripEnd(s: string): (r: string)
    ensures |r| <= |s| && r == s[..|r|]
    ensures forall i :: |r| <= i < |s| ==> IsSpace(s[i])
    ensures r != [] ==> !IsSpace(r[|r| - 1])
    decreases |s|
  {
    if s != [] && IsSpace(s[|s| - 1]) then StripEnd(s[..|s| - 1]) else s
  }

  /** Number of leading white-space characters that `Strip` removes. */
  function StripOffset(s: string): (a: nat)
    ensures a <= |s|
  {
    |s| - |StripStart(s)|
  }

  /** `s.strip()`. */
  function Strip(s: string): string {
    StripEnd(StripStart(s))
  }

  /** The stripped string is the slice of `s` that starts at `StripOffset(s)`;
      everything cut off on either side is white space, and the result
      neither starts nor ends with white space. */
  lemma StripSpec(s: string)
    ensures StripOffset(s) + |Strip(s)| <= |s|
    ensures Strip(s) == s[StripOffset(s)..StripOffset(s) + |Strip(s)|]
    ensures forall i :: 0 <= i < StripOffset(s) ==> IsSpace(s[i])
    ensures forall i :: StripOffset(s) + |Strip(s)| <= i < |s| ==> IsSpace(s[i])
    ensures Strip(s) != [] ==> !IsSpace(Strip(s)[0]) && !IsSpace(Strip(s)[|Strip(s)| - 1])
  {
  }

  predicate IsPrefix(p: string, s: string) {
    |p| <= |s| && s[..|p|] == p
  }

  /** `s.endswith(suffix)`. */
  predicate EndsWith(s: string, suffix: string) {
    |suffix| <= |s| && s[|s| - |suffix|..] == suffix
  }

  /** `t` occurs in `s` starting at index `i`. */
  predicate OccursAt(s: string, t: string, i: int) {
    0 <= i && i + |t| <= |s| && s[i..i + |t|] == t
  }

  /** Python's `t in s` on strings. */
  predicate Contains(s: string, t: string) {
    exists i :: 0 <= i <= |s| - |t| && OccursAt(s, t, i)
  }

  /** An occurrence of a phrase that neither starts nor ends with white space
      survives `strip()`. */
  lemma ContainsSurvivesStrip(s: string, t: string)
    requires Contains(s, t)
    requires t != [] && !IsSpace(t[0]) && !IsSpace(t[|t| - 1])
    ensures Contains(Strip(s), t)
  {
    var i :| 0 <= i <= |s| - |t| && OccursAt(s, t, i);
    OccurrenceSurvivesStrip(s, t, i);
    assert OccursAt(Strip(s), t, i - StripOffset(s));
  }

  lemma OccurrenceSurvivesStrip(s: string, t: string, i: nat)
    requires OccursAt(s, t, i)
    requires t != [] && !IsSpace(t[0]) && !IsSpace(t[|t| - 1])
    ensures StripOffset(s) <= i && OccursAt(Strip(s), t, i - StripOffset(s))
  {
    var a, r := StripOffset(s), Strip(s);
    StripIsSlice(s);
    assert s[i] == t[0] && s[i + |t| - 1] == t[|t| - 1];
    NonSpaceIsKept(s, i);
    NonSpaceIsKept(s, i + |t| - 1);
    OccursInSlice(s, t, i, a, a + |r|);
  }

  /** An occurrence inside the slice `s[a..b]` is an occurrence in that slice. */
  lemma OccursInSlice(s: string, t: string, i: nat, a: nat, b: nat)
    requires OccursAt(s, t, i) && a <= i && i + |t| <= b <= |s|
    ensures OccursAt(s[a..b], t, i - a)
  {
    SliceOfSlice(s, a, b, i - a, i - a + |t|);
  }

  lemma StripIsSlice(s: string)
    ensures StripOffset(s) + |Strip(s)| <= |s|
    ensures Strip(s) == s[StripOffset(s)..StripOffset(s) + |Strip(s)|]
  {
    StripSpec(s);
  }

  /** A character that is not white space lies inside the stripped slice. */
  lemma NonSpaceIsKept(s: string, k: nat)
    requires k < |s| && !IsSpace(s[k])
    ensures StripOffset(s) <= k < StripOffset(s) + |Strip(s)|
  {
    StripSpec(s);
  }

  lemma SliceOfSlice(s: string, a: nat, b: nat, c: nat, d: nat)
    requires a <= b <= |s| && c <= d <= b - a
    ensures s[a..b][c..d] == s[a + c..a + d]
  {
    assert forall k :: 0 <= k < d - c ==> s[a..b][c..d][k] == s[a + c + k];
  }

  lemma {:induction false} StripStartLower(s: string)
    ensures StripStart(AsciiLower(s)) == AsciiLower(StripStart(s))
    decreases |s|
  {
    var l := AsciiLower(s);
    if s != [] {
      assert l[0] == LowerChar(s[0]);
      LowerCharKeepsSpace(s[0]);
      if IsSpace(s[0]) {
        calc {
          StripStart(l);
          StripStart(l[1..]);
          { AsciiLowerSlice(s, 1, |s|); assert s[1..|s|] == s[1..]; assert l[1..|s|] == l[1..]; }
          StripStart(AsciiLower(s[1..]));
          { StripStartLower(s[1..]); }
          AsciiLower(StripStart(s[1..]));
        }
      }
    }
  }

  lemma {:induction false} StripEndLower(s: string)
    ensures StripEnd(AsciiLower(s)) == AsciiLower(StripEnd(s))
    decreases |s|
  {
    var l := AsciiLower(s);
    if s != [] {
      assert l[|s| - 1] == LowerChar(s[|s| - 1]);
      LowerCharKeepsSpace(s[|s| - 1]);
      if IsSpace(s[|s| - 1]) {
        calc {
          StripEnd(l);
          StripEnd(l[..|s| - 1]);
          { AsciiLowerSlice(s, 0, |s| - 1); assert s[0..|s| - 1] == s[..|s| - 1]; }
          StripEnd(AsciiLower(s[..|s| - 1]));
          { StripEndLower(s[..|s| - 1]); }
          AsciiLower(StripEnd(s[..|s| - 1]));
        }
      }
    }
  }

  /** Stripping and lower-casing commute, so `s.strip().lower()` is also the
      stripped form of `s.lower()`. */
  lemma StripLowerCommute(s: string)
    ensures Strip(AsciiLower(s)) == AsciiLower(Strip(s))
  {
    StripStartLower(s);
    StripEndLower(StripStart(s));
  }
}
