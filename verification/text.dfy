/** The three Python string operations the chat core relies on: `str.strip()`,
    `str.lower()` and the substring test `w in t`. Characters outside ASCII are
    left as they are (no Unicode whitespace, no Unicode case folding). */
module Text {

  /** Python's `str.isspace()` on ASCII: tab, line feed, vertical tab, form
      feed, carriage return (9-13), the separators 0x1C-0x1F, and space. */
  predicate IsSpace(c: char) {
    ('\t' <= c <= '\r') || ('\U{1C}' <= c <= ' ')
  }

  /** `str.lstrip()`: drops the leading whitespace. */
  function TrimStart(s: string): string {
    if s != [] && IsSpace(s[0]) then TrimStart(s[1..]) else s
  }

  /** `str.rstrip()`: drops the trailing whitespace. */
  function TrimEnd(s: string): string {
    if s != [] && IsSpace(s[|s| - 1]) then TrimEnd(s[..|s| - 1]) else s
  }

  /** `str.strip()`. */
  function Strip(s: string): string {
    TrimEnd(TrimStart(s))
  }

  /** `r` is `s` with the whitespace-only prefix `s[..a]` and a
      whitespace-only suffix removed. */
  ghost predicate StrippedAt(s: string, r: string, a: int) {
    0 <= a <= |s| - |r| && r == s[a..a + |r|] &&
    (forall i :: 0 <= i < a ==> IsSpace(s[i])) &&
    (forall i :: a + |r| <= i < |s| ==> IsSpace(s[i]))
  }

  /** `lstrip` removes a whitespace-only prefix and stops at a non-space. */
  lemma {:induction false} TrimStartSpec(s: string)
    ensures StrippedAt(s, TrimStart(s), |s| - |TrimStart(s)|)
    ensures TrimStart(s) != [] ==> !IsSpace(TrimStart(s)[0])
    decreases |s|
  {
    if s != [] && IsSpace(s[0]) {
      TrimStartSpec(s[1..]);
      var r := TrimStart(s);
      assert r == s[1..][|s| - 1 - |r|..];
    }
  }

  /** `rstrip` removes a whitespace-only suffix and stops at a non-space. */
  lemma {:induction false} TrimEndSpec(s: string)
    ensures StrippedAt(s, TrimEnd(s), 0)
    ensures TrimEnd(s) != [] ==> !IsSpace(TrimEnd(s)[|TrimEnd(s)| - 1])
    decreases |s|
  {
    if s != [] && IsSpace(s[|s| - 1]) {
      TrimEndSpec(s[..|s| - 1]);
      var r := TrimEnd(s);
      assert r == s[..|s| - 1][..|r|];
    }
  }

  /** `strip` removes whitespace at both ends and nothing else: the result
      is a piece of the input surrounded only by whitespace, and, when not
      empty, starts and ends with a non-space. So it is empty exactly when
      the input is all whitespace. */
  lemma StripSpec(s: string)
    ensures StrippedAt(s, Strip(s), |s| - |TrimStart(s)|)
    ensures Strip(s) != [] ==> !IsSpace(Strip(s)[0]) && !IsSpace(Strip(s)[|Strip(s)| - 1])
    ensures Strip(s) == [] <==> forall i :: 0 <= i < |s| ==> IsSpace(s[i])
  {
    var t := TrimStart(s);
    var r := Strip(s);
    TrimStartSpec(s);
    TrimEndSpec(t);
    var a := |s| - |t|;
    assert t == s[a..];
    assert r == t[..|r|];
    assert r == s[a..a + |r|];
    forall i | a + |r| <= i < |s| ensures IsSpace(s[i]) {
      assert s[i] == t[i - a];
    }
    assert StrippedAt(s, r, a);
    if r != [] {
      assert s[a] == t[0] == r[0];
      assert !IsSpace(s[a]);
    } else {
      assert a == |s|;
    }
  }

  /** ASCII `str.lower()` on one character. */
  function LowerChar(c: char): char {
    if 'A' <= c <= 'Z' then (c as int + 32) as char else c
  }

  /** ASCII `str.lower()`. */
  function Lower(s: string): string {
    seq(|s|, i requires 0 <= i < |s| => LowerChar(s[i]))
  }

  /** Lower-casing is per character, so it distributes over concatenation. */
  lemma LowerConcat(a: string, b: string)
    ensures Lower(a + b) == Lower(a) + Lower(b)
  {
  }

  /** Lower-casing twice is lower-casing once. */
  lemma LowerIdempotent(s: string)
    ensures Lower(Lower(s)) == Lower(s)
  {
  }

  /** `w` appears in `t` starting at position `i`. */
  ghost predicate OccursAt(w: string, t: string, i: int) {
    0 <= i <= |t| - |w| && t[i..i + |w|] == w
  }

  /** `w` appears in `t` at some position. */
  ghost predicate IsSubstring(w: string, t: string) {
    exists i :: OccursAt(w, t, i)
  }

  /** Python's `w in t` for strings, as a left-to-right search. */
  function Occurs(w: string, t: string): bool
    decreases |t|
  {
    if |t| < |w| then false
    else if t[..|w|] == w then true
    else Occurs(w, t[1..])
  }

  /** The search finds `w` exactly when `w` is a substring of `t`. */
  lemma {:induction false} OccursIff(w: string, t: string)
    ensures Occurs(w, t) <==> IsSubstring(w, t)
    decreases |t|
  {
    if |t| < |w| {
    } else if t[..|w|] == w {
      assert OccursAt(w, t, 0);
    } else {
      OccursIff(w, t[1..]);
      if Occurs(w, t[1..]) {
        var i :| OccursAt(w, t[1..], i);
        assert t[i + 1..i + 1 + |w|] == w by {
          forall k | 0 <= k < |w| ensures t[i + 1 + k] == w[k] {
            assert t[1..][i..i + |w|][k] == w[k];
          }
        }
        assert OccursAt(w, t, i + 1);
      }
      if IsSubstring(w, t) {
        var i :| OccursAt(w, t, i);
        assert i != 0;
        assert t[1..][i - 1..i - 1 + |w|] == t[i..i + |w|];
        assert OccursAt(w, t[1..], i - 1);
      }
    }
  }

  /** A substring of `s` is a substring of every string that contains `s`. */
  lemma SubstringOfEnclosing(w: string, s: string, a: string, b: string)
    requires IsSubstring(w, s)
    ensures IsSubstring(w, a + s + b)
  {
    var i :| OccursAt(w, s, i);
    assert (a + s + b)[|a| + i..|a| + i + |w|] == s[i..i + |w|];
    assert OccursAt(w, a + s + b, |a| + i);
  }
}
