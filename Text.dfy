/**
 * The JavaScript string operations the commit helper relies on, over
 * `string` (a sequence of Unicode scalar values):
 *  - `toLowerCase`, restricted to ASCII letters;
 *  - substring search (`RegExp.test` on a literal alternative, `indexOf`);
 *  - `replace` with a string pattern, which replaces the FIRST occurrence only;
 *  - `trim`, with the exact set of characters ECMAScript strips
 *    (WhiteSpace and LineTerminator).
 */
module Text {
  import opened Wrappers

  // ---------------------------------------------------------------------------
  // Lower-casing
  // ---------------------------------------------------------------------------

  /** ASCII lower-casing of one character; every other character is kept. */
  function LowerChar(c: char): (r: char)
    ensures 'A' <= c <= 'Z' ==> r as int == c as int + 32
    ensures !('A' <= c <= 'Z') ==> r == c
  {
    if 'A' <= c <= 'Z' then (c as int + 32) as char else c
  }

  /** `s.toLowerCase()`, for the ASCII letters. */
  function Lower(s: string): (r: string)
    ensures |r| == |s|
    ensures forall i :: 0 <= i < |s| ==> r[i] == LowerChar(s[i])
  {
    if s == [] then [] else [LowerChar(s[0])] + Lower(s[1..])
  }

  /** No upper-case ASCII letter occurs in `s`. */
  predicate IsLower(s: string)
  {
    forall i :: 0 <= i < |s| ==> !('A' <= s[i] <= 'Z')
  }

  lemma LowerIsLower(s: string)
    ensures IsLower(Lower(s))
  {
  }

  /** Lower-casing a string that has no upper-case letter changes nothing. */
  lemma {:induction false} LowerOfLower(s: string)
    requires IsLower(s)
    ensures Lower(s) == s
  {
    if s != [] {
      LowerOfLower(s[1..]);
    }
  }

  /** `toLowerCase` is idempotent. */
  lemma LowerIdempotent(s: string)
    ensures Lower(Lower(s)) == Lower(s)
  {
    LowerIsLower(s);
    LowerOfLower(Lower(s));
  }

  // ---------------------------------------------------------------------------
  // Substrings
  // ---------------------------------------------------------------------------

  /** `s` begins with `p`. */
  predicate StartsWith(s: string, p: string)
  {
    |p| <= |s| && s[..|p|] == p
  }

  /** `p` occurs in `s` as a contiguous substring (the test a regular
      expression made of the literal `p` performs). */
  predicate Contains(s: string, p: string)
    decreases |s|
  {
    StartsWith(s, p) || (s != [] && Contains(s[1..], p))
  }

  /** `p` occurs in `s` at position `i`. */
  predicate OccursAt(s: string, p: string, i: nat)
  {
    i <= |s| && StartsWith(s[i..], p)
  }

  /** `Contains` means: there is a position where `p` occurs. */
  lemma {:induction false} ContainsIffOccurs(s: string, p: string)
    ensures Contains(s, p) <==> exists i: nat :: OccursAt(s, p, i)
    decreases |s|
  {
    if StartsWith(s, p) {
      assert OccursAt(s, p, 0);
    } else if s == [] {
      assert s[0..] == s;
    } else {
      ContainsIffOccurs(s[1..], p);
      if Contains(s[1..], p) {
        var i: nat :| OccursAt(s[1..], p, i);
        assert s[1..][i..] == s[i + 1..];
        assert OccursAt(s, p, i + 1);
      } else {
        forall i: nat | OccursAt(s, p, i) ensures false {
          assert i != 0;
          assert s[1..][i - 1..] == s[i..];
          assert OccursAt(s[1..], p, i - 1);
        }
      }
    }
  }

  /** An occurrence at a known position is found by `Contains`. */
  lemma OccursAtContains(s: string, p: string, i: nat)
    requires OccursAt(s, p, i)
    ensures Contains(s, p)
  {
    ContainsIffOccurs(s, p);
  }

  /** `a + p + b` contains `p`. */
  lemma ContainsInfix(a: string, p: string, b: string)
    ensures Contains(a + p + b, p)
  {
    var s := a + p + b;
    assert s[|a|..][..|p|] == p;
    OccursAtContains(s, p, |a|);
  }

  /** A string that contains `p` contains every substring of `p`: a keyword
      also matches inside any longer word that contains it. */
  lemma ContainsTransitive(s: string, p: string, q: string)
    requires Contains(s, p) && Contains(p, q)
    ensures Contains(s, q)
  {
    ContainsIffOccurs(s, p);
    ContainsIffOccurs(p, q);
    var i: nat :| OccursAt(s, p, i);
    var j: nat :| OccursAt(p, q, j);
    assert s[i..][..|p|] == p;
    assert p[j..][..|q|] == q;
    assert s[i + j..][..|q|] == p[j..][..|q|] by {
      forall m | 0 <= m < |q| ensures s[i + j..][..|q|][m] == p[j..][..|q|][m] {
        assert s[i + j + m] == s[i..][..|p|][j + m];
      }
    }
    OccursAtContains(s, q, i + j);
  }

  /** `s.indexOf(p)`: the first position where `p` occurs, if any. */
  function IndexOf(s: string, p: string): (r: Option<nat>)
    ensures r.Some? ==> OccursAt(s, p, r.value)
    ensures r.Some? ==> forall j: nat :: j < r.value ==> !OccursAt(s, p, j)
    ensures r.None? <==> !Contains(s, p)
    decreases |s|
  {
    if StartsWith(s, p) then Some(0)
    else if s == [] then None
    else
      match IndexOf(s[1..], p)
      case None => None
      case Some(i) =>
        assert s[1..][i..] == s[i + 1..];
        assert forall j: nat :: 0 < j <= i ==> s[1..][j - 1..] == s[j..];
        assert forall j: nat :: 0 < j <= i ==> (OccursAt(s, p, j) <==> OccursAt(s[1..], p, j - 1));
        Some(i + 1)
  }

  /** `s.replace(p, q)` for a string pattern `p`: only the first occurrence
      of `p` is replaced, and `s` is returned unchanged when `p` is absent. */
  function ReplaceFirst(s: string, p: string, q: string): (r: string)
  {
    match IndexOf(s, p)
    case None => s
    case Some(i) => s[..i] + q + s[i + |p|..]
  }

  /** A string without `p` is left as it is. */
  lemma ReplaceFirstAbsent(s: string, p: string, q: string)
    requires !Contains(s, p)
    ensures ReplaceFirst(s, p, q) == s
  {
  }

  /** Removing a pattern that `s` starts with gives the rest of `s`. */
  lemma ReplaceFirstPrefix(p: string, rest: string)
    ensures ReplaceFirst(p + rest, p, "") == rest
  {
    assert StartsWith(p + rest, p);
    assert IndexOf(p + rest, p) == Some(0);
  }

  /** The replacement happens at the first occurrence: what precedes it
      has no occurrence of `p`, and what follows it is kept verbatim. */
  lemma ReplaceFirstSplit(s: string, p: string, q: string)
    requires Contains(s, p)
    ensures exists i: nat :: OccursAt(s, p, i)
              && (forall j: nat :: j < i ==> !OccursAt(s, p, j))
              && ReplaceFirst(s, p, q) == s[..i] + q + s[i + |p|..]
  {
    var i := IndexOf(s, p).value;
    assert OccursAt(s, p, i);
  }

  // ---------------------------------------------------------------------------
  // Trimming
  // ---------------------------------------------------------------------------

  /** The characters ECMAScript's `String.prototype.trim` removes:
      WhiteSpace (TAB, VT, FF, ZWNBSP and every space separator of
      category Zs) and LineTerminator (LF, CR, LS, PS). */
  predicate IsJsSpace(c: char)
  {
    || c == '\t' || c == '\n' || c == '\U{000B}' || c == '\U{000C}' || c == '\r'
    || c == ' ' || c == '\U{00A0}' || c == '\U{1680}'
    || ('\U{2000}' <= c <= '\U{200A}')
    || c == '\U{2028}' || c == '\U{2029}' || c == '\U{202F}' || c == '\U{205F}'
    || c == '\U{3000}' || c == '\U{FEFF}'
  }

  /** `s` neither starts nor ends with a character `trim` removes. */
  predicate IsTrimmed(s: string)
  {
    s == [] || (!IsJsSpace(s[0]) && !IsJsSpace(s[|s| - 1]))
  }

  /** Every character of `s` is one that `trim` removes. */
  predicate AllSpace(s: string)
  {
    forall i :: 0 <= i < |s| ==> IsJsSpace(s[i])
  }

  /** `s.trimStart()`: drops the longest all-space prefix. */
  function TrimStart(s: string): (r: string)
    decreases |s|
  {
    if s != [] && IsJsSpace(s[0]) then TrimStart(s[1..]) else s
  }

  /** `s.trimEnd()`: drops the longest all-space suffix. */
  function TrimEnd(s: string): (r: string)
    decreases |s|
  {
    if s != [] && IsJsSpace(s[|s| - 1]) then TrimEnd(s[..|s| - 1]) else s
  }

  /** `trimStart` removes an all-space prefix, and exactly enough of it that
      what remains does not start with a space. */
  lemma {:induction false} TrimStartSpec(s: string)
    ensures exists k :: 0 <= k <= |s| && TrimStart(s) == s[k..] && AllSpace(s[..k])
    ensures TrimStart(s) == [] || !IsJsSpace(TrimStart(s)[0])
    decreases |s|
  {
    if s != [] && IsJsSpace(s[0]) {
      var t := s[1..];
      TrimStartSpec(t);
      var k :| 0 <= k <= |t| && TrimStart(t) == t[k..] && AllSpace(t[..k]);
      assert TrimStart(s) == s[k + 1..] by {
        assert t[k..] == s[k + 1..];
      }
      assert AllSpace(s[..k + 1]) by {
        SpaceBeforeSpaces(s, k);
      }
    } else {
      assert s == s[0..] && s[..0] == [];
    }
  }

  /** A space followed by `k` spaces makes `k + 1` spaces. */
  lemma SpaceBeforeSpaces(s: string, k: nat)
    requires s != [] && IsJsSpace(s[0]) && k < |s|
    requires AllSpace(s[1..][..k])
    ensures AllSpace(s[..k + 1])
  {
    forall i | 0 < i < k + 1
      ensures IsJsSpace(s[i])
    {
      assert s[i] == s[1..][..k][i - 1];
    }
  }

  /** `k`-onward spaces of the initial part, then a space, make all of `s[k..]`
      spaces. */
  lemma SpacesBeforeSpace(s: string, k: nat)
    requires s != [] && IsJsSpace(s[|s| - 1]) && k < |s|
    requires AllSpace(s[..|s| - 1][k..])
    ensures AllSpace(s[k..])
  {
    forall i | 0 <= i < |s| - 1 - k
      ensures IsJsSpace(s[k..][i])
    {
      assert s[k..][i] == s[..|s| - 1][k..][i];
    }
  }

  /** `trimEnd` removes an all-space suffix, and exactly enough of it that
      what remains does not end with a space. */
  lemma {:induction false} TrimEndSpec(s: string)
    ensures exists k :: 0 <= k <= |s| && TrimEnd(s) == s[..k] && AllSpace(s[k..])
    ensures TrimEnd(s) == [] || !IsJsSpace(TrimEnd(s)[|TrimEnd(s)| - 1])
    decreases |s|
  {
    if s != [] && IsJsSpace(s[|s| - 1]) {
      var init := s[..|s| - 1];
      TrimEndSpec(init);
      var k :| 0 <= k <= |init| && TrimEnd(init) == init[..k] && AllSpace(init[k..]);
      assert TrimEnd(s) == s[..k] by {
        assert init[..k] == s[..k];
      }
      assert AllSpace(s[k..]) by {
        SpacesBeforeSpace(s, k);
      }
    } else {
      assert s == s[..|s|] && s[|s|..] == [];
    }
  }

  /** `s.trim()`. */
  function Trim(s: string): (r: string)
  {
    TrimEnd(TrimStart(s))
  }

  /** `trim` yields a string with no leading or trailing space. */
  lemma TrimIsTrimmed(s: string)
    ensures IsTrimmed(Trim(s))
  {
    TrimStartSpec(s);
    TrimEndSpec(TrimStart(s));
    TrimEndKeepsStart(TrimStart(s));
  }

  /** `trim` only drops space characters at the two ends of `s`. */
  lemma TrimIsSlice(s: string)
    ensures exists i, j :: 0 <= i <= j <= |s| && Trim(s) == s[i..j]
              && AllSpace(s[..i]) && AllSpace(s[j..])
  {
    var t := TrimStart(s);
    TrimStartSpec(s);
    var i :| 0 <= i <= |s| && t == s[i..] && AllSpace(s[..i]);
    TrimEndSpec(t);
    var k :| 0 <= k <= |t| && TrimEnd(t) == t[..k] && AllSpace(t[k..]);
    SliceOfSuffix(s, i, k);
    assert Trim(s) == s[i..i + k];
  }

  lemma SliceOfSuffix(s: string, i: nat, k: nat)
    requires i + k <= |s|
    ensures s[i..][..k] == s[i..i + k] && s[i..][k..] == s[i + k..]
  {
  }

  /** A string without leading spaces keeps that property through `trimEnd`. */
  lemma TrimEndKeepsStart(s: string)
    requires s == [] || !IsJsSpace(s[0])
    ensures TrimEnd(s) == [] || TrimEnd(s)[0] == s[0]
  {
    TrimEndSpec(s);
  }

  /** `trim` leaves a trimmed string unchanged. */
  lemma TrimOfTrimmed(s: string)
    requires IsTrimmed(s)
    ensures Trim(s) == s
  {
  }

  /** `trim` is idempotent. */
  lemma TrimIdempotent(s: string)
    ensures Trim(Trim(s)) == Trim(s)
  {
    TrimIsTrimmed(s);
    TrimOfTrimmed(Trim(s));
  }

  /** Leading spaces in front of a trimmed string are all removed. */
  lemma {:induction false} TrimAfterSpaces(sp: string, t: string)
    requires AllSpace(sp) && IsTrimmed(t)
    ensures Trim(sp + t) == t
    decreases |sp|
  {
    if sp == [] {
      assert sp + t == t;
    } else {
      assert (sp + t)[1..] == sp[1..] + t;
      TrimAfterSpaces(sp[1..], t);
    }
  }
}
