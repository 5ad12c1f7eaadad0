/**
 The string operations the callback applies to audit text: ECMAScript
 `String.prototype.trim`, `split(marker)[0]`, and `Array.prototype.join`
 (with the matching `split` used to read a joined message back).
 */
module Text {

  /** The code points `trim` removes: ECMAScript WhiteSpace and LineTerminator. */
  predicate IsJsWhitespace(c: char) {
    c == '\t' || c == '\n' || c == '\U{B}' || c == '\U{C}' || c == '\r' || c == ' '
    || c == '\U{A0}' || c == '\U{1680}' || ('\U{2000}' <= c <= '\U{200A}')
    || c == '\U{2028}' || c == '\U{2029}' || c == '\U{202F}' || c == '\U{205F}'
    || c == '\U{3000}' || c == '\U{FEFF}'
  }

  /** Drops leading whitespace: the result is the longest suffix starting with a non-blank. */
  function TrimStart(s: string): (r: string)
    ensures |r| <= |s| && r == s[|s| - |r|..]
    ensures forall k :: 0 <= k < |s| - |r| ==> IsJsWhitespace(s[k])
    ensures r == [] || !IsJsWhitespace(r[0])
  {
    if s != [] && IsJsWhitespace(s[0]) then TrimStart(s[1..]) else s
  }

  /** Drops trailing whitespace: the result is the longest prefix ending with a non-blank. */
  function TrimEnd(s: string): (r: string)
    ensures |r| <= |s| && r == s[..|r|]
    ensures forall k :: |r| <= k < |s| ==> IsJsWhitespace(s[k])
    ensures r == [] || !IsJsWhitespace(r[|r| - 1])
  {
    if s != [] && IsJsWhitespace(s[|s| - 1]) then TrimEnd(s[..|s| - 1]) else s
  }

  /**
   `s.trim()`: the infix of `s` left after removing whitespace on both sides;
   everything removed is whitespace and the result neither starts nor ends with it.
   */
  function Trim(s: string): (r: string)
    ensures r == [] || (!IsJsWhitespace(r[0]) && !IsJsWhitespace(r[|r| - 1]))
    ensures exists i: nat :: StrippedAt(s, i, r)
  {
    var t := TrimStart(s);
    var r := TrimEnd(t);
    var i := |s| - |t|;
    assert StrippedAt(s, i, r);
    r
  }

  /** `r` is `s` with whitespace-only text removed before index `i` and after `r`. */
  predicate StrippedAt(s: string, i: nat, r: string) {
    i + |r| <= |s| && r == s[i..i + |r|]
    && (forall k :: 0 <= k < i ==> IsJsWhitespace(s[k]))
    && (forall k :: i + |r| <= k < |s| ==> IsJsWhitespace(s[k]))
  }

  /**
   `trim` is determined by where the first and last non-blank characters
   are: whatever lies strictly between blanks-only ends is the result.
   */
  lemma TrimExact(s: string, i: nat, j: nat)
    requires i < j <= |s|
    requires !IsJsWhitespace(s[i]) && !IsJsWhitespace(s[j - 1])
    requires forall k :: 0 <= k < i ==> IsJsWhitespace(s[k])
    requires forall k :: j <= k < |s| ==> IsJsWhitespace(s[k])
    ensures Trim(s) == s[i..j]
  {
    TrimStartExact(s, i);
    TrimEndOfSuffix(s, i, j);
  }

  /** Trimming the end of `s[i..]` stops at the last non-blank `s[j - 1]`. */
  lemma TrimEndOfSuffix(s: string, i: nat, j: nat)
    requires i < j <= |s| && !IsJsWhitespace(s[j - 1])
    requires forall k :: j <= k < |s| ==> IsJsWhitespace(s[k])
    ensures TrimEnd(s[i..]) == s[i..j]
  {
    var t := s[i..];
    forall k | j - i <= k < |t|
      ensures IsJsWhitespace(t[k])
    {
      assert t[k] == s[i + k];
    }
    TrimEndExact(t, j - i);
    assert t[..j - i] == s[i..j];
  }

  /** `trimStart` stops at the first non-blank. */
  lemma {:induction false} TrimStartExact(s: string, i: nat)
    requires i < |s| && !IsJsWhitespace(s[i])
    requires forall k :: 0 <= k < i ==> IsJsWhitespace(s[k])
    ensures TrimStart(s) == s[i..]
    decreases i
  {
    if i > 0 {
      assert IsJsWhitespace(s[0]);
      var t := s[1..];
      assert t[i - 1] == s[i];
      forall k | 0 <= k < i - 1
        ensures IsJsWhitespace(t[k])
      {
        assert t[k] == s[k + 1];
      }
      TrimStartExact(t, i - 1);
      assert t[i - 1..] == s[i..];
    }
  }

  /** `trimEnd` stops at the last non-blank. */
  lemma {:induction false} TrimEndExact(s: string, j: nat)
    requires 0 < j <= |s| && !IsJsWhitespace(s[j - 1])
    requires forall k :: j <= k < |s| ==> IsJsWhitespace(s[k])
    ensures TrimEnd(s) == s[..j]
    decreases |s| - j
  {
    if j < |s| {
      assert IsJsWhitespace(s[|s| - 1]);
      var t := s[..|s| - 1];
      assert t[j - 1] == s[j - 1];
      forall k | j <= k < |t|
        ensures IsJsWhitespace(t[k])
      {
        assert t[k] == s[k];
      }
      TrimEndExact(t, j);
      assert t[..j] == s[..j];
    }
  }

  /** `m` occurs in `s` starting at index `k`. */
  predicate OccursAt(s: string, m: string, k: nat) {
    k + |m| <= |s| && s[k..k + |m|] == m
  }

  /** `s.split(m)[0]`: the part of `s` before the first occurrence of `m`, or all of `s`. */
  function Before(s: string, m: string): (r: string)
    requires m != []
    ensures |r| <= |s| && r == s[..|r|]
    ensures forall k :: 0 <= k < |r| ==> !OccursAt(s, m, k)
    ensures |r| < |s| ==> OccursAt(s, m, |r|)
    decreases |s|
  {
    if s == [] || OccursAt(s, m, 0) then []
    else
      var r := Before(s[1..], m);
      assert forall k :: 0 < k <= |r| ==> (OccursAt(s, m, k) <==> OccursAt(s[1..], m, k - 1));
      [s[0]] + r
  }

  /** The first occurrence of `m` determines `Before`. */
  lemma BeforeFirstOccurrence(s: string, m: string, j: nat)
    requires m != [] && OccursAt(s, m, j)
    requires forall k :: 0 <= k < j ==> !OccursAt(s, m, k)
    ensures Before(s, m) == s[..j]
  {
  }

  /** Without an occurrence of `m`, `split(m)[0]` is the whole string. */
  lemma BeforeWhenFree(s: string, m: string)
    requires m != [] && Free(s, m)
    ensures Before(s, m) == s
  {
    var r := Before(s, m);
    assert !OccursAt(s, m, |r|);
    assert s[..|s|] == s;
  }

  /** The separator `Array.prototype.join(', ')` puts between parts. */
  const Separator: string := ", "

  /** `parts.join(sep)`. */
  function Join(parts: seq<string>, sep: string): string {
    if parts == [] then ""
    else if |parts| == 1 then parts[0]
    else parts[0] + sep + Join(parts[1..], sep)
  }

  /** `s.split(sep)` for a non-empty separator. */
  function Split(s: string, sep: string): (parts: seq<string>)
    requires sep != []
    ensures parts != []
    decreases |s|
  {
    var b := Before(s, sep);
    if |b| == |s| then [s] else [b] + Split(s[|b| + |sep|..], sep)
  }

  /** `sep` occurs nowhere in `s`. */
  predicate Free(s: string, sep: string) {
    forall k :: 0 <= k <= |s| ==> !OccursAt(s, sep, k)
  }

  /**
   A piece of a prefix of `d` in which `sep` starts nowhere holds no
   occurrence of `sep` either.
   */
  lemma InfixOfPrefixFree(d: string, b: string, i: nat, m: string, sep: string)
    requires sep != [] && |b| <= |d| && b == d[..|b|]
    requires forall k :: 0 <= k < |b| ==> !OccursAt(d, sep, k)
    requires i + |m| <= |b| && m == b[i..i + |m|]
    ensures Free(m, sep)
  {
    forall k | 0 <= k <= |m|
      ensures !OccursAt(m, sep, k)
    {
      if OccursAt(m, sep, k) {
        assert m[k..k + |sep|] == b[i + k..i + k + |sep|];
        assert b[i + k..i + k + |sep|] == d[i + k..i + k + |sep|];
        assert OccursAt(d, sep, i + k);
      }
    }
  }

  /**
   Joining with ", " and splitting again gives back the parts, provided no
   part contains ", " itself.
   */
  lemma {:induction false} SplitJoin(parts: seq<string>)
    requires parts != []
    requires forall i :: 0 <= i < |parts| ==> Free(parts[i], Separator)
    ensures Split(Join(parts, Separator), Separator) == parts
    decreases |parts|
  {
    var p := parts[0];
    if |parts| == 1 {
      assert Free(p, Separator);
    } else {
      var rest := Join(parts[1..], Separator);
      var s := p + Separator + rest;
      assert Join(parts, Separator) == s;
      assert OccursAt(s, Separator, |p|) by {
        assert s[|p|..|p| + 2] == Separator;
      }
      forall k | 0 <= k < |p|
        ensures !OccursAt(s, Separator, k)
      {
        if k + 2 <= |p| {
          assert s[k..k + 2] == p[k..k + 2];
          assert !OccursAt(p, Separator, k);
        } else {
          assert s[k..k + 2][1] == s[k + 1] == ',' != Separator[1];
        }
      }
      BeforeFirstOccurrence(s, Separator, |p|);
      assert s[..|p|] == p;
      assert s[|p| + 2..] == rest;
      assert Split(s, Separator) == [p] + Split(rest, Separator);
      SplitJoin(parts[1..]);
      assert parts == [p] + parts[1..];
    }
  }
}
