/**
 * Character classes and string operations of the JavaScript runtime that the
 * plugin relies on: the `\s` class (also used by `String.prototype.trim`),
 * line terminators (what `.` refuses to match), `trim`, `includes`,
 * `substring(0, n)` and `repeat`.
 *
 * A string is a `seq<char>`; one `char` stands for one Unicode code point, so
 * a character outside the Basic Multilingual Plane counts once, not as the two
 * UTF-16 code units JavaScript would count.
 */
module Text {
  import opened Seqs

  /** The JavaScript line terminators: LF, CR, LINE SEPARATOR, PARAGRAPH SEPARATOR. */
  predicate IsLineTerminator(c: char) {
    c == '\n' || c == '\r' || c == '\U{2028}' || c == '\U{2029}'
  }

  /** The JavaScript `\s` class: WhiteSpace and LineTerminator code points. */
  predicate IsWhite(c: char) {
    || c == '\t' || c == '\n' || c == '\U{000B}' || c == '\U{000C}' || c == '\r' || c == ' '
    || c == '\U{00A0}' || c == '\U{1680}' || ('\U{2000}' <= c <= '\U{200A}')
    || c == '\U{2028}' || c == '\U{2029}' || c == '\U{202F}' || c == '\U{205F}'
    || c == '\U{3000}' || c == '\U{FEFF}'
  }

  lemma LineTerminatorIsWhite(c: char)
    requires IsLineTerminator(c)
    ensures IsWhite(c)
  {
  }

  predicate IsAsciiDigit(c: char) {
    '0' <= c <= '9'
  }

  /** Lower-cases the ASCII letters and leaves every other character alone (the `i` flag on an ASCII pattern). */
  function LowerAscii(c: char): (r: char)
    ensures 'A' <= c <= 'Z' ==> 'a' <= r <= 'z'
    ensures !('A' <= c <= 'Z') ==> r == c
  {
    if 'A' <= c <= 'Z' then (c as int + 32) as char else c
  }

  /** `s` begins with `p`. */
  predicate StartsWith(s: string, p: string) {
    |p| <= |s| && s[..|p|] == p
  }

  /** The lower-case ASCII pattern `p` occurs at index `k` of `s`, compared case-insensitively. */
  predicate OccursAt(s: string, k: nat, p: string) {
    k + |p| <= |s| && forall i :: 0 <= i < |p| ==> LowerAscii(s[k + i]) == p[i]
  }

  /** `s.includes(sub)`. */
  predicate Contains(s: string, sub: string)
    decreases |s|
  {
    StartsWith(s, sub) || (s != [] && Contains(s[1..], sub))
  }

  /** An occurrence of `sub` at any index makes `s.includes(sub)` hold. */
  lemma {:induction false} ContainsFrom(s: string, sub: string, i: nat)
    requires i <= |s| && StartsWith(s[i..], sub)
    ensures Contains(s, sub)
    decreases i
  {
    if i == 0 {
      assert s[i..] == s;
    } else {
      assert s[1..][i - 1..] == s[i..];
      ContainsFrom(s[1..], sub, i - 1);
    }
  }

  /** When `s.includes(sub)` holds, `sub` occurs at some index. */
  lemma {:induction false} ContainsWitness(s: string, sub: string) returns (i: nat)
    requires Contains(s, sub)
    ensures i + |sub| <= |s| && StartsWith(s[i..], sub)
    decreases |s|
  {
    if StartsWith(s, sub) {
      i := 0;
      assert s[i..] == s;
    } else {
      var j := ContainsWitness(s[1..], sub);
      i := j + 1;
      assert s[1..][j..] == s[i..];
    }
  }

  predicate AllWhite(s: string) {
    forall i :: 0 <= i < |s| ==> IsWhite(s[i])
  }

  /** No leading and no trailing whitespace. */
  predicate IsTrimmed(s: string) {
    s == [] || (!IsWhite(s[0]) && !IsWhite(s[|s| - 1]))
  }

  /** No two adjacent whitespace characters. */
  predicate NoAdjacentWhite(s: string) {
    forall i :: 0 <= i < |s| - 1 ==> !(IsWhite(s[i]) && IsWhite(s[i + 1]))
  }

  /** Drops the leading whitespace. */
  function TrimStart(s: string): (r: string)
    ensures |r| <= |s|
    ensures r == [] || !IsWhite(r[0])
  {
    if s != [] && IsWhite(s[0]) then TrimStart(s[1..]) else s
  }

  /** What dropping the leading whitespace removes: a whitespace prefix, keeping the rest as it is. */
  lemma {:induction false} TrimStartSpec(s: string)
    ensures var r := TrimStart(s);
            && r == s[|s| - |r|..]
            && forall i :: 0 <= i < |s| - |r| ==> IsWhite(s[i])
    decreases |s|
  {
    if s != [] && IsWhite(s[0]) {
      TrimStartSpec(s[1..]);
    }
  }

  /** Drops the trailing whitespace. */
  function TrimEnd(s: string): (r: string)
    ensures |r| <= |s|
    ensures r == [] || !IsWhite(r[|r| - 1])
  {
    if s != [] && IsWhite(s[|s| - 1]) then TrimEnd(s[..|s| - 1]) else s
  }

  /** What dropping the trailing whitespace removes: a whitespace suffix, keeping the rest as it is. */
  lemma {:induction false} TrimEndSpec(s: string)
    ensures var r := TrimEnd(s);
            && r == s[..|r|]
            && forall i :: |r| <= i < |s| ==> IsWhite(s[i])
    decreases |s|
  {
    if s != [] && IsWhite(s[|s| - 1]) {
      TrimEndSpec(s[..|s| - 1]);
    }
  }

  /** `s.trim()`. */
  function Trim(s: string): (r: string)
    ensures IsTrimmed(r)
    ensures |r| <= |s|
  {
    var a := TrimStart(s);
    var r := TrimEnd(a);
    TrimEndSpec(a);
    assert r != [] ==> r[0] == a[0];
    r
  }

  /** The whitespace-only strings, and only they, trim to the empty string. */
  lemma TrimEmpty(s: string)
    ensures Trim(s) == [] <==> AllWhite(s)
  {
    var a := TrimStart(s);
    TrimStartSpec(s);
    TrimEndSpec(a);
    assert a != [] ==> a[0] == s[|s| - |a|];
  }

  /** Trimming a string that is already trimmed changes nothing. */
  lemma TrimTrimmed(s: string)
    requires IsTrimmed(s)
    ensures Trim(s) == s
  {
  }

  /** Dropping leading whitespace stops at the first other character. */
  lemma {:induction false} TrimStartPadded(pad: string, u: string)
    requires AllWhite(pad) && (u == [] || !IsWhite(u[0]))
    ensures TrimStart(pad + u) == u
    decreases |pad|
  {
    if pad == [] {
      assert pad + u == u;
    } else {
      assert (pad + u)[0] == pad[0] && (pad + u)[1..] == pad[1..] + u;
      TrimStartPadded(pad[1..], u);
    }
  }

  /** Dropping trailing whitespace stops at the last other character. */
  lemma {:induction false} TrimEndPadded(u: string, pad: string)
    requires AllWhite(pad) && u != [] && !IsWhite(u[|u| - 1])
    ensures TrimEnd(u + pad) == u
    decreases |pad|
  {
    if pad == [] {
      assert u + pad == u;
    } else {
      var t := u + pad;
      assert t[|t| - 1] == pad[|pad| - 1];
      assert t[..|t| - 1] == u + pad[..|pad| - 1];
      TrimEndPadded(u, pad[..|pad| - 1]);
    }
  }

  /** Trimming removes exactly the whitespace padding around a trimmed, non-empty text. */
  lemma TrimPadded(pad1: string, s: string, pad2: string)
    requires s != [] && IsTrimmed(s) && AllWhite(pad1) && AllWhite(pad2)
    ensures Trim(pad1 + s + pad2) == s
  {
    assert pad1 + s + pad2 == pad1 + (s + pad2);
    TrimStartPadded(pad1, s + pad2);
    TrimEndPadded(s, pad2);
  }

  /** A string that starts with no whitespace keeps, after trimming, everything up to any non-whitespace character. */
  lemma TrimFromVisible(s: string, k: nat)
    requires k < |s| && !IsWhite(s[0]) && !IsWhite(s[k])
    ensures |Trim(s)| > k && Trim(s)[..k] == s[..k]
  {
    assert TrimStart(s) == s;
    var r := TrimEnd(s);
    TrimEndSpec(s);
    assert |r| > k;
  }

  /**
   * When `u` starts with `hd` and has no whitespace at its start or right
   * after `hd`, trimming `u + v` keeps `hd` at the front.
   */
  lemma TrimKeepsHead(u: string, v: string, hd: string)
    requires |hd| < |u| && u[..|hd|] == hd && !IsWhite(u[0]) && !IsWhite(u[|hd|])
    ensures StartsWith(Trim(u + v), hd)
  {
    var s := u + v;
    assert s[0] == u[0] && s[|hd|] == u[|hd|];
    assert s[..|hd|] == hd by {
      assert s[..|hd|] == u[..|hd|];
    }
    TrimFromVisible(s, |hd|);
  }

  /** `s.substring(0, n)` for a non-negative `n`. */
  function Take(s: string, n: nat): (r: string)
    ensures |r| == if |s| < n then |s| else n
    ensures r == s[..|r|]
  {
    if |s| <= n then s else s[..n]
  }

  /** `c.repeat(n)` for a one-character string `c`. */
  function Repeat(c: char, n: nat): (r: string)
    ensures |r| == n
  {
    if n == 0 then [] else [c] + Repeat(c, n - 1)
  }

  /** Every character of `c.repeat(n)` is `c`. */
  lemma {:induction false} RepeatChars(c: char, n: nat)
    ensures forall i :: 0 <= i < n ==> Repeat(c, n)[i] == c
    decreases n
  {
    if n > 0 {
      RepeatChars(c, n - 1);
      assert Repeat(c, n) == [c] + Repeat(c, n - 1);
    }
  }

  /** `Math.min` and `Math.max` on integers. */
  function Min(a: int, b: int): int {
    if a <= b then a else b
  }

  function Max(a: int, b: int): int {
    if a >= b then a else b
  }

  /** Dropping leading whitespace keeps what a filter that ignores whitespace sees. */
  lemma TrimStartKeeps(s: string, p: char -> bool)
    requires forall c :: IsWhite(c) ==> !p(c)
    ensures Filter(TrimStart(s), p) == Filter(s, p)
  {
    var a := TrimStart(s);
    TrimStartSpec(s);
    var pad := s[..|s| - |a|];
    assert s == pad + a;
    forall i | 0 <= i < |pad| ensures !p(pad[i]) {
      assert pad[i] == s[i];
    }
    FilterAppend(pad, a, p);
    FilterNone(pad, p);
  }

  /** Dropping trailing whitespace keeps what a filter that ignores whitespace sees. */
  lemma TrimEndKeeps(s: string, p: char -> bool)
    requires forall c :: IsWhite(c) ==> !p(c)
    ensures Filter(TrimEnd(s), p) == Filter(s, p)
  {
    var r := TrimEnd(s);
    TrimEndSpec(s);
    var tail := s[|r|..];
    assert s == r + tail;
    forall i | 0 <= i < |tail| ensures !p(tail[i]) {
      assert tail[i] == s[|r| + i];
    }
    FilterAppend(r, tail, p);
    FilterNone(tail, p);
  }

  /** Trimming removes only whitespace: a filter that ignores whitespace sees the same characters. */
  lemma TrimKeeps(s: string, p: char -> bool)
    requires forall c :: IsWhite(c) ==> !p(c)
    ensures Filter(Trim(s), p) == Filter(s, p)
  {
    TrimStartKeeps(s, p);
    TrimEndKeeps(TrimStart(s), p);
  }
}
