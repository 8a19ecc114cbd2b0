/**
 * `sanitizeInput` (src/utils/helpers.ts): a fixed pipeline of global regular
 * expression replacements, whitespace collapsing, truncation and trimming.
 *
 * Each `replace(/re/g, '')` is `RemoveAll`: at every position, in order, the
 * pattern is tried anchored there; a match is dropped and scanning resumes
 * after it, otherwise one character is kept. The anchored matchers are
 * written as explicit scans.
 */
module Sanitizer {
  import opened Wrappers
  import opened Text
  import opened Seqs

  /** What `sanitizeInput` is called with: a string, or any other value (`null`, `undefined`, a number). */
  datatype Input = Str(s: string) | NotAString

  /** The patterns the pipeline removes. */
  datatype Pattern =
    | Element(name: string)  // /<name.*?>.*?<\/name>/gi, `name` in lower case
    | ScriptUri              // /javascript:[^;]*;?/gi
    | Tag                    // /<[^>]*>/g

  /** No character of `s[i..j]` is a line terminator (what `.` needs to match them). */
  predicate NoLineBreak(s: string, i: int, j: int)
    requires 0 <= i <= j <= |s|
  {
    forall m {:trigger IsLineTerminator(s[m])} :: i <= m < j ==> !IsLineTerminator(s[m])
  }

  /** The first `c` at or after `i` that `.*?` can reach, i.e. before any line terminator. */
  function FindOnLine(s: string, i: nat, c: char): (r: Option<nat>)
    requires i <= |s|
    requires !IsLineTerminator(c)
    ensures r.Some? ==> i <= r.value < |s| && s[r.value] == c && NoLineBreak(s, i, r.value)
    decreases |s| - i
  {
    if i == |s| then None
    else if s[i] == c then Some(i)
    else if IsLineTerminator(s[i]) then None
    else FindOnLine(s, i + 1, c)
  }

  /** The first index at or after `i`, before any line terminator, where `closer` occurs (ignoring ASCII case). */
  function FindCloserOnLine(s: string, i: nat, closer: string): (r: Option<nat>)
    requires i <= |s|
    requires closer != [] && !IsLineTerminator(closer[0])
    ensures r.Some? ==> i <= r.value <= |s| && OccursAt(s, r.value, closer) && NoLineBreak(s, i, r.value)
    decreases |s| - i
  {
    if OccursAt(s, i, closer) then Some(i)
    else if i == |s| || IsLineTerminator(s[i]) then None
    else FindCloserOnLine(s, i + 1, closer)
  }

  /** The first `c` at or after `i`, line terminators included (what `[^c]*c` reaches). */
  function FindFirst(s: string, i: nat, c: char): (r: Option<nat>)
    requires i <= |s|
    ensures r.Some? ==> i <= r.value < |s| && s[r.value] == c
    ensures r.Some? ==> forall m :: i <= m < r.value ==> s[m] != c
    ensures r.None? ==> forall m :: i <= m < |s| ==> s[m] != c
    decreases |s| - i
  {
    if i == |s| then None
    else if s[i] == c then Some(i)
    else FindFirst(s, i + 1, c)
  }

  function Opener(name: string): string { "<" + name }
  function Closer(name: string): string { "</" + name + ">" }

  /** The length of the match of `p` anchored at the start of `s`, if there is one. */
  function MatchAt(p: Pattern, s: string): (r: Option<nat>)
    ensures r.Some? ==> 0 < r.value <= |s|
    ensures r.Some? ==> CanStart(p, s[0])
  {
    if s == [] || !CanStart(p, s[0]) then None
    else match p
      case Element(name) => ElementMatchAt(name, s)
      case ScriptUri => ScriptUriMatchAt(s)
      case Tag => TagMatchAt(s)
  }

  /** The characters a match of `p` can begin with. */
  predicate CanStart(p: Pattern, c: char) {
    match p
    case ScriptUri => c == 'j' || c == 'J'
    case _ => c == '<'
  }

  /** `/<name.*?>.*?<\/name>/i` anchored at the start of `s`. */
  function ElementMatchAt(name: string, s: string): (r: Option<nat>)
    ensures r.Some? ==> 0 < r.value <= |s|
  {
    DelimitedMatchAt(Opener(name), Closer(name), s)
  }

  /**
   * `o.*?>.*?c`, ignoring ASCII case, anchored at the start of `s`: the
   * opener `o`, the first `>` on the same line, then the first closer `c` on
   * the same line after it.
   */
  function DelimitedMatchAt(o: string, c: string, s: string): (r: Option<nat>)
    requires c != [] && !IsLineTerminator(c[0])
    ensures r.Some? ==> |o| < r.value <= |s|
  {
    if !OccursAt(s, 0, o) then None
    else match FindOnLine(s, |o|, '>')
      case None => None
      case Some(j) =>
        (match FindCloserOnLine(s, j + 1, c)
         case None => None
         case Some(k) => Some(k + |c|))
  }

  /** `/javascript:[^;]*;?/i` anchored at the start of `s`. */
  function ScriptUriMatchAt(s: string): (r: Option<nat>)
    ensures r.Some? ==> 0 < r.value <= |s|
  {
    if !OccursAt(s, 0, "javascript:") then None
    else match FindFirst(s, 11, ';')
      case None => Some(|s|)
      case Some(k) => Some(k + 1)
  }

  /** `/<[^>]*>/` anchored at the start of `s`. */
  function TagMatchAt(s: string): (r: Option<nat>)
    ensures r.Some? ==> 0 < r.value <= |s|
  {
    if s == [] || s[0] != '<' then None
    else match FindFirst(s, 1, '>')
      case None => None
      case Some(j) => Some(j + 1)
  }

  /** `s.replace(p, '')` with the `g` flag. */
  function RemoveAll(p: Pattern, s: string): (r: string)
    ensures |r| <= |s|
    ensures forall c :: c in r ==> c in s
    decreases |s|
  {
    if s == [] then []
    else match MatchAt(p, s)
      case Some(n) => RemoveAll(p, s[n..])
      case None => [s[0]] + RemoveAll(p, s[1..])
  }

  // ---------------------------------------------------------------------
  // What a script or iframe match is

  /**
   * An opener or closer of an element pattern: it starts with `<` and holds
   * no upper-case ASCII letter and no line terminator.
   */
  predicate Delimiter(d: string) {
    && d != [] && d[0] == '<'
    && forall i :: 0 <= i < |d| ==> LowerAscii(d[i]) == d[i] && !IsLineTerminator(d[i])
  }

  predicate LowerAsciiName(name: string) {
    forall i :: 0 <= i < |name| ==> 'a' <= name[i] <= 'z'
  }

  lemma NameDelimiters(name: string)
    requires LowerAsciiName(name)
    ensures Delimiter(Opener(name)) && Delimiter(Closer(name))
  {
    var o, c := Opener(name), Closer(name);
    forall i | 0 <= i < |o| ensures LowerAscii(o[i]) == o[i] && !IsLineTerminator(o[i]) {
      if i > 0 { assert o[i] == name[i - 1]; }
    }
    forall i | 0 <= i < |c| ensures LowerAscii(c[i]) == c[i] && !IsLineTerminator(c[i]) {
      if 2 <= i < |c| - 1 { assert c[i] == name[i - 2]; }
    }
  }

  /** The element pattern is the delimited pattern of the element's opener and closer. */
  lemma ElementIsDelimited(name: string, s: string)
    ensures MatchAt(Element(name), s) == DelimitedMatchAt(Opener(name), Closer(name), s)
  {
    if s != [] && s[0] != '<' {
      assert LowerAscii(s[0]) != Opener(name)[0];
    }
  }

  /**
   * The strings `o.*?>.*?c` matches in full: the opener, a run without line
   * terminators holding a `>`, and the closer.
   */
  predicate InDelimitedLanguage(t: string, o: string, c: string) {
    && |o| + 1 + |c| <= |t|
    && OccursAt(t, 0, o)
    && OccursAt(t, |t| - |c|, c)
    && NoLineBreak(t, 0, |t|)
    && exists j :: |o| <= j < |t| - |c| && t[j] == '>'
  }

  /** The strings `/<name.*?>.*?<\/name>/i` matches in full. */
  predicate InElementLanguage(t: string, name: string) {
    InDelimitedLanguage(t, Opener(name), Closer(name))
  }

  lemma OccursAtNoBreak(s: string, k: nat, p: string)
    requires OccursAt(s, k, p)
    requires forall i :: 0 <= i < |p| ==> !IsLineTerminator(p[i])
    ensures NoLineBreak(s, k, k + |p|)
  {
    forall m | k <= m < k + |p| ensures !IsLineTerminator(s[m]) {
      assert LowerAscii(s[k + (m - k)]) == p[m - k];
    }
  }

  lemma NoLineBreakWithin(s: string, i: int, j: int, i': int, j': int)
    requires 0 <= i <= i' <= j' <= j <= |s| && NoLineBreak(s, i, j)
    ensures NoLineBreak(s, i', j')
  {
  }

  lemma NoLineBreakJoin(s: string, i: int, j: int, k: int)
    requires 0 <= i <= j <= k <= |s|
    requires NoLineBreak(s, i, j) && NoLineBreak(s, j, k)
    ensures NoLineBreak(s, i, k)
  {
  }

  /** The three scans the delimited matcher makes, when all succeed. */
  lemma DelimitedScans(s: string, o: string, c: string) returns (j: nat, k: nat)
    requires Delimiter(c)
    requires DelimitedMatchAt(o, c, s).Some?
    ensures OccursAt(s, 0, o)
    ensures |o| <= j < k <= |s| && s[j] == '>' && NoLineBreak(s, |o|, j)
    ensures OccursAt(s, k, c) && NoLineBreak(s, j + 1, k)
    ensures DelimitedMatchAt(o, c, s).value == k + |c|
  {
    j := FindOnLine(s, |o|, '>').value;
    k := FindCloserOnLine(s, j + 1, c).value;
  }

  /** Occurrences in `s` below `n` are occurrences in `s[..n]`, and the other way round. */
  lemma OccursAtPrefix(s: string, n: nat, k: nat, p: string)
    requires n <= |s| && k + |p| <= n
    ensures OccursAt(s, k, p) <==> OccursAt(s[..n], k, p)
  {
    if OccursAt(s, k, p) {
      forall i | 0 <= i < |p| ensures LowerAscii(s[..n][k + i]) == p[i] { assert s[..n][k + i] == s[k + i]; }
    }
    if OccursAt(s[..n], k, p) {
      forall i | 0 <= i < |p| ensures LowerAscii(s[k + i]) == p[i] { assert s[..n][k + i] == s[k + i]; }
    }
  }

  lemma NoLineBreakPrefix(s: string, n: nat, i: int, j: int)
    requires 0 <= i <= j <= n <= |s|
    ensures NoLineBreak(s, i, j) <==> NoLineBreak(s[..n], i, j)
  {
    assert forall m :: i <= m < j ==> s[..n][m] == s[m];
  }

  /** What the delimited matcher returns is a full match of the pattern. */
  lemma DelimitedMatchInLanguage(s: string, o: string, c: string)
    requires Delimiter(o) && Delimiter(c)
    requires DelimitedMatchAt(o, c, s).Some?
    ensures InDelimitedLanguage(s[..DelimitedMatchAt(o, c, s).value], o, c)
  {
    var j, k := DelimitedScans(s, o, c);
    var n := k + |c|;
    var t := s[..n];
    OccursAtNoBreak(s, 0, o);
    OccursAtNoBreak(s, k, c);
    NoLineBreakJoin(s, 0, |o|, j);
    NoLineBreakJoin(s, 0, j, j + 1);
    NoLineBreakJoin(s, 0, j + 1, k);
    NoLineBreakJoin(s, 0, k, n);
    OccursAtPrefix(s, n, 0, o);
    OccursAtPrefix(s, n, k, c);
    NoLineBreakPrefix(s, n, 0, n);
    assert t[j] == '>';
  }

  /** The scan for `>` stops no later than any `>` it can reach. */
  lemma {:induction false} FindOnLineBefore(s: string, i: nat, c: char, j: nat)
    requires i <= j < |s| && !IsLineTerminator(c) && s[j] == c && NoLineBreak(s, i, j)
    ensures FindOnLine(s, i, c).Some? && FindOnLine(s, i, c).value <= j
    decreases j - i
  {
    if s[i] != c {
      FindOnLineBefore(s, i + 1, c, j);
    }
  }

  /** The scan for the closer stops no later than any closer it can reach. */
  lemma {:induction false} FindCloserOnLineBefore(s: string, i: nat, closer: string, k: nat)
    requires i <= k <= |s| && closer != [] && !IsLineTerminator(closer[0])
    requires OccursAt(s, k, closer) && NoLineBreak(s, i, k)
    ensures FindCloserOnLine(s, i, closer).Some? && FindCloserOnLine(s, i, closer).value <= k
    decreases k - i
  {
    if !OccursAt(s, i, closer) {
      FindCloserOnLineBefore(s, i + 1, closer, k);
    }
  }

  /** What a full match held in `s[..m]` says about `s` itself. */
  lemma LanguagePrefixFacts(s: string, o: string, c: string, m: nat) returns (j: nat)
    requires m <= |s| && InDelimitedLanguage(s[..m], o, c)
    ensures OccursAt(s, 0, o)
    ensures |o| <= j < m - |c| && s[j] == '>'
    ensures OccursAt(s, m - |c|, c)
    ensures NoLineBreak(s, 0, m)
  {
    var t := s[..m];
    j :| |o| <= j < |t| - |c| && t[j] == '>';
    OccursAtPrefix(s, m, 0, o);
    OccursAtPrefix(s, m, m - |c|, c);
    NoLineBreakPrefix(s, m, 0, m);
    assert s[j] == t[j];
  }

  /** Every full match held in a prefix of `s` ends no earlier than the one the delimited matcher returns. */
  lemma DelimitedMatchBoundedBy(s: string, o: string, c: string, m: nat)
    requires Delimiter(o) && Delimiter(c)
    requires m <= |s| && InDelimitedLanguage(s[..m], o, c)
    ensures DelimitedMatchAt(o, c, s).Some? && DelimitedMatchAt(o, c, s).value <= m
  {
    var j' := LanguagePrefixFacts(s, o, c, m);
    ScansBoundedBy(s, o, c, j', m);
  }

  /** An opener, a `>` at `j'`, and a closer ending at `m`, all on one line: the scans stop no later. */
  lemma ScansBoundedBy(s: string, o: string, c: string, j': nat, m: nat)
    requires Delimiter(c)
    requires OccursAt(s, 0, o)
    requires |o| <= j' < m - |c| && m <= |s| && s[j'] == '>'
    requires OccursAt(s, m - |c|, c)
    requires NoLineBreak(s, 0, m)
    ensures DelimitedMatchAt(o, c, s).Some? && DelimitedMatchAt(o, c, s).value <= m
  {
    var k' := m - |c|;
    NoLineBreakWithin(s, 0, m, |o|, j');
    FindOnLineBefore(s, |o|, '>', j');
    var j := FindOnLine(s, |o|, '>').value;
    NoLineBreakWithin(s, 0, m, j + 1, k');
    FindCloserOnLineBefore(s, j + 1, c, k');
    DelimitedFromScans(s, o, c, j, FindCloserOnLine(s, j + 1, c).value);
  }

  /** When the three scans succeed, the match ends after the closer. */
  lemma DelimitedFromScans(s: string, o: string, c: string, j: nat, k: nat)
    requires c != [] && c[0] == '<'
    requires OccursAt(s, 0, o)
    requires FindOnLine(s, |o|, '>') == Some(j)
    requires FindCloserOnLine(s, j + 1, c) == Some(k)
    ensures DelimitedMatchAt(o, c, s) == Some(k + |c|)
  {
  }

  /**
   * The script and iframe matcher finds what the non-greedy pattern finds:
   * the shortest prefix of `s` in the pattern's language, and nothing when no
   * prefix is in it. (Backtracking tries the first `>` first and, for it, the
   * first closer; any other match has a later `>` and so a later closer.)
   */
  lemma ElementMatchIsShortest(s: string, name: string)
    requires LowerAsciiName(name)
    ensures MatchAt(Element(name), s).Some? ==>
              var n := MatchAt(Element(name), s).value;
              InElementLanguage(s[..n], name) &&
              forall m :: 0 <= m < n ==> !InElementLanguage(s[..m], name)
    ensures MatchAt(Element(name), s).None? ==>
              forall m :: 0 <= m <= |s| ==> !InElementLanguage(s[..m], name)
  {
    var o, c := Opener(name), Closer(name);
    NameDelimiters(name);
    ElementIsDelimited(name, s);
    if DelimitedMatchAt(o, c, s).Some? {
      DelimitedMatchInLanguage(s, o, c);
    }
    forall m | 0 <= m <= |s| && InDelimitedLanguage(s[..m], o, c)
      ensures DelimitedMatchAt(o, c, s).Some? && DelimitedMatchAt(o, c, s).value <= m
    {
      DelimitedMatchBoundedBy(s, o, c, m);
    }
  }

  // ---------------------------------------------------------------------
  // No tag shape survives

  /** No `<` is followed, anywhere later, by a `>`: nothing `/<[^>]*>/` could match. */
  predicate TagFree(s: string) {
    forall i, j :: 0 <= i < j < |s| && s[i] == '<' ==> s[j] != '>'
  }

  lemma TagFreeSuffix(s: string, n: nat)
    requires TagFree(s) && n <= |s|
    ensures TagFree(s[n..])
  {
    forall i, j | 0 <= i < j < |s[n..]| && s[n..][i] == '<' ensures s[n..][j] != '>' {
      assert s[n..][i] == s[n + i] && s[n..][j] == s[n + j];
    }
  }

  lemma TagFreeCons(c: char, s: string)
    requires TagFree(s)
    requires c == '<' ==> '>' !in s
    ensures TagFree([c] + s)
  {
    var t := [c] + s;
    forall i, j | 0 <= i < j < |t| && t[i] == '<' ensures t[j] != '>' {
      assert t[j] == s[j - 1];
      if i > 0 { assert t[i] == s[i - 1]; }
    }
  }

  /** After the tag-stripping step no `<` is followed by a `>`. */
  lemma {:induction false} RemoveTagsIsTagFree(s: string)
    ensures TagFree(RemoveAll(Tag, s))
    decreases |s|
  {
    if s != [] {
      match MatchAt(Tag, s)
      case Some(n) =>
        RemoveTagsIsTagFree(s[n..]);
      case None =>
        RemoveTagsIsTagFree(s[1..]);
        if s[0] == '<' {
          assert FindFirst(s, 1, '>').None?;
          assert '>' !in s[1..] by {
            forall m | 0 <= m < |s[1..]| ensures s[1..][m] != '>' { assert s[1..][m] == s[m + 1]; }
          }
        }
        TagFreeCons(s[0], RemoveAll(Tag, s[1..]));
    }
  }

  // ---------------------------------------------------------------------
  // Collapsing whitespace: /\s+/g -> ' '

  /** `s.replace(/\s+/g, ' ')`. */
  function CollapseWhite(s: string): (r: string)
    ensures |r| <= |s|
    ensures r == [] <==> s == []
    ensures r != [] ==> (IsWhite(s[0]) <==> r[0] == ' ') && (!IsWhite(s[0]) ==> r[0] == s[0])
    ensures forall c :: c in r ==> c == ' ' || (c in s && !IsWhite(c))
    decreases |s|
  {
    if s == [] then []
    else if IsWhite(s[0]) then
      TrimStartSpec(s);
      [' '] + CollapseWhite(TrimStart(s))
    else [s[0]] + CollapseWhite(s[1..])
  }

  /**
   * Collapsing only rewrites whitespace: a filter that ignores whitespace sees
   * the same characters, in the same order (with `!IsWhite`, the visible text
   * is kept exactly).
   */
  lemma {:induction false} CollapseKeeps(s: string, p: char -> bool)
    requires forall c :: IsWhite(c) ==> !p(c)
    ensures Filter(CollapseWhite(s), p) == Filter(s, p)
    decreases |s|
  {
    if s != [] {
      assert s == [s[0]] + s[1..];
      FilterCons(s[0], s[1..], p);
      if IsWhite(s[0]) {
        var t := TrimStart(s);
        TrimStartSpec(s);
        CollapseKeeps(t, p);
        TrimStartKeeps(s, p);
        FilterCons(' ', CollapseWhite(t), p);
      } else {
        CollapseKeeps(s[1..], p);
        FilterCons(s[0], CollapseWhite(s[1..]), p);
      }
    }
  }

  /** After collapsing, no two whitespace characters are adjacent. */
  lemma {:induction false} CollapseNoAdjacentWhite(s: string)
    ensures NoAdjacentWhite(CollapseWhite(s))
    decreases |s|
  {
    if s != [] {
      var r := CollapseWhite(s);
      var rest := if IsWhite(s[0]) then TrimStart(s) else s[1..];
      CollapseNoAdjacentWhite(rest);
      var r' := CollapseWhite(rest);
      assert r == [r[0]] + r';
      forall i | 0 <= i < |r| - 1 ensures !(IsWhite(r[i]) && IsWhite(r[i + 1])) {
        if i == 0 {
          if IsWhite(s[0]) {
            assert r'[0] == rest[0];
          }
        } else {
          assert r[i] == r'[i - 1] && r[i + 1] == r'[i];
        }
      }
    }
  }

  /** Collapsing whitespace cannot put a `>` after a `<`. */
  lemma {:induction false} CollapseKeepsTagFree(s: string)
    requires TagFree(s)
    ensures TagFree(CollapseWhite(s))
    decreases |s|
  {
    if s != [] {
      if IsWhite(s[0]) {
        var t := TrimStart(s);
        TrimStartSpec(s);
        TagFreeSuffix(s, |s| - |t|);
        CollapseKeepsTagFree(t);
        TagFreeCons(' ', CollapseWhite(t));
      } else {
        TagFreeSuffix(s, 1);
        CollapseKeepsTagFree(s[1..]);
        if s[0] == '<' {
          assert '>' !in s[1..] by {
            forall m | 0 <= m < |s[1..]| ensures s[1..][m] != '>' { assert s[1..][m] == s[m + 1]; }
          }
        }
        TagFreeCons(s[0], CollapseWhite(s[1..]));
      }
    }
  }

  // ---------------------------------------------------------------------
  // The pipeline

  /** The text after the four removals and the whitespace collapse, before truncation. */
  function Collapsed(s: string): string {
    var a := RemoveAll(Element("script"), s);
    var b := RemoveAll(Element("iframe"), a);
    var c := RemoveAll(ScriptUri, b);
    var d := RemoveAll(Tag, c);
    CollapseWhite(d)
  }

  /** The text cut to 197 characters plus `...` when longer than 200. */
  function Truncated(e: string): (r: string)
    ensures |r| <= 200
  {
    if |e| > 200 then e[..197] + "..." else e
  }

  /** `sanitizeInput(input)`. */
  function SanitizeInput(input: Input): (r: string)
    ensures input.NotAString? || input == Str("") ==> r == ""
    ensures |r| <= 200
    ensures IsTrimmed(r)
  {
    if input.NotAString? || input.s == "" then ""
    else Trim(Truncated(Collapsed(input.s)))
  }

  /** The cleaned text has no run of whitespace and no `<` followed later by `>`. */
  lemma SanitizedShape(input: Input)
    ensures NoAdjacentWhite(SanitizeInput(input)) && TagFree(SanitizeInput(input))
  {
    if input.Str? && input.s != "" {
      var e := Collapsed(input.s);
      CollapsedShape(input.s);
      TrimTruncatedShape(e);
      assert SanitizeInput(input) == Trim(Truncated(e));
    }
  }

  lemma CollapsedShape(s: string)
    ensures NoAdjacentWhite(Collapsed(s)) && TagFree(Collapsed(s))
  {
    var a := RemoveAll(Element("script"), s);
    var b := RemoveAll(Element("iframe"), a);
    var c := RemoveAll(ScriptUri, b);
    var d := RemoveAll(Tag, c);
    RemoveTagsIsTagFree(c);
    CollapseKeepsTagFree(d);
    CollapseNoAdjacentWhite(d);
  }

  /** Truncating and trimming keep both shape properties. */
  lemma TrimTruncatedShape(e: string)
    requires NoAdjacentWhite(e) && TagFree(e)
    ensures NoAdjacentWhite(Trim(Truncated(e))) && TagFree(Trim(Truncated(e)))
  {
    TruncatedShape(e);
    TrimShape(Truncated(e));
  }

  lemma TruncatedShape(e: string)
    requires NoAdjacentWhite(e) && TagFree(e)
    ensures NoAdjacentWhite(Truncated(e)) && TagFree(Truncated(e))
  {
    if |e| > 200 {
      var f := e[..197] + "...";
      forall i | 0 <= i < |f| - 1 ensures !(IsWhite(f[i]) && IsWhite(f[i + 1])) {
        if i < 196 { assert f[i] == e[i] && f[i + 1] == e[i + 1]; }
      }
      forall i, j | 0 <= i < j < |f| && f[i] == '<' ensures f[j] != '>' {
        assert f[i] == e[i];
        if j < 197 { assert f[j] == e[j]; }
      }
    }
  }

  lemma TrimShape(f: string)
    requires NoAdjacentWhite(f) && TagFree(f)
    ensures NoAdjacentWhite(Trim(f)) && TagFree(Trim(f))
  {
    var a := TrimStart(f);
    TrimStartSpec(f);
    TrimEndSpec(a);
    SuffixKeepsShape(f, |f| - |a|);
    PrefixKeepsShape(a, |TrimEnd(a)|);
  }

  lemma SuffixKeepsShape(f: string, k: nat)
    requires NoAdjacentWhite(f) && TagFree(f) && k <= |f|
    ensures NoAdjacentWhite(f[k..]) && TagFree(f[k..])
  {
    var r := f[k..];
    forall i | 0 <= i < |r| - 1 ensures !(IsWhite(r[i]) && IsWhite(r[i + 1])) {
      assert r[i] == f[k + i] && r[i + 1] == f[k + i + 1];
    }
    forall i, j | 0 <= i < j < |r| && r[i] == '<' ensures r[j] != '>' {
      assert r[i] == f[k + i] && r[j] == f[k + j];
    }
  }

  lemma PrefixKeepsShape(f: string, n: nat)
    requires NoAdjacentWhite(f) && TagFree(f) && n <= |f|
    ensures NoAdjacentWhite(f[..n]) && TagFree(f[..n])
  {
    var r := f[..n];
    forall i | 0 <= i < |r| - 1 ensures !(IsWhite(r[i]) && IsWhite(r[i + 1])) {
      assert r[i] == f[i] && r[i + 1] == f[i + 1];
    }
    forall i, j | 0 <= i < j < |r| && r[i] == '<' ensures r[j] != '>' {
      assert r[i] == f[i] && r[j] == f[j];
    }
  }

  /** Cutting a long whitespace-collapsed text and trimming it leaves its first 197 characters, less a leading space, and `...`. */
  lemma TruncateTrimLong(e: string)
    requires |e| > 200 && NoAdjacentWhite(e)
    ensures var r := Trim(Truncated(e));
            && r == TrimStart(e[..197]) + "..."
            && (|r| == 200 || (|r| == 199 && IsWhite(e[0])))
  {
    var f := e[..197] + "...";
    var a := TrimStart(f);
    if IsWhite(e[0]) {
      assert !IsWhite(e[1]);
      assert f[1..] == e[1..197] + "...";
      assert TrimStart(f[1..]) == f[1..];
      assert a == f[1..];
      assert TrimStart(e[..197]) == e[1..197] by {
        assert e[..197][1..] == e[1..197];
        assert TrimStart(e[..197][1..]) == e[1..197];
      }
    } else {
      assert a == f;
      assert TrimStart(e[..197]) == e[..197];
    }
    assert TrimEnd(a) == a;
  }

  /**
   * When the text is longer than 200 characters after removals and
   * collapsing, the result is its first 197 characters, less at most one
   * leading space, followed by `...`.
   */
  lemma LongTextIsTruncated(s: string)
    requires s != "" && |Collapsed(s)| > 200
    ensures var r := SanitizeInput(Str(s));
            && r == TrimStart(Collapsed(s)[..197]) + "..."
            && 199 <= |r| <= 200
            && r[|r| - 3..] == "..."
  {
    CollapsedShape(s);
    TruncateTrimLong(Collapsed(s));
  }

  /** When the text after removals and collapsing is short and has no whitespace at its ends, it is the result. */
  lemma ShortTextIsKept(s: string)
    requires s != "" && |Collapsed(s)| <= 200 && IsTrimmed(Collapsed(s))
    ensures SanitizeInput(Str(s)) == Collapsed(s)
  {
    TrimTrimmed(Collapsed(s));
  }

  // ---------------------------------------------------------------------
  // Text the removals leave alone

  /** Text in which none of the four patterns can start: no `<`, no `j` or `J`. */
  predicate Plain(s: string) {
    forall i :: 0 <= i < |s| ==> s[i] != '<' && s[i] != 'j' && s[i] != 'J'
  }

  lemma NoMatchAtPlain(p: Pattern, s: string)
    requires s != [] && s[0] != '<' && s[0] != 'j' && s[0] != 'J'
    ensures MatchAt(p, s).None?
  {
    match p
    case Element(name) =>
      assert Opener(name)[0] == '<';
    case ScriptUri =>
      assert "javascript:"[0] == 'j';
    case Tag =>
  }

  /** A pattern that cannot start anywhere in `s` removes nothing. */
  lemma {:induction false} RemoveAllPlain(p: Pattern, s: string)
    requires Plain(s)
    ensures RemoveAll(p, s) == s
    decreases |s|
  {
    if s != [] {
      NoMatchAtPlain(p, s);
      assert Plain(s[1..]) by {
        forall i | 0 <= i < |s[1..]| ensures s[1..][i] == s[i + 1] { }
      }
      RemoveAllPlain(p, s[1..]);
    }
  }

  lemma {:induction false} CollapsePlain(s: string)
    requires forall i :: 0 <= i < |s| ==> !IsWhite(s[i])
    ensures CollapseWhite(s) == s
    decreases |s|
  {
    if s != [] {
      CollapsePlain(s[1..]);
    }
  }

  /** Text without `<`, `j`, `J` and whitespace passes the pipeline unchanged up to truncation. */
  lemma PlainTextCollapsed(s: string)
    requires Plain(s) && forall i :: 0 <= i < |s| ==> !IsWhite(s[i])
    ensures Collapsed(s) == s
  {
    RemoveAllPlain(Element("script"), s);
    RemoveAllPlain(Element("iframe"), s);
    RemoveAllPlain(ScriptUri, s);
    RemoveAllPlain(Tag, s);
    CollapsePlain(s);
  }

  /** Plain text over 200 characters, like `'a'.repeat(300)`, sanitises to exactly 200 characters ending in `...`. */
  lemma PlainLongText(s: string)
    requires |s| > 200
    requires Plain(s) && forall i :: 0 <= i < |s| ==> !IsWhite(s[i])
    ensures |SanitizeInput(Str(s))| == 200
    ensures SanitizeInput(Str(s)) == s[..197] + "..."
  {
    PlainTextCollapsed(s);
    LongTextIsTruncated(s);
    assert !IsWhite(s[..197][0]);
    assert TrimStart(s[..197]) == s[..197];
  }
}
