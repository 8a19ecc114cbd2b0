/**
 * `isTableRelatedBlock`: the test that marks the text of a table cell, or of
 * a table heading, as noise to be left out of the outline.
 *
 * The table-cell regex `/^\d+\.\s*[一-鿿]+$/` is modelled twice: as
 * the scan a backtracking matcher ends up doing (each run is maximal, since
 * the character after it cannot belong to it), and as a plain description of
 * the strings it accepts; `CellScanIsCellText` shows the two agree.
 */
module NoiseFilter {
  import opened Text

  /** A character of the CJK Unified Ideographs block, U+4E00 to U+9FFF. */
  predicate IsCjk(c: char) {
    '一' <= c <= '鿿'
  }

  /** The index where the run of ASCII digits starting at `i` ends. */
  function DigitRun(s: string, i: nat): (r: nat)
    requires i <= |s|
    ensures i <= r <= |s|
    ensures forall m :: i <= m < r ==> IsAsciiDigit(s[m])
    ensures r == |s| || !IsAsciiDigit(s[r])
    decreases |s| - i
  {
    if i < |s| && IsAsciiDigit(s[i]) then DigitRun(s, i + 1) else i
  }

  /** The index where the run of `\s` characters starting at `i` ends. */
  function WhiteRun(s: string, i: nat): (r: nat)
    requires i <= |s|
    ensures i <= r <= |s|
    ensures forall m :: i <= m < r ==> IsWhite(s[m])
    ensures r == |s| || !IsWhite(s[r])
    decreases |s| - i
  {
    if i < |s| && IsWhite(s[i]) then WhiteRun(s, i + 1) else i
  }

  /** The index where the run of CJK ideographs starting at `i` ends. */
  function CjkRun(s: string, i: nat): (r: nat)
    requires i <= |s|
    ensures i <= r <= |s|
    ensures forall m :: i <= m < r ==> IsCjk(s[m])
    ensures r == |s| || !IsCjk(s[r])
    decreases |s| - i
  {
    if i < |s| && IsCjk(s[i]) then CjkRun(s, i + 1) else i
  }

  /** `/^\d+\.\s*[一-鿿]+$/.test(s)`, as a scan. */
  function CellScan(s: string): bool {
    var d := DigitRun(s, 0);
    0 < d < |s| && s[d] == '.' &&
    var w := WhiteRun(s, d + 1);
    w < |s| && CjkRun(s, w) == |s|
  }

  /**
   * `s` splits as digits `s[..d]` (at least one), a `.` at `d`, whitespace
   * `s[d + 1..w]` and ideographs `s[w..]` (at least one).
   */
  predicate CellSplit(s: string, d: nat, w: nat) {
    && 0 < d && d + 1 <= w < |s|
    && (forall m :: 0 <= m < d ==> IsAsciiDigit(s[m]))
    && s[d] == '.'
    && (forall m :: d + 1 <= m < w ==> IsWhite(s[m]))
    && (forall m :: w <= m < |s| ==> IsCjk(s[m]))
  }

  /** The strings the table-cell regex accepts. */
  ghost predicate IsCellText(s: string) {
    exists d: nat, w: nat :: CellSplit(s, d, w)
  }

  /** The scan accepts exactly the strings of the form the regex describes. */
  lemma CellScanIsCellText(s: string)
    ensures CellScan(s) <==> IsCellText(s)
  {
    if CellScan(s) {
      var d := DigitRun(s, 0);
      var w := WhiteRun(s, d + 1);
      assert CellSplit(s, d, w);
    }
    if IsCellText(s) {
      var d: nat, w: nat :| CellSplit(s, d, w);
      assert !IsAsciiDigit(s[d]);
      assert DigitRun(s, 0) == d;
      assert !IsWhite(s[w]);
      assert WhiteRun(s, d + 1) == w;
    }
  }

  /** `['阶段', '功能与特点'].some(k => text.includes(k))`. */
  predicate HasTableKeyword(text: string) {
    Contains(text, "阶段") || Contains(text, "功能与特点")
  }

  /** `isTableRelatedBlock(block)` for a block whose text is `text` (`""` when absent). */
  function IsTableRelated(text: string): (r: bool)
    ensures r <==> text != "" && (HasTableKeyword(text) || IsCellText(Trim(text)))
  {
    CellScanIsCellText(Trim(text));
    if text == "" then false
    else HasTableKeyword(text) || CellScan(Trim(text))
  }

  /** A block without text is never table-related. */
  lemma EmptyTextNotTableRelated()
    ensures !IsTableRelated("")
  {
  }

  /** A heading that mentions a stage is table-related wherever the word occurs. */
  lemma KeywordAnywhere(before: string, after: string)
    ensures IsTableRelated(before + "阶段" + after)
  {
    var s := before + "阶段" + after;
    assert s[|before|..][..2] == "阶段";
    ContainsFrom(s, "阶段", |before|);
  }

  /** The cell pattern needs at least one digit, the dot and at least one ideograph. */
  lemma CellTextShape(s: string)
    requires IsCellText(s)
    ensures |s| >= 3 && IsAsciiDigit(s[0]) && IsCjk(s[|s| - 1]) && !IsWhite(s[0]) && !IsWhite(s[|s| - 1])
  {
    var d: nat, w: nat :| CellSplit(s, d, w);
  }

  /** Padding around a cell text does not change the verdict: the regex is applied to the trimmed text. */
  lemma PaddedCellText(pad1: string, s: string, pad2: string)
    requires IsCellText(s) && AllWhite(pad1) && AllWhite(pad2)
    ensures IsTableRelated(pad1 + s + pad2)
  {
    CellTextShape(s);
    TrimPadded(pad1, s, pad2);
  }
}
