/**
 * The Markdown pieces the serialisers share: an ATX heading marker whose
 * depth is capped at six, the shape of a `${heading}${content}\n\n` line,
 * the fact that trimming a concatenation of such lines keeps the first
 * heading, and the fallback text of a block without text.
 */
module Markdown {
  import opened Text
  import opened Seqs

  /** `'#'.repeat(Math.min(level, 6)) + ' '`. */
  function Heading(level: nat): (r: string)
    ensures |r| == Min(level, 6) + 1
  {
    Repeat('#', Min(level, 6)) + " "
  }

  /** The marker is `#`s up to its last character, which is a space; from level 1 on it starts with `#`. */
  lemma HeadingShape(level: nat)
    ensures var r := Heading(level);
            && (forall i :: 0 <= i < |r| - 1 ==> r[i] == '#') && r[|r| - 1] == ' '
            && (level > 0 ==> r[0] == '#')
  {
    RepeatChars('#', Min(level, 6));
  }

  /** The pieces of `${indent} ${content}\n\n`, for a heading of `n` and non-empty content. */
  lemma HeadedLine(n: nat, c: string)
    requires n > 0 && c != []
    ensures var hd := Heading(n);
            var line := hd + c + "\n\n";
            && |line| == |hd| + |c| + 2
            && line[..|hd|] == hd && line[|hd|..|line| - 2] == c && line[|line| - 2..] == "\n\n"
            && line[0] == '#' && line[|hd|] == c[0]
  {
    var hd := Heading(n);
    var line := hd + c + "\n\n";
    HeadingShape(n);
    assert line[..|hd|] == hd;
    assert line[|hd|..|line| - 2] == c;
  }

  /**
   * `u` starts with `hd`, and neither its first character nor the one right
   * after `hd` is whitespace.
   */
  predicate LeadsWith(u: string, hd: string) {
    |hd| < |u| && u[..|hd|] == hd && !IsWhite(u[0]) && !IsWhite(u[|hd|])
  }

  /**
   * When the pieces before `xs[j]` concatenate to nothing and the piece of
   * `xs[j]` leads with `hd`, the trimmed concatenation starts with `hd`.
   */
  lemma TrimmedConcatHead<T>(xs: seq<T>, f: T -> string, j: nat, hd: string)
    requires j < |xs| && ConcatMap(xs[..j], f) == [] && LeadsWith(f(xs[j]), hd)
    ensures StartsWith(Trim(ConcatMap(xs, f)), hd)
  {
    ConcatMapFromFirst(xs, f, j);
    TrimKeepsHead(f(xs[j]), ConcatMap(xs[j + 1..], f), hd);
  }


  /** `text || fallback`: an absent or empty text is replaced. */
  function OrDefault(text: string, fallback: string): string {
    if text == "" then fallback else text
  }

  /** One entry of the page structure read from the editor: its text and its `data-indent`. */
  datatype PageBlock = PageBlock(content: string, level: nat)
}
