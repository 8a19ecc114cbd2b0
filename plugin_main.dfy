/**
 * The plugin entry points of `main.ts` that decide something:
 * `checkCompatibility`, which reads the host's API version with
 * `split('.')` and `Number`, and the part of `showMindMap` that picks the
 * trees to show (the roots' trees whose trimmed content is not empty).
 * Panels, notifications and the saved layout record are host calls and are
 * not modelled; `showMindMap`'s outcome is the notice it raises or the trees
 * and block count it hands to the renderer.
 */
module PluginMain {
  import opened Wrappers
  import opened Text
  import opened Seqs
  import opened Blocks
  import opened TreeBuilder

  // ---------------------------------------------------------------------
  // String.prototype.split with a one-character separator

  /** `s.split(sep)`: the pieces between the separators; at least one piece, and none holds the separator. */
  function Split(s: string, sep: char): (r: seq<string>)
    ensures |r| >= 1
    ensures forall i :: 0 <= i < |r| ==> sep !in r[i]
    decreases |s|
  {
    if s == [] then [""]
    else
      var rest := Split(s[1..], sep);
      if s[0] == sep then [""] + rest
      else
        assert forall i :: 1 <= i < |rest| ==> sep !in rest[i];
        [[s[0]] + rest[0]] + rest[1..]
  }

  /** `pieces.join(sep)` for a non-empty list of pieces. */
  function Join(pieces: seq<string>, sep: char): string
    requires |pieces| >= 1
    decreases |pieces|
  {
    if |pieces| == 1 then pieces[0] else pieces[0] + [sep] + Join(pieces[1..], sep)
  }

  /** Splitting loses nothing: joining the pieces with the separator gives the text back. */
  lemma {:induction false} SplitJoin(s: string, sep: char)
    ensures Join(Split(s, sep), sep) == s
    decreases |s|
  {
    if s != [] {
      var rest := Split(s[1..], sep);
      SplitJoin(s[1..], sep);
      if s[0] == sep {
        assert Split(s, sep)[1..] == rest;
      } else {
        var r := Split(s, sep);
        if |rest| == 1 {
          assert r == [[s[0]] + rest[0]];
        } else {
          assert r[1..] == rest[1..];
          assert Join(rest, sep) == rest[0] + [sep] + Join(rest[1..], sep);
        }
      }
      assert s == [s[0]] + s[1..];
    }
  }

  /** Text without the separator is one piece. */
  lemma {:induction false} SplitNone(a: string, sep: char)
    requires sep !in a
    ensures Split(a, sep) == [a]
    decreases |a|
  {
    if a != [] {
      assert sep !in a[1..] by {
        forall c | c in a[1..] ensures c in a { }
      }
      SplitNone(a[1..], sep);
      assert a == [a[0]] + a[1..];
    }
  }

  /** A piece without the separator, then the separator: that piece comes first and the rest is split on its own. */
  lemma {:induction false} SplitAt(a: string, sep: char, t: string)
    requires sep !in a
    ensures Split(a + [sep] + t, sep) == [a] + Split(t, sep)
    decreases |a|
  {
    var s := a + [sep] + t;
    if a == [] {
      assert s == [sep] + t;
      assert s[1..] == t;
    } else {
      assert sep !in a[1..] by {
        forall c | c in a[1..] ensures c in a { }
      }
      SplitAt(a[1..], sep, t);
      assert s[0] == a[0] && s[1..] == a[1..] + [sep] + t;
      assert a == [a[0]] + a[1..];
    }
  }

  /** The first piece of `a + t` is `a` when `a` has no separator and `t` is empty or starts with one. */
  lemma SplitHead(a: string, sep: char, t: string)
    requires sep !in a && (t == [] || t[0] == sep)
    ensures Split(a + t, sep)[0] == a
  {
    if t == [] {
      SplitNone(a, sep);
      assert a + t == a;
    } else {
      SplitAt(a, sep, t[1..]);
      assert a + t == a + [sep] + t[1..];
    }
  }

  // ---------------------------------------------------------------------
  // Number(string)

  /** A JavaScript number as far as the version check needs it: finite values here are integers. */
  datatype JsNumber = NaN | Finite(value: int) | Infinite(positive: bool)

  predicate AllDigits(d: string) {
    |d| > 0 && forall i :: 0 <= i < |d| ==> IsAsciiDigit(d[i])
  }

  /** The value of a string of decimal digits, leading zeros allowed. */
  function DigitsValue(d: string): (v: nat)
    requires forall i :: 0 <= i < |d| ==> IsAsciiDigit(d[i])
  {
    if d == [] then 0
    else
      var front, last := d[..|d| - 1], d[|d| - 1];
      assert forall i :: 0 <= i < |front| ==> front[i] == d[i];
      assert IsAsciiDigit(last);
      DigitsValue(front) * 10 + (last as int - '0' as int)
  }

  /** `Number(s)` on a string: surrounding whitespace ignored, empty text 0, an optionally signed `Infinity` or decimal integer, anything else NaN. */
  function ToNumber(s: string): (n: JsNumber)
    ensures AllWhite(s) ==> n == Finite(0)
  {
    var t := Trim(s);
    TrimEmpty(s);
    if t == "" then Finite(0)
    else
      var neg := t[0] == '-';
      var body := if t[0] == '-' || t[0] == '+' then t[1..] else t;
      if body == "Infinity" then Infinite(!neg)
      else if AllDigits(body) then
        var v: int := DigitsValue(body);
        Finite(if neg then -v else v)
      else NaN
  }

  /** `x < k` with `x` a number and `k` an integer: false for NaN. */
  predicate LessThan(x: JsNumber, k: int) {
    match x
    case NaN => false
    case Finite(v) => v < k
    case Infinite(positive) => !positive
  }

  /** The decimal digits of `n`, without leading zeros. */
  function ShowNat(n: nat): (d: string)
    ensures AllDigits(d)
  {
    var last := ['0' + (n % 10) as char];
    if n < 10 then last else ShowNat(n / 10) + last
  }

  /** Reading a number back: `DigitsValue` inverts `ShowNat`. */
  lemma {:induction false} DigitsValueShow(n: nat)
    ensures DigitsValue(ShowNat(n)) == n
    decreases n
  {
    var d := ShowNat(n);
    if n >= 10 {
      DigitsValueShow(n / 10);
      assert d[..|d| - 1] == ShowNat(n / 10);
    }
  }

  /** A decimal rendering of a whole number, whitespace around it or not, is read back as that number. */
  lemma ToNumberShow(pad1: string, n: nat, pad2: string)
    requires AllWhite(pad1) && AllWhite(pad2)
    ensures ToNumber(pad1 + ShowNat(n) + pad2) == Finite(n)
  {
    var d := ShowNat(n);
    TrimPadded(pad1, d, pad2);
    DigitsValueShow(n);
  }

  /** A string of digits is read as its decimal value. */
  lemma ToNumberDigits(d: string)
    requires AllDigits(d)
    ensures ToNumber(d) == Finite(DigitsValue(d))
  {
    TrimTrimmed(d);
    assert d != "Infinity";
  }

  // ---------------------------------------------------------------------
  // checkCompatibility

  /** What `checkCompatibility` reads of the host: whether `orca`, `orca.state` and `orca.commands` exist, and `orca.state.apiVersion`. */
  datatype Host = Host(hasOrca: bool, hasState: bool, hasCommands: bool, apiVersion: Option<string>)

  /** `const [major, minor] = apiVersion.split('.').map(Number)`: a missing second piece is `undefined`, which compares like NaN. */
  function Major(version: string): JsNumber {
    ToNumber(Split(version, '.')[0])
  }

  function Minor(version: string): JsNumber {
    var parts := Split(version, '.');
    if |parts| >= 2 then ToNumber(parts[1]) else NaN
  }

  /** `major < 1 || (major === 1 && minor < 5)`. */
  predicate TooOld(version: string) {
    LessThan(Major(version), 1) || (Major(version) == Finite(1) && LessThan(Minor(version), 5))
  }

  /**
   * `checkCompatibility()`: false when a host object is missing; otherwise
   * false only for a non-empty version that is too old.
   */
  function CheckCompatibility(h: Host): (ok: bool)
    ensures !(h.hasOrca && h.hasState && h.hasCommands) ==> !ok
    ensures h.hasOrca && h.hasState && h.hasCommands && (h.apiVersion.None? || h.apiVersion == Some("")) ==> ok
  {
    if !h.hasOrca || !h.hasState || !h.hasCommands then false
    else if h.apiVersion.Some? && h.apiVersion.value != "" then !TooOld(h.apiVersion.value)
    else true
  }

  function Present(version: string): Host {
    Host(true, true, true, Some(version))
  }

  /**
   * The version rule on a `major.minor` version, with or without further
   * `.`-separated parts: accepted exactly from 1.5 on.
   */
  lemma VersionRule(major: string, minor: string, rest: string)
    requires AllDigits(major) && AllDigits(minor) && (rest == [] || rest[0] == '.')
    ensures CheckCompatibility(Present(major + "." + minor + rest))
        <==> DigitsValue(major) > 1 || (DigitsValue(major) == 1 && DigitsValue(minor) >= 5)
  {
    var v := major + "." + minor + rest;
    assert '.' !in major && '.' !in minor by {
      assert !IsAsciiDigit('.');
    }
    assert v == major + ['.'] + (minor + rest);
    SplitAt(major, '.', minor + rest);
    SplitHead(minor, '.', rest);
    ToNumberDigits(major);
    ToNumberDigits(minor);
  }

  /** A version with no `.` at all has no minor part, so every major version from 1 on is accepted, `1` included. */
  lemma MajorOnly(major: string)
    requires AllDigits(major)
    ensures CheckCompatibility(Present(major)) <==> DigitsValue(major) >= 1
  {
    assert '.' !in major by {
      assert !IsAsciiDigit('.');
    }
    SplitNone(major, '.');
    ToNumberDigits(major);
  }

  /** A major part that is not a number is NaN, which no comparison rejects. */
  lemma NaNMajorAccepted(version: string)
    requires version != "" && Major(version) == NaN
    ensures CheckCompatibility(Present(version))
  {
  }

  /** The version the tests give the host, `1.5.0`, is accepted. */
  lemma CurrentVersionAccepted()
    ensures CheckCompatibility(Present("1.5.0"))
  {
    VersionRule("1", "5", ".0");
    assert "1" + "." + "5" + ".0" == "1.5.0";
  }

  /** `1.4.9` is one minor version short. */
  lemma OlderMinorRejected()
    ensures !CheckCompatibility(Present("1.4.9"))
  {
    VersionRule("1", "4", ".9");
    assert "1" + "." + "4" + ".9" == "1.4.9";
  }

  /** `0.9.0` has major version 0. */
  lemma OlderMajorRejected()
    ensures !CheckCompatibility(Present("0.9.0"))
  {
    VersionRule("0", "9", ".0");
    assert "0" + "." + "9" + ".0" == "0.9.0";
  }

  // ---------------------------------------------------------------------
  // showMindMap

  /** `rootBlockIds.map(rootId => buildTree(rootId, currentBlocks))`. */
  function RootTrees(blocks: BlockMap, roots: seq<string>): (r: seq<TreeNode>)
    ensures |r| == |roots| && forall i :: 0 <= i < |roots| ==> r[i] == BuildTreeAt(blocks, roots[i], 0)
  {
    Map(roots, id => BuildTreeAt(blocks, id, 0))
  }

  /** A tree whose content trims to nothing. */
  predicate IsBlankTree(t: TreeNode) {
    Trim(t.content) == ""
  }

  /**
   * `trees.filter(tree => tree.content.trim().length > 0)`. The clauses pin
   * the result down, repeated trees included: a subsequence of the trees with
   * text, as long as the trees less the blank ones.
   */
  function ValidTrees(trees: seq<TreeNode>): (r: seq<TreeNode>)
    ensures forall t :: t in r <==> t in trees && Trim(t.content) != ""
    ensures IsSubsequence(r, trees)
    ensures |r| == |trees| - |Filter(trees, IsBlankTree)|
  {
    forall t ensures HasText(t) <==> !IsBlankTree(t) {
      TrimEmpty(t.content);
    }
    FilterIsSubsequence(trees, HasText);
    FilterComplement(trees, HasText, IsBlankTree);
    Filter(trees, HasText)
  }

  /** What `showMindMap` ends in: one of its three warnings, or the trees and block count passed to the renderer. */
  datatype Outcome =
    | NoBlocks
    | NoRoots
    | NoValidTrees
    | Shown(trees: seq<TreeNode>, blockCount: nat)

  /** `showMindMap()` up to the panel it opens; `None` is a falsy `orca.state.blocks`. */
  function ShowMindMap(state: Option<Graph>): (r: Outcome)
    requires state.Some? ==> state.value.Valid()
    ensures r.NoBlocks? <==> state.None? || state.value.blocks == map[]
    ensures r.NoRoots? <==> state.Some? && state.value.blocks != map[] && FindRootBlocks(state.value) == []
    ensures r.Shown? ==> r.trees != [] && r.blockCount == |state.value.blocks|
  {
    if state.None? || |state.value.keys| == 0 then NoBlocks
    else
      var g := state.value;
      KeysCountBlocks(g);
      var roots := FindRootBlocks(g);
      if |roots| == 0 then NoRoots
      else
        var valid := ValidTrees(RootTrees(g.blocks, roots));
        if |valid| == 0 then NoValidTrees else Shown(valid, |g.keys|)
  }

  /**
   * The tree of a root block has text exactly when the block's cleaned text
   * is not blank: a root is never a table block, so it is emptied only for a
   * blank cleaned text.
   */
  lemma RootTreeHasText(g: Graph, k: string)
    requires g.Valid() && k in FindRootBlocks(g)
    ensures HasText(BuildTreeAt(g.blocks, k, 0)) <==> !AllWhite(Content(g.blocks[k]))
  {
    if IsNoise(g.blocks[k]) {
      NoiseBlock(g.blocks, k, 0);
    } else {
      ContentBlock(g.blocks, k, 0);
    }
  }

  /**
   * The trees shown are, in root order, the trees of exactly those root
   * blocks whose cleaned text is not blank.
   */
  lemma ShownTrees(g: Graph)
    requires g.Valid()
    ensures var r := ShowMindMap(Some(g));
            r.Shown? ==>
              && IsSubsequence(r.trees, RootTrees(g.blocks, FindRootBlocks(g)))
              && (forall t :: t in r.trees ==> Trim(t.content) != "")
              && forall k :: k in FindRootBlocks(g) && !AllWhite(Content(g.blocks[k])) ==> BuildTreeAt(g.blocks, k, 0) in r.trees
  {
    forall k | k in FindRootBlocks(g) && !AllWhite(Content(g.blocks[k]))
      ensures BuildTreeAt(g.blocks, k, 0) in ValidTrees(RootTrees(g.blocks, FindRootBlocks(g)))
    {
      RootShown(g, k);
    }
  }

  /** The tree of a root block whose cleaned text is not blank passes the filter. */
  lemma RootShown(g: Graph, k: string)
    requires g.Valid() && k in FindRootBlocks(g) && !AllWhite(Content(g.blocks[k]))
    ensures BuildTreeAt(g.blocks, k, 0) in ValidTrees(RootTrees(g.blocks, FindRootBlocks(g)))
  {
    var roots := FindRootBlocks(g);
    RootTreeHasText(g, k);
    TrimEmpty(BuildTreeAt(g.blocks, k, 0).content);
    var i :| 0 <= i < |roots| && roots[i] == k;
    assert RootTrees(g.blocks, roots)[i] == BuildTreeAt(g.blocks, k, 0);
  }

  /** With roots in the map, `showMindMap` ends with the trees that pass the filter, or the warning when none does. */
  lemma ShowWithRoots(g: Graph)
    requires g.Valid() && FindRootBlocks(g) != []
    ensures var valid := ValidTrees(RootTrees(g.blocks, FindRootBlocks(g)));
            ShowMindMap(Some(g)) == if valid == [] then NoValidTrees else Shown(valid, |g.blocks|)
  {
    var roots := FindRootBlocks(g);
    assert g.keys != [] by {
      assert roots[0] in g.blocks;
    }
    KeysCountBlocks(g);
  }

  /** A root's tree is shown exactly when the root's cleaned text is not blank. */
  lemma RootShownIff(g: Graph, k: string)
    requires g.Valid() && k in FindRootBlocks(g)
    ensures BuildTreeAt(g.blocks, k, 0) in ValidTrees(RootTrees(g.blocks, FindRootBlocks(g)))
        <==> !AllWhite(Content(g.blocks[k]))
  {
    RootTreeHasText(g, k);
    TrimEmpty(BuildTreeAt(g.blocks, k, 0).content);
    if !AllWhite(Content(g.blocks[k])) {
      RootShown(g, k);
    }
  }

  /** With roots in the map, nothing is shown exactly when every root's cleaned text is blank. */
  lemma NoValidTreesWhenAllBlank(g: Graph)
    requires g.Valid() && FindRootBlocks(g) != []
    ensures ShowMindMap(Some(g)) == NoValidTrees
        <==> forall k :: k in FindRootBlocks(g) ==> AllWhite(Content(g.blocks[k]))
  {
    var roots := FindRootBlocks(g);
    var trees := RootTrees(g.blocks, roots);
    var valid := ValidTrees(trees);
    ShowWithRoots(g);
    if valid == [] {
      forall k | k in roots ensures AllWhite(Content(g.blocks[k])) {
        RootShownIff(g, k);
      }
    } else {
      assert valid[0] in trees;
      var i :| 0 <= i < |trees| && trees[i] == valid[0];
      RootShownIff(g, roots[i]);
      assert !AllWhite(Content(g.blocks[roots[i]]));
    }
  }
}
