/**
 * `sanitizeInput` on particular inputs: the cleaning example of
 * src/__tests__/helpers.test.ts, and two inputs that show its limits: a
 * second pass can remove more (it is not idempotent), and an unclosed
 * `<script` passes through.
 *
 * The removal lemmas are stated over the positions of a string's parts, so
 * that the matchers are reasoned about on one string at a time; strings
 * built by concatenation are related to those positions separately.
 */
module SanitizerExamples {
  import opened Wrappers
  import opened Text
  import opened Sanitizer

  // ---------------------------------------------------------------------
  // One step of a global replace

  /** A character that begins no match is kept, and scanning goes on after it. */
  lemma RemoveAllKeep(p: Pattern, s: string)
    requires s != [] && MatchAt(p, s).None?
    ensures RemoveAll(p, s) == [s[0]] + RemoveAll(p, s[1..])
  {
  }

  /** A match is dropped, and scanning goes on after it. */
  lemma RemoveAllDrop(p: Pattern, s: string, n: nat)
    requires s != [] && MatchAt(p, s) == Some(n)
    ensures RemoveAll(p, s) == RemoveAll(p, s[n..])
  {
  }

  /** No match of `p` can begin anywhere in `u`. */
  predicate Inert(p: Pattern, u: string) {
    forall i :: 0 <= i < |u| ==> !CanStart(p, u[i])
  }

  /** A first character where `p` cannot begin is kept in front of the rest. */
  lemma RemoveAllKeepHead(p: Pattern, u: string, v: string)
    requires u != [] && !CanStart(p, u[0])
    ensures RemoveAll(p, u + v) == [u[0]] + RemoveAll(p, u[1..] + v)
  {
    var w := u + v;
    assert w[0] == u[0] && w[1..] == u[1..] + v;
    RemoveAllKeep(p, w);
  }

  /** A stretch where `p` cannot begin is kept as it is. */
  lemma {:induction false} RemoveAllInertPrefix(p: Pattern, u: string, v: string)
    requires Inert(p, u)
    ensures RemoveAll(p, u + v) == u + RemoveAll(p, v)
    decreases |u|
  {
    if u == [] {
      assert u + v == v;
    } else {
      RemoveAllKeepHead(p, u, v);
      InertTail(p, u);
      RemoveAllInertPrefix(p, u[1..], v);
      HeadTail(u, RemoveAll(p, v));
    }
  }

  lemma InertTail(p: Pattern, u: string)
    requires u != [] && Inert(p, u)
    ensures Inert(p, u[1..])
  {
    forall i | 0 <= i < |u[1..]| ensures u[1..][i] == u[i + 1] { }
  }

  lemma HeadTail(u: string, x: string)
    requires u != []
    ensures [u[0]] + (u[1..] + x) == u + x
  {
    assert u == [u[0]] + u[1..];
  }

  /** No match of `p` can begin at an index of `s` below `k`. */
  predicate InertBelow(p: Pattern, s: string, k: nat)
    requires k <= |s|
  {
    forall i :: 0 <= i < k ==> !CanStart(p, s[i])
  }

  /** A stretch of the first `k` characters where `p` cannot begin is kept as it is. */
  lemma RemoveAllInertBelow(p: Pattern, s: string, k: nat)
    requires k <= |s| && InertBelow(p, s, k)
    ensures RemoveAll(p, s) == s[..k] + RemoveAll(p, s[k..])
  {
    assert s == s[..k] + s[k..];
    assert Inert(p, s[..k]);
    RemoveAllInertPrefix(p, s[..k], s[k..]);
  }

  // ---------------------------------------------------------------------
  // An element written out in full

  /** A text with no `<` and no line terminator. */
  predicate Inner(body: string) {
    forall i :: 0 <= i < |body| ==> body[i] != '<' && !IsLineTerminator(body[i])
  }

  /**
   * `s` starts with the opener `o`, `>`, `b` characters without `<` or line
   * breaks, and the closer `c`.
   */
  predicate LaidOut(s: string, o: string, c: string, b: nat) {
    && OccursAt(s, 0, o) && |o| < |s| && s[|o|] == '>'
    && OccursAt(s, |o| + 1 + b, c)
    && forall m :: |o| + 1 <= m < |o| + 1 + b ==> s[m] != '<' && !IsLineTerminator(s[m])
  }

  lemma {:induction false} CloserSkipsInner(s: string, i: nat, j: nat, closer: string)
    requires i <= j <= |s| && closer != [] && closer[0] == '<'
    requires forall m :: i <= m < j ==> s[m] != '<' && !IsLineTerminator(s[m])
    ensures FindCloserOnLine(s, i, closer) == FindCloserOnLine(s, j, closer)
    decreases j - i
  {
    if i < j {
      assert LowerAscii(s[i + 0]) != closer[0];
      CloserSkipsInner(s, i + 1, j, closer);
    }
  }

  /** The delimited matcher takes exactly a laid-out element. */
  lemma DelimitedMatchesLaidOut(s: string, o: string, c: string, b: nat)
    requires Delimiter(c) && LaidOut(s, o, c, b)
    ensures DelimitedMatchAt(o, c, s) == Some(|o| + 1 + b + |c|)
  {
    var k := |o| + 1 + b;
    CloserSkipsInner(s, |o| + 1, k, c);
    assert FindOnLine(s, |o|, '>') == Some(|o|);
    assert FindCloserOnLine(s, k, c) == Some(k);
  }

  /** The length of an element of `name` whose body has `b` characters. */
  function ElementLength(name: string, b: nat): nat {
    |Opener(name)| + 1 + b + |Closer(name)|
  }

  /** An element laid out at the start of `s` is one match, and the global replace drops it whole. */
  lemma RemoveLaidOutElement(s: string, name: string, b: nat)
    requires LowerAsciiName(name) && LaidOut(s, Opener(name), Closer(name), b)
    ensures MatchAt(Element(name), s) == Some(ElementLength(name, b))
    ensures RemoveAll(Element(name), s) == RemoveAll(Element(name), s[ElementLength(name, b)..])
  {
    NameDelimiters(name);
    ElementIsDelimited(name, s);
    DelimitedMatchesLaidOut(s, Opener(name), Closer(name), b);
  }

  /** An element written out in full, with a body free of `<` and line breaks, is laid out. */
  lemma ElementIsLaidOut(name: string, body: string, rest: string)
    requires LowerAsciiName(name) && Inner(body)
    ensures LaidOut(Opener(name) + ">" + body + Closer(name) + rest, Opener(name), Closer(name), |body|)
  {
    NameDelimiters(name);
    var o, c := Opener(name), Closer(name);
    var s := o + ">" + body + c + rest;
    var k := |o| + 1 + |body|;
    forall i | 0 <= i < |o| ensures LowerAscii(s[0 + i]) == o[i] { assert s[i] == o[i]; }
    forall i | 0 <= i < |c| ensures LowerAscii(s[k + i]) == c[i] { assert s[k + i] == c[i]; }
    forall m | |o| + 1 <= m < k ensures s[m] != '<' && !IsLineTerminator(s[m]) {
      assert s[m] == body[m - |o| - 1];
    }
  }

  // ---------------------------------------------------------------------
  // Text in which no element of a given name opens

  /** Every `<` in `s` is followed by a character that, lower-cased, is not the first letter of `name`. */
  predicate NoOpenerOf(s: string, name: string)
    requires name != []
  {
    forall i :: 0 <= i < |s| - 1 && s[i] == '<' ==> LowerAscii(s[i + 1]) != name[0]
  }

  lemma NoOpenerAtFront(s: string, name: string)
    requires name != [] && NoOpenerOf(s, name)
    ensures !OccursAt(s, 0, Opener(name))
  {
    var o := Opener(name);
    assert o[0] == '<' && o[1] == name[0];
    if 2 <= |s| && LowerAscii(s[0 + 0]) == o[0] {
      assert s[0] == '<';
      assert LowerAscii(s[0 + 1]) != o[1];
    }
  }

  /** Where no opener of `name` occurs, removing the element pattern of `name` changes nothing. */
  lemma {:induction false} RemoveAllNoOpener(s: string, name: string)
    requires name != [] && NoOpenerOf(s, name)
    ensures RemoveAll(Element(name), s) == s
    decreases |s|
  {
    if s != [] {
      NoOpenerAtFront(s, name);
      ElementIsDelimited(name, s);
      RemoveAllKeep(Element(name), s);
      assert NoOpenerOf(s[1..], name) by {
        forall i | 0 <= i < |s[1..]| - 1 && s[1..][i] == '<' ensures LowerAscii(s[1..][i + 1]) != name[0] {
          assert s[1..][i] == s[i + 1] && s[1..][i + 1] == s[i + 2];
        }
      }
      RemoveAllNoOpener(s[1..], name);
    }
  }

  // ---------------------------------------------------------------------
  // Two elements around a text

  /** An element of `a` at the start of `t`, and no other opener of `a` after it: the removal leaves what follows it. */
  lemma FirstElementRemoved(t: string, a: string, bodyA: nat)
    requires LowerAsciiName(a) && a != [] && LaidOut(t, Opener(a), Closer(a), bodyA)
    requires NoOpenerOf(t[ElementLength(a, bodyA)..], a)
    ensures RemoveAll(Element(a), t) == t[ElementLength(a, bodyA)..]
  {
    RemoveLaidOutElement(t, a, bodyA);
    RemoveAllNoOpener(t[ElementLength(a, bodyA)..], a);
  }

  /** Text without `<`, then an element of `b`, then text without `<`: the removal leaves the two texts. */
  lemma TextThenElementRemoved(u: string, b: string, k: nat, bodyB: nat)
    requires LowerAsciiName(b) && k <= |u| && InertBelow(Element(b), u, k)
    requires LaidOut(u[k..], Opener(b), Closer(b), bodyB) && ElementLength(b, bodyB) <= |u| - k
    requires Inert(Element(b), u[k..][ElementLength(b, bodyB)..])
    ensures RemoveAll(Element(b), u) == u[..k] + u[k..][ElementLength(b, bodyB)..]
  {
    var rest := u[k..][ElementLength(b, bodyB)..];
    RemoveAllInertBelow(Element(b), u, k);
    RemoveLaidOutElement(u[k..], b, bodyB);
    RemoveAllInertPrefix(Element(b), rest, []);
    assert rest + [] == rest;
  }

  /** An element written out in full, followed by `rest`. */
  lemma ElementThen(name: string, body: string, rest: string)
    requires LowerAsciiName(name) && Inner(body)
    ensures var e := Opener(name) + ">" + body + Closer(name);
            && |e| == ElementLength(name, |body|)
            && LaidOut(e + rest, Opener(name), Closer(name), |body|)
            && (e + rest)[|e|..] == rest
  {
    ElementIsLaidOut(name, body, rest);
  }

  /** Text without `<`, followed by `rest`. */
  lemma TextThen(p: Pattern, text: string, rest: string)
    requires '<' !in text && p != ScriptUri
    ensures InertBelow(p, text + rest, |text|)
    ensures (text + rest)[..|text|] == text && (text + rest)[|text|..] == rest
  {
    forall i | 0 <= i < |text| ensures (text + rest)[i] == text[i] { }
  }

  lemma ScriptIframeNames()
    ensures LowerAsciiName("script") && LowerAsciiName("iframe")
    ensures Opener("script") + ">" == "<script>" && Closer("script") == "</script>"
    ensures Opener("iframe") + ">" == "<iframe>" && Closer("iframe") == "</iframe>"
  {
  }

  /** After the script element, every `<` is followed by `i` or `/`. */
  lemma TextThenIframeOpensNoScript(text: string, frame: string, tail: string)
    requires Inner(frame) && '<' !in text && '<' !in tail
    ensures NoOpenerOf(text + ("<iframe>" + frame + "</iframe>" + tail), "script")
  {
    var e2 := "<iframe>" + frame + "</iframe>";
    var u := text + (e2 + tail);
    forall i | 0 <= i < |u| - 1 ensures u[i] == '<' ==> LowerAscii(u[i + 1]) != 's' {
      if i < |text| {
        assert u[i] == text[i];
      } else if i < |text| + |e2| {
        var j := i - |text|;
        assert u[i] == e2[j];
        if 8 <= j < 8 + |frame| {
          assert e2[j] == frame[j - 8];
        } else if j + 1 < |e2| {
          assert u[i + 1] == e2[j + 1];
        }
      } else {
        assert u[i] == tail[i - |text| - |e2|];
      }
    }
  }

  lemma Regroup<T>(a: seq<T>, b: seq<T>, c: seq<T>, d: seq<T>, e: seq<T>, f: seq<T>, g: seq<T>, h: seq<T>)
    ensures a + b + c + d + e + f + g + h == (a + b + c) + (d + ((e + f + g) + h))
  {
  }

  /** Both element removals together leave the text before and the text after the iframe element. */
  lemma ScriptAndIframeRemoved(script: string, text: string, frame: string, tail: string)
    requires Inner(script) && Inner(frame) && '<' !in text && '<' !in tail
    ensures var t := "<script>" + script + "</script>" + text + "<iframe>" + frame + "</iframe>" + tail;
            RemoveAll(Element("iframe"), RemoveAll(Element("script"), t)) == text + tail
  {
    ScriptIframeNames();
    var e1 := "<script>" + script + "</script>";
    var e2 := "<iframe>" + frame + "</iframe>";
    var u := text + (e2 + tail);
    Regroup("<script>", script, "</script>", text, "<iframe>", frame, "</iframe>", tail);
    ElementThen("script", script, u);
    TextThenIframeOpensNoScript(text, frame, tail);
    FirstElementRemoved(e1 + u, "script", |script|);
    TextThen(Element("iframe"), text, e2 + tail);
    ElementThen("iframe", frame, tail);
    assert Inert(Element("iframe"), tail);
    TextThenElementRemoved(u, "iframe", |text|, |frame|);
  }

  // ---------------------------------------------------------------------
  // The cleaning example

  /** Text without `<`, `j`, `J` and whitespace, at most 200 characters long, is kept by the later steps. */
  lemma ShortPlainUnchangedAfterElements(text: string)
    requires text != "" && |text| <= 200
    requires Plain(text) && forall i :: 0 <= i < |text| ==> !IsWhite(text[i])
    ensures CollapseWhite(RemoveAll(Tag, RemoveAll(ScriptUri, text))) == text
    ensures Trim(Truncated(text)) == text
  {
    RemoveAllPlain(ScriptUri, text);
    RemoveAllPlain(Tag, text);
    CollapsePlain(text);
    assert IsTrimmed(text) by {
      assert !IsWhite(text[0]) && !IsWhite(text[|text| - 1]);
    }
    TrimTrimmed(text);
  }

  /**
   * A script element, plain text, an iframe element and more plain text:
   * both elements go with their contents and the two texts are what is left.
   */
  lemma ScriptTextIframe(script: string, text: string, frame: string, tail: string)
    requires Inner(script) && Inner(frame)
    requires text + tail != "" && |text + tail| <= 200
    requires Plain(text + tail) && forall i :: 0 <= i < |text + tail| ==> !IsWhite((text + tail)[i])
    ensures SanitizeInput(Str("<script>" + script + "</script>" + text + "<iframe>" + frame + "</iframe>" + tail)) == text + tail
  {
    forall i | 0 <= i < |text| ensures text[i] != '<' { assert text[i] == (text + tail)[i]; }
    forall i | 0 <= i < |tail| ensures tail[i] != '<' { assert tail[i] == (text + tail)[|text| + i]; }
    ScriptAndIframeRemoved(script, text, frame, tail);
    ShortPlainUnchangedAfterElements(text + tail);
  }

  /** The cleaning example of the test suite. */
  lemma RemovesScriptAndIframe()
    ensures SanitizeInput(Str("<script>" + "alert(\"xss\")" + "</script>" + "正常内容" + "<iframe>" + "test" + "</iframe>" + "")) == "正常内容"
  {
    ScriptTextIframe("alert(\"xss\")", "正常内容", "test", "");
  }

  /** Text both before and after the iframe element is kept: `<script>a</script>b<iframe>c</iframe>d` gives `bd`. */
  lemma TextAroundIframeKept()
    ensures SanitizeInput(Str("<script>" + "a" + "</script>" + "b" + "<iframe>" + "c" + "</iframe>" + "d")) == "bd"
  {
    ScriptTextIframe("a", "b", "c", "d");
  }

  // ---------------------------------------------------------------------
  // Inputs on which a second pass changes the result, or an unclosed opener survives

  lemma RemoveAllInert(p: Pattern, u: string)
    requires Inert(p, u)
    ensures RemoveAll(p, u) == u
  {
    RemoveAllInertPrefix(p, u, []);
    assert u + [] == u;
  }

  /** Removing a `<b>` tag between `a` and `c` joins them; nothing else in them is a tag. */
  lemma TagBetweenRemoved(a: string, c: string)
    requires '<' !in a && '<' !in c
    ensures RemoveAll(Tag, a + "<b>" + c) == a + c
  {
    assert Inert(Tag, a);
    assert a + "<b>" + c == a + ("<b>" + c);
    RemoveAllInertPrefix(Tag, a, "<b>" + c);
    var v := "<b>" + c;
    assert FindFirst(v, 1, '>') == Some(2);
    assert v[3..] == c;
    assert Inert(Tag, c);
    RemoveAllInert(Tag, c);
  }

  /** Nothing in `java<b>script:x;` opens an element whose name does not start with `b`. */
  lemma FirstPassKeepsElements(name: string)
    requires name != [] && name[0] != 'b'
    ensures RemoveAll(Element(name), "java" + "<b>" + "script:x;") == "java" + "<b>" + "script:x;"
  {
    var s := "java" + "<b>" + "script:x;";
    assert NoOpenerOf(s, name) by {
      forall i | 0 <= i < |s| - 1 ensures s[i] == '<' ==> LowerAscii(s[i + 1]) != name[0] {
        if i != 4 { assert s[i] != '<'; }
      }
    }
    RemoveAllNoOpener(s, name);
  }

  /** `java<b>script:x;` holds no `javascript:` URI: the tag splits it. */
  lemma FirstPassKeepsUri()
    ensures RemoveAll(ScriptUri, "java" + "<b>" + "script:x;") == "java" + "<b>" + "script:x;"
  {
    var u := "ava" + "<b>" + "script:x;";
    assert "java" + "<b>" + "script:x;" == ['j'] + u by {
      assert "java" == ['j'] + "ava";
      ConsAssoc('j', "ava", "<b>");
      ConsAssoc('j', "ava" + "<b>", "script:x;");
    }
    assert !OccursAt(['j'] + u, 0, "javascript:") by {
      assert u[3] == ("ava" + "<b>")[3] == '<';
      assert LowerAscii((['j'] + u)[0 + 4]) != "javascript:"[4];
    }
    UriInertPieces();
    InertConcat(ScriptUri, "ava", "<b>");
    InertConcat(ScriptUri, "ava" + "<b>", "script:x;");
    KeepFirstThenInert(ScriptUri, 'j', u);
  }

  lemma ConsAssoc(x: char, a: string, b: string)
    ensures [x] + a + b == [x] + (a + b)
  {
  }

  /** A first character that begins no match, followed by a stretch where none can begin, is kept whole. */
  lemma KeepFirstThenInert(p: Pattern, x: char, u: string)
    requires MatchAt(p, [x] + u).None? && Inert(p, u)
    ensures RemoveAll(p, [x] + u) == [x] + u
  {
    RemoveAllKeep(p, [x] + u);
    assert ([x] + u)[1..] == u;
    RemoveAllInert(p, u);
  }

  /** No piece after the leading `j` can begin a `javascript:` URI. */
  lemma UriInertPieces()
    ensures Inert(ScriptUri, "ava") && Inert(ScriptUri, "<b>") && Inert(ScriptUri, "script:x;")
  {
  }

  /** Where `p` begins in neither part, it begins nowhere in their concatenation. */
  lemma InertConcat(p: Pattern, u: string, v: string)
    requires Inert(p, u) && Inert(p, v)
    ensures Inert(p, u + v)
  {
    forall i | 0 <= i < |u + v| ensures !CanStart(p, (u + v)[i]) {
      if i < |u| {
        assert (u + v)[i] == u[i];
      } else {
        assert (u + v)[i] == v[i - |u|];
      }
    }
  }

  /** The first pass removes only the `<b>` tag, which joins `java` and `script:x;` into a URI. */
  lemma FirstPassCollapsed()
    ensures Collapsed("java" + "<b>" + "script:x;") == "java" + "script:x;"
  {
    var d := "java" + "script:x;";
    FirstPassKeepsElements("script");
    FirstPassKeepsElements("iframe");
    FirstPassKeepsUri();
    TagBetweenRemoved("java", "script:x;");
    UriCollapsed();
  }

  lemma UriCollapsed()
    ensures CollapseWhite("java" + "script:x;") == "java" + "script:x;"
  {
    var d := "java" + "script:x;";
    assert forall i :: 0 <= i < |d| ==> !IsWhite(d[i]);
    CollapsePlain(d);
  }

  lemma FirstPass()
    ensures SanitizeInput(Str("java" + "<b>" + "script:x;")) == "java" + "script:x;"
  {
    FirstPassCollapsed();
    TrimTrimmed("java" + "script:x;");
  }

  /** The URI removal takes all of `javascript:x;`. */
  lemma SecondPassUri()
    ensures RemoveAll(ScriptUri, "java" + "script:x;") == ""
  {
    var v := "java" + "script:x;";
    assert OccursAt(v, 0, "javascript:");
    assert FindFirst(v, 11, ';') == Some(12);
    RemoveAllDrop(ScriptUri, v, 13);
    assert v[13..] == [];
  }

  /** The second pass removes that URI and leaves nothing. */
  lemma SecondPass()
    ensures SanitizeInput(Str("java" + "script:x;")) == ""
  {
    var v := "java" + "script:x;";
    assert Inert(Element("script"), v) && Inert(Element("iframe"), v);
    RemoveAllInert(Element("script"), v);
    RemoveAllInert(Element("iframe"), v);
    SecondPassUri();
  }

  /**
   * `sanitizeInput` is not idempotent: a tag splitting `javascript:` hides
   * the URI from the URI removal, which runs before the tag removal.
   */
  lemma NotIdempotent()
    ensures var once := SanitizeInput(Str("java" + "<b>" + "script:x;"));
            once == "java" + "script:x;" && SanitizeInput(Str(once)) == "" != once
  {
    FirstPass();
    SecondPass();
  }

  /** With no `>` anywhere, no element and no tag matches, whatever the pattern's name. */
  lemma NoCloseNoMatch(p: Pattern, w: string)
    requires w != [] && w[0] == '<' && '>' !in w
    ensures MatchAt(p, w).None?
  {
    match p
    case Element(name) =>
      ElementIsDelimited(name, w);
      if OccursAt(w, 0, Opener(name)) {
        var j := FindOnLine(w, |Opener(name)|, '>');
        assert j.None?;
      }
    case ScriptUri =>
    case Tag =>
      var j := FindFirst(w, 1, '>');
      assert j.None?;
  }

  /** A `<` followed by plain text without `>`. */
  predicate UnclosedOpener(w: string) {
    w != [] && w[0] == '<' && '>' !in w && Plain(w[1..])
  }

  lemma UnclosedOpenerRemovesNothing(p: Pattern, w: string)
    requires UnclosedOpener(w)
    ensures RemoveAll(p, w) == w
  {
    NoCloseNoMatch(p, w);
    RemoveAllKeep(p, w);
    RemoveAllPlain(p, w[1..]);
  }

  /**
   * An unclosed opener without whitespace passes the whole pipeline: no
   * element closes and no tag ends, so no removal can take it.
   */
  lemma UnclosedOpenerKept(w: string)
    requires UnclosedOpener(w) && forall i :: 0 <= i < |w| ==> !IsWhite(w[i])
    ensures Collapsed(w) == w
  {
    UnclosedOpenerRemovesNothing(Element("script"), w);
    UnclosedOpenerRemovesNothing(Element("iframe"), w);
    UnclosedOpenerRemovesNothing(ScriptUri, w);
    UnclosedOpenerRemovesNothing(Tag, w);
    CollapsePlain(w);
  }

  /** Such an opener, at most 200 characters long, is the output of `sanitizeInput` as it stands. */
  lemma UnclosedOpenerSanitized(w: string)
    requires UnclosedOpener(w) && |w| <= 200 && forall i :: 0 <= i < |w| ==> !IsWhite(w[i])
    ensures SanitizeInput(Str(w)) == w
  {
    UnclosedOpenerKept(w);
    assert IsTrimmed(w);
    ShortTextIsKept(w);
  }

  lemma UnclosedScriptShape()
    ensures UnclosedOpener("<script")
    ensures forall i :: 0 <= i < |"<script"| ==> !IsWhite("<script"[i])
  {
    var w := "<script";
    assert w[1..] == "script";
  }

  /** An unclosed `<script` passes through: the output can contain `<script`. */
  lemma UnclosedScriptKept()
    ensures SanitizeInput(Str("<script")) == "<script"
    ensures Contains(SanitizeInput(Str("<script")), "<script")
  {
    var w := "<script";
    assert SanitizeInput(Str(w)) == w by {
      UnclosedScriptShape();
      UnclosedOpenerSanitized(w);
    }
    ContainsFrom(w, w, 0);
  }
}
