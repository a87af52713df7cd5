/** `App.processBody`: the markup of a post body is produced in three
    global replacements, in this order:
      1. a run of whitespace right before `<div class="fake-trans">` is
         removed (so a translation block does not open with blank lines);
      2. every `\n` becomes `<br>`;
      3. every reply reference `>>N` or `&gt;&gt;N` becomes an anchor span
         that scrolls to post N. */
module Body {
  import opened Text
  import opened Replace

  /** The opening tag of a translation block. */
  const FakeTransOpen: string := "<div class=\"fake-trans\">"

  /** Length of the maximal run of `\s` characters at the start of `t`. */
  function SpaceRun(t: string): (n: nat)
    ensures n <= |t| && AllSpace(t[..n]) && (n < |t| ==> !IsSpace(t[n]))
    decreases |t|
  {
    if t != [] && IsSpace(t[0]) then
      var n := 1 + SpaceRun(t[1..]);
      assert t[..n] == [t[0]] + t[1..][..n - 1];
      n
    else 0
  }

  /** Length of the maximal run of `\d` characters at the start of `t`. */
  function DigitRun(t: string): (n: nat)
    ensures n <= |t| && AllDigits(t[..n]) && (n < |t| ==> !IsDigit(t[n]))
    decreases |t|
  {
    if t != [] && IsDigit(t[0]) then
      var n := 1 + DigitRun(t[1..]);
      assert t[..n] == [t[0]] + t[1..][..n - 1];
      n
    else 0
  }

  // ---------------------------------------------------------------------
  // Stage 1: /[\n\r\s]+(<div class="fake-trans">)/g  ->  '$1'

  /** Match length of stage 1 at the start of `t`. The class `[\n\r\s]` is
      `\s`; the greedy `+` can only succeed on the whole run of whitespace,
      since the tag that must follow it does not start with whitespace. */
  function SpaceBeforeDivLen(t: string): nat {
    var n := SpaceRun(t);
    if 0 < n && StartsWith(t[n..], FakeTransOpen) then n + |FakeTransOpen| else 0
  }

  /** `'$1'`: the captured group, which is always the tag itself. */
  function KeepDiv(m: string): string {
    FakeTransOpen
  }

  function StripSpaceBeforeDiv(s: string): string {
    ReplaceAll(s, SpaceBeforeDivLen, KeepDiv)
  }

  // ---------------------------------------------------------------------
  // Stage 2: /\n/g  ->  '<br>'

  function NewlineLen(t: string): nat {
    if t != [] && t[0] == '\n' then 1 else 0
  }

  function Br(m: string): string {
    "<br>"
  }

  function NewlinesToBr(s: string): string {
    ReplaceAll(s, NewlineLen, Br)
  }

  // ---------------------------------------------------------------------
  // Stage 3: /(&gt;&gt;|>>)(\d+)/g  ->  anchor span

  /** Length of the reference marker at the start of `t`: the first
      alternative `&gt;&gt;` is tried before `>>`. */
  function MarkerLen(t: string): (n: nat)
    ensures n <= |t|
  {
    if StartsWith(t, "&gt;&gt;") then 8 else if StartsWith(t, ">>") then 2 else 0
  }

  /** Match length of stage 3 at the start of `t`: a marker and the whole
      run of digits after it. */
  function AnchorRefLen(t: string): nat {
    var k := MarkerLen(t);
    if 0 < k && 0 < DigitRun(t[k..]) then k + DigitRun(t[k..]) else 0
  }

  /** The span's opening tag, built from its class attribute and the start
      of its click handler; kept in two parts because the verifier reasons
      about the characters of short literals much more readily. */
  const SpanClass: string := "<span class=\"anchor-link\""
  const ScrollCall: string := " onclick=\"app.scrollToPost("
  const SpanOpen: string := SpanClass + ScrollCall
  const SpanMiddle: string := ")\">&gt;&gt;"
  const SpanClose: string := "</span>"

  /** The span that the callback builds for post number text `n`. */
  function AnchorSpan(n: string): string {
    SpanOpen + n + SpanMiddle + n + SpanClose
  }

  /** The callback, given the whole match: the span for its digits. */
  function LinkReplacement(m: string): string {
    AnchorSpan(m[MarkerLen(m)..])
  }

  function LinkAnchors(s: string): string {
    ReplaceAll(s, AnchorRefLen, LinkReplacement)
  }

  // ---------------------------------------------------------------------
  // The whole transformation

  /** Stages 2 and 3, in the source's order. */
  function Render(t: string): string {
    LinkAnchors(NewlinesToBr(t))
  }

  function ProcessBody(text: string): string {
    if text == "" then "" else Render(StripSpaceBeforeDiv(text))
  }

  /** No whitespace character stands right before a translation tag. */
  predicate NoSpaceBeforeDiv(s: string) {
    forall k :: 0 <= k < |s| && IsSpace(s[k]) ==> !StartsWith(s[k + 1..], FakeTransOpen)
  }

  /** The text holds no reply reference. */
  predicate AnchorFree(s: string) {
    MatchFree(s, AnchorRefLen)
  }

  // ---------------------------------------------------------------------
  // Stage 1 properties

  lemma KeepDivOpensTag()
    ensures forall t :: Matches(t, SpaceBeforeDivLen) ==>
      |KeepDiv(t[..SpaceBeforeDivLen(t)])| > 0 && KeepDiv(t[..SpaceBeforeDivLen(t)])[0] == '<'
  {
  }

  /** If the stripped text starts with the tag right after a whitespace
      character, that whitespace character already stood before a tag run. */
  lemma CopiedSpaceBeforeDiv(s: string)
    requires s != [] && IsSpace(s[0])
    ensures StartsWith(StripSpaceBeforeDiv(s[1..]), FakeTransOpen) ==> Matches(s, SpaceBeforeDivLen)
  {
    var t := s[1..];
    var out := StripSpaceBeforeDiv(t);
    if StartsWith(out, FakeTransOpen) {
      if Matches(t, SpaceBeforeDivLen) {
        var n := SpaceRun(t);
        assert SpaceRun(s) == 1 + n;
        assert s[1 + n..] == t[n..];
      } else {
        TagCopiedAtStart(t);
        assert t[0] == FakeTransOpen[0] == '<';
        assert s[1..] == t;
      }
    }
  }

  /** A tag at the start of the stripped text that was not produced by a
      replacement there was in the input. */
  lemma TagCopiedAtStart(t: string)
    requires !Matches(t, SpaceBeforeDivLen) && StartsWith(StripSpaceBeforeDiv(t), FakeTransOpen)
    ensures StartsWith(t, FakeTransOpen)
  {
    TagOpensOnce();
    KeepDivOpensTag();
    ReplaceAllCopiedStart(t, FakeTransOpen, SpaceBeforeDivLen, KeepDiv);
  }

  /** The tag holds `<` only as its first character. */
  lemma TagOpensOnce()
    ensures |FakeTransOpen| == 24 && FakeTransOpen[0] == '<' && '<' !in FakeTransOpen[1..]
  {
  }

  /** Inside the tag the only whitespace is the blank after `div`, which is
      not followed by another tag. */
  lemma TagHasNoSpaceBeforeTag(out: string, j: nat)
    requires StartsWith(out, FakeTransOpen) && j < |FakeTransOpen| && IsSpace(out[j])
    ensures !StartsWith(out[j + 1..], FakeTransOpen)
  {
    assert out[j] == FakeTransOpen[j];
    assert j == 4;
    assert out[j + 1..][0] == out[5] == FakeTransOpen[5] == 'c';
  }

  /** Stage 1 leaves no whitespace right before a translation tag. */
  lemma {:induction false} StripLeavesNoSpaceBeforeDiv(s: string)
    ensures NoSpaceBeforeDiv(StripSpaceBeforeDiv(s))
    decreases |s|
  {
    if s != [] {
      var out := StripSpaceBeforeDiv(s);
      var d := |FakeTransOpen|;
      if Matches(s, SpaceBeforeDivLen) {
        var k := SpaceBeforeDivLen(s);
        var rest := StripSpaceBeforeDiv(s[k..]);
        StripLeavesNoSpaceBeforeDiv(s[k..]);
        assert out == FakeTransOpen + rest;
        forall j | 0 <= j < |out| && IsSpace(out[j]) ensures !StartsWith(out[j + 1..], FakeTransOpen) {
          if j < d {
            TagHasNoSpaceBeforeTag(out, j);
          } else {
            assert out[j] == rest[j - d];
            assert out[j + 1..] == rest[j - d + 1..];
          }
        }
      } else {
        var rest := StripSpaceBeforeDiv(s[1..]);
        StripLeavesNoSpaceBeforeDiv(s[1..]);
        assert out == [s[0]] + rest;
        if IsSpace(s[0]) {
          CopiedSpaceBeforeDiv(s);
        }
        forall j | 0 <= j < |out| && IsSpace(out[j]) ensures !StartsWith(out[j + 1..], FakeTransOpen) {
          if j > 0 {
            assert out[j] == rest[j - 1];
            assert out[j + 1..] == rest[j..];
          } else {
            assert out[1..] == rest;
          }
        }
      }
    }
  }

  /** Stage 1 changes a text exactly when some whitespace stands right before
      a translation tag. */
  lemma StripUnchangedIff(s: string)
    ensures StripSpaceBeforeDiv(s) == s <==> NoSpaceBeforeDiv(s)
  {
    StripLeavesNoSpaceBeforeDiv(s);
    if NoSpaceBeforeDiv(s) {
      forall i | 0 <= i < |s| ensures !Matches(s[i..], SpaceBeforeDivLen) {
        NoStripMatchAt(s, i);
      }
      ReplaceAllMatchFree(s, SpaceBeforeDivLen, KeepDiv);
    }
  }

  /** Where no whitespace stands before a tag, stage 1 matches nowhere. */
  lemma NoStripMatchAt(s: string, i: nat)
    requires NoSpaceBeforeDiv(s) && i < |s|
    ensures !Matches(s[i..], SpaceBeforeDivLen)
  {
    var n := SpaceRun(s[i..]);
    if 0 < n {
      var k := i + n - 1;
      assert s[k] == s[i..][..n][n - 1];
      assert s[k + 1..] == s[i..][n..];
    }
  }

  /** The characters that are not whitespace, in order. */
  function Visible(s: string): (r: string)
    ensures |r| <= |s|
  {
    if s == [] then []
    else if IsSpace(s[0]) then Visible(s[1..])
    else [s[0]] + Visible(s[1..])
  }

  lemma {:induction false} VisibleAppend(a: string, b: string)
    ensures Visible(a + b) == Visible(a) + Visible(b)
    decreases |a|
  {
    if a != [] {
      assert (a + b)[1..] == a[1..] + b;
      VisibleAppend(a[1..], b);
    } else {
      assert a + b == b;
    }
  }

  lemma {:induction false} VisibleOfSpace(w: string)
    requires AllSpace(w)
    ensures Visible(w) == []
    decreases |w|
  {
    if w != [] {
      VisibleOfSpace(w[1..]);
    }
  }

  /** Dropping a run of whitespace before `tag` does not change the visible
      characters. */
  lemma VisibleDropsSpace(w: string, tag: string, rest: string, rest': string)
    requires AllSpace(w) && Visible(rest) == Visible(rest')
    ensures Visible(w + tag + rest) == Visible(tag + rest')
  {
    VisibleAppend(w + tag, rest);
    VisibleAppend(w, tag);
    VisibleOfSpace(w);
    VisibleAppend(tag, rest');
  }

  /** Stage 1 removes whitespace only: the other characters all remain, in
      their order. */
  lemma {:induction false} StripRemovesOnlySpace(s: string)
    ensures Visible(StripSpaceBeforeDiv(s)) == Visible(s)
    decreases |s|
  {
    if s != [] {
      if Matches(s, SpaceBeforeDivLen) {
        var n := SpaceRun(s);
        var k := n + |FakeTransOpen|;
        assert s == s[..n] + FakeTransOpen + s[k..];
        StripRemovesOnlySpace(s[k..]);
        VisibleDropsSpace(s[..n], FakeTransOpen, s[k..], StripSpaceBeforeDiv(s[k..]));
      } else {
        StripRemovesOnlySpace(s[1..]);
        VisibleAppend([s[0]], StripSpaceBeforeDiv(s[1..]));
        assert s == [s[0]] + s[1..];
        VisibleAppend([s[0]], s[1..]);
      }
    }
  }

  /** The only whitespace in the tag is the blank after `div`, and the
      character after that blank is neither whitespace nor `<`. */
  lemma TagSpaceAt(j: nat)
    requires j < |FakeTransOpen| && IsSpace(FakeTransOpen[j])
    ensures j == 4 && 5 < |FakeTransOpen| && !IsSpace(FakeTransOpen[5]) && FakeTransOpen[5] != '<'
  {
  }

  lemma {:induction false} SpaceRunStops(u: string, x: string)
    requires SpaceRun(u) < |u|
    ensures SpaceRun(u + x) == SpaceRun(u)
    decreases |u|
  {
    assert (u + x)[0] == u[0];
    if IsSpace(u[0]) {
      assert (u + x)[1..] == u[1..] + x;
      SpaceRunStops(u[1..], x);
    }
  }

  lemma {:induction false} SpaceRunOfSpace(w: string, r: string)
    requires AllSpace(w) && (r == [] || !IsSpace(r[0]))
    ensures SpaceRun(w + r) == |w|
    decreases |w|
  {
    if w != [] {
      assert (w + r)[1..] == w[1..] + r;
      SpaceRunOfSpace(w[1..], r);
    } else {
      assert w + r == r;
    }
  }

  /** A tag cannot start in `u` and run on into a text `x` that starts with
      two whitespace characters, or with whitespace and `<`. */
  lemma NoTagAcross(u: string, x: string, n: nat)
    requires n < |u| && |u| - n < |FakeTransOpen|
    requires |x| >= 2 && IsSpace(x[0]) && (IsSpace(x[1]) || x[1] == '<')
    ensures !StartsWith((u + x)[n..], FakeTransOpen)
  {
    var v := (u + x)[n..];
    var m := |u| - n;
    if |v| >= |FakeTransOpen| {
      assert v[m] == x[0];
      if IsSpace(FakeTransOpen[m]) {
        TagSpaceAt(m);
        assert v[5] == x[1];
        assert v[..|FakeTransOpen|][5] != FakeTransOpen[5];
      } else {
        assert v[..|FakeTransOpen|][m] != FakeTransOpen[m];
      }
    }
  }

  /** What stage 1 does at the start of a non-empty `u` that ends in a
      non-whitespace character is not changed by appending such an `x`. */
  lemma StripStable(u: string, x: string)
    requires u != [] && !IsSpace(u[|u| - 1])
    requires |x| >= 2 && IsSpace(x[0]) && (IsSpace(x[1]) || x[1] == '<')
    ensures SpaceBeforeDivLen(u + x) == SpaceBeforeDivLen(u) <= |u|
  {
    var n := SpaceRun(u);
    assert n < |u|;
    SpaceRunStops(u, x);
    var ux := u + x;
    if |u| - n >= |FakeTransOpen| {
      assert ux[n..][..|FakeTransOpen|] == u[n..][..|FakeTransOpen|];
    } else {
      NoTagAcross(u, x, n);
    }
  }

  /** A run of whitespace right before the tag, at the very start of the
      text, is dropped and the tag kept. */
  lemma StripAtHead(w: string, q: string)
    requires w != [] && AllSpace(w)
    ensures StripSpaceBeforeDiv(w + (FakeTransOpen + q)) == FakeTransOpen + StripSpaceBeforeDiv(q)
  {
    var x := w + (FakeTransOpen + q);
    TagOpensOnce();
    SpaceRunOfSpace(w, FakeTransOpen + q);
    assert x[|w|..] == FakeTransOpen + q;
    assert x[|w|..][..|FakeTransOpen|] == FakeTransOpen;
    assert SpaceBeforeDivLen(x) == |w| + |FakeTransOpen|;
    assert x[|w| + |FakeTransOpen|..] == q;
  }

  /** Each whitespace run before a tag (the whole run: the text before it
      ends in a non-whitespace character) is dropped and the tag kept, and
      the text on either side is stripped on its own. */
  lemma StripAtRun(p: string, w: string, q: string)
    requires p == [] || !IsSpace(p[|p| - 1])
    requires w != [] && AllSpace(w)
    ensures StripSpaceBeforeDiv(p + (w + FakeTransOpen + q))
         == StripSpaceBeforeDiv(p) + (FakeTransOpen + StripSpaceBeforeDiv(q))
  {
    var x := w + (FakeTransOpen + q);
    assert w + FakeTransOpen + q == x;
    TagOpensOnce();
    assert x[0] == w[0];
    if |w| >= 2 {
      assert x[1] == w[1];
    } else {
      assert x[1] == FakeTransOpen[0];
    }
    forall i | 0 <= i < |p| ensures SpaceBeforeDivLen(p[i..] + x) == SpaceBeforeDivLen(p[i..]) <= |p| - i {
      assert p[i..][|p[i..]| - 1] == p[|p| - 1];
      StripStable(p[i..], x);
    }
    ReplaceAllAppend(p, x, SpaceBeforeDivLen, KeepDiv);
    StripAtHead(w, q);
  }

  // ---------------------------------------------------------------------
  // Stage 2 properties

  /** After stage 2 no newline is left. */
  lemma {:induction false} NewlinesGone(s: string)
    ensures '\n' !in NewlinesToBr(s)
    decreases |s|
  {
    if s != [] {
      NewlinesGone(s[1..]);
    }
  }

  /** Stage 2 changes a text exactly when it holds a newline. */
  lemma NewlinesUnchangedIff(s: string)
    ensures NewlinesToBr(s) == s <==> '\n' !in s
  {
    NewlinesGone(s);
    if '\n' !in s {
      forall i | 0 <= i < |s| ensures !Matches(s[i..], NewlineLen) {
        assert s[i..][0] == s[i];
      }
      ReplaceAllMatchFree(s, NewlineLen, Br);
    }
  }

  /** Each newline becomes `<br>`, and the text on either side is converted
      on its own. */
  lemma NewlineSplit(p: string, q: string)
    ensures NewlinesToBr(p + "\n" + q) == NewlinesToBr(p) + "<br>" + NewlinesToBr(q)
  {
    var x := "\n" + q;
    forall i | 0 <= i < |p| ensures NewlineLen(p[i..] + x) == NewlineLen(p[i..]) <= |p| - i {
      assert (p[i..] + x)[0] == p[i..][0];
    }
    ReplaceAllAppend(p, x, NewlineLen, Br);
    assert x[..1] == "\n" && x[1..] == q;
    assert p + "\n" + q == p + x;
  }

  // ---------------------------------------------------------------------
  // Stage 3 properties

  lemma {:induction false} DigitRunAppend(v: string, x: string)
    requires x != [] && !IsDigit(x[0])
    ensures DigitRun(v + x) == DigitRun(v)
    decreases |v|
  {
    if v != [] {
      assert (v + x)[1..] == v[1..] + x;
      DigitRunAppend(v[1..], x);
    } else {
      assert v + x == x;
    }
  }

  lemma {:induction false} DigitRunOfDigits(n: string, q: string)
    requires AllDigits(n)
    requires q == [] || !IsDigit(q[0])
    ensures DigitRun(n + q) == |n|
    decreases |n|
  {
    if n != [] {
      assert (n + q)[1..] == n[1..] + q;
      DigitRunOfDigits(n[1..], q);
    } else {
      assert n + q == q;
    }
  }

  /** A text that may follow any text without changing the references in it:
      it starts with a newline or with a reply marker. */
  predicate Boundary(x: string) {
    (x != [] && x[0] == '\n') || StartsWith(x, ">>") || StartsWith(x, "&gt;&gt;")
  }

  /** What stage 3 does at the start of a non-empty `u` is not changed by
      appending a boundary text. */
  lemma AnchorRefStable(u: string, x: string)
    requires u != [] && Boundary(x)
    ensures AnchorRefLen(u + x) == AnchorRefLen(u) <= |u|
  {
    if MarkerLen(u) > 0 {
      StableAfterMarker(u, x);
    } else {
      StableWithoutMarker(u, x);
    }
  }

  lemma StableAfterMarker(u: string, x: string)
    requires MarkerLen(u) > 0 && Boundary(x)
    ensures AnchorRefLen(u + x) == AnchorRefLen(u) <= |u|
  {
    var ux := u + x;
    var k := MarkerLen(u);
    assert ux[..k] == u[..k];
    if k == 2 {
      assert ux[0] == u[0] == '>';
    }
    assert MarkerLen(ux) == k;
    assert ux[k..] == u[k..] + x;
    assert !IsDigit(x[0]);
    DigitRunAppend(u[k..], x);
  }

  lemma StableWithoutMarker(u: string, x: string)
    requires u != [] && MarkerLen(u) == 0 && Boundary(x)
    ensures AnchorRefLen(u + x) == 0
  {
    var ux := u + x;
    if StartsWith(ux, "&gt;&gt;") {
      EntityMarkerAcross(u, x);
    } else if StartsWith(ux, ">>") {
      MarkerAcross(u, x);
    }
  }

  /** `&gt;&gt;` can straddle the join only as `&gt;` + `&gt;&gt;...`, and
      then no digit follows it. */
  lemma EntityMarkerAcross(u: string, x: string)
    requires u != [] && !StartsWith(u, "&gt;&gt;") && Boundary(x) && StartsWith(u + x, "&gt;&gt;")
    ensures 8 < |u + x| && !IsDigit((u + x)[8])
  {
    var ux := u + x;
    assert |u| < 8;
    assert ux[|u|] == x[0] == "&gt;&gt;"[|u|];
    assert |u| == 4;
    assert x[0] == '&';
    assert StartsWith(x, "&gt;&gt;");
    assert ux[8] == x[4] == '&';
  }

  /** `>>` can straddle the join only as `>` + `>>...`, and then no digit
      follows it. */
  lemma MarkerAcross(u: string, x: string)
    requires u != [] && !StartsWith(u, ">>") && Boundary(x) && StartsWith(u + x, ">>")
    ensures 2 < |u + x| && !IsDigit((u + x)[2])
  {
    var ux := u + x;
    assert |u| == 1;
    assert x[0] == ux[1] == '>';
    assert StartsWith(x, ">>");
    assert ux[2] == x[1] == '>';
  }

  lemma BoundarySeparable(p: string, x: string)
    requires Boundary(x)
    ensures Separable(p, x, AnchorRefLen)
  {
    forall i | 0 <= i < |p| ensures AnchorRefLen(p[i..] + x) == AnchorRefLen(p[i..]) <= |p| - i {
      AnchorRefStable(p[i..], x);
    }
  }

  /** Every span is longer than the reference it replaces. */
  lemma LinkLengthens()
    ensures forall t :: Matches(t, AnchorRefLen) ==>
      |LinkReplacement(t[..AnchorRefLen(t)])| > AnchorRefLen(t)
  {
    forall t | Matches(t, AnchorRefLen)
      ensures |LinkReplacement(t[..AnchorRefLen(t)])| > AnchorRefLen(t)
    {
      var k := MarkerLen(t);
      var m := t[..AnchorRefLen(t)];
      assert m[..k] == t[..k];
      assert MarkerLen(m) == k;
    }
  }

  /** Stage 3 changes a text exactly when it holds a reply reference. */
  lemma LinkUnchangedIff(s: string)
    ensures LinkAnchors(s) == s <==> AnchorFree(s)
  {
    LinkLengthens();
    ReplaceAllLengthens(s, AnchorRefLen, LinkReplacement);
    if AnchorFree(s) {
      ReplaceAllMatchFree(s, AnchorRefLen, LinkReplacement);
    }
  }

  /** Every reference, a marker followed by its whole run of digits `n`,
      becomes the span for that same `n`, and the text on either side is
      linked on its own. */
  lemma LinkAtReference(p: string, marker: string, n: string, q: string)
    requires marker == ">>" || marker == "&gt;&gt;"
    requires n != [] && AllDigits(n)
    requires q == [] || !IsDigit(q[0])
    ensures LinkAnchors(p + (marker + n + q)) == LinkAnchors(p) + AnchorSpan(n) + LinkAnchors(q)
  {
    var x := marker + n + q;
    MarkerIsBoundary(marker, n + q);
    assert marker + (n + q) == x;
    LinkAppend(p, x);
    LinkAtStart(marker, n, q);
  }

  lemma MarkerIsBoundary(marker: string, rest: string)
    requires marker == ">>" || marker == "&gt;&gt;"
    ensures Boundary(marker + rest)
  {
    assert (marker + rest)[..|marker|] == marker;
  }

  /** Stage 3 over `p + x` is stage 3 over `p` then over `x`, when `x` is a
      boundary text. */
  lemma LinkAppend(p: string, x: string)
    requires Boundary(x)
    ensures LinkAnchors(p + x) == LinkAnchors(p) + LinkAnchors(x)
  {
    BoundarySeparable(p, x);
    ReplaceAllAppend(p, x, AnchorRefLen, LinkReplacement);
  }

  lemma LinkAtStart(marker: string, n: string, q: string)
    requires marker == ">>" || marker == "&gt;&gt;"
    requires n != [] && AllDigits(n)
    requires q == [] || !IsDigit(q[0])
    ensures LinkAnchors(marker + n + q) == AnchorSpan(n) + LinkAnchors(q)
  {
    var x := marker + n + q;
    var k := |marker|;
    assert x[..k] == marker;
    if marker == ">>" {
      assert x[0] == '>';
    }
    assert MarkerLen(x) == k;
    assert x[k..] == n + q;
    DigitRunOfDigits(n, q);
    var m := x[..k + |n|];
    assert m == marker + n;
    assert m[..k] == marker;
    assert MarkerLen(m) == k;
    assert m[k..] == n;
    assert x[k + |n|..] == q;
  }

  lemma NotInSuffix(s: string, c: char, k: nat)
    requires c !in s && k <= |s|
    ensures c !in s[k..]
  {
    forall j | 0 <= j < |s| - k ensures s[k..][j] != c {
      assert s[k..][j] == s[k + j];
    }
  }

  /** Stage 3 brings in no newline. */
  lemma LinkKeepsOutNewline(s: string)
    requires '\n' !in s
    ensures '\n' !in LinkAnchors(s)
  {
    assert '\n' !in SpanOpen && '\n' !in SpanMiddle && '\n' !in SpanClose;
    forall t | Matches(t, AnchorRefLen) && '\n' !in t[..AnchorRefLen(t)]
      ensures '\n' !in LinkReplacement(t[..AnchorRefLen(t)])
    {
      var m := t[..AnchorRefLen(t)];
      NotInSuffix(m, '\n', MarkerLen(m));
    }
    ReplaceAllKeepsOut(s, '\n', AnchorRefLen, LinkReplacement);
  }

  // ---------------------------------------------------------------------
  // Whole-body properties

  /** The rendered body holds no newline. */
  lemma ProcessBodyHasNoNewline(text: string)
    ensures '\n' !in ProcessBody(text)
  {
    if text != "" {
      var t := NewlinesToBr(StripSpaceBeforeDiv(text));
      NewlinesGone(StripSpaceBeforeDiv(text));
      LinkKeepsOutNewline(t);
    }
  }

  /** A body with no newline, no whitespace before a translation tag and no
      reply reference is returned as it is. */
  lemma ProcessBodyUnchanged(text: string)
    requires '\n' !in text && NoSpaceBeforeDiv(text) && AnchorFree(text)
    ensures ProcessBody(text) == text
  {
    StripUnchangedIff(text);
    NewlinesUnchangedIff(text);
    LinkUnchangedIff(text);
  }

  // ---------------------------------------------------------------------
  // Order of stages 2 and 3

  /** Stage 2 runs before stage 3, so the `>` that closes a generated `<br>`
      can be read as the first half of a `>>` marker: a line that starts
      with `>1` loses the end of its line break. */
  lemma RenderEatsBreak()
    ensures Render("\n>1") == "<br" + AnchorSpan("1")
  {
    NewlineSplit("", ">1");
    assert "" + "\n" + ">1" == "\n>1";
    NewlinesUnchangedIff(">1");
    NewlinesUnchangedIff("");
    assert NewlinesToBr("\n>1") == "<br" + (">>" + "1" + "");
    LinkAtReference("<br", ">>", "1", "");
    forall i | 0 <= i < 3 ensures !Matches("<br"[i..], AnchorRefLen) {
    }
    LinkUnchangedIff("<br");
  }

  /** A line `>1` is plain text: it holds neither a newline nor a reference. */
  lemma RenderOfQuote()
    ensures Render(">1") == ">1"
  {
    NewlinesUnchangedIff(">1");
    forall i | 0 <= i < 2 ensures !Matches(">1"[i..], AnchorRefLen) {
    }
    LinkUnchangedIff(">1");
  }

  lemma AnchorSpanOpensTag(n: string)
    ensures |AnchorSpan(n)| > 0 && AnchorSpan(n)[0] == '<'
  {
    assert AnchorSpan(n)[0] == SpanOpen[0];
  }

  /** So the as-written order does not render a newline as a break between
      the renderings of the two lines around it. */
  lemma RenderDoesNotSplitAtNewline()
    ensures exists p, q :: Render(p + "\n" + q) != Render(p) + "<br>" + Render(q)
  {
    var p, q := "", ">1";
    RenderEatsBreak();
    RenderOfQuote();
    assert p + "\n" + q == "\n>1";
    assert Render(p) == [] by {
      NewlinesUnchangedIff(p);
      LinkUnchangedIff(p);
    }
    var good := Render(p) + "<br>" + Render(q);
    assert good[3] == '>';
    AnchorSpanOpensTag("1");
    assert ("<br" + AnchorSpan("1"))[3] == AnchorSpan("1")[0];
    assert Render(p + "\n" + q) != good;
  }

  /** Stages 3 then 2: references are linked while the text still holds its
      newlines, so no generated `<br>` can take part in a marker. */
  function RenderFixed(t: string): string {
    NewlinesToBr(LinkAnchors(t))
  }

  function ProcessBodyFixed(text: string): string {
    if text == "" then "" else RenderFixed(StripSpaceBeforeDiv(text))
  }

  /** A newline does not take part in any reference. */
  lemma LinkAfterNewline(q: string)
    ensures LinkAnchors("\n" + q) == "\n" + LinkAnchors(q)
  {
    var x := "\n" + q;
    assert !Matches(x, AnchorRefLen);
    assert x[1..] == q;
  }

  /** With the corrected order, each newline becomes `<br>` between the
      renderings of the text before and after it. */
  lemma RenderFixedSplitsAtNewline(p: string, q: string)
    ensures RenderFixed(p + "\n" + q) == RenderFixed(p) + "<br>" + RenderFixed(q)
  {
    var x := "\n" + q;
    assert p + "\n" + q == p + x;
    LinkAppend(p, x);
    LinkAfterNewline(q);
    assert LinkAnchors(p + x) == LinkAnchors(p) + "\n" + LinkAnchors(q);
    NewlineSplit(LinkAnchors(p), LinkAnchors(q));
  }

  /** The corrected rendering holds no newline either. */
  lemma ProcessBodyFixedHasNoNewline(text: string)
    ensures '\n' !in ProcessBodyFixed(text)
  {
    if text != "" {
      NewlinesGone(LinkAnchors(StripSpaceBeforeDiv(text)));
    }
  }
}
