/** `String.prototype.replace` with a global regular expression, as one
    left-to-right pass over the text.

    A regular expression is represented by the length of the match it makes
    at the START of a text (`matchLen(t)`, 0 when it makes none there), and
    the replacement callback by `replacement(m)` applied to the matched text.
    At each position the expression is tried; on a match the replacement is
    emitted and the scan resumes right after the match, otherwise one
    character is copied and the scan moves on by one. Replaced text is never
    scanned again. None of the expressions of this model can match the empty
    string, so the empty-match rule of the language is not needed. */
module Replace {

  /** The expression makes a (non-empty) match at the start of `t`. */
  predicate Matches(t: string, matchLen: string -> nat) {
    0 < matchLen(t) <= |t|
  }

  function ReplaceAll(s: string, matchLen: string -> nat, replacement: string -> string): string
    decreases |s|
  {
    if s == [] then []
    else if Matches(s, matchLen) then
      replacement(s[..matchLen(s)]) + ReplaceAll(s[matchLen(s)..], matchLen, replacement)
    else
      [s[0]] + ReplaceAll(s[1..], matchLen, replacement)
  }

  /** The expression matches at no position of `s`. */
  predicate MatchFree(s: string, matchLen: string -> nat) {
    forall i :: 0 <= i < |s| ==> !Matches(s[i..], matchLen)
  }

  /** Appending `r` to `p` does not change what the expression does at any
      position of `p`, and no match starting in `p` runs past its end. */
  predicate Separable(p: string, r: string, matchLen: string -> nat) {
    forall i :: 0 <= i < |p| ==> matchLen(p[i..] + r) == matchLen(p[i..]) <= |p| - i
  }

  lemma MatchFreeTail(s: string, k: nat, matchLen: string -> nat)
    requires MatchFree(s, matchLen) && k <= |s|
    ensures MatchFree(s[k..], matchLen)
  {
    forall i | 0 <= i < |s[k..]| ensures !Matches(s[k..][i..], matchLen) {
      assert s[k..][i..] == s[k + i..];
    }
  }

  /** Text in which the expression matches nowhere is returned unchanged. */
  lemma {:induction false} ReplaceAllMatchFree(s: string, matchLen: string -> nat, replacement: string -> string)
    requires MatchFree(s, matchLen)
    ensures ReplaceAll(s, matchLen, replacement) == s
    decreases |s|
  {
    if s != [] {
      assert s[0..] == s;
      MatchFreeTail(s, 1, matchLen);
      ReplaceAllMatchFree(s[1..], matchLen, replacement);
    }
  }

  lemma SeparableTail(p: string, r: string, k: nat, matchLen: string -> nat)
    requires Separable(p, r, matchLen) && k <= |p|
    ensures Separable(p[k..], r, matchLen)
  {
    forall i | 0 <= i < |p[k..]|
      ensures matchLen(p[k..][i..] + r) == matchLen(p[k..][i..]) <= |p[k..]| - i
    {
      assert p[k..][i..] == p[k + i..];
    }
  }

  /** When no match straddles the boundary, the pass over `p + r` is the
      pass over `p` followed by the pass over `r`. */
  lemma {:induction false} ReplaceAllAppend(p: string, r: string, matchLen: string -> nat, replacement: string -> string)
    requires Separable(p, r, matchLen)
    ensures ReplaceAll(p + r, matchLen, replacement)
         == ReplaceAll(p, matchLen, replacement) + ReplaceAll(r, matchLen, replacement)
    decreases |p|
  {
    if p == [] {
      assert p + r == r;
    } else {
      var s := p + r;
      assert p[0..] == p;
      var k := matchLen(p);
      assert matchLen(s) == k <= |p|;
      if 0 < k {
        assert s[..k] == p[..k];
        assert s[k..] == p[k..] + r;
        SeparableTail(p, r, k, matchLen);
        ReplaceAllAppend(p[k..], r, matchLen, replacement);
      } else {
        assert s[1..] == p[1..] + r;
        SeparableTail(p, r, 1, matchLen);
        ReplaceAllAppend(p[1..], r, matchLen, replacement);
      }
    }
  }

  /** A character that is not in the text and that no replacement introduces
      (unless it was in the matched text) is not in the result. */
  lemma {:induction false} ReplaceAllKeepsOut(s: string, c: char, matchLen: string -> nat, replacement: string -> string)
    requires c !in s
    requires forall t :: Matches(t, matchLen) && c !in t[..matchLen(t)] ==> c !in replacement(t[..matchLen(t)])
    ensures c !in ReplaceAll(s, matchLen, replacement)
    decreases |s|
  {
    if s != [] {
      if Matches(s, matchLen) {
        var k := matchLen(s);
        assert c !in s[..k] by { assert forall j :: 0 <= j < k ==> s[..k][j] == s[j]; }
        assert c !in s[k..] by { assert forall j :: 0 <= j < |s| - k ==> s[k..][j] == s[k + j]; }
        ReplaceAllKeepsOut(s[k..], c, matchLen, replacement);
      } else {
        assert c !in s[1..] by { assert forall j :: 0 <= j < |s| - 1 ==> s[1..][j] == s[j + 1]; }
        ReplaceAllKeepsOut(s[1..], c, matchLen, replacement);
      }
    }
  }

  /** When every replacement is longer than the text it replaces, the pass
      never shortens the text, and leaves its length unchanged only when the
      expression matches nowhere (so the text is then returned unchanged). */
  lemma {:induction false} ReplaceAllLengthens(s: string, matchLen: string -> nat, replacement: string -> string)
    requires forall t :: Matches(t, matchLen) ==> |replacement(t[..matchLen(t)])| > matchLen(t)
    ensures |ReplaceAll(s, matchLen, replacement)| >= |s|
    ensures |ReplaceAll(s, matchLen, replacement)| == |s| ==> MatchFree(s, matchLen)
    decreases |s|
  {
    if s != [] {
      if Matches(s, matchLen) {
        var k := matchLen(s);
        ReplaceAllLengthens(s[k..], matchLen, replacement);
      } else {
        ReplaceAllLengthens(s[1..], matchLen, replacement);
        if |ReplaceAll(s, matchLen, replacement)| == |s| {
          forall i | 0 <= i < |s| ensures !Matches(s[i..], matchLen) {
            if i > 0 {
              assert s[i..] == s[1..][i - 1..];
            }
          }
        }
      }
    }
  }

  /** When every replacement starts with `c`, a stretch at the start of the
      result that holds no `c` was copied unchanged from the input. */
  lemma {:induction false} ReplaceAllCopiedPrefix(s: string, n: nat, c: char, matchLen: string -> nat, replacement: string -> string)
    requires forall t :: Matches(t, matchLen) ==>
               |replacement(t[..matchLen(t)])| > 0 && replacement(t[..matchLen(t)])[0] == c
    requires n <= |ReplaceAll(s, matchLen, replacement)|
    requires c !in ReplaceAll(s, matchLen, replacement)[..n]
    ensures n <= |s| && s[..n] == ReplaceAll(s, matchLen, replacement)[..n]
    decreases n
  {
    if n > 0 {
      var out := ReplaceAll(s, matchLen, replacement);
      assert out[..n][0] == out[0];
      var rest := ReplaceAll(s[1..], matchLen, replacement);
      assert !Matches(s, matchLen) && out == [s[0]] + rest;
      assert out[..n] == [s[0]] + rest[..n - 1];
      ReplaceAllCopiedPrefix(s[1..], n - 1, c, matchLen, replacement);
      assert s[..n] == [s[0]] + s[1..][..n - 1];
    }
  }

  /** `String.prototype.replace` with a regular expression that is not
      global: only the leftmost match is replaced. */
  function ReplaceFirst(s: string, matchLen: string -> nat, replacement: string -> string): string
    decreases |s|
  {
    if s == [] then []
    else if Matches(s, matchLen) then replacement(s[..matchLen(s)]) + s[matchLen(s)..]
    else [s[0]] + ReplaceFirst(s[1..], matchLen, replacement)
  }

  /** Text in which the expression matches nowhere is returned unchanged. */
  lemma {:induction false} ReplaceFirstMatchFree(s: string, matchLen: string -> nat, replacement: string -> string)
    requires MatchFree(s, matchLen)
    ensures ReplaceFirst(s, matchLen, replacement) == s
    decreases |s|
  {
    if s != [] {
      assert s[0..] == s;
      MatchFreeTail(s, 1, matchLen);
      ReplaceFirstMatchFree(s[1..], matchLen, replacement);
    }
  }

  /** When the leftmost match in `p + x` starts where `x` starts, exactly
      that match is replaced and the text around it is kept. */
  lemma {:induction false} ReplaceFirstAt(p: string, x: string, matchLen: string -> nat, replacement: string -> string)
    requires forall i :: 0 <= i < |p| ==> !Matches((p + x)[i..], matchLen)
    requires Matches(x, matchLen)
    ensures ReplaceFirst(p + x, matchLen, replacement)
         == p + replacement(x[..matchLen(x)]) + x[matchLen(x)..]
    decreases |p|
  {
    if p == [] {
      assert p + x == x;
    } else {
      var s := p + x;
      assert s[0..] == s;
      assert s[1..] == p[1..] + x;
      forall i | 0 <= i < |p[1..]| ensures !Matches((p[1..] + x)[i..], matchLen) {
        assert (p[1..] + x)[i..] == s[i + 1..];
      }
      ReplaceFirstAt(p[1..], x, matchLen, replacement);
    }
  }

  /** When every replacement starts with `w[0]` and that character does not
      occur again in `w`, an occurrence of `w` at the start of the result
      that the first step did not produce was copied from the input. */
  lemma ReplaceAllCopiedStart(s: string, w: string, matchLen: string -> nat, replacement: string -> string)
    requires w != [] && w[0] !in w[1..]
    requires forall t :: Matches(t, matchLen) ==>
               |replacement(t[..matchLen(t)])| > 0 && replacement(t[..matchLen(t)])[0] == w[0]
    requires !Matches(s, matchLen)
    requires |w| <= |ReplaceAll(s, matchLen, replacement)| && ReplaceAll(s, matchLen, replacement)[..|w|] == w
    ensures |w| <= |s| && s[..|w|] == w
  {
    var out := ReplaceAll(s, matchLen, replacement);
    var rest := ReplaceAll(s[1..], matchLen, replacement);
    assert out == [s[0]] + rest;
    var tail := w[1..];
    assert rest[..|tail|] == out[..|w|][1..];
    ReplaceAllCopiedPrefix(s[1..], |tail|, w[0], matchLen, replacement);
    assert s[0] == out[0] == w[0];
    assert s[..|w|] == [s[0]] + s[1..][..|tail|];
  }
}
