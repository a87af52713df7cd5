/** `App.convertToJapaneseDate`: the English weekday abbreviations in a post
    or thread date, written `(Mon)` … `(Sun)`, become the Japanese weekday
    characters `(月)` … `(日)`; everything else is left as it is. */
module Dates {
  import opened Replace

  /** The source's `weekdayMap`. */
  const WeekdayMap: map<string, char> := map[
    "Mon" := '月', "Tue" := '火', "Wed" := '水', "Thu" := '木',
    "Fri" := '金', "Sat" := '土', "Sun" := '日']

  /** Match length of `/\((Mon|Tue|Wed|Thu|Fri|Sat|Sun)\)/` at the start of `t`. */
  function WeekdayTokenLen(t: string): nat {
    if |t| >= 5 && t[0] == '(' && t[1..4] in WeekdayMap && t[4] == ')' then 5 else 0
  }

  /** The replacement callback: `(${weekdayMap[day]})` for the matched `(day)`. */
  function WeekdayReplacement(m: string): string {
    if |m| == 5 && m[1..4] in WeekdayMap then "(" + [WeekdayMap[m[1..4]]] + ")" else m
  }

  /** The date text with every weekday token rewritten; `''` for `''`. */
  function ConvertToJapaneseDate(dateStr: string): string {
    if dateStr == "" then "" else ReplaceAll(dateStr, WeekdayTokenLen, WeekdayReplacement)
  }

  /** No English weekday token `(Mon)` … `(Sun)` occurs in `s`. */
  predicate WeekdayFree(s: string) {
    MatchFree(s, WeekdayTokenLen)
  }

  lemma WeekdayKeyHasNoParen(day: string)
    requires day in WeekdayMap
    ensures |day| == 3 && '(' !in day && ')' !in day
    ensures day[0] in {'M', 'T', 'W', 'F', 'S'}
  {
  }

  /** Text without an opening parenthesis holds no weekday token. */
  lemma NoParenIsWeekdayFree(s: string)
    requires '(' !in s
    ensures WeekdayFree(s)
  {
    forall i | 0 <= i < |s| ensures !Matches(s[i..], WeekdayTokenLen) {
      assert s[i..][0] == s[i];
    }
  }

  /** Every replacement begins with `(`. */
  lemma WeekdayReplacementOpensParen()
    ensures forall t :: Matches(t, WeekdayTokenLen) ==>
      |WeekdayReplacement(t[..WeekdayTokenLen(t)])| > 0 && WeekdayReplacement(t[..WeekdayTokenLen(t)])[0] == '('
  {
    forall t | Matches(t, WeekdayTokenLen)
      ensures |WeekdayReplacement(t[..WeekdayTokenLen(t)])| > 0 && WeekdayReplacement(t[..WeekdayTokenLen(t)])[0] == '('
    {
      assert t[..5][1..4] == t[1..4];
    }
  }

  /** A token in the output that starts at a copied character was already a
      token in the input. */
  lemma CopiedTokenMatches(s: string)
    requires s != []
    ensures Matches([s[0]] + ReplaceAll(s[1..], WeekdayTokenLen, WeekdayReplacement), WeekdayTokenLen)
        ==> Matches(s, WeekdayTokenLen)
  {
    var rest := ReplaceAll(s[1..], WeekdayTokenLen, WeekdayReplacement);
    var out := [s[0]] + rest;
    if Matches(out, WeekdayTokenLen) {
      var day := out[1..4];
      WeekdayKeyHasNoParen(day);
      assert rest[..4] == day + [')'];
      WeekdayReplacementOpensParen();
      ReplaceAllCopiedPrefix(s[1..], 4, '(', WeekdayTokenLen, WeekdayReplacement);
      assert s[1..4] == s[1..][..4][..3];
      assert s[4] == s[1..][..4][3];
    }
  }

  /** The rewritten text holds no English weekday token. */
  lemma {:induction false} ConvertedIsWeekdayFree(s: string)
    ensures WeekdayFree(ReplaceAll(s, WeekdayTokenLen, WeekdayReplacement))
    decreases |s|
  {
    if s != [] {
      var out := ReplaceAll(s, WeekdayTokenLen, WeekdayReplacement);
      if Matches(s, WeekdayTokenLen) {
        var rest := ReplaceAll(s[5..], WeekdayTokenLen, WeekdayReplacement);
        ConvertedIsWeekdayFree(s[5..]);
        assert s[..5][1..4] == s[1..4];
        var j := WeekdayMap[s[1..4]];
        assert out == ['(', j, ')'] + rest;
        forall i | 0 <= i < |out| ensures !Matches(out[i..], WeekdayTokenLen) {
          if i >= 3 {
            assert out[i..] == rest[i - 3..];
          } else if i == 0 && |out| >= 5 && out[1..4] in WeekdayMap {
            WeekdayKeyHasNoParen(out[1..4]);
          }
        }
      } else {
        var rest := ReplaceAll(s[1..], WeekdayTokenLen, WeekdayReplacement);
        ConvertedIsWeekdayFree(s[1..]);
        CopiedTokenMatches(s);
        assert out == [s[0]] + rest;
        forall i | 0 <= i < |out| ensures !Matches(out[i..], WeekdayTokenLen) {
          if i >= 1 {
            assert out[i..] == rest[i - 1..];
          }
        }
      }
    }
  }

  /** The rewrite leaves a text unchanged exactly when it holds no English
      weekday token. */
  lemma ConvertUnchangedIff(s: string)
    ensures ConvertToJapaneseDate(s) == s <==> WeekdayFree(s)
  {
    ConvertedIsWeekdayFree(s);
    if WeekdayFree(s) {
      ReplaceAllMatchFree(s, WeekdayTokenLen, WeekdayReplacement);
    }
  }

  /** Converting an already converted date changes nothing. */
  lemma ConvertIdempotent(s: string)
    ensures ConvertToJapaneseDate(ConvertToJapaneseDate(s)) == ConvertToJapaneseDate(s)
  {
    ConvertedIsWeekdayFree(s);
    ConvertUnchangedIff(ConvertToJapaneseDate(s));
  }

  /** No token starting in a non-empty `u` runs into a following text that
      opens with `(`, and appending that text does not change what matches at
      the start of `u`. */
  lemma ParenStable(u: string, x: string)
    requires u != [] && x != [] && x[0] == '('
    ensures WeekdayTokenLen(u + x) == WeekdayTokenLen(u) <= |u|
  {
    var ux := u + x;
    if |u| >= 5 {
      assert ux[..5] == u[..5];
      assert ux[1..4] == u[1..4];
    } else if |u| == 4 {
      assert ux[4] == '(';
    } else if |ux| >= 5 && ux[1..4] in WeekdayMap {
      assert ux[1..4][|u| - 1] == '(';
      WeekdayKeyHasNoParen(ux[1..4]);
    }
  }

  lemma ParenSeparable(p: string, x: string)
    requires x != [] && x[0] == '('
    ensures Separable(p, x, WeekdayTokenLen)
  {
    forall i | 0 <= i < |p| ensures WeekdayTokenLen(p[i..] + x) == WeekdayTokenLen(p[i..]) <= |p| - i {
      ParenStable(p[i..], x);
    }
  }

  /** A text that starts with the token `(day)` converts to the Japanese
      token followed by the converted rest. */
  lemma ConvertTokenFirst(day: string, q: string)
    requires day in WeekdayMap
    ensures ReplaceAll("(" + day + ")" + q, WeekdayTokenLen, WeekdayReplacement)
         == "(" + [WeekdayMap[day]] + ")" + ReplaceAll(q, WeekdayTokenLen, WeekdayReplacement)
  {
    WeekdayKeyHasNoParen(day);
    var x := "(" + day + ")" + q;
    assert x[1..4] == day;
    assert WeekdayTokenLen(x) == 5;
    assert x[..5][1..4] == day;
    assert x[5..] == q;
  }

  /** The scan over `p + (day) + q`: the scan over `p`, the Japanese token,
      the scan over `q`. */
  lemma ReplaceAtToken(p: string, day: string, q: string)
    requires day in WeekdayMap
    ensures ReplaceAll(p + ("(" + day + ")" + q), WeekdayTokenLen, WeekdayReplacement)
         == ReplaceAll(p, WeekdayTokenLen, WeekdayReplacement)
          + ("(" + [WeekdayMap[day]] + ")" + ReplaceAll(q, WeekdayTokenLen, WeekdayReplacement))
  {
    var x := "(" + day + ")" + q;
    ParenSeparable(p, x);
    ReplaceAllAppend(p, x, WeekdayTokenLen, WeekdayReplacement);
    ConvertTokenFirst(day, q);
  }

  /** The empty-date check changes nothing: the scan maps `''` to `''`. */
  lemma ConvertIsScan(s: string)
    ensures ConvertToJapaneseDate(s) == ReplaceAll(s, WeekdayTokenLen, WeekdayReplacement)
  {
  }

  /** Wherever a token `(day)` stands, it becomes `(weekdayMap[day])`, and
      the text on either side is converted on its own. */
  lemma ConvertAtToken(p: string, day: string, q: string)
    requires day in WeekdayMap
    ensures ConvertToJapaneseDate(p + ("(" + day + ")" + q))
         == ConvertToJapaneseDate(p) + ("(" + [WeekdayMap[day]] + ")" + ConvertToJapaneseDate(q))
  {
    ReplaceAtToken(p, day, q);
    ConvertIsScan(p);
    ConvertIsScan(q);
    ConvertIsScan(p + ("(" + day + ")" + q));
  }
}
