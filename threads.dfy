/** The order of the thread index (`App.setThreadList`): the thread with id
    `intro` is pinned to the top, the others follow newest first by their
    date, and threads that compare equal keep their order from the data.

    The comparator turns a date text into a time by first removing the
    weekday group `(...)` and the fraction of a second, then handing the rest
    to the `Date` constructor. That constructor is the parameter `parse`
    here, giving milliseconds since the epoch; a thread without a date
    counts as the epoch, 0. */
module ThreadList {
  import opened Text
  import opened Replace

  /** One entry of the index data. */
  datatype ThreadSummary = ThreadSummary(id: string, title: string, count: int, date: string)

  const IntroId: string := "intro"

  predicate IsIntro(t: ThreadSummary) {
    t.id == IntroId
  }

  // ---------------------------------------------------------------------
  // From date text to time

  /** Length of the run of characters other than `)` at the start of `t`. */
  function OpenRun(t: string): (n: nat)
    ensures n <= |t| && (forall i :: 0 <= i < n ==> t[i] != ')') && (n < |t| ==> t[n] == ')')
    decreases |t|
  {
    if t != [] && t[0] != ')' then 1 + OpenRun(t[1..]) else 0
  }

  /** Match length of `/\([^)]+\)/` at the start of `t`: `(`, one or more
      characters other than `)`, then `)`. */
  function ParenGroupLen(t: string): nat {
    if t != [] && t[0] == '(' then
      var n := OpenRun(t[1..]);
      if 0 < n < |t| - 1 then n + 2 else 0
    else 0
  }

  /** Match length of `/\.\d+$/` at the start of `t`: a dot and digits up to
      the end of the text. */
  function FractionLen(t: string): nat {
    if |t| >= 2 && t[0] == '.' && AllDigits(t[1..]) then |t| else 0
  }

  /** The replacement `''`. */
  function Drop(m: string): string {
    ""
  }

  /** `date.replace(/\([^)]+\)/, '')`: the first parenthesised group goes. */
  function StripWeekday(date: string): string {
    ReplaceFirst(date, ParenGroupLen, Drop)
  }

  /** `.replace(/\.\d+$/, '')`: a trailing fraction of a second goes. */
  function StripFraction(date: string): string {
    ReplaceFirst(date, FractionLen, Drop)
  }

  /** The text handed to the `Date` constructor. */
  function DateText(date: string): string {
    StripFraction(StripWeekday(date))
  }

  /** The time a thread is sorted by. */
  function DateKey(t: ThreadSummary, parse: string -> int): int {
    if t.date == "" then 0 else parse(DateText(t.date))
  }

  /** A text that starts with `(w)` has a match of length `|w| + 2` there. */
  lemma ParenGroupAtStart(w: string, q: string)
    requires w != [] && ')' !in w
    ensures ParenGroupLen("(" + w + ")" + q) == |w| + 2
  {
    var x := "(" + w + ")" + q;
    assert x[1..] == w + (")" + q);
    OpenRunAt(w, ")" + q);
  }

  /** Only the first group `(...)` is removed; the text before it has no `(`
      and the text after it is kept as it is. */
  lemma StripWeekdayAt(p: string, w: string, q: string)
    requires '(' !in p && w != [] && ')' !in w
    ensures StripWeekday(p + ("(" + w + ")" + q)) == p + q
  {
    var x := "(" + w + ")" + q;
    NoGroupBefore(p, x);
    ParenGroupAtStart(w, q);
    ReplaceFirstAt(p, x, ParenGroupLen, Drop);
    assert x[|w| + 2..] == q;
  }

  /** No group starts inside a text without `(`. */
  lemma NoGroupBefore(p: string, x: string)
    requires '(' !in p
    ensures forall i :: 0 <= i < |p| ==> !Matches((p + x)[i..], ParenGroupLen)
  {
    forall i | 0 <= i < |p| ensures !Matches((p + x)[i..], ParenGroupLen) {
      assert (p + x)[i..][0] == p[i];
    }
  }

  lemma {:induction false} OpenRunAt(w: string, r: string)
    requires ')' !in w && r != [] && r[0] == ')'
    ensures OpenRun(w + r) == |w|
    decreases |w|
  {
    if w != [] {
      assert (w + r)[1..] == w[1..] + r;
      OpenRunAt(w[1..], r);
    } else {
      assert w + r == r;
    }
  }

  /** A trailing `.digits` is removed, whatever comes before it. */
  lemma StripFractionAt(p: string, d: string)
    requires d != [] && AllDigits(d)
    ensures StripFraction(p + "." + d) == p
  {
    var x := "." + d;
    assert p + "." + d == p + x;
    forall i | 0 <= i < |p| ensures !Matches((p + x)[i..], FractionLen) {
      var u := (p + x)[i..];
      assert u[1..][|p| - i - 1] == '.';
    }
    assert x[1..] == d;
    ReplaceFirstAt(p, x, FractionLen, Drop);
  }

  /** A date written `day(weekday)time.fraction` reaches the `Date`
      constructor as `daytime`. */
  lemma DateTextOfStamp(day: string, weekday: string, time: string, fraction: string)
    requires '(' !in day && weekday != [] && ')' !in weekday
    requires fraction != [] && AllDigits(fraction)
    ensures DateText(day + "(" + weekday + ")" + time + "." + fraction) == day + time
  {
    var q := time + "." + fraction;
    StripWeekdayAt(day, weekday, q);
    assert day + "(" + weekday + ")" + time + "." + fraction == day + ("(" + weekday + ")" + q);
    StripFractionAt(day + time, fraction);
    assert day + q == day + time + "." + fraction;
  }

  // ---------------------------------------------------------------------
  // The comparator and the order it describes

  /** `a` goes strictly before `b`: it is the pinned thread and `b` is not,
      or neither is pinned and `a` is newer. */
  predicate Before(a: ThreadSummary, b: ThreadSummary, parse: string -> int) {
    (IsIntro(a) && !IsIntro(b)) || (!IsIntro(a) && !IsIntro(b) && DateKey(a, parse) > DateKey(b, parse))
  }

  /** Neither goes before the other: both pinned, or both unpinned with the
      same time. */
  predicate Tied(a: ThreadSummary, b: ThreadSummary, parse: string -> int) {
    (IsIntro(a) && IsIntro(b)) || (!IsIntro(a) && !IsIntro(b) && DateKey(a, parse) == DateKey(b, parse))
  }

  /** The comparator passed to `Array.prototype.sort`. Unless both threads
      are pinned, its sign says which goes first. */
  function Compare(a: ThreadSummary, b: ThreadSummary, parse: string -> int): (c: int)
    ensures !(IsIntro(a) && IsIntro(b)) ==>
      && (c < 0 <==> Before(a, b, parse))
      && (c > 0 <==> Before(b, a, parse))
      && (c == 0 <==> Tied(a, b, parse))
  {
    if IsIntro(a) then -1
    else if IsIntro(b) then 1
    else DateKey(b, parse) - DateKey(a, parse)
  }

  /** Two pinned threads each claim to go first: with more than one `intro`
      the comparator is not consistent. */
  lemma CompareTwoIntros(a: ThreadSummary, b: ThreadSummary, parse: string -> int)
    requires IsIntro(a) && IsIntro(b)
    ensures Compare(a, b, parse) < 0 && Compare(b, a, parse) < 0
  {
  }

  /** No later element goes strictly before an earlier one. */
  predicate Sorted(s: seq<ThreadSummary>, parse: string -> int) {
    forall i, j :: 0 <= i < j < |s| ==> !Before(s[j], s[i], parse)
  }

  /** The elements tied with `c`, in their order. */
  function Filter(s: seq<ThreadSummary>, c: ThreadSummary, parse: string -> int): seq<ThreadSummary> {
    if s == [] then []
    else (if Tied(s[0], c, parse) then [s[0]] else []) + Filter(s[1..], c, parse)
  }

  // ---------------------------------------------------------------------
  // The sort

  /** Put `x` in front of `s` and move it past every element that goes
      strictly before it. */
  function Insert(x: ThreadSummary, s: seq<ThreadSummary>, parse: string -> int): seq<ThreadSummary> {
    if s == [] || !Before(s[0], x, parse) then [x] + s
    else [s[0]] + Insert(x, s[1..], parse)
  }

  /** `[...threads].sort(compare)`: a stable sort of a copy, so the data
      itself is not reordered. */
  function SortThreads(threads: seq<ThreadSummary>, parse: string -> int): seq<ThreadSummary> {
    if threads == [] then [] else Insert(threads[0], SortThreads(threads[1..], parse), parse)
  }

  lemma {:induction false} InsertPermutation(x: ThreadSummary, s: seq<ThreadSummary>, parse: string -> int)
    ensures multiset(Insert(x, s, parse)) == multiset([x] + s)
    decreases |s|
  {
    if s != [] && Before(s[0], x, parse) {
      InsertPermutation(x, s[1..], parse);
      assert s == [s[0]] + s[1..];
    }
  }

  /** The sorted list holds the same threads, each as often as before. */
  lemma {:induction false} SortPermutation(threads: seq<ThreadSummary>, parse: string -> int)
    ensures multiset(SortThreads(threads, parse)) == multiset(threads)
    ensures |SortThreads(threads, parse)| == |threads|
    decreases |threads|
  {
    if threads != [] {
      SortPermutation(threads[1..], parse);
      InsertPermutation(threads[0], SortThreads(threads[1..], parse), parse);
      assert threads == [threads[0]] + threads[1..];
    }
    assert |multiset(SortThreads(threads, parse))| == |SortThreads(threads, parse)|;
  }

  /** If `a` does not go before `b` nor `b` before `c`, `a` does not go
      before `c`. */
  lemma NotBeforeTransitive(a: ThreadSummary, b: ThreadSummary, c: ThreadSummary, parse: string -> int)
    requires !Before(a, b, parse) && !Before(b, c, parse)
    ensures !Before(a, c, parse)
  {
  }

  /** Every element of `Insert(x, s)` is `x` or an element of `s`. */
  lemma InsertElement(x: ThreadSummary, s: seq<ThreadSummary>, parse: string -> int, j: nat)
    requires j < |Insert(x, s, parse)|
    ensures Insert(x, s, parse)[j] == x || Insert(x, s, parse)[j] in s
  {
    var r := Insert(x, s, parse);
    InsertPermutation(x, s, parse);
    assert r[j] in multiset(r);
  }

  /** `x` stays in front when the first element does not go before it. */
  lemma InsertInFront(x: ThreadSummary, s: seq<ThreadSummary>, parse: string -> int)
    requires Sorted(s, parse) && (s == [] || !Before(s[0], x, parse))
    ensures Sorted([x] + s, parse)
  {
    var r := [x] + s;
    forall i, j | 0 <= i < j < |r| ensures !Before(r[j], r[i], parse) {
      assert r[j] == s[j - 1];
      if i == 0 {
        if j > 1 {
          NotBeforeTransitive(s[j - 1], s[0], x, parse);
        }
      } else {
        assert r[i] == s[i - 1];
      }
    }
  }

  /** `s[0]`, which goes before `x` and is not preceded by anything in `s`,
      may head any list made of `x` and elements of `s`. */
  lemma HeadOfInsert(x: ThreadSummary, s: seq<ThreadSummary>, rest: seq<ThreadSummary>, parse: string -> int)
    requires s != [] && Before(s[0], x, parse) && Sorted(s, parse) && Sorted(rest, parse)
    requires forall j :: 0 <= j < |rest| ==> rest[j] == x || rest[j] in s[1..]
    ensures Sorted([s[0]] + rest, parse)
  {
    var r := [s[0]] + rest;
    forall i, j | 0 <= i < j < |r| ensures !Before(r[j], r[i], parse) {
      assert r[j] == rest[j - 1];
      if i > 0 {
        assert r[i] == rest[i - 1];
      } else if r[j] != x {
        var k :| 0 <= k < |s[1..]| && s[1..][k] == r[j];
        assert s[k + 1] == r[j];
      }
    }
  }

  lemma {:induction false} InsertSorted(x: ThreadSummary, s: seq<ThreadSummary>, parse: string -> int)
    requires Sorted(s, parse)
    ensures Sorted(Insert(x, s, parse), parse)
    decreases |s|
  {
    if s == [] || !Before(s[0], x, parse) {
      InsertInFront(x, s, parse);
    } else {
      var rest := Insert(x, s[1..], parse);
      assert Sorted(s[1..], parse) by {
        forall i, j | 0 <= i < j < |s[1..]| ensures !Before(s[1..][j], s[1..][i], parse) {
          assert s[1..][j] == s[j + 1] && s[1..][i] == s[i + 1];
        }
      }
      InsertSorted(x, s[1..], parse);
      forall j | 0 <= j < |rest| ensures rest[j] == x || rest[j] in s[1..] {
        InsertElement(x, s[1..], parse, j);
      }
      HeadOfInsert(x, s, rest, parse);
    }
  }

  /** The sorted list is in the order the comparator describes. */
  lemma {:induction false} SortSorted(threads: seq<ThreadSummary>, parse: string -> int)
    ensures Sorted(SortThreads(threads, parse), parse)
    decreases |threads|
  {
    if threads != [] {
      SortSorted(threads[1..], parse);
      InsertSorted(threads[0], SortThreads(threads[1..], parse), parse);
    }
  }

  /** The pinned thread is on top, the others are newest first, and the
      comparator returns no positive value for any earlier element against a
      later one (unless both are pinned). */
  lemma SortOrder(threads: seq<ThreadSummary>, parse: string -> int)
    ensures var r := SortThreads(threads, parse);
      && (forall i, j :: 0 <= i < j < |r| && IsIntro(r[j]) ==> IsIntro(r[i]))
      && (forall i, j :: 0 <= i < j < |r| && !IsIntro(r[i]) && !IsIntro(r[j]) ==>
            DateKey(r[i], parse) >= DateKey(r[j], parse))
      && (forall i, j :: 0 <= i < j < |r| && !(IsIntro(r[i]) && IsIntro(r[j])) ==>
            Compare(r[i], r[j], parse) <= 0)
  {
    SortSorted(threads, parse);
  }

  lemma {:induction false} InsertFilter(x: ThreadSummary, s: seq<ThreadSummary>, c: ThreadSummary, parse: string -> int)
    ensures Filter(Insert(x, s, parse), c, parse) == Filter([x] + s, c, parse)
    decreases |s|
  {
    if s == [] || !Before(s[0], x, parse) {
    } else {
      InsertFilter(x, s[1..], c, parse);
      assert ([s[0]] + Insert(x, s[1..], parse))[1..] == Insert(x, s[1..], parse);
      assert ([x] + s[1..])[1..] == s[1..];
      assert ([x] + s)[1..] == s;
      assert s == [s[0]] + s[1..];
      assert ([s[0]] + s[1..])[1..] == s[1..];
    }
  }

  /** Threads that compare equal stay in their order from the data. */
  lemma {:induction false} SortStable(threads: seq<ThreadSummary>, c: ThreadSummary, parse: string -> int)
    ensures Filter(SortThreads(threads, parse), c, parse) == Filter(threads, c, parse)
    decreases |threads|
  {
    if threads != [] {
      SortStable(threads[1..], c, parse);
      InsertFilter(threads[0], SortThreads(threads[1..], parse), c, parse);
      assert ([threads[0]] + SortThreads(threads[1..], parse))[1..] == SortThreads(threads[1..], parse);
    }
  }

  /** A list already in order is left as it is, so sorting twice changes
      nothing. */
  lemma {:induction false} SortOfSorted(threads: seq<ThreadSummary>, parse: string -> int)
    requires Sorted(threads, parse)
    ensures SortThreads(threads, parse) == threads
    decreases |threads|
  {
    if threads != [] {
      var rest := threads[1..];
      assert Sorted(rest, parse) by {
        forall i, j | 0 <= i < j < |rest| ensures !Before(rest[j], rest[i], parse) {
          assert rest[j] == threads[j + 1] && rest[i] == threads[i + 1];
        }
      }
      SortOfSorted(rest, parse);
      if rest != [] {
        assert !Before(rest[0], threads[0], parse) by {
          assert rest[0] == threads[1];
        }
      }
      assert threads == [threads[0]] + rest;
    }
  }

  lemma SortIdempotent(threads: seq<ThreadSummary>, parse: string -> int)
    ensures SortThreads(SortThreads(threads, parse), parse) == SortThreads(threads, parse)
  {
    SortSorted(threads, parse);
    SortOfSorted(SortThreads(threads, parse), parse);
  }
}
