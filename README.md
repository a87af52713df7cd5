# A Dafny model of the 2ch-style thread viewer (`2ch/js/app.js`)

The site shows an index of threads and single threads in the layout of a
Japanese text board. One `App` object does the work in the browser. The
model covers the parts of that object that compute something:

- **Post bodies** (`processBody`) — three global regular-expression
  replacements, in this order:
  1. whitespace right before `<div class="fake-trans">` is dropped;
  2. every `\n` becomes `<br>`;
  3. every reply reference `>>N` or `&gt;&gt;N` becomes a clickable span
     that scrolls to post N.

  Module `Body` in `body.dfy`.
- **Dates** (`convertToJapaneseDate`) — the weekday tokens `(Mon)` … `(Sun)`
  become `(月)` … `(日)`. Module `Dates` in `dates.dfy`.
- **Poster identifiers** (`getOrGenerateId`, `simpleHash`, the `idMap` cache).
  A uid starting with `ID:` is shown as it is. Any other uid is a key. It is
  hashed with a 32-bit multiply-by-31 loop, written in base 36, cut to eight
  characters, upper-cased and padded with `X`. The result is cached per key.
  Module `Identity` in `identity.dfy`. `App` is a class there, with the
  `idMap` field. `GetOrGenerateId` modifies that field, and `SimpleHash` is a
  loop proved against the function `Hash32`.
- **The thread index order** (the comparator in `setThreadList`):
  - the `intro` thread is pinned first;
  - the others are newest first;
  - a missing date counts as the epoch.

  Module `ThreadList` in `threads.dfy`.

All the regular-expression replacements share one model: a left-to-right
scanner in `replace.dfy`. Each expression is given as the length of its match
at the start of a text. A `/g` replacement (`ReplaceAll`) replaces every
match. A plain one (`ReplaceFirst`) replaces only the leftmost match.
Character classes (`\s`, `\d`) are in `text.dfy`.

Strings are sequences of `char`. Each `char` stands for one UTF-16 code unit,
which is what `charCodeAt` and the regular expressions see.

## Model

| member | source | states |
|---|---|---|
| Replace.ReplaceAll | 2ch/js/app.js:140-149 | a `/g` replacement: scanning left to right, each leftmost match is replaced and scanning resumes after it; its lemmas give the identity on a match-free text, splitting at a join no match straddles, and length and character bounds |
| Replace.ReplaceFirst | 2ch/js/app.js:50 | a replacement without `/g`: only the leftmost match is replaced and the rest is copied; a match-free text is returned unchanged |
| Body.ProcessBody | 2ch/js/app.js:135-152 | the empty body gives the empty string; any other body goes through the three replacements in source order; its properties are the whole-body lemmas below |
| Body.StripSpaceBeforeDiv | 2ch/js/app.js:140 | stage 1, the `/g` replacement of `[\n\r\s]+(<div class="fake-trans">)` by `$1`; pinned down by the stage 1 lemmas below |
| Body.NewlinesToBr | 2ch/js/app.js:143 | stage 2, the `/g` replacement of `\n` by `<br>`; pinned down by the stage 2 lemmas below |
| Body.LinkAnchors | 2ch/js/app.js:147-149 | stage 3, the `/g` replacement of `(&gt;&gt;\|>>)(\d+)` by the anchor span for the digits; pinned down by the stage 3 lemmas below |
| Body.StripAtHead | 2ch/js/app.js:140 | a text that starts with a whitespace run and then a translation tag loses the run, keeps the tag, and the rest is stripped on its own |
| Body.StripAtRun | 2ch/js/app.js:138-140 | for all p, q and whitespace runs w that p does not end inside: `p + w + tag + q` strips to stage 1 of p, the tag, then stage 1 of q, so the whole run goes and nothing else changes |
| Body.SpaceRun | 2ch/js/app.js:140 | the greedy `[\n\r\s]+` run is the longest prefix of `\s` characters: everything in it is whitespace and the next character is not |
| Body.StripLeavesNoSpaceBeforeDiv | 2ch/js/app.js:138-140 | after stage 1 no whitespace character stands right before a `<div class="fake-trans">` tag |
| Body.StripUnchangedIff | 2ch/js/app.js:140 | stage 1 returns the text unchanged exactly when no whitespace stands right before a translation tag |
| Body.StripRemovesOnlySpace | 2ch/js/app.js:138-140 | stage 1 removes whitespace only: the non-whitespace characters of the text remain, all of them and in their order |
| Body.NewlinesGone | 2ch/js/app.js:142-143 | after stage 2 the text holds no `\n` |
| Body.NewlinesUnchangedIff | 2ch/js/app.js:143 | stage 2 changes a text exactly when it holds a `\n` |
| Body.NewlineSplit | 2ch/js/app.js:143 | for all p, q: stage 2 of `p + "\n" + q` is stage 2 of p, then `<br>`, then stage 2 of q |
| Body.DigitRun | 2ch/js/app.js:147 | the greedy `\d+` takes the whole run of ASCII digits after the marker: all digits, and the next character is not one |
| Body.LinkAtStart | 2ch/js/app.js:147-149 | a text starting with `>>` or `&gt;&gt;`, a run of digits n, then a non-digit becomes the span for that same n followed by the linked rest |
| Body.LinkAppend | 2ch/js/app.js:147-149 | stage 3 of `p + x` is stage 3 of p then of x whenever x starts with a newline or a marker (no reference straddles the join) |
| Body.LinkAtReference | 2ch/js/app.js:147-149 | for all p, q and digit runs n: each reference `>>n` or `&gt;&gt;n` becomes `AnchorSpan(n)` (scrollToPost(n) and the text `&gt;&gt;n`), and the text on either side is linked on its own |
| Body.LinkUnchangedIff | 2ch/js/app.js:147-149 | stage 3 changes a text exactly when it holds a reply reference |
| Body.LinkKeepsOutNewline | 2ch/js/app.js:147-149 | stage 3 brings no newline into a text that has none |
| Body.ProcessBodyHasNoNewline | 2ch/js/app.js:135-152 | for every body (the empty one included) the rendered body holds no `\n` |
| Body.ProcessBodyUnchanged | 2ch/js/app.js:135-152 | a body with no newline, no whitespace before a translation tag and no reference (the empty body among them) is returned as it is |
| Body.RenderEatsBreak | 2ch/js/app.js:142-149 | as written, the body `"\n>1"` renders as `"<br"` followed by the span for post 1: the `>` of the generated `<br>` became part of a `>>1` reference |
| Body.RenderDoesNotSplitAtNewline | 2ch/js/app.js:142-149 | so, as written, the rendering of `p + "\n" + q` is not always the rendering of p, `<br>`, then the rendering of q (p = "", q = ">1") |
| Body.RenderFixedSplitsAtNewline | 2ch/js/app.js:142-149 | with references linked before newlines are converted, for all p, q the rendering of `p + "\n" + q` is the rendering of p, `<br>`, then the rendering of q |
| Body.ProcessBodyFixedHasNoNewline | 2ch/js/app.js:135-152 | the corrected rendering holds no `\n` either |
| Dates.ConvertToJapaneseDate | 2ch/js/app.js:154-164 | the empty date gives the empty string; any other is the `/g` replacement of each `(Mon)` … `(Sun)` by the `weekdayMap` entry in parentheses; pinned down by the lemmas below |
| Dates.ConvertedIsWeekdayFree | 2ch/js/app.js:161-163 | after the replacement no English weekday token `(Mon)` … `(Sun)` is left in the text, including any formed across a replaced token |
| Dates.ConvertUnchangedIff | 2ch/js/app.js:154-164 | the conversion returns a date unchanged (the empty one included) exactly when it holds no English weekday token |
| Dates.ConvertIdempotent | 2ch/js/app.js:154-164 | converting a converted date changes nothing |
| Dates.ConvertAtToken | 2ch/js/app.js:157-163 | for all p, q and each key of `weekdayMap`: `(day)` becomes `(weekdayMap[day])` and the text on either side is converted on its own, so nothing else changes |
| Identity.Hash32 | 2ch/js/app.js:196-200 | the value of `hash` after the loop over the whole key, always a signed 32-bit integer |
| Identity.HashText | 2ch/js/app.js:194-203 | the text `simpleHash` returns for a key: the absolute hash in base 36, cut to eight, upper-cased and padded with `X`; its shape is stated below |
| Identity.IdFor | 2ch/js/app.js:175-192 | the identifier shown for a uid: the uid itself when it starts with `ID:`, otherwise `ID:` and its hash text |
| Identity.ToInt32 | 2ch/js/app.js:199 | `hash \|= 0` yields the signed 32-bit integer congruent to the value modulo 2^32 |
| Identity.ToInt32Unique | 2ch/js/app.js:199 | that integer is unique, so ToInt32 is fully specified by its contract |
| Identity.ToInt32Congruent | 2ch/js/app.js:198-199 | values congruent modulo 2^32 give the same 32-bit result |
| Identity.HashStepIsTimes31 | 2ch/js/app.js:198-199 | one loop step `(hash << 5) - hash + code`, then `\|0`, is `31 * hash + code` modulo 2^32, although `<< 5` already wraps |
| Identity.Hash32IsPolyHash | 2ch/js/app.js:196-200 | the loop's final value is the polynomial hash `sum s[i] * 31^(n-1-i)` reduced to a signed 32-bit integer |
| Identity.Abs | 2ch/js/app.js:202 | `Math.abs` of a 32-bit value is that value or its negation, and at most 2^31 |
| Identity.ToBase36 | 2ch/js/app.js:202 | `toString(36)` writes at least one lower-case base-36 digit, with a leading `0` only for the number 0 |
| Identity.Base36RoundTrip | 2ch/js/app.js:202 | reading the base-36 digits back gives the number |
| Identity.Base36Length | 2ch/js/app.js:202 | a number below 36^k has at most k base-36 digits |
| Identity.Take | 2ch/js/app.js:202 | `substring(0, n)` is the prefix of length min(n, length) |
| Identity.ToUpper | 2ch/js/app.js:202 | `toUpperCase` keeps the length and upper-cases each letter in place |
| Identity.PadEnd | 2ch/js/app.js:202 | `padEnd(8, 'X')` keeps the text as its prefix and fills up to length 8 with `X` |
| Identity.HashDigitsShape | 2ch/js/app.js:201-202 | for every absolute hash: the base-36 form has 1 to 6 digits, so `substring(0, 8)` never cuts (first or last eight makes no difference); the output is those digits upper-cased, then `X` up to eight, at least two of them |
| Identity.HashTextShape | 2ch/js/app.js:194-203 | every hash is exactly 8 characters from `0-9A-Z`, and the last two are `X` |
| Identity.HashTextEmpty | 2ch/js/app.js:194-203 | the empty key hashes to `0XXXXXXX` |
| Identity.PaddingHidesDigitX | 2ch/js/app.js:202 | the padding is ambiguous: the absolute hashes 1 and 69 (base 36 `1` and `1x`) give the same eight characters |
| Identity.IdForShape | 2ch/js/app.js:175-192 | every identifier shown starts with `ID:`; a generated one is 11 characters long |
| Identity.IdForIdempotent | 2ch/js/app.js:178-179 | an identifier passed back in as a uid is shown unchanged |
| Identity.App.constructor | 2ch/js/app.js:2-5 | a new App starts with an empty, consistent `idMap` |
| Identity.App.SimpleHash | 2ch/js/app.js:194-203 | the loop's value is `Hash32` of the whole key, and the result is `HashText(str)`: 8 characters from `0-9A-Z` ending in `XX`, and `0XXXXXXX` for the empty key |
| Identity.App.GetOrGenerateId | 2ch/js/app.js:175-192 | returns `IdFor(uidInput)`: the uid itself when it starts with `ID:`, otherwise `ID:` plus its hash. A prefixed uid or a cached key leaves `idMap` as it was. A new key is added to `idMap` with the returned value, and no other entry changes. The cache stays consistent, so the same key always gets the same identifier |
| ThreadList.DateKey | 2ch/js/app.js:49-51 | a thread's sort key: 0 (the epoch) for a missing date, otherwise the `Date` parse of the date with its first `(...)` group and trailing fraction removed |
| ThreadList.SortThreads | 2ch/js/app.js:44-53 | the thread list in the comparator's order, as a stable insertion sort; its order, permutation and stability are stated below |
| ThreadList.OpenRun | 2ch/js/app.js:50 | the greedy `[^)]+` takes the whole run of characters other than `)`, stopping at the first `)` |
| ThreadList.StripWeekdayAt | 2ch/js/app.js:50-51 | the first `(...)` group (non-empty, no `)` inside) is removed, with everything after it kept, further groups included |
| ThreadList.StripFractionAt | 2ch/js/app.js:50-51 | a trailing `.digits` is removed, whatever precedes it |
| ThreadList.DateTextOfStamp | 2ch/js/app.js:49-51 | a date `day(weekday)time.fraction` is handed to the `Date` constructor as `daytime` |
| ThreadList.Compare | 2ch/js/app.js:44-53 | unless both threads are `intro`, the comparator's sign orders them: `intro` first, otherwise the later time first, and 0 exactly for equal times |
| ThreadList.CompareTwoIntros | 2ch/js/app.js:46-47 | with two `intro` threads each comparison says "first goes first", so the comparator is inconsistent |
| ThreadList.SortPermutation | 2ch/js/app.js:44 | the sorted list is a permutation of the data: same threads, same multiplicities, same length |
| ThreadList.SortSorted | 2ch/js/app.js:44-53 | no thread in the result goes strictly after a later one |
| ThreadList.SortOrder | 2ch/js/app.js:43-53 | `intro` threads come before all others, the others have non-increasing times (a missing date counting as 0), and the comparator is never positive for an earlier element against a later one |
| ThreadList.SortStable | 2ch/js/app.js:44-53 | for every thread c, the threads tied with c keep their relative order from the data (the sort is stable) |
| ThreadList.SortOfSorted | 2ch/js/app.js:44-53 | a list already in that order comes back unchanged |
| ThreadList.SortIdempotent | 2ch/js/app.js:44-53 | sorting a sorted list changes nothing |

## Left out

- Building HTML for the index and thread pages is not modelled: `setThreadList` apart from its sort, and `setThreadData`. Neither is DOM access, `init`, `loadScript` or `scrollToPost`. All of these are browser I/O. The markup of a post body is modelled, as strings.
- The `Date` constructor is the parameter `parse`, which maps the prepared date text to milliseconds. Unparsable text (`NaN`, which the engine's sort treats as "equal") is not modelled, because `parse` always returns an integer.
- The sort's algorithm is not modelled. Since ES2019 `Array.prototype.sort` is stable, so with a consistent comparator its result is fixed by the order. `SortThreads` computes that result as a stable insertion sort, and it is a value, so the data cannot be mutated. The engine sorts a spread copy in place; that update in place is not modelled.
- ThreadList.SortThreads: with two or more `intro` threads the comparator is inconsistent (`CompareTwoIntros`) and the engine's order is implementation-defined. The model keeps them first in their order from the data, which is one possible outcome.
- Inputs that are `undefined` or `null` are not modelled. The falsy checks `!text`, `!dateStr` and `a.date ?` are modelled for the empty string only. A missing `uid` would make `startsWith` throw.
- The `name` parameter of `getOrGenerateId` is not modelled: the code never reads it.
- Identity.ToUpper: only ASCII letters are upper-cased, because it is applied only to base-36 digits. `toUpperCase` itself covers all of Unicode.
- Characters outside the Basic Multilingual Plane are not modelled as UTF-16 surrogate pairs. Each `char` is one code unit, so `charCodeAt` and `\s` see single units.
- Identity.App.GetOrGenerateId requires the class invariant `Valid()`, which the constructor establishes and the method keeps. `idMap` is written nowhere else.
- The page's thread data files are not modelled: they are content, not code.

## Findings

| source | as written | input that shows it | evidently intended | confidence | as-written member | corrected member |
|---|---|---|---|---|---|---|
| 2ch/js/app.js:142-149 | newlines become `<br>` before reply references are linked, so the `>` that closes a generated `<br>` can join a following `>N` into a `>>N` reference | body `"\n>1"` (a line starting with `>1`) renders as `<br` followed by the span for post 1: the line break tag is left unclosed | each newline renders as `<br>` between the renderings of the two lines; achieved by linking references first and converting newlines after | not executed; the regular-expression semantics are modelled, not run | Body.RenderEatsBreak | Body.RenderFixedSplitsAtNewline |
