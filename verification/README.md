# Trivia game: cookie handling, answer rendering and name validation

This project models the pure logic in `trivia-game/script.js`, the browser
script of a small trivia quiz. It covers five pieces:

- **Reading a cookie (`getCookies`).** The `document.cookie` header is split
  on `"; "`. The first entry that starts with `name=` is split on `=`, and
  its second field is returned. When nothing matches, the result is
  `undefined`.
- **Writing a cookie (`setCookies`).** Builds the string
  `name=value[; expires=<UTC date>]; path=/` that is assigned to
  `document.cookie`.
- **Rendering a question's answers (`createAnswerOptions`).** Shuffles the
  correct answer together with the incorrect ones. Every answer becomes a
  radio button in group `"answer" + questionIndex`, marked
  `data-correct="true"` when its text equals the correct answer.
- **Rendering the quiz (`displayQuestions`).** Renders one block per
  question, and each block holds that question's answer options.
- **Validating the name (`saveUser`).** The session cookie is written only
  when the typed name, once trimmed, is not empty. Otherwise the user gets
  an alert.

Modules:

- `Optional`: the `Option` type. `None` stands for JavaScript's `undefined`.
- `Text`: `indexOf`, `String.prototype.split` with a non-empty string
  separator, `startsWith`, and `Array.prototype.join`. It also proves the
  round trips between `split` and `join`.
- `Whitespace`: `String.prototype.trim`, using the white-space and
  line-terminator set of ECMAScript (ECMA-262, sections 12.2 and 12.3).
- `Decimal`: the decimal numeral that `"answer" + index` appends.
- `Cookies`: `getCookies`, with a reference lookup over name/value pairs,
  and `setCookies`.
- `Answers`: `createAnswerOptions` and `displayQuestions`.
- `Session`: the decision `saveUser` takes.

Things the script gets from its host are parameters:

- The header `document.cookie` is the string `jar`.
- The clock `Date.getTime()` is `now`, an integer count of milliseconds.
- `Date.toUTCString` is `utc`, an arbitrary function from milliseconds to
  strings.
- The outcome of `sort(() => Math.random() - 0.5)` is `order`, an
  arbitrary permutation of the answer positions. Answer `order[k]` is shown
  in place `k`.

JavaScript truthiness is explicit:

- `value` is an `Option<string>`. `None` stands for `undefined` or `null`,
  and the empty string is falsy too, so `value || ""` is `OrEmpty(value)`.
- `days` is an `Option<int>` that is truthy when it is present and nonzero.

The JSDoc of `getCookies` (line 136) says the function returns `null` when
the cookie is missing. The code returns `undefined` (optional chaining at
line 145), and the model follows the code: the missing cookie is `None`.

## Model

| member | source | states |
|---|---|---|
| Cookies.GetCookie | trivia-game/script.js:139-146 | A value is returned exactly when some `"; "`-separated entry starts with `name=`. The value is then the second `=`-field of the first such entry, i.e. the text between its first `=` and the next `=` or the entry's end. Otherwise the result is absent, never an empty string. |
| Cookies.FindFirst | trivia-game/script.js:144 | `find` returns the position of the first row that starts with the prefix, with no earlier row doing so, and returns nothing exactly when no row starts with it. |
| Cookies.KeyMatchIsExact | trivia-game/script.js:144 | For an entry `key=rest` whose key and `name` hold no `=`, the entry matches `name=` exactly when its key equals `name`. So looking up `a` never picks the entry `ab=1`. |
| Cookies.ValueCutAtSecondEquals | trivia-game/script.js:145 | For a name and an `a` holding neither `;` nor `=`, and a `b` holding no `;`, the header `name=a=b` yields `a` for `name`: a value holding `=` is cut at that second `=`. |
| Cookies.GetCookieAt | trivia-game/script.js:142-145 | When entry `i` is the first to start with `name=`, the result is that entry's `split("=")[1]`, which always exists. |
| Cookies.LookupSerialized | trivia-game/script.js:139-146 | Take any list of cookies whose names and values hold neither `;` nor `=`, written as the header `n1=v1; n2=v2; …`. On that header, `getCookies` for any looked-up name without `=` agrees with the reference lookup: the value of the first cookie with that name, or nothing. |
| Cookies.Lookup | trivia-game/script.js:139-146 | The reference lookup returns nothing exactly when no cookie has the name. Otherwise it returns the value of the earliest cookie with that name. |
| Cookies.EntriesOfSerialize | trivia-game/script.js:143 | For a non-empty list of cookies whose names and values hold neither `;` nor `=`, `split("; ")` of its header gives back exactly the `name=value` pairs, in order. The empty list's header `""` splits into `[""]` instead. |
| Text.Split | trivia-game/script.js:143 | `split(sep)` yields at least one piece, and no piece holds the separator, for any non-empty separator. |
| Text.SplitJoin | trivia-game/script.js:143 | Joining the pieces of `split(sep)` with `sep` rebuilds the original string, for any non-empty separator. |
| Text.JoinSplit | trivia-game/script.js:143 | Splitting a join gives back the pieces. This needs at least one piece, no piece containing the separator, and a separator that cannot overlap itself, as `"; "` and `"="` cannot. |
| Text.IndexOf | trivia-game/script.js:143 | Gives the position of the leftmost occurrence of the separator, with none before it, or nothing when the string does not contain the separator. |
| Cookies.ExpiresClause | trivia-game/script.js:119-127 | The expiry clause is empty exactly when `days` is falsy. |
| Cookies.SetCookie | trivia-game/script.js:116-129 | The cookie string opens with the pair `name=v`, where `v` is the value or `""` when the value is falsy, and closes with `; path=/`. Between the two stands `; expires=` followed by `utc(now + days·86400000)` when `days` is truthy. When `days` is falsy, nothing stands between them. |
| Cookies.SetCookieAttributes | trivia-game/script.js:116-131 | Read back as a header, the string has exactly these entries when name and value hold no `;` and no string `utc` produces holds a `;`: the pair `name=v`, then `expires=…` at `now + days·86400000` ms exactly when `days` is truthy, then `path=/`. |
| Cookies.SetThenGet | trivia-game/script.js:116-146 | `getCookies(name)` over the string `setCookies` builds yields the stored value, or `""` for a falsy value, whatever `days` is. This holds when name and value hold neither `;` nor `=`. |
| Cookies.PairThenGet | trivia-game/script.js:142-145 | A header whose first entry is the plain pair `name=v` yields `v` for `name`, whatever follows it. |
| Answers.ReorderPreservesMultiset | trivia-game/script.js:79-81 | Rearranging the answers by any permutation keeps every answer with its multiplicity. |
| Answers.CreateAnswerOptions | trivia-game/script.js:74-94 | There is exactly one option more than there are incorrect answers. Their texts are a rearrangement, as a multiset, of `[correctAnswer] ++ incorrectAnswers`. Every option is in radio group `"answer" + questionIndex`, and an option is marked correct exactly when its text equals `correctAnswer`. |
| Answers.OneCorrectOption | trivia-game/script.js:84-88 | Exactly one option is marked correct exactly when `correctAnswer` is not among the incorrect answers. |
| Answers.MarkedOnceIffShownOnce | trivia-game/script.js:87 | When exactly the options showing the correct text are marked, one option is marked exactly when that text is shown once. |
| Answers.DisplayQuestions | trivia-game/script.js:51-65 | There is one block per question, in order, carrying the question's prompt. The options of block `i` are `createAnswerOptions` for question `i` with index `i`: length, multiset of texts, radio group `"answer" + i`, and the correctness mark. |
| Answers.GroupsDistinctAcrossQuestions | trivia-game/script.js:53-61 | Options of two different questions are never in the same radio group. |
| Answers.GroupNameInjective | trivia-game/script.js:86 | Different question indices give different radio-group names. |
| Decimal.DecimalRoundTrip | trivia-game/script.js:86 | Reading back the decimal numeral that a question index is rendered as yields the index. |
| Decimal.ToDecimal | trivia-game/script.js:86 | The numeral of an index is a non-empty string of digits with no leading zero unless the index is 0. |
| Whitespace.Trim | trivia-game/script.js:150 | `trim` returns a slice of the input such that everything cut off both ends is white space, and a non-empty result neither starts nor ends with white space. |
| Whitespace.TrimEmptyIffBlank | trivia-game/script.js:150 | The trimmed name is empty exactly when the typed name is all white space. |
| Whitespace.TrimIdempotent | trivia-game/script.js:150 | Trimming twice is the same as trimming once. |
| Session.SaveUser | trivia-game/script.js:148-161 | A write is decided exactly when the typed name holds some non-white-space character, and the write is for the given key and value with a lifetime of 3 days. Otherwise the submission is rejected, the alert branch, and nothing is written. |

## Left out

- Strings are sequences of Unicode scalar values, while JavaScript strings are UTF-16 code units. `split`, `startsWith` and `trim` agree on every well-formed string, because the separators are ASCII and every white-space character lies in the Basic Multilingual Plane. A string holding a lone surrogate cannot be represented, so such strings are not modelled.
- `fetchQuestions` (lines 18-31) and its HTTP request to the trivia API: this is network I/O and promise handling. Questions reach `DisplayQuestions` as a parameter.
- `showLoading` (lines 38-45): it only toggles CSS classes.
- DOM effects (`innerHTML`, `appendChild`, `alert`, `console.log`) and the HTML markup itself: options and blocks are datatypes, and the alert is the `Reject` decision. `DisplayQuestions` returns the container's new contents, because line 52 clears the container first.
- HTML escaping: answer and prompt texts are carried verbatim. The script interpolates them into markup without escaping, and the model says nothing about the markup they produce.
- `Math.random` and the engine's sort: the shuffle is any permutation `order`. Uniformity and bias are probabilistic claims and are not modelled.
- `Date`: `getTime` is the parameter `now` and `toUTCString` is the uninterpreted `utc`. `SetCookieAttributes` assumes that no string `utc` returns holds a `;`. That holds for the date strings `toUTCString` prints, such as `Thu, 01 Jan 1970 00:00:00 GMT`, and for `Invalid Date`, but the model does not derive it. Date-range limits (an out-of-range time prints `Invalid Date`) and the browser's handling of `expires` and `path` once the string is assigned are not modelled. `SetThenGet` reads the assigned string itself, not the jar the browser keeps.
- `Cookies.SetCookie`: `days` and `value` are an integer and a string (or absent). Non-integral or `NaN` days, and values that JavaScript would stringify (numbers, objects), are not modelled.
- `Decimal.ToDecimal`: renders every index in plain decimal. JavaScript switches to exponent notation from 10^21 on, which no question list reaches.
- `Session.SaveUser`: line 151 calls `uscore.value()`, but an input element's `value` is a string, not a function, so the call would throw before the branch at line 153 runs. Line 155 also passes the input elements themselves rather than their text. The model keeps only the write-or-reject decision on the trimmed name, with the cookie's key and value abstract.
- `handleFormSubmit` (lines 104-108): it only cancels the default submission and calls `saveUser`. Grading is only a comment there (line 106).
- `updateDisplay` (lines 163-177): it calls `getCookie`, which is never defined, and nothing calls it. `newPlayer` (line 98) and `displayScores` (line 13) are never defined either. So the call at line 13 would stop the set-up before the listeners at lines 97-98 are attached. The model takes each modelled function as it would behave when called. `checkUsername` (line 11) is commented out.
