# Route conversion script, modelled in Dafny

`complete-conversion.py` helps move an Express server from a synchronous
SQLite client to an asynchronous PostgreSQL client. Its logic has two parts,
and this project models both.

- **`convert_route_to_async`** rewrites the text of a route handler. It applies
  seven regular-expression substitutions in a fixed order. Each one uses
  Python's `re.sub` semantics: leftmost matches, never overlapping, and the scan
  resumes after each replacement.
  1. `(req, res) =>` and `(req, res, next) =>` become `async (...) =>`.
  2. `function (req, res)` becomes `async function (req, res)`.
  3. `db.prepare(X).get(Y)` becomes `await db.getOne(X, [Y])`.
  4. `db.prepare(X).all(Y)` becomes `await db.getAll(X, [Y])`.
  5. `const s = db.prepare(X); s.run(Y)` becomes `await db.run(X, [Y])`.
  6. `db.prepare(X).run(Y)` becomes `await db.run(X, [Y])`.
  7. `result.changes` becomes `result.rowCount`.
- **The progress report in `main`** counts matches of two patterns in the
  server file with `len(re.findall(...))`. Both are single-line heuristics. A
  match starts at `app.get(`, `app.post(`, `app.put(` or `app.delete(`. It
  runs through the first comma after that opening, which may lie on a later
  line. It then needs `(req, res` further along that comma's line: the lazy
  `.*?` does not cross a newline. The second pattern needs `async (req, res`
  there instead. So `app.get('/x',\n(req, res) => 1)` is not counted. Any `(req, res`
  on that line completes a match, even one inside another argument. From the two counts the
  script prints the remaining count and the percentage, `async*100//total`.

The project has these modules:

- `Text` holds prefix tests, the regex character classes and the greedy run
  `k*`.
- `Rules` has one parser per pattern. Each parser is paired with a printer,
  and both directions are proved: a parse re-prints to its input, and a
  printed well-formed capture parses back to itself.
- `Rewrite` holds the `re.sub` scan and what each rule does to the text it
  matches.
- `Untouched` holds what the rules leave alone: near misses such as a
  prepared call with another verb, a handler without `=>`, or a statement
  binding whose `.run(` is on another identifier.
- `FieldRename` holds rule 7 and its length, completeness and round-trip
  properties.
- `Convert` chains the seven rules.
- `Arithmetic` and `Progress` hold the route counter and the report.
- `RouteFile` describes server files written as one route declaration per
  line. It computes their counts and report exactly: `N` declarations, `K` of
  them `async`, give the report `N`, `K`, `N - K` and `K*100//N`.

The regular expressions are not interpreted by a general engine. Each one is
written out as a deterministic parser. This is exact for these patterns:
- every greedy part stops at a character the next part cannot accept, so
  backtracking never finds a second split;
- the two alternatives of `(?:, next)?` exclude each other;
- no pattern can match the empty text.

Character classes follow Python's `re` on `str` patterns:
- `\s` is the set of characters for which `str.isspace` holds;
- `.` is any character except a newline;
- `[^)]` and `[^,]` do include newlines.

One might expect rules 1 and 2 to skip a handler that is already marked
`async`, so that running the conversion twice would change nothing. The code
has no such check: `async (req, res) =>` becomes `async async (req, res) =>`.
`Rewrite.ArrowNotIdempotent` and `Rewrite.KeywordNotIdempotent` prove the
double marking.

## Model

| member | source | states |
|---|---|---|
| `Rules.ParamList` | complete-conversion.py:15 | A parameter-list match is `(req, res)` or `(req, res, next)`, and the input is exactly that list followed by the rest. |
| `Rules.ParamListParses` | complete-conversion.py:15 | Either parameter list, followed by anything, is recognised with exactly that capture. The longer alternative is tried first, and the two never both match. |
| `Rules.ArrowMatch` | complete-conversion.py:15 | A rule-1 match consists of a valid parameter list, whitespace and `=>`, and re-prints to the input. |
| `Rules.ArrowParses` | complete-conversion.py:15 | Every well-formed arrow handler text matches rule 1 with exactly its own parameters, whitespace and rest. |
| `Rules.KeywordMatch` | complete-conversion.py:21 | A rule-2 match consists of `function`, whitespace and a valid parameter list, and re-prints to the input. |
| `Rules.KeywordParses` | complete-conversion.py:21 | Every well-formed `function (...)` text matches rule 2 with exactly its own parts. |
| `Rules.Statement` | complete-conversion.py:28 | A match of `db.prepare(X)` has a non-empty X with no `)`, and re-prints to the input. |
| `Rules.StatementParses` | complete-conversion.py:28 | `db.prepare(X)` for any non-empty X without `)` is recognised with capture X. |
| `Rules.Arguments` | complete-conversion.py:28 | A match of `Y)` has a Y with no `)`, possibly empty, and re-prints to the input. |
| `Rules.ArgumentsParse` | complete-conversion.py:28 | Any Y without `)`, followed by `)`, is recognised with capture Y. |
| `Rules.PreparedCall` | complete-conversion.py:28 | A match of `db.prepare(X).<verb>(Y)`, the pattern shared by rules 3, 4 and 6, captures a valid X and Y and re-prints to the input. |
| `Rules.PreparedCallParses` | complete-conversion.py:28 | Every well-formed prepared call with the given verb matches with exactly its own X, Y and rest. |
| `Rules.BoundStatement` | complete-conversion.py:42 | The part after `=` in rule 5 captures whitespace, a statement, whitespace and arguments, and the `.run(` call is on the given name. |
| `Rules.BoundStatementParses` | complete-conversion.py:42 | Every well-formed `= db.prepare(X); name.run(Y)` tail parses back to its own parts. |
| `Rules.BoundRun` | complete-conversion.py:42 | A rule-5 match captures a non-empty word as the name and the same name again at `.run(`, the back-reference, and re-prints to the input. |
| `Rules.BoundRunParses` | complete-conversion.py:42 | Every well-formed `const s = db.prepare(X); s.run(Y)` text matches rule 5 with exactly its own parts. |
| `Rewrite.MatchAt` | complete-conversion.py:14-58 | A match of any of the seven rules starts with that rule's literal trigger and consumes at least one character. |
| `Rewrite.Substitute` | complete-conversion.py:14-58 | `re.sub` with one rule leaves text in which the rule's trigger never occurs unchanged. |
| `Rewrite.CopiesUntriggered` | complete-conversion.py:14-58 | Text without the first character of the trigger is copied through verbatim, and the scan continues after it. |
| `Rewrite.CopiesUnmatched` | complete-conversion.py:14-58 | A stretch at none of whose positions the rule matches, even a match running on past its end, is copied through verbatim, and the scan continues after it. |
| `Rewrite.UnmatchedUnchanged` | complete-conversion.py:14-58 | `re.sub` returns a text unchanged when the rule matches at none of its positions. |
| `Rewrite.SkipsFailedMatch` | complete-conversion.py:14-58 | A stretch where the rule fails at the first position, and which holds no other start of the trigger, is copied through verbatim. |
| `Rewrite.CopiesTriggerFree` | complete-conversion.py:14-58 | A stretch holding no start of the trigger, not even one running on past its end, is copied through verbatim. |
| `Rewrite.ArrowHit` | complete-conversion.py:14-18 | At a well-formed arrow handler, rule 1 matches the whole handler. Its replacement is `async (<params>) =>` and the scan resumes right after the `=>`. |
| `Rewrite.KeywordHit` | complete-conversion.py:20-24 | At `function <ws>(<params>)`, rule 2 matches up to the closing parenthesis. Its replacement is `async function (<params>)`. |
| `Rewrite.GetHit` | complete-conversion.py:27-31 | At `db.prepare(X).get(Y)`, rule 3 matches the whole call. Its replacement is `await db.getOne(X, [Y])`. |
| `Rewrite.AllHit` | complete-conversion.py:34-38 | At `db.prepare(X).all(Y)`, rule 4 matches the whole call. Its replacement is `await db.getAll(X, [Y])`. |
| `Rewrite.BoundRunHit` | complete-conversion.py:41-45 | At `const s = db.prepare(X); s.run(Y)`, rule 5 matches both statements. Its replacement is `await db.run(X, [Y])`. |
| `Rewrite.InlineRunHit` | complete-conversion.py:47-51 | At `db.prepare(X).run(Y)`, rule 6 matches the whole call. Its replacement is `await db.run(X, [Y])`. |
| `Rewrite.ArrowRewrite` | complete-conversion.py:14-18 | After any text where rule 1 matches nowhere, a handler `(<params>) <ws>=>` becomes `async (<params>) =>`, with the whitespace dropped. The text before it is kept, and the rest is rewritten on its own. |
| `Rewrite.KeywordRewrite` | complete-conversion.py:20-24 | After any text where rule 2 matches nowhere, `function <ws>(<params>)` becomes `async function (<params>)`. The text before it is kept, and the rest is rewritten on its own. |
| `Rewrite.GetRewrite` | complete-conversion.py:27-31 | After any text where rule 3 matches nowhere, `db.prepare(X).get(Y)` becomes `await db.getOne(X, [Y])`, with X and Y carried over verbatim. |
| `Rewrite.AllRewrite` | complete-conversion.py:34-38 | After any text where rule 4 matches nowhere, `db.prepare(X).all(Y)` becomes `await db.getAll(X, [Y])`, with X and Y carried over verbatim. |
| `Rewrite.BoundRunRewrite` | complete-conversion.py:41-45 | After any text where rule 5 matches nowhere, `const s = db.prepare(X); s.run(Y)` collapses into `await db.run(X, [Y])`, and the binding name disappears. |
| `Rewrite.InlineRunRewrite` | complete-conversion.py:47-51 | After any text where rule 6 matches nowhere, `db.prepare(X).run(Y)` becomes `await db.run(X, [Y])`, with X and Y carried over verbatim. |
| `Rewrite.ArrowMarksAgain` | complete-conversion.py:14-18 | An arrow handler already preceded by `async ` is rewritten anyway, so `async` appears twice. |
| `Rewrite.KeywordMarksAgain` | complete-conversion.py:20-24 | A `function` handler already preceded by `async ` is rewritten anyway, so `async` appears twice. |
| `Rewrite.ArrowNotIdempotent` | complete-conversion.py:14-18 | Rule 1 applied to `(req, res) =>` gives `async (req, res) =>`. Applied again, it gives `async async (req, res) =>`. |
| `Rewrite.KeywordNotIdempotent` | complete-conversion.py:20-24 | Rule 2 applied twice to `function (req, res)` gives `async async function (req, res)`. |
| `Rewrite.RouteHandlerMarked` | complete-conversion.py:14-18 | In `app.get('/x', (req, res) => 1)`, rule 1 rewrites only the handler, giving `app.get('/x', async (req, res) => 1)`. |
| `Rewrite.RouteOpeningCopied` | complete-conversion.py:14-18 | The registration's opening `app.get('/x', ` is copied, and rule 1 scans on after it. |
| `Rewrite.LastHandlerMarked` | complete-conversion.py:14-18 | A handler followed by text without another trigger gains its `async`, and that text is copied. |
| `Rewrite.RunTargetMismatch` | complete-conversion.py:42 | A call on one identifier never spells a call on a different identifier. |
| `Rewrite.BoundStatementNeedsSameName` | complete-conversion.py:42 | The back-reference fails when the `.run(` call is on a different identifier than the one bound. |
| `Rewrite.OtherTargetNotBound` | complete-conversion.py:41-45 | `const s = db.prepare(X); t.run(Y)` with `t` different from `s` is not matched by rule 5. |
| `Rewrite.SemicolonStopsInlineRun` | complete-conversion.py:47-51 | `db.prepare(X);` is not followed by `.run(`, so rule 6 does not match there. |
| `Untouched.StatementFailsAt` | complete-conversion.py:27-51 | At every position inside `db.prepare(X)` that is not followed by `.<verb>(`, the prepared-call pattern fails, because `[^)]+` stops at the same closing `)`. |
| `Untouched.StatementUnmatched` | complete-conversion.py:27-51 | Rules 3, 4 and 6 match nowhere inside a statement that is not followed by their own `.<verb>(`. |
| `Untouched.StatementCopied` | complete-conversion.py:27-51 | Such a statement is copied through whole, whatever X holds, and the scan resumes after its `)`. |
| `Untouched.OtherVerbCopied` | complete-conversion.py:27-51 | Each of rules 3, 4 and 6 leaves the prepared calls with the other two verbs alone. For example, rule 3 keeps `db.prepare(X).all(` and rewrites only inside the arguments and after them. |
| `Untouched.ParamsWithoutArrowFail` | complete-conversion.py:14-18 | A parameter list not followed by whitespace and `=>` is not matched by rule 1. |
| `Untouched.ArrowSkipsKeywordHandler` | complete-conversion.py:14-18 | Rule 1 leaves `function (req, res)` alone when no `=>` follows it, and scans on after the parameter list. |
| `Untouched.KeywordSkipsArrowHandler` | complete-conversion.py:20-24 | Rule 2 leaves an arrow handler alone up to its `=>`. |
| `Untouched.BoundRunSkipsOtherTarget` | complete-conversion.py:41-45 | Rule 5 leaves `const s = db.prepare(X); t.run(Y)`, with `t` not `s`, unchanged up to what follows it. |
| `Untouched.OtherRunFails` | complete-conversion.py:47-51 | Rule 6 does not match at `db.prepare(X);`, because a `;` follows the statement, not `.run(`. |
| `Untouched.InlineRunSkipsBinding` | complete-conversion.py:47-51 | Rule 6 also leaves `const s = db.prepare(X); t.run(Y)` unchanged up to what follows it, whatever `t` is. |
| `FieldRename.SubstituteIsRename` | complete-conversion.py:54-58 | Rule 7 under `re.sub` is exactly a left-to-right scan that replaces each `result.changes`. |
| `FieldRename.RenameLength` | complete-conversion.py:54-58 | The output is as long as the input plus one character per non-overlapping `result.changes`, as counted by `str.count`. |
| `FieldRename.NoChangesLeft` | complete-conversion.py:54-58 | No `result.changes` remains anywhere in the output, including any formed across a replacement boundary. |
| `FieldRename.RenameRoundTrip` | complete-conversion.py:54-58 | On input without `result.rowCount`, renaming every `result.rowCount` back gives the input. So nothing but the field name changes. |
| `Convert.ConvertRouteToAsync` | complete-conversion.py:10-63 | The converted route never contains `result.changes`, and a route containing none of the seven triggers is returned unchanged. |
| `Text.TakeRun` | complete-conversion.py:42 | The greedy `\s*` / `\w+` run splits the input into a prefix drawn from the class and a rest that does not continue it. |
| `Text.TakeRunSplit` | complete-conversion.py:42 | A class run followed by a character outside the class is split exactly there. |
| `Progress.VerbCall` | complete-conversion.py:80-81 | What is found at a position is exactly one of `app.get(`, `app.post(`, `app.put(` or `app.delete(`, ending at the position returned. |
| `Progress.VerbCallAt` | complete-conversion.py:80-81 | Each of the four openings at a position is found there, with exactly its own end, so `VerbCall` misses no route opening. |
| `Progress.VerbCallShape` | complete-conversion.py:80-81 | A verb call starts with `a` and has no comma and no further `a` inside it, so two route matches never start in the same call. |
| `Progress.FirstComma` | complete-conversion.py:80-81 | The comma `[^,]+,` stops at lies inside the text at or after the start. |
| `Progress.FirstCommaIsFirst` | complete-conversion.py:80-81 | The comma found is a comma, no comma comes before it, and when there is no comma at all none is found. |
| `Progress.FirstCommaAt` | complete-conversion.py:80-81 | Conversely, a comma with no comma before it is the one found. |
| `Progress.FindMarker` | complete-conversion.py:80-81 | The lazy `.*?` stops at a position where the marker still fits in the text. |
| `Progress.FindMarkerFound` | complete-conversion.py:80-81 | The lazy `.*?` stops at the first occurrence of the marker, and crosses no newline to reach it. |
| `Progress.FindMarkerLeftmost` | complete-conversion.py:80-81 | No occurrence of the marker lies between the search start and the position found. |
| `Progress.FindMarkerReaches` | complete-conversion.py:80-81 | If the marker occurs further on with no newline before it, the search succeeds, at that occurrence or an earlier one. |
| `Progress.FindMarkerAt` | complete-conversion.py:80-81 | An occurrence of the marker with no newline and no other occurrence before it is exactly the one found. |
| `Progress.RouteAt` | complete-conversion.py:80-81 | A route match is at least `10 + len(marker)` characters long and ends inside the text. |
| `Progress.RouteParts` | complete-conversion.py:80-81 | A match at `i` has three parts. First comes one of the four verb openings. Then a non-empty run ends at the first comma after it. Then comes the nearest occurrence of the marker after that comma with no newline before it, and the match ends after the marker. |
| `Progress.RouteFromParts` | complete-conversion.py:80-81 | Conversely, text with those parts is matched at `i` with exactly those positions. |
| `Progress.FindMarkerStops` | complete-conversion.py:80-81 | The lazy `.*?` finds nothing when a newline or the end of the text comes before any occurrence of the marker. |
| `Progress.StopsBeforeMarker` | complete-conversion.py:80-81 | A verb call and its comma followed by no marker before the end of the line give no match. |
| `Progress.CountSkips` | complete-conversion.py:80-81 | `findall` passes over positions where the pattern does not match without counting anything. |
| `Progress.CountFrom` | complete-conversion.py:80-81 | `len(re.findall(...))` from a position, times the minimum match length, never exceeds the remaining text length, because matches do not overlap. |
| `Progress.CountedRouteExists` | complete-conversion.py:80-81 | A count that is not zero has a match somewhere behind it. |
| `Progress.CountFindsRoute` | complete-conversion.py:80-81 | Where the pattern matches somewhere at or after the start, the count is not zero. |
| `Progress.CountPositive` | complete-conversion.py:80-81 | The count is zero exactly when the pattern matches at no position. |
| `Progress.TotalRoutes` | complete-conversion.py:80 | `all_routes` is at most a nineteenth of the file's length, and it is zero exactly when the line-80 pattern, ending in `(req, res`, matches at no position. |
| `Progress.AsyncRoutes` | complete-conversion.py:81 | `async_routes` is at most a twenty-fifth of the file's length, and it is zero exactly when the line-81 pattern, ending in `async (req, res`, matches at no position. |
| `Progress.AsyncAtMostTotal` | complete-conversion.py:80-81 | A file never counts more async routes than routes. |
| `Progress.ProgressReport` | complete-conversion.py:80-86 | The report gives both counts and `remaining = total - async`, which lies between 0 and total. The percentage is a division by zero exactly when no route is found. Otherwise it is the floor of `async*100/total`, between 0 and 100, and 100 exactly when the two counts are equal. |
| `RouteFile.VerbCallSuffix` | complete-conversion.py:80-81 | The verb-call test at a position reads only the text from that position on. |
| `RouteFile.FirstCommaSuffix` | complete-conversion.py:80-81 | The search for the first comma reads only the text from its start on. |
| `RouteFile.FindMarkerSuffix` | complete-conversion.py:80-81 | The lazy marker search reads only the text from its start on. |
| `RouteFile.RouteSuffix` | complete-conversion.py:80-81 | A match at a position of a suffix is the match at the corresponding position of the whole text, moved along, and a miss is a miss there too. |
| `RouteFile.CountSuffix` | complete-conversion.py:80-81 | The number of matches from a position does not depend on the text before that position. |
| `RouteFile.NoRouteInside` | complete-conversion.py:80-81 | In a well-formed declaration that ends its line, or ends the file, no match starts after its first character, whatever follows it. |
| `RouteFile.DeclMatch` | complete-conversion.py:80-81 | Both patterns match a declaration with an `async` handler, and the total pattern matches one without it. The match runs from the opening through the path's comma to the end of the handler's `(req, res`. |
| `RouteFile.DeclNoAsyncMatch` | complete-conversion.py:81 | The async pattern does not match a declaration whose handler is not `async`, because its search stops at the end of the line. |
| `RouteFile.DeclCount` | complete-conversion.py:80-81 | A declaration at the head of a file that ends its line, or the file, adds one to the total count, and one to the async count exactly when its handler is `async`. What follows it is counted as if it stood alone. |
| `RouteFile.CountPastPrefix` | complete-conversion.py:80-81 | When no match starts inside the first `n` characters except at the start, the count is that match, if any, plus the count of the rest. |
| `RouteFile.FileCounts` | complete-conversion.py:80-81 | A file of declarations, one to a line, counts each declaration once in the total and its async handlers in the async count. |
| `RouteFile.FileReport` | complete-conversion.py:80-86 | For such a file of `N` declarations, `K` of them `async`, the report is `N`, `K`, `N - K` and `K*100//N`, or a division by zero when `N` is 0. |
| `RouteFile.HeaderSkipped` | complete-conversion.py:80-81 | Set-up code before the first route that holds no `app.` and ends its line adds nothing to either count. |
| `RouteFile.ServerFileReport` | complete-conversion.py:80-86 | For such set-up code followed by `N` declarations, `K` of them `async`, the report is `N`, `K`, `N - K` and `K*100//N`, or a division by zero when `N` is 0. |
| `RouteFile.PlainRouteReport` | complete-conversion.py:80-86 | The file `app.get('/x', (req, res) => { db.prepare('SELECT 1').get() })` reports 1 route, 0 async, 1 remaining and 0%. |
| `RouteFile.AsyncRouteReport` | complete-conversion.py:80-86 | The same file with `async (req, res)` reports 1 route, 1 async, 0 remaining and 100%. |
| `Progress.FloorPercent` | complete-conversion.py:86 | `converted*100//total` is bracketed by floor division, lies in 0..100, and is 100 exactly when converted equals total. |

## Left out

- `RouteFile.FileReport`: the exact counts are stated for files of one declaration per line with only blanks between the path's comma and the handler. `RouteFile.ServerFileReport` also allows set-up code before the first declaration, as long as it holds no `app.` and ends its line. Code between or after the declarations is not covered, and neither is set-up code that mentions `app.`, such as `app.use(express.json());`. A handler that starts on a later line than that comma, which the script does not count, is not covered. Neither is a middleware before the handler, another `app.` inside a declaration, or `async (req, res` inside the body of a handler that is not `async`. The general bounds of `Progress.TotalRoutes`, `Progress.AsyncRoutes` and `Progress.ProgressReport` hold for every file.
- Reading `/data/ASM/server.js` and its `FileNotFoundError` exit (lines 72-77) are not modelled, because they are file I/O. The file contents are a parameter of `Progress.ProgressReport`.
- The banner and report `print` calls (lines 66-69 and 83-86) are not modelled. The report's figures are returned as values instead.
- The `ZeroDivisionError` on line 86, when no route is found, is a `ZeroDivision` value, not an exception. Total, async and remaining are still reported, because the script prints them before it fails.
- Step 6, `result.lastInsertRowid` (lines 60-61), is only a comment in the script, so there is nothing to model.
- `re.findall` returns the list of captured verbs. Only its length is used, so only the count is modelled.
- There is no general regular-expression engine: each of the nine patterns is a dedicated parser.
- Whether the rewritten text is valid JavaScript is not modelled, because the script does not check it either.
- `Rules.BoundRun`: Python's `\w` on `str` patterns also accepts non-ASCII letters and digits. The model accepts only ASCII letters, digits and `_`, because the Unicode category tables are not modelled. So a binding name with non-ASCII letters is not matched here, but would be by the script.
- `Rewrite.BoundRunRewrite`: this holds for ASCII binding names only, for the same reason.
- `Untouched.BoundRunSkipsOtherTarget`: this covers texts with no second `const` after the first character. A `const` inside the statement or the arguments could start a genuine rule-5 match, and what happens then is the business of `Rewrite.BoundRunRewrite`.
- `Untouched.InlineRunSkipsBinding`: this covers texts whose statement and call hold no second `db.prepare(`, for the same reason with rule 6.
- `Untouched.ArrowSkipsKeywordHandler`: this covers a `function` handler not followed by `=>`. `function (req, res) => ...` is not JavaScript, and rule 1 would rewrite it.
