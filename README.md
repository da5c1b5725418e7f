# Calorie tracker state machine, in Dafny

A model of the calorie intake tracker widget (`src/App.jsx`). The widget keeps
an ordered, never-empty list of daily calorie entries. It shows that list seven
entries per page, with a cursor that selects one entry and a staged value for
that entry. Against a caloric limit it reports:

- per row, the signed distance from the limit;
- per page, the sum of `calories - limit`;
- globally, how many entries are in deficit and how many in surplus.

Once the JSX and the React hooks are taken away, what remains is:

- five state variables (`entries`, the page index, the cursor, the staged value and the limit);
- the actions that change them (add an entry, apply the staged value, step the cursor, page back and forth, type a value, set the limit);
- the values derived from them on each render.

The project has two modules:

- `CalorieLedger` (`ledger.dfy`) holds the pure part. It has the `Entry` record and `sum` as a left fold. It also has the window slice with JavaScript's clamping `slice` semantics, the window's caloric status and the page count `floor(N / 7) + 1`. Last come the per-row sign rule and the function specifications of the two global counts. Beside them are lemmas: additivity of `sum`, the window length and contents, which page shows a given entry, paging covers every entry exactly once, the extra empty trailing page, and the counting rule with its boundary asymmetry.
- `CalorieTracker` (`tracker.dfy`) holds the class `Tracker`. Its fields are the five state variables, and its invariant `Valid()` says three things: the list is non-empty, the cursor names an entry, and `page <= floor(N / 7)`. Each action is a method whose `ensures` gives the whole new state. The deficit/surplus `for` loop is the method `Tally`, proved against the count specifications. The disabled-button guards of the source are the `requires` clauses of the navigation methods.

Two things the code allows that one might not expect:

- Entry values and the limit may be negative. The inputs' `min={0}` is only a hint, and `parseInt("-5", 10) || 0` is `-5`.
- The page can reach `floor(N / 7)`, not only `floor((N - 1) / 7)`. So when `N` is a multiple of seven, the Next button leads to an empty page (`LastPageEmptyIffMultiple`).

The method `CalorieTracker.ScenarioAddAndApply` is a worked example proved by its own assertions. It starts a fresh tracker with one 0-calorie entry and the limit 2000. It adds an entry, stages 2500 and applies it. It then proves that each count holds one entry, that the new row shows `+500`, and that the page status is -1500.

## Model

| member | source | states |
|---|---|---|
| `CalorieLedger.Sum` | src/App.jsx:9-11 | `sum`, the left-to-right `reduce` from 0; its own contract: a sum of non-positive terms is at most 0 and a sum of positive terms is at least their number; additivity and fold order are `SumConcat` and `SumAgreesWithFrontFold` |
| `CalorieLedger.SumConcat` | src/App.jsx:9-11 | `sum` is additive over concatenation: the sum of `a + b` is the sum of `a` plus the sum of `b` |
| `CalorieLedger.SumAgreesWithFrontFold` | src/App.jsx:9-11 | the left-fold `reduce` gives the same total as a fold from the front, so the order of addition does not matter |
| `CalorieLedger.Deltas` | src/App.jsx:56 | the `map(({ calories }) => calories - caloricLimit)` over the window: one term per entry, and a term is at most 0 exactly when its entry counts as deficit under `<=` |
| `CalorieLedger.WindowStatus` | src/App.jsx:56 | the window status, `sum` of the deltas: at most 0 (deficit) when no entry exceeds the limit, at least the window length (surplus) when every entry exceeds it; its concatenation and closed form are `WindowStatusConcat` and `WindowStatusIsTotalMinusLimits` |
| `CalorieLedger.WindowStatusConcat` | src/App.jsx:56 | the caloric status of two adjacent runs of entries is the sum of their statuses |
| `CalorieLedger.WindowStatusIsTotalMinusLimits` | src/App.jsx:56 | a window's status equals its total calories minus the limit once per entry |
| `CalorieLedger.Slice` | src/App.jsx:54 | JavaScript `slice(start, end)` for non-negative bounds: the length is `max(0, min(end, N) - start)` and element `i` is `s[start + i]` |
| `CalorieLedger.Window` | src/App.jsx:54 | the page-`p` window holds `min(7, max(0, N - 7p))` entries, and its row `i` is entry `7p + i` |
| `CalorieLedger.PageCount` | src/App.jsx:51 | `sevenEntryWindowCount` is at least 1, and the last page starts at or before index `N` and ends after it, i.e. it is `floor(N / 7) + 1` |
| `CalorieLedger.WindowEmptyIff` | src/App.jsx:54 | a page's window is empty exactly when the page starts at or past the end of the list (`7 * page >= N`) |
| `CalorieLedger.LastPageEmptyIffMultiple` | src/App.jsx:51-54 | the last page Next can reach (`sevenEntryWindowCount - 1`) is empty exactly when `N` is a multiple of 7 |
| `CalorieLedger.EntryOnItsPage` | src/App.jsx:32 | entry `i` appears on page `floor(i / 7)`, in row `i % 7`, which is why add and move turn to that page |
| `CalorieLedger.PagedIsPrefix` | src/App.jsx:54 | the windows of the first `k` pages, laid end to end, are exactly the first `min(7k, N)` entries in order |
| `CalorieLedger.PagesCoverEntries` | src/App.jsx:51-54 | paging from page 0 to the last page shows every entry exactly once, in order |
| `CalorieLedger.RowMarkOf` | src/App.jsx:108-111 | a row shows the green `-(limit - calories)` exactly when `calories < limit`, with a positive amount; otherwise it shows the red `+(calories - limit)`; either way the displayed signed value is `calories - limit` |
| `CalorieLedger.InDeficit` | src/App.jsx:66 | the count loop's test `calories <= caloricLimit`; its contract ties it to the row rule: in deficit exactly when the row is green (`<`) or the entry sits on the limit |
| `CalorieLedger.DeficitCount` | src/App.jsx:61-71 | the number of entries the loop puts in deficit, counted in list order; at most the number of entries; also `CountsPartition`, `CountsExtremes`, `CountsAppend`, `DeficitCountUpdate` and `Tracker.Tally` |
| `CalorieLedger.SurplusCount` | src/App.jsx:61-71 | the number of entries the loop puts in surplus (the `else` branch, strict `>`); at most the number of entries; also `CountsPartition`, `CountsExtremes`, `CountsAppend` and `Tracker.Tally` |
| `CalorieLedger.CountsPartition` | src/App.jsx:61-74 | every entry is counted exactly once: `inDeficit + inSurplus == N` |
| `CalorieLedger.CountsExtremes` | src/App.jsx:65-71 | all entries count as deficit iff none is above the limit (`<=`), and all count as surplus iff every one is above it |
| `CalorieLedger.CountsAppend` | src/App.jsx:23-27 | appending an entry adds one to exactly one count: deficit if it is at or under the limit, surplus otherwise |
| `CalorieLedger.DeficitCountUpdate` | src/App.jsx:35-41 | replacing one entry changes the deficit count only by the old and new classification of that entry |
| `CalorieLedger.RowAndCountDisagreeOnlyAtLimit` | src/App.jsx:66 | the per-row test (`<`) and the global count (`<=`) classify an entry differently exactly when `calories == limit`, and then the row shows `+0` |
| `CalorieLedger.AllAtLimit` | src/App.jsx:61-74 | if every entry equals the limit, every one counts as deficit and none as surplus, while every row shows `+0` |
| `CalorieTracker.Tracker.VisibleWindow` | src/App.jsx:53-54 | the window part of the memo, from the current state: exactly `min(7, max(0, N - 7 * page))` rows, row `i` being entry `7 * page + i` |
| `CalorieTracker.Tracker.VisibleStatus` | src/App.jsx:53-59 | the status part of the memo, from the current entries, page and limit: the rows' total calories minus the limit once per row |
| `CalorieTracker.Tracker.constructor` | src/App.jsx:14-21 | the initial state: one zero entry, page 0, cursor 0, staged value 0, limit 2000, and the invariant holds |
| `CalorieTracker.Tracker.AddNewEntry` | src/App.jsx:23-33 | one zero entry is appended and nothing before it changes; the cursor is the old length, the staged value is 0, the page is `floor(oldLength / 7)`, so the new entry is on the page shown; the limit is unchanged and the invariant holds; the deficit count grows by one exactly when the zero entry is at or under the limit |
| `CalorieTracker.Tracker.ApplyCaloricChange` | src/App.jsx:35-41 | the list is the old list with only the cursor's entry replaced by the staged value (same length); nothing else changes; the deficit count moves by that one entry alone |
| `CalorieTracker.Tracker.ChangeCurrentEntry` | src/App.jsx:43-49 | under the button guards (-1 not at index 0, +1 not at N-1; src/App.jsx:145-148) the cursor becomes `cursor + direction` and stays in `[0, N)`; the staged value is that entry's calories; the page is `floor(cursor / 7)`, which shows the entry; entries and limit are untouched |
| `CalorieTracker.Tracker.PreviousPage` | src/App.jsx:84 | Previous, disabled on page 0, decrements the page and keeps the invariant |
| `CalorieTracker.Tracker.NextPage` | src/App.jsx:87-89 | Next, disabled on page `sevenEntryWindowCount - 1`, increments the page and keeps `page <= floor(N / 7)` |
| `CalorieTracker.Tracker.EditValue` | src/App.jsx:141 | typing stages the parsed value (any integer) and changes nothing else |
| `CalorieTracker.Tracker.SetCaloricLimit` | src/App.jsx:158 | typing in the limit field sets the limit to the parsed value (any integer) and changes nothing else |
| `CalorieTracker.Tracker.Tally` | src/App.jsx:61-74 | the count loop's two counters equal the deficit (`<=`) and surplus counts over the whole list, which depend on the list and the limit only and add up to `N` |

## Left out

- Rendering: the JSX markup (src/App.jsx:76-168) and the imported UI components (src/App.jsx:3-7) are presentation. That includes the "Deficit:"/"Surplus:" label under the table (status `<= 0` reads as deficit), the empty input shown for 0 and the 1-based row labels.
- React state and memoisation: the hooks become fields, and the derived values are functions of the current state (`VisibleWindow`, `VisibleStatus`) or the read-only method `Tally`. The window memo's dependency list (src/App.jsx:59) leaves out `caloricLimit`. So in the running widget, the page total can stay stale after the limit changes until the entries or the page change. The model always computes it from the current limit and does not reproduce the stale value.
- React batches the several state setters of one handler into a single update. The model performs them as one method, which has the same final state.
- Number parsing: `parseInt(text, 10) || 0` is JavaScript string parsing. Its result is an arbitrary `int` parameter of `EditValue` and `SetCaloricLimit`.
- Number width: JavaScript numbers are doubles. The model uses unbounded integers and does not capture loss of precision for sums beyond 2^53.
- CalorieTracker.Tracker.ChangeCurrentEntry: calls outside the button guards are not modelled. Direction -1 at index 0 would read `entries[-1]` and +1 at the last index would read `entries[N]`; both are `undefined`, so `undefined.calories` throws a TypeError (src/App.jsx:47). The source never makes such calls. The guards are its `requires` clauses.
