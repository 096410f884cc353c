# History route of a process instance, modelled in Dafny

This project models the history-aggregation core of the cockpit plugin
`src/instance-route-history.tsx`. The plugin adds a history route for one
process instance and a toggle button on the runtime diagram. The model covers:

- **Route id extraction.** The route reads the instance id from the location
  hash. It takes the text after the first `/history/process-instance/` up to
  the next `/`, then cuts it at the first `?`. With no id, nothing is fetched
  or rendered.
- **Cross-references.** `new Map(...)` builds two lookup maps, decision by
  activity and activity by id. When a key repeats, the last entry wins.
- **Orderings.** Activities are sorted by effective end time, latest first.
  A running activity counts as ending "now". Variables are sorted by name in
  ordinal order. Both sorts are `Array.prototype.sort` calls: stable, with
  comparators that return 0 on ties.
- **Display derivations.** The version falls back to `7.15.0`. A missing
  business key, tenant id or super instance shows as `null`. The super
  instance is shown as a link to its history route. The runtime toggle is
  offered only for an `ACTIVE` instance.
- **The toggle's hash rewrite.** It keeps the part of `href` before the
  first `#`. It cuts the hash at its first `?`. It turns a leading
  `#/process-instance` into `#/history/process-instance`. It then turns the
  first `/runtime` into `/`.

Modules:

- `Optional` (`optional.dfy`): `Option` and JavaScript truthiness of an
  optional string.
- `Strings` (`strings.dfy`): the JavaScript string primitives the plugin uses.
  These are leftmost match, `split(c)[0]`, non-global `replace` and ordinal `<`.
- `StableSort` (`stable_sort.dfy`): sorting with a comparator as
  `Array.prototype.sort` does it. The lemmas prove the result is a
  permutation, in comparator order, and stable. They also prove that any
  stable sort gives this same result.
- `Index` (`index.dfy`): `new Map(entries)` with last-write-wins.
- `Routes` (`routes.dfy`): hash parsing, history links and the toggle rewrite.
- `History` (`history.dfy`): the entities, both comparators and sorts, both
  maps, the information panel, the assembled view and the route's render.
- `Scenarios` (`scenarios.dfy`): concrete cases derived from the general model.

The model follows the code of the toggle handler. The handler at lines 62-70
of `src/instance-route-history.tsx` rewrites a runtime-view hash
(`#/process-instance/42/runtime`) into a history-route hash
(`#/history/process-instance/42/`). `Scenarios.ToggleFromRuntimeView` and
`Scenarios.ToggleFromHistoryRoute` state what the code produces.

The `/runtime` replacement is not anchored to a path segment. An instance id
that itself starts with `runtime` therefore loses that part
(`Scenarios.RuntimeLikeIdIsCut`), so `Routes.ToggleLandsOnHistoryRoute`
excludes such ids. The engine's generated ids (numbers or UUIDs) never start
that way, so this is noted here rather than treated as a defect.

All operations are pure functions. Running the aggregation twice on the same
fetched data therefore gives the same maps and orderings.

## Model

| member | source | states |
|---|---|---|
| `Routes.ExtractInstanceId` | src/instance-route-history.tsx:89-92 | With no `/history/process-instance/` in the hash there is no id. Otherwise an id exists exactly when the character after the first marker exists and is neither `/` nor `?`. The id is the longest prefix of the text after the marker that contains neither `/` nor `?`, so it ends at the next `/` or `?` or at the end of the hash. |
| `Routes.RouteInstanceId` | src/instance-route-history.tsx:89 | A missing `window.location.hash` reads as `''` and yields no id. A present hash is parsed as above. |
| `Routes.HistoryLinkRoundTrip` | src/instance-route-history.tsx:172-177 | The link `#/history/process-instance/<id>` brings the route back to `<id>` for any non-empty id without `/` or `?`. This holds whatever path segment or query follows the id. |
| `Routes.RewriteHash` | src/instance-route-history.tsx:65-69 | The rewritten hash has no `?`. A hash starting with `#/process-instance` becomes one starting with `#/history/process-instance`, which the `/runtime` replacement cannot undo. A hash with neither a leading `#/process-instance` nor a `/runtime` keeps its query-free path unchanged. |
| `Routes.ToggleTarget` | src/instance-route-history.tsx:62-70 | Turning the toggle off navigates nowhere. Turning it on navigates to a URL made of two parts. The first is the longest prefix of `href` without `#`, which ends where `href` has its first `#`. The rest is the rewritten hash. |
| `Routes.ToggleLandsOnHistoryRoute` | src/instance-route-history.tsx:62-70 | From a runtime view `#/process-instance/<id>...`, the toggle's target hash makes the history route read the same `<id>`. This holds for any non-empty id without `/` or `?` that does not start with `runtime`, followed by nothing or by a tail beginning with `/` or `?`. |
| `Routes.RewriteRuntimeHash` | src/instance-route-history.tsx:64-69 | On a runtime-view hash `#/process-instance/<id><tail>` the toggle yields the history link of the same `<id>`. The link is followed by the tail, cut at its first `?`, with its first `/runtime` turned into `/`. This holds for ids without `/` or `?` that do not start with `runtime`, when the tail is empty or starts with `/` or `?`. |
| `Routes.RewriteHistoryHash` | src/instance-route-history.tsx:64-69 | On a hash that already is a history route of an id without `/` or `?` (and not starting with `runtime`), followed by nothing, a path or a query, the toggle keeps the route to the same id. It drops the query, and only the first `/runtime` after the id becomes `/`. |
| `Routes.HistoryLinkParses` | src/instance-route-history.tsx:89-92 | A history link for a non-empty id without `/` or `?` parses back to that id. |
| `Routes.NoRuntimeSegmentBeforeTail` | src/instance-route-history.tsx:69 | In `/<id><tail>`, a `/runtime` can start only in the tail. This holds when the id has no `/` and does not start with `runtime`, and the tail is empty or starts with `/`. |
| `Routes.ReplaceRuntimeAfterId` | src/instance-route-history.tsx:69 | On `#/history/process-instance/<id><tail>`, the first-`/runtime` replacement changes only the tail. This holds when the id has no `/` and does not start with `runtime`, and the tail is empty or starts with `/`. |
| `Strings.FindFirst` | src/instance-route-history.tsx:90 | The result is the leftmost index where the pattern occurs, or none when it occurs nowhere. This is where an unanchored regular expression for a literal matches. |
| `Strings.ReplacePrefix` | src/instance-route-history.tsx:68 | A `^`-anchored replace swaps a leading pattern for the replacement and keeps everything after it. A string that does not start with the pattern is left unchanged. |
| `Strings.TakeUntil` | src/instance-route-history.tsx:91 | `s.split(c)[0]` is a prefix of `s` without `c`. It stops at the first `c`, or at the end of `s`. |
| `Strings.ReplaceFirstReplacesLeftmost` | src/instance-route-history.tsx:68-69 | A non-global `replace` leaves the string alone when the pattern is absent. Otherwise it replaces exactly the leftmost occurrence and nothing else. |
| `Strings.ReplaceFirstAfter` | src/instance-route-history.tsx:69 | For an index `m` within the string, when the pattern does not start before `m`, the replacement leaves the first `m` characters untouched. |
| `Strings.LessAtFirstDifference` | src/instance-route-history.tsx:117-127 | String `<` holds exactly when `a` is a proper prefix of `b`, or when `a` has the smaller character at the first index where they differ. |
| `Strings.LessIrreflexive` | src/instance-route-history.tsx:117-127 | No name is below itself. |
| `Strings.LessAsymmetric` | src/instance-route-history.tsx:117-127 | Two names are never each below the other. |
| `Strings.LessTransitive` | src/instance-route-history.tsx:117-127 | String `<` is transitive. |
| `Strings.LessTotal` | src/instance-route-history.tsx:117-127 | Two names are equal or one is below the other. |
| `StableSort.Sort` | src/instance-route-history.tsx:106-127 | For a consistent comparator the result is a permutation of the input. The comparator never puts a later element ahead of an earlier one. Each group of tied elements keeps its input order. |
| `StableSort.InsertionSortCorrect` | src/instance-route-history.tsx:106-127 | For a consistent comparator, insertion sort has all three properties: permutation, comparator order and stability. |
| `StableSort.StableSortIsUnique` | src/instance-route-history.tsx:106-127 | For a consistent comparator, any arrangement in comparator order that keeps ties in input order equals `Sort`'s result. So the result does not depend on which stable algorithm the JavaScript engine uses. |
| `StableSort.SameTiesSameSequence` | src/instance-route-history.tsx:106-127 | For a consistent comparator, two sorted sequences with the same groups of ties, in the same orders, are equal. |
| `Index.FromEntriesKeys` | src/instance-route-history.tsx:102-105 | The keys of `new Map(entries)` are exactly the keys that occur among the entries. |
| `Index.FromEntriesLast` | src/instance-route-history.tsx:102-105 | A key's value is the value of the last entry with that key: a later entry overwrites an earlier one. |
| `Index.FromEntriesValues` | src/instance-route-history.tsx:102-105 | Every map entry comes from some input entry. |
| `History.EffectiveEnd` | src/instance-route-history.tsx:107-108 | An activity's effective end is its `endTime` when present, and `now` when it is still running. |
| `History.CompareByEndTime` | src/instance-route-history.tsx:106-116 | The comparator is negative exactly when `a` ends later than `b`, positive exactly when it ends earlier, and zero exactly on equal effective ends. It returns only -1, 0 or 1. |
| `History.ActivityOrderConsistent` | src/instance-route-history.tsx:106-116 | The activity comparator meets ECMAScript's consistency conditions. Swapping its arguments flips its sign. "Not after" is transitive, and so are ties. |
| `History.SortActivities` | src/instance-route-history.tsx:106-116 | The sorted activities are a permutation of the trace. Effective end times (`endTime`, or `now` when absent) do not increase along the result. Activities with the same effective end, including two running ones, keep their input order. |
| `History.ActivitySortIsDetermined` | src/instance-route-history.tsx:106-116 | Any arrangement ordered latest first that keeps equal-end activities in input order is the sorted trace. |
| `History.RunningActivitiesFirst` | src/instance-route-history.tsx:107-108 | When every finished activity ended before `now`, no finished activity precedes a running one. |
| `History.TiesEndTogether` | src/instance-route-history.tsx:109-115 | The activities the comparator ties with `x` are exactly those with `x`'s effective end time. |
| `History.CompareByName` | src/instance-route-history.tsx:117-127 | The comparator is negative exactly when `a`'s name is ordinally less than `b`'s, positive exactly when it is greater, and zero exactly on equal names. It returns only -1, 0 or 1. |
| `History.VariableOrderConsistent` | src/instance-route-history.tsx:117-127 | The variable comparator meets ECMAScript's consistency conditions. |
| `History.SortVariables` | src/instance-route-history.tsx:117-127 | The sorted variables are a permutation of the trace, with names ascending in ordinal order. Variables with the same name keep their input order. |
| `History.VariableSortIsDetermined` | src/instance-route-history.tsx:117-127 | Any arrangement with names ascending that keeps same-name variables in input order is the sorted trace. |
| `History.TiesShareName` | src/instance-route-history.tsx:117-127 | The variables the comparator ties with `x` are exactly those named like `x`. |
| `History.DecisionByActivity` | src/instance-route-history.tsx:102-104 | The keys are exactly the activity references that occur. An unlinked decision contributes the key None, as the code does not filter. Each key holds the id of the last decision with that reference. |
| `History.ActivityById` | src/instance-route-history.tsx:105 | The keys are exactly the activity ids. Each holds the last activity with that id. Every value is an activity of the trace, stored under its own id. |
| `History.ActivityByIdResolvesEach` | src/instance-route-history.tsx:105 | With unique ids, every activity of the trace is found under its own id. |
| `History.ActivityByIdIgnoresOrder` | src/instance-route-history.tsx:105-116 | With unique ids, a map built from any reordering of the trace equals the one built from the trace. In particular it equals a map built after the sort. |
| `History.DisplayVersion` | src/instance-route-history.tsx:130 | The shown version is never empty. It is the fetched version when that is a non-empty string, and `7.15.0` otherwise. |
| `History.OrNull` | src/instance-route-history.tsx:145-147 | An optional field prints as its value when non-empty, and as `null` otherwise. It never prints empty. |
| `History.SuperInstanceCell` | src/instance-route-history.tsx:172-177 | The cell is a link exactly when a super-instance id is present and non-empty. The link's text is that id. When the id contains no `/` or `?`, following the link routes back to that id. Otherwise the cell is the text `null`. |
| `History.Panel` | src/instance-route-history.tsx:139-183 | The panel shows the record's fields as fetched. Business key and tenant id go through the `null` fallback (lines 145-147, 165-167), so they are never empty. The super instance is shown as its cell. |
| `History.ShowRuntimeToggle` | src/instance-route-history.tsx:191 | The runtime toggle is offered if and only if the state is exactly `ACTIVE`. |
| `History.BuildView` | src/instance-route-history.tsx:102-191 | The view keeps the route's id and the fetched diagram. Its version is the displayed version, and its panel is the information panel of the fetched instance. Version, business key and tenant id are never empty, and the toggle is shown exactly for `ACTIVE`. The traces are the activity sort and the variable sort of what was fetched. Each is a permutation of its input, in sort order, with tied elements in fetched order. The maps are the decision map and the activity map of the fetched data. Every decision's reference is a decision-map key. With unique activity ids, every shown activity resolves to itself in the map built before the sort. |
| `History.SortedActivitiesResolve` | src/instance-route-history.tsx:105-116 | With unique ids, every activity of the sorted trace resolves to itself in the map built from the trace as fetched. |
| `History.RenderRoute` | src/instance-route-history.tsx:88-93 | With no id in the hash nothing is rendered. Otherwise the view is built for the id the hash names, which is non-empty and free of `/` and `?`. |
| `Scenarios.RunningActivitySortsFirst` | src/instance-route-history.tsx:106-116 | The activities A (ended 90000), B (running) and C (ended 95000), sorted at 100000, come out as B, C, A. |
| `Scenarios.EqualNamesKeepOrder` | src/instance-route-history.tsx:117-127 | The variables `b`, `a` (first), `a` (second) come out as `a` (first), `a` (second), `b`. |
| `Scenarios.LastDecisionWins` | src/instance-route-history.tsx:102-104 | Decisions d1 and d2 of activity x give the map x ↦ d2. |
| `Scenarios.IdBeforeQuery` | src/instance-route-history.tsx:90-91 | `#/history/process-instance/42?tab=variables` yields the id `42`. |
| `Scenarios.NoIdOnRuntimeView` | src/instance-route-history.tsx:90-92 | `#/process-instance/42/runtime` yields no id. |
| `Scenarios.NoIdWhenEmpty` | src/instance-route-history.tsx:91-92 | `#/history/process-instance/` yields no id. |
| `Scenarios.ToggleFromRuntimeView` | src/instance-route-history.tsx:65-69 | The toggle turns `#/process-instance/42/runtime?tab=variables` into `#/history/process-instance/42/`. |
| `Scenarios.ToggleFromHistoryRoute` | src/instance-route-history.tsx:65-69 | The toggle turns `#/history/process-instance/42/runtime` into `#/history/process-instance/42/`. |
| `Scenarios.RuntimeLikeIdIsCut` | src/instance-route-history.tsx:69 | The toggle turns `#/process-instance/runtimeX` into `#/history/process-instance/X`. |

## Left out

- Rendering is left out because it is user interface only. This covers React, `SplitPane`, the tabs, `Clippy`, `Page`, the breadcrumbs and the button container (lines 38-43, 52-58, 128-216). The model stops at the values these components receive.
- The definition history tab plugin (lines 22-46) is left out. It is one fetch with fixed query parameters followed by a render, with no logic.
- The `get` calls and `Promise.all` (lines 94-101) are network input/output and concurrency. Their results are inputs: the `Fetched` record and the `fetch` parameter of `History.RenderRoute`. The all-or-nothing failure behaviour of the six fetches is not modelled.
- Dates are modelled as integer milliseconds. `new Date(...)` parsing (lines 107-108) is left out. An invalid date compares false both ways, which would make the comparator inconsistent. This is not modelled.
- `new Date()` is read again on every comparison in the code. The model uses one fixed `now` per sort, because a clock that moves during the sort cannot be modelled as a pure function. The promise of `History.SortActivities` that two running activities keep their input order depends on this. If the clock ticks between the two reads at lines 107-108, the comparator returns 1 and the two can swap.
- `History.EffectiveEnd`: a falsy `endTime` (null, missing or the empty string) is modelled as None. Other falsy values are not modelled.
- `window.location` is left out. Its reads (lines 64-67, 89) become string parameters. The hard navigation assignment becomes the returned target URL.
- `Strings.Less`: compares Dafny characters, which are Unicode scalar values. JavaScript compares UTF-16 code units. The two orders differ only between a character above U+FFFF and one in U+E000–U+FFFF.
- `History.DecisionByActivity`: a JavaScript `Map` keeps `null` and `undefined` as two different keys. The model folds both into the single key None.
- `History.DisplayVersion`: only strings and absence are modelled as the version. Non-string falsy values from the version record are not modelled. The same holds for `History.OrNull`.
- The `processdefinitionid` casing slip at line 153 is left out. It only affects the value the copy button copies.
