# Crefinex dashboard: route guard and data-table decisions

This project models the two pieces of decision logic the Crefinex admin dashboard owns
itself.

* **The route guard** (`RouteGuard`, `route_guard.dfy`) is the request handler of the
  authentication middleware. It classifies the request path in three ways: an API-auth route
  by prefix, an auth route by exact membership in a list, and a public route the same way.
  It then lets the request pass, sends a logged-in user away from the login pages to the
  default page, or sends a logged-out user on a protected page to
  `/auth/login?callbackUrl=` followed by the encoded pathname and query. The route constants
  are a `Routes` parameter. `encodeURIComponent` is a function parameter `encode`, which the
  lemmas that need it assume to be injective.
* **The generic data table** (`DataTable`, `data_table.dfy`, with `JsSort`, `js_sort.dfy`)
  covers these rules:
  * which header gets a filter widget;
  * which widget a column gets: date range, numeric range or text;
  * the text widget's suggestion list: the sorted faceted values, capped at 5000;
  * the Min/Max updates of a `[min, max]` range filter;
  * `fuzzyFilter`, which the table registers as its column and global filter function;
  * `fuzzySort`, which is defined beside it but registered nowhere (the table options at
    data-table.tsx:156-186 name no sorting function), so the program never calls it;
  * the rebuild of the selected-rows list from the selection map, and the ids built from it
    for the bulk delete;
  * `isValidDate`.

  Cell values are `Num | DateV | Str | Null`. `rankItem`, the rank's `passed` flag,
  `compareItems` and `sortingFns.alphanumeric` are function parameters. The faceted values
  and the selected-row model's `rowsById` are inputs.

Two details of the filter widgets:

* The filter kind tests for a date in any row first. Only then does it test whether the
  first row's value (not the first non-empty one) is a number.
* The text filter's suggestion list is empty whenever the first value is a number.

## Model

| member | source | states |
|---|---|---|
| `RouteGuard.Guard` | src/middleware.ts:14-56 | An API-auth path always passes. A logged-in user is redirected only from an auth route, and only to the default page. A logged-out user is redirected only from a non-public path, and only to the login redirect carrying the callback. |
| `RouteGuard.RedirectsExactlyWhen` | src/middleware.ts:31-55 | The handler redirects if and only if the path is not API-auth, and either it is an auth route and the user is logged in, or it is neither auth nor public and the user is logged out. |
| `RouteGuard.AuthRouteOutcome` | src/middleware.ts:35-40 | On an auth route that is not API-auth, a logged-in user goes to `DEFAULT_LOGIN_REDIRECT` and a logged-out user passes, even when the route is also public. |
| `RouteGuard.ProtectedRouteOutcome` | src/middleware.ts:42-52 | A logged-out user on a path in none of the three classes is sent to `/auth/login?callbackUrl=` followed by the encoded pathname plus search. |
| `RouteGuard.PublicRoutePasses` | src/middleware.ts:18-55 | A public route that is not an auth route passes whatever the login state. |
| `RouteGuard.GuardOutcomes` | src/middleware.ts:31-55 | Every request gets exactly one of three outcomes: pass, the default-page redirect, or the login redirect. |
| `RouteGuard.ClassificationRules` | src/middleware.ts:17-19 | Every extension of the API-auth prefix is an API-auth route. Public and auth classification hold exactly when some list entry equals the pathname. These follow from the definitions and document the matching rules only. |
| `RouteGuard.CallbackUrl` | src/middleware.ts:43-46 | Appending the search only when it is non-empty gives exactly pathname + search. |
| `RouteGuard.LoginRedirect` | src/middleware.ts:48-52 | The login redirect's location is the login URL followed by the encoding of pathname + search. |
| `RouteGuard.CallbackUrlInjective` | src/middleware.ts:43-46 | For well-formed requests (no `?` in the pathname, search empty or starting with `?`), the callback determines both the pathname and the search. |
| `RouteGuard.LoginRedirectRecoversLocation` | src/middleware.ts:42-52 | With an injective encoding, two logged-out well-formed requests that get the same redirect asked for the same pathname and search. |
| `DataTable.ShowsFilter` | src/modules/common/components/table/data-table.tsx:234-235 | A filter widget is shown if and only if the column can be filtered and its id is not `id`, `actions` or `detalles`. |
| `DataTable.SomeDate` | src/modules/common/components/table/data-table.tsx:311-313 | True if and only if some pre-filtered row's value in the column is a date. |
| `DataTable.ChooseFilterKind` | src/modules/common/components/table/data-table.tsx:308-313 | Date range if and only if some value is a date. Numeric range if and only if no value is a date and the first row's value is a number. Text otherwise. |
| `DataTable.DateWinsOverNumber` | src/modules/common/components/table/data-table.tsx:324-409 | A date anywhere in the column selects the date widget even when the first value is a number. |
| `DataTable.SortedUniqueValues` | src/modules/common/components/table/data-table.tsx:316-322 | Empty when the first value is a number. Otherwise a sorted permutation of the faceted values. |
| `DataTable.Suggestions` | src/modules/common/components/table/data-table.tsx:439-442 | The options are the leading values of the sorted faceted values: at most 5000, sorted, each a faceted value. All of them when there are at most 5000, exactly 5000 when there are more, none when the first value is a number. |
| `DataTable.SuggestionsComeFirst` | src/modules/common/components/table/data-table.tsx:440 | Every rendered suggestion sorts before every value the 5000 cap cut off. |
| `DataTable.SetMin` | src/modules/common/components/table/data-table.tsx:417-419 | Editing Min sets the lower bound to the value and keeps the old upper bound, or leaves it `undefined` when there was no filter. |
| `DataTable.SetMax` | src/modules/common/components/table/data-table.tsx:428-430 | Editing Max sets the upper bound to the value and keeps the old lower bound, or leaves it `undefined` when there was no filter. |
| `DataTable.MinMaxIndependent` | src/modules/common/components/table/data-table.tsx:416-430 | Editing Min and Max, in either order, yields exactly the two entered bounds. |
| `DataTable.LastEditWins` | src/modules/common/components/table/data-table.tsx:416-430 | Two edits of the same bound leave the second value and do not disturb the other bound. |
| `DataTable.FuzzyFilter` | src/modules/common/components/table/data-table.tsx:65-76 | A row is kept if and only if `rankItem(cell, query).passed`. That rank is recorded as the row's filter meta for the column, and the other columns' meta is unchanged. |
| `DataTable.FuzzySort` | src/modules/common/components/table/data-table.tsx:78-91 | Without rowA meta for the column, the result is the alphanumeric comparison. With it, a zero rank comparison gives the alphanumeric comparison and a nonzero one is returned unchanged. |
| `DataTable.FuzzySortAntisymmetric` | src/modules/common/components/table/data-table.tsx:78-91 | If the rank and alphanumeric comparisons are antisymmetric and both rows (or neither) carry meta, swapping the rows negates the result. |
| `DataTable.FuzzySortAfterFilter` | src/modules/common/components/table/data-table.tsx:65-91 | After the fuzzy filter has ranked both rows, the sort compares exactly the two recorded ranks and falls back to alphanumeric exactly on a tie (the pairing the sort is written for; the program registers no sorting function, so it never runs). |
| `DataTable.FindByKey` | src/modules/common/components/table/data-table.tsx:143 | `prev.find(row => row.id === key)` finds the first row whose id is the string key, when only rows precede it. It finds nothing when every entry is a row with another id. Otherwise it throws on an `undefined` entry. |
| `DataTable.RebuildSelectedRows` | src/modules/common/components/table/data-table.tsx:138-146 | One entry per selection key, in key order. Each entry is the selected row with that id, else the previous list's match, else `undefined`. The rebuild throws exactly when some key's fallback search throws. |
| `DataTable.RebuildFromSelection` | src/modules/common/components/table/data-table.tsx:140-142 | When every key names a selected row, the list is exactly those rows, in key order. |
| `DataTable.RebuildTotalOnDefinedPrev` | src/modules/common/components/table/data-table.tsx:143 | A previous list without `undefined` entries never makes the rebuild throw. |
| `DataTable.FallbackOnlyRecoversStringIds` | src/modules/common/components/table/data-table.tsx:143 | The fallback can only recover a row whose id is the string key. A numeric id never matches, so that entry is `undefined`. |
| `DataTable.SelectedIds` | src/modules/common/components/table/data-table.tsx:201 | The ids in list order, one per entry. The mapping throws exactly when some entry is `undefined`. |
| `DataTable.IsValidDate` | src/modules/common/components/table/data-table.tsx:297-300 | `isValidDate` as written returns true for every input. |
| `DataTable.IsValidDateAcceptsUnparsable` | src/modules/common/components/table/data-table.tsx:297-300 | A string the date parser rejects (`"Invalid Date"`) is reported valid. |
| `DataTable.IsValidDateIntended` | src/modules/common/components/table/data-table.tsx:297-300 | The intended check: valid if and only if the parsed date has a time value. |
| `JsSort.Sort` | src/modules/common/components/table/data-table.tsx:320 | The comparator-less `.sort()` of the faceted values: each element is at most its successor, and the result is a permutation of the input. |
| `JsSort.SortedPairwise` | src/modules/common/components/table/data-table.tsx:320 | In the sorted list, every earlier element is at most every later one. |
| `JsSort.LexLeqAntisymmetric` | src/modules/common/components/table/data-table.tsx:320 | The string order that `.sort()` uses relates two different strings in one direction only. |

## Left out

- `NextAuth`/`auth()` wiring, session lookup (reduced to the `isLoggedIn` flag), `new URL(…, nextUrl)` resolution and `Response.redirect`. A redirect is modelled as its location relative to the request URL.
- The commented-out database lookup of the user in the middleware, and the `matcher` configuration that decides which paths reach the middleware. The first is dead code; the second is framework configuration.
- `encodeURIComponent`: an abstract function parameter, assumed injective only where a lemma needs it.
- The route constants module is not part of this model. Its values are the `Routes` parameter.
- The table library's filtered, sorted, paginated and faceted row models, its sort-toggle cycle and its pagination reset. These are library internals; the faceted values and `rowsById` are inputs.
- The ranking library's internals: `rankItem`, `passed`, `compareItems` and `sortingFns.alphanumeric` are uninterpreted parameters.
- React rendering and state scheduling. This covers the effects that report rows and selections to the caller, the `selectedData || rowSelection` source choice, the "Sin resultados." empty row and the row counter.
- `DebouncedInput`: its timer is timing only. Of the values typed within one idle period, only the last reaches `onChange`.
- The date-range widget's calendar and formatting, and the commented-out datetime inputs.
- The bulk-delete action itself. It is asynchronous and defined elsewhere; only the ids handed to it (`SelectedIds`) are modelled.
- `Object.keys` ordering (integer-like keys first) is not modelled. The rebuild takes the keys in the order `Object.keys` returns them.
- JavaScript numbers are floats. Numeric cell values are modelled as `int`, and range-filter bounds are a type parameter.
- `JsSort.Sort`: orders by character (code point), which is the UTF-16 code-unit order of `.sort()` only for strings without characters outside the Basic Multilingual Plane.
- `DataTable.SortedUniqueValues`: the faceted values are taken as strings. The `String()` conversion that `.sort()` applies to non-string values, and its rule of placing `undefined` last, are not modelled.
- `DataTable.IsValidDate`: takes a string (the only kind of argument its callers pass), not an arbitrary value. Date parsing is a parameter.

## Findings

| source | as written | input that shows it | evidently intended | confidence | as-written member | corrected member |
|---|---|---|---|---|---|---|
| src/modules/common/components/table/data-table.tsx:297-300 | `new Date(d) instanceof Date && !Number.isNaN(new Date(d))` is true for every `d`, because `Number.isNaN` of a `Date` object is false | `d = "Invalid Date"`: the date does not parse, yet `isValidDate` returns true | test the time value, `!Number.isNaN(parsedDate.getTime())` | high, not executed | `DataTable.IsValidDateAcceptsUnparsable` | `DataTable.IsValidDateIntended` |
