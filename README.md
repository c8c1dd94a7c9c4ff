# Spot management page: state logic

This project models the state logic of the admin page that manages tourist
"spots" (`src/pages/management/Spot.tsx`). The page keeps a local copy of the
spot list and of the district list. It derives the filtered, paginated rows the
table shows. It writes to the backend through one edit dialog (create or
update) and one delete confirmation. After every write it shows a notification.

There are four modules:

- `Wrappers`: the `Option` type. `None` is a JavaScript `undefined`/`null`.
- `SpotTypes`: the spot record, the district record and its `{id, name}`
  projection, the create payload, and the requests the page sends. It also
  holds `SaveRequest`, which picks update or create.
- `SpotView`: the pure view projection. `FilteredRows` is the case-insensitive
  substring filter on `name`. `DisplayedRows` is the page slice. The module
  includes lemmas on order, membership, multiplicity, slice length and
  contents, and how pages cover the list.
- `SpotManagement`: class `SpotPage`. Its fields are the component's state
  variables. Each event handler is a method that updates those fields the way
  the handler's setter calls do, through the try/catch/finally paths. Each
  method's `modifies` clause lists exactly the fields it may change, so
  "nothing else changes" is part of every contract.

The backend is represented by method parameters. A write takes a `bool` saying
whether it succeeded. A refresh takes an `Option<seq<Spot>>`: the list
`GET /spots` returned, or `None` when that request failed. The requests a
handler sends are appended to the ghost field `requests`. Every handler runs as
one atomic step.

Four behaviours of the code that are easy to get wrong:

- Cancelling or dismissing a dialog closes it but keeps `selectedSpot`
  (`Spot.tsx:306`, `374`, `400`, `426`).
- A failed write throws before the refresh request, so no refresh is sent
  (`Spot.tsx:73-74`, `140-157`).
- A save sets a success notification before it sends the refresh. If the
  refresh then fails, the notification becomes the save error
  (`Spot.tsx:154-163`).
- A spot with no `name` is filtered out even when the search term is empty,
  because `spot.name?.` yields `undefined` (`Spot.tsx:129`).

## Model

| member | source | states |
|---|---|---|
| `SpotTypes.HasId` | src/pages/management/Spot.tsx:69 | the truthiness of a spot's id: it is falsy exactly when the id is undefined or the empty string (the guard of the delete at line 69 and the dispatch of the save at line 139) |
| `SpotTypes.NewDraft` | src/pages/management/Spot.tsx:217-223 | the draft the add button selects has no id and no server attributes, and its create payload is two empty strings, two zero coordinates and an empty district id |
| `SpotTypes.ToCreatePayload` | src/pages/management/Spot.tsx:143-149 | the create payload copies the draft's name, description, latitude, longitude and district id as they are, defined or not |
| `SpotTypes.ProjectDistricts` | src/pages/management/Spot.tsx:102-107 | the district list keeps one entry per record, in order, carrying that record's id and name |
| `SpotTypes.CreatePayloadKeepsFiveAttributes` | src/pages/management/Spot.tsx:143-149 | two drafts give the same create payload exactly when they agree on name, description, latitude, longitude and districtId; the id and the server attributes are stripped |
| `SpotTypes.SaveRequest` | src/pages/management/Spot.tsx:139-152 | a save sends an update iff the draft's id is truthy; the update is keyed by that id and carries the whole object; otherwise a create carries exactly the five copied attributes |
| `SpotView.Lower` | src/pages/management/Spot.tsx:129 | lower-casing keeps the length and maps each character on its own |
| `SpotView.LowerIdempotent` | src/pages/management/Spot.tsx:129 | lower-casing twice is the same as lower-casing once |
| `SpotView.IncludesIffOccurs` | src/pages/management/Spot.tsx:129 | `includes` holds exactly when the needle occurs at some index of the haystack |
| `SpotView.IncludesEmpty` | src/pages/management/Spot.tsx:129 | every string includes the empty term |
| `SpotView.Includes` | src/pages/management/Spot.tsx:129 | string inclusion: a prefix is always included, and an included needle is never longer than the haystack |
| `SpotView.Matches` | src/pages/management/Spot.tsx:128-130 | the filter callback: a spot passes iff it has a name and the lower-cased term occurs at some index of its lower-cased name |
| `SpotView.MatchesIgnoresCase` | src/pages/management/Spot.tsx:128-130 | lower-casing the search term or the spot's name does not change whether the spot matches |
| `SpotView.FilteredRows` | src/pages/management/Spot.tsx:128-130 | the filtered rows are no more than the list; each one is in the list, has a name, and its lower-cased name contains the lower-cased term |
| `SpotView.FilteredRowsIsSubsequence` | src/pages/management/Spot.tsx:128-130 | the filter keeps the list's order: the result is a subsequence of the list |
| `SpotView.FilteredRowsCounts` | src/pages/management/Spot.tsx:128-130 | each matching spot appears as often as in the list; a spot that does not match, including one with no name, never appears |
| `SpotView.FilteredRowsMembership` | src/pages/management/Spot.tsx:128-130 | a spot is in the filtered rows iff it is in the list and matches |
| `SpotView.FilteredRowsEmptyTerm` | src/pages/management/Spot.tsx:128-130 | with an empty search exactly the named spots pass; when every spot has a name, the result is the whole list |
| `SpotView.Slice` | src/pages/management/Spot.tsx:132 | array slicing for non-negative bounds: both bounds are clamped to the length; the result has `max(0, end' - start')` elements, which are the elements from the clamped start on |
| `SpotView.DisplayedRows` | src/pages/management/Spot.tsx:132 | the page has `max(0, min(rowsPerPage, n - page*rowsPerPage))` rows, which are the run of the filtered rows that starts at `page*rowsPerPage`; a page past the end is empty |
| `SpotView.RowOnItsPage` | src/pages/management/Spot.tsx:132 | with a positive page size, row `k` is at position `k % rowsPerPage` of page `k / rowsPerPage` |
| `SpotView.PagesUpToIsPrefix` | src/pages/management/Spot.tsx:132 | pages `0..n-1` put together are the first `n*rowsPerPage` rows, so paging loses no row and repeats none |
| `SpotView.HaLongBayExample` | src/pages/management/Spot.tsx:128-132 | with the list `[Ha Long Bay]`, the search "ha long" shows one row and the search "hanoi" matches nothing |
| `SpotView.TwelveRowsExample` | src/pages/management/Spot.tsx:132 | with twelve rows and five per page, page 0 is rows 0-4, page 2 is rows 10-11 and page 3 is empty |
| `SpotManagement.SpotPage.constructor` | src/pages/management/Spot.tsx:50-62 | the initial state: empty lists, no selection, dialogs closed, page 0 with 5 rows per page, empty search, no flags raised, notification hidden with severity success, no requests sent |
| `SpotManagement.SpotPage.FilteredRows` | src/pages/management/Spot.tsx:128-130 | the page's filtered rows are exactly the listed spots that match the current search term |
| `SpotManagement.SpotPage.DisplayedRows` | src/pages/management/Spot.tsx:132 | the page's shown rows are at most `rowsPerPage` rows, the run of the filtered rows that starts at the current page's first row |
| `SpotManagement.SpotPage.FilteredRowOnItsPage` | src/pages/management/Spot.tsx:290-298 | with the page's positive page size, every filtered row is shown on page `k / rowsPerPage`, so the pager can reach every row |
| `SpotManagement.SpotPage.Draft` | src/pages/management/Spot.tsx:316-318 | the object the form setters spread: the selected spot, or the empty object when nothing is selected (spreading `null` copies nothing) |
| `SpotManagement.SpotPage.FetchData` | src/pages/management/Spot.tsx:93-115 | the load sends both GETs; it replaces both lists, with the districts projected, only when both requests succeed, and otherwise keeps both; the fetch flag ends lowered |
| `SpotManagement.SpotPage.HandleCloseSnackbar` | src/pages/management/Spot.tsx:64-66 | dismissing the notification only hides it |
| `SpotManagement.SpotPage.HandleChangePage` | src/pages/management/Spot.tsx:119-121 | the page becomes exactly the requested one, without clamping, and nothing else changes |
| `SpotManagement.SpotPage.HandleChangeRowsPerPage` | src/pages/management/Spot.tsx:123-126 | the page size becomes the new value and the page becomes 0, so the table shows the first rows of the filtered list |
| `SpotManagement.SpotPage.SetSearchTerm` | src/pages/management/Spot.tsx:206-212 | the search term becomes the typed text, and the page and everything else stay unchanged |
| `SpotManagement.SpotPage.OpenAdd` | src/pages/management/Spot.tsx:216-224 | the selection becomes the zero draft, which has no id, and the edit dialog opens |
| `SpotManagement.SpotPage.OpenEditRow` | src/pages/management/Spot.tsx:273-276 | for a row on the current page (the only rows that have the button), the selection becomes that row, which is in the spot list, and the edit dialog opens |
| `SpotManagement.SpotPage.OpenDeleteRow` | src/pages/management/Spot.tsx:279-282 | for a row on the current page (the only rows that have the button), the selection becomes that row, which is in the spot list, and the delete dialog opens |
| `SpotManagement.SpotPage.CancelEdit` | src/pages/management/Spot.tsx:373-374 | the edit dialog closes and the selection is kept |
| `SpotManagement.SpotPage.CancelDelete` | src/pages/management/Spot.tsx:425-426 | the delete dialog closes and the selection is kept |
| `SpotManagement.SpotPage.SetName` | src/pages/management/Spot.tsx:316-318 | only the draft's name changes; with nothing selected the draft becomes an object with just that name |
| `SpotManagement.SpotPage.SetDescription` | src/pages/management/Spot.tsx:325-327 | only the draft's description changes |
| `SpotManagement.SpotPage.SetLatitude` | src/pages/management/Spot.tsx:335-340 | only the draft's latitude changes |
| `SpotManagement.SpotPage.SetLongitude` | src/pages/management/Spot.tsx:348-353 | only the draft's longitude changes |
| `SpotManagement.SpotPage.SetDistrictId` | src/pages/management/Spot.tsx:359-361 | only the draft's district id changes |
| `SpotManagement.SpotPage.HandleSaveSpot` | src/pages/management/Spot.tsx:134-169 | with no selection nothing changes and nothing is sent. Otherwise it sends the dispatched write, then a refresh only if the write succeeded. The list is replaced only when both succeed. Severity is success iff both succeed, with the update or create message; otherwise it is error with the save-failure message. In every case the notification shows, the dialog closes, the selection clears and the save flag is lowered |
| `SpotManagement.SpotPage.HandleDeleteConfirmed` | src/pages/management/Spot.tsx:68-90 | with no selection, or a selection whose id is absent or empty, nothing changes and nothing is sent. Otherwise it sends the DELETE for that id, then a refresh only if the delete succeeded. The list is replaced only when both succeed. Severity is success iff both succeed, with the matching message. In every case the notification shows, the dialog closes, the selection clears and the delete flag is lowered |

`FailedCreateScenario` and `DeleteRowWithoutIdScenario` are client methods
that use only the contracts above. The first is a create the backend rejects:
the notification is an error, the dialog closes and the list is unchanged. The
second opens the delete confirmation on a displayed row that has no id and
confirms it: nothing is sent, nothing changes and the confirmation stays open.

## Left out

- Rendering: the JSX, the MUI components, the icons, the styling and the background image (`Spot.tsx:172-465`). They only present state.
- Transport: the axios calls. The outcome of each call is a parameter, and the request is recorded in the ghost log.
- Concurrency: the concurrency of the initial `Promise.all` and the order in which responses arrive. The load is one step that needs both results. Since every handler is one atomic step, the loading flags are observed only at their final (lowered) value. Requests overlapping and late responses are not modelled.
- The second add dialog and its `isAddOpen` state (`Spot.tsx:53`, `436-448`): it never submits.
- The snackbar's auto-hide timer (`Spot.tsx:451`): it depends on time. Its effect is the same as `HandleCloseSnackbar`.
- Logging: the `console.error` calls.
- Number parsing: `parseInt` and `Number` (`Spot.tsx:124`, `338`, `351`), including NaN. The new page size is a positive integer parameter. Latitude and longitude are opaque `real` values that are only copied.
- Response shape: a malformed response (for example, a missing `data` field) is not modelled. A refresh result is either a list or a failure.
- `SpotView.Lower`: maps only the ASCII letters A-Z. Unicode `toLowerCase` rules (multi-character mappings, locale rules) are not modelled. The filter lemmas hold for this pointwise mapping.
- Form inputs: the displayed values (`value={selectedSpot?.x || ''}`) and the district menu contents are presentation only.
- Spot attributes: only the fourteen attributes of the `Spot` record are modelled. The list is untyped (`Spot.tsx:50`), so the server may send more. An update would carry those extra attributes in its body (`Spot.tsx:140`), and a create would drop them (`Spot.tsx:143-149`).
- Opaque attributes: a spot's `agencies` list is modelled as an optional sequence of opaque strings. A district's further attributes form an opaque string map.
- Object identity: the model compares spots by value. The edit handlers build a new object by spreading, so the list's elements are never changed in place. Identity is therefore not needed for any property stated here.
