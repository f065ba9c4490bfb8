# User directory: a Dafny model

This project models the client-side state of the user directory screen of a
small user-management console (`src/components/UsersList.js`). The screen
shows one page of users fetched from a remote listing service. It filters
that page by a search string and deletes users. It also moves between pages.

The model has three modules:

- `Sequences`: `Select` is the order-preserving filter that the screen uses
  twice, once for the search and once for the delete (JavaScript's
  `Array.prototype.filter`). Its lemmas cover membership, order
  (`IsSubsequence`), multiplicity, idempotence and commutation.
- `Text`: ASCII `toLowerCase` (`Lower`) and `includes` (`Contains`), plus
  the case-insensitive test built from them.
- `UsersList`: the `User` record and the search test `Matches`. `Filter` is
  what `handleSearch` writes and `RemoveId` is the list left after a delete.
  The class `Component` holds the screen's five state fields: `users`,
  `filteredUsers`, `searchQuery`, `page` and `totalPages`.

Remote calls are not executed by the model. Each handler takes the outcome
of its request as an argument: `FetchUsers` takes a `PageResponse`
(`PageLoaded(data, totalPages)` or `PageFailed`), and `HandleDelete` takes
a `DeleteResponse`. Each completion is one atomic step.

The effect without a dependency list re-runs `handleSearch(searchQuery)`
after every render. This is the method `Rerender`. The lists that
`FetchUsers` and `HandleDelete` write into `filteredUsers` are therefore
temporary. After `Rerender`, `filteredUsers == Filter(users, searchQuery)`
holds (`Synced()`). Between those steps the view may show the whole page
while a query is typed; `SearchAndDeleteWalkthrough` shows this after a
delete. The invariant `Valid()` says that `filteredUsers` is always a
subsequence of `users`. Every handler keeps it, including the steps that
write temporary lists.

Two client methods, `SearchAndDeleteWalkthrough` and `PagingWalkthrough`,
call the handlers on three users of the demo service. Their assertions use
only the handlers' contracts and the lemmas.

Two points about the code:

- A delete removes every entry with that id (`src/components/UsersList.js:49`),
  not just one. `RemoveIdExact` states this. `RemoveUniqueId` shows that
  with unique ids this is exactly one entry.
- Previous and Next keep `1 <= page <= totalPages` only if it already held.
  Next is enabled whenever `page !== totalPages`
  (`src/components/UsersList.js:110`), so if a fetch returns a `total_pages`
  below the current page, Next stays enabled and `page` moves further away.

## Model

| member | source | states |
|---|---|---|
| `Sequences.Select` | src/components/UsersList.js:38-41 | every element the filter returns passes the test, and the result is no longer than the input |
| `Sequences.SelectMembership` | src/components/UsersList.js:38-41 | an element is in the filtered list exactly when it is in the input and passes the test |
| `Sequences.SelectIsSubsequence` | src/components/UsersList.js:38-41 | the filtered list keeps the input's order (it is a subsequence) |
| `Sequences.SelectCount` | src/components/UsersList.js:38-41 | every copy of a kept element stays and no copy of a dropped element does |
| `Text.LowerChar` | src/components/UsersList.js:39-40 | a capital letter becomes its small letter (code point + 32); every other character is kept; no capital results |
| `Text.Lower` | src/components/UsersList.js:39-40 | lower-casing keeps the length, turns each ASCII capital into its small letter (code point + 32) and changes nothing else |
| `Text.LowerConcat` | src/components/UsersList.js:39 | lower-casing `"first last"` is lower-casing each part and joining them |
| `Text.LowerIdempotent` | src/components/UsersList.js:39-40 | lower-casing twice is lower-casing once |
| `Text.Contains` | src/components/UsersList.js:39-40 | `includes`: the needle occurs at some position of the text; it never holds of a needle longer than the text |
| `Text.ContainsEmpty` | src/components/UsersList.js:39-40 | `includes("")` holds of every string |
| `Text.NotContainsFirstChar` | src/components/UsersList.js:39-40 | a needle whose first character never occurs in the text is not included |
| `Text.IgnoringCaseOfNeedle` | src/components/UsersList.js:39-40 | the case of the query does not change the case-insensitive test |
| `Text.IgnoringCaseOfHay` | src/components/UsersList.js:39-40 | the case of the searched text does not change the case-insensitive test |
| `UsersList.FullName` | src/components/UsersList.js:39 | the template `"first last"`: the first name, one space, then the last name |
| `UsersList.Matches` | src/components/UsersList.js:38-41 | the filter callback: the query occurs, ignoring case, in the full name or the email; a query longer than both never matches |
| `UsersList.Filter` | src/components/UsersList.js:32-44 | for a non-empty query every user in the result matches it; the result is never longer than the page |
| `UsersList.RemoveId` | src/components/UsersList.js:49 | no entry of the result has the deleted id; the result is never longer than the page |
| `UsersList.MatchesEmptyQuery` | src/components/UsersList.js:38-41 | every user matches the empty query |
| `UsersList.MatchesOwnFields` | src/components/UsersList.js:38-41 | searching a user's first name, last name or email finds that user |
| `UsersList.FilterWithoutShortcut` | src/components/UsersList.js:32-44 | the empty-query shortcut gives the same list as filtering by the search test |
| `UsersList.FilterEmptyQuery` | src/components/UsersList.js:33-35 | an empty query shows exactly the whole page |
| `UsersList.FilterMembership` | src/components/UsersList.js:38-41 | soundness and completeness: a user is shown exactly when it is on the page and its name or email contains the query, ignoring case |
| `UsersList.FilterIsSubsequence` | src/components/UsersList.js:38-43 | the shown list is an order-preserving subsequence of the page |
| `UsersList.FilterCount` | src/components/UsersList.js:38-41 | a matching user is shown as often as it occurs on the page, a non-matching one never |
| `UsersList.FilterEmptyIff` | src/components/UsersList.js:82-97 | the search result is empty, so "No users found" shows, exactly when no user on the page matches |
| `UsersList.FilterCaseInsensitive` | src/components/UsersList.js:39-40 | a query typed in another case gives the same list |
| `UsersList.FilterIdempotent` | src/components/UsersList.js:38-41 | filtering the filtered list again by the same query changes nothing |
| `UsersList.GeorgeMatches` | src/components/UsersList.js:40 | George Bluth's email contains "george" |
| `UsersList.JanetDoesNotMatch` | src/components/UsersList.js:39-40 | Janet Weaver matches "george" by neither name nor email |
| `UsersList.EveDoesNotMatch` | src/components/UsersList.js:39-40 | Eve Holt matches "george" by neither name nor email |
| `UsersList.SearchGeorge` | src/components/UsersList.js:38-43 | searching "george" on a page with George Bluth, Janet Weaver and Eve Holt shows exactly George Bluth |
| `UsersList.SearchGeorgeAfterDelete` | src/components/UsersList.js:38-43 | without George on the page, searching "george" shows nothing |
| `UsersList.RemoveIdExact` | src/components/UsersList.js:49 | a delete removes exactly the entries with that id, keeps every copy of every other entry, and keeps their order |
| `UsersList.RemoveAbsentId` | src/components/UsersList.js:49 | deleting an id that is not on the page changes nothing |
| `UsersList.RemoveUniqueId` | src/components/UsersList.js:49 | with unique ids, a delete removes exactly the one entry at that id's position |
| `UsersList.DeleteGeorge` | src/components/UsersList.js:49 | deleting George from the three-user page leaves Janet and Eve, in order |
| `UsersList.RemoveIdIdempotent` | src/components/UsersList.js:49 | deleting the same id again changes nothing more |
| `UsersList.FilterAfterRemove` | src/components/UsersList.js:49-51 | deleting then searching gives the same list as searching then deleting, so the entry also leaves the shown list |
| `UsersList.Component.ShownUsersAreOnPage` | src/components/UsersList.js:82-95 | under the state invariant, every card shown is a user of the fetched page |
| `UsersList.Component.ShowsEmptyState` | src/components/UsersList.js:82-97 | "No users found" is shown exactly when `filteredUsers` is empty |
| `UsersList.Component.PreviousDisabled` | src/components/UsersList.js:103 | Previous is disabled exactly on page 1 |
| `UsersList.Component.NextDisabled` | src/components/UsersList.js:110 | Next is disabled exactly when `page == totalPages` |
| `UsersList.Component.constructor` | src/components/UsersList.js:6-10 | the state starts with empty lists, an empty query, page 1 of 1, and satisfies `Valid()` and `Synced()` |
| `UsersList.Component.SetSearchQuery` | src/components/UsersList.js:78 | typing sets `searchQuery` and changes no other field |
| `UsersList.Component.HandleSearch` | src/components/UsersList.js:32-44 | `filteredUsers` becomes `Filter(users, query)` and no other field changes |
| `UsersList.Component.Rerender` | src/components/UsersList.js:17-19 | afterwards `filteredUsers == Filter(users, searchQuery)`, and the empty state shows exactly when no user on the page matches the query |
| `UsersList.Component.FetchUsers` | src/components/UsersList.js:21-30 | a loaded page replaces `users`, `filteredUsers` and `totalPages`; a failure changes nothing; `page` and `searchQuery` never change |
| `UsersList.Component.HandleDelete` | src/components/UsersList.js:46-57 | a successful delete sets `users` and `filteredUsers` to the old page without that id and returns the success alert text; a failure changes nothing and returns the failure text |
| `UsersList.Component.Previous` | src/components/UsersList.js:101-107 | disabled exactly on page 1, otherwise moves one page back; keeps `1 <= page <= totalPages` if it held |
| `UsersList.Component.Next` | src/components/UsersList.js:108-114 | disabled exactly when `page == totalPages`, otherwise moves one page on; keeps `1 <= page <= totalPages` if it held |

## Left out

- Issuing the requests is left out: the GET for a page (the effect on `page`, lines 13-15) and the DELETE (line 48) are HTTP calls. Only their completions are modelled, as arguments of `FetchUsers` and `HandleDelete`.
- Overlapping page fetches are left out. There is no cancellation, so the last response to arrive wins. The model treats each completion as one atomic step that writes the response it is given.
- UsersList.Component.HandleDelete: assumes no other state change between the click on Delete and the completion of its request. The source filters the `users` captured by the render in which Delete was clicked (line 49). The model filters the `users` current at completion. The two differ when deletes overlap (clicking Delete on A and then on B before A's request returns ends, in the source, with the old page minus B only) or when a page fetch completes while a delete is in flight (the source then writes the stale page back).
- Render scheduling is left out. While a query is set, line 38 builds a new array on every run of the effect, so line 43 schedules another render and the effect runs again; the source keeps re-rendering. The model takes a single `Rerender` step, whose result is the same on every run because `Filter` depends only on `users` and `searchQuery`.
- `handleEdit` (lines 59-61) is left out: it only navigates to the edit screen with the user record and changes no state of this screen.
- `handleLogout` (lines 63-66) is left out: it only removes the stored token and navigates to the login screen.
- `console.error` is left out. `alert` is modelled only as the text that `HandleDelete` returns.
- Rendering is left out (cards, avatars, CSS classes). The one rendering decision kept is the "No users found" text, as `ShowsEmptyState`.
- Lower-casing covers ASCII letters only. Full Unicode `toLowerCase` semantics are not modelled.
- `page` and `totalPages` are unbounded integers. JavaScript numbers are doubles, but no page count comes near their precision limit.
- `src/components/Login.js`, `src/components/EditUser.js` and `src/App.js` are not part of this model. They hold a login request, an edit form and the route table.
