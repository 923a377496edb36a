# TIME_SHEET client core in Dafny

A model of the decision logic and client-side state in the TIME_SHEET Vue client, with proofs about it:

- **The time-entry store** (`src/stores/timeEntries.ts`). A class holds the collection, its hours total and the storage it mirrors to. Methods add, delete and load entries. Two pure views are provided: the newest-first list and the `"<h>h <m>min"` total.
- **The session store** (`src/stores/AuthUser.ts`). A class holds the signed-in `user` and `token`. It is hydrated from the `user` and `token` storage keys and written back by `setUser` and `logout`.
- **The route table and the `beforeEach` guard** (`src/router/index.ts`):
  - The constant record tree is flattened into matchable paths. Each path resolves to its chain of records, and redirects are followed.
  - The guard sends an unauthenticated visit of a protected chain to the route named `login`.
- **The storage side of the authentication service** (`src/services/authService.ts`). Each remote call is one step that receives the call's outcome (`Success(v)` or `Failure`).
- **The field validators** (`src/utils/validators.ts`). `fullName`, `sameAsPassword` and `validTimeRange` are modelled, plus the languages of the `email`, `strongPassword`, `cpf`, `phone` and `timeFormat` regular expressions. Each regular expression is a character-level predicate, proved equal to an independent description of its language.
- **The request interceptor** (`src/services/api.ts`). It adds `Authorization: Bearer <token>` when the `token` storage key holds non-empty text.

Files, one module each:

- `wrappers.dfy`: `Option` and `Outcome`.
- `types.dfy`: the records.
- `text.dfy`: the JavaScript string operations the code relies on: `trim`, `split` on one character, the UTF-16 `length` and number rendering. It also holds two helpers the source does not call. `Less` is a lexicographic order that stands in for the sort's timestamp comparison. `Join` exists only to state the round trip of `split`.
- `storage.dfy`: `localStorage` as a class over a map.
- `time_entries.dfy`, `auth_user.dfy`, `router.dfy`, `auth_service.dfy`, `validators.dfy` and `api.dfy`: one per core file.

How the model stands in for the browser:

- **Storage.** `localStorage` is one shared `Storage.LocalStorage` object, so facts across modules can be stated. For example, the service's logout leaves the key the interceptor reads.
- **JSON.** `JSON.stringify` is the identity. A stored value is raw text, a serialised user, or a serialised entry array. Raw text never parses as JSON.
- **The storage invariant.** `Storage.WellFormed` says a JSON document sits only under the key the client writes it to. So `token` and `authToken` always hold raw text.
- **Numbers.** Hours are exact reals rather than IEEE doubles.

Where the code behaves differently from what its surroundings suggest, the model follows the code:

- **Hydrating an unparseable `user` key.** The service's `getCurrentUser` treats unparseable text as signed out (`src/services/authService.ts:43-53`). The session store calls `JSON.parse` unguarded (`src/stores/AuthUser.ts:9`), so `AuthUser.AuthStore.Create` returns `Failure`.
- **60 minutes.** A clock display would carry a rounded 60 minutes into the hours. The code does not carry, so `TimeEntries.FormattedMinutesCanBeSixty` proves `1.999` shows as `"1h 60min"`.
- **`isAuthenticated`.** The service's `isAuthenticated` requires both a token and a user (`src/services/authService.ts:31-35`). The session store's looks at `user` only (`src/stores/AuthUser.ts:19-21`), and so does the model.
- **`token` versus `authToken`.** The session store and the interceptor use `token`; the service uses `authToken`. The model keeps the mismatch, and `AuthService.SessionLoginNotSeenByService` and `AuthService.ServiceLogoutKeepsToken` state what it causes.

## Model

| member | source | states |
|---|---|---|
| Storage.Lookup | src/stores/AuthUser.ts:6-7 | `getItem` gives the stored value exactly when the key is present, and `null` otherwise |
| Storage.Truthy | src/stores/AuthUser.ts:9 | definition: JavaScript truthiness of a `getItem` result, false exactly for `null` and the empty string; used by `Hydrate`, `LoadFrom` and `AuthorizedHeaders` |
| Storage.ParseUser | src/stores/AuthUser.ts:9 | `JSON.parse` succeeds exactly on the JSON text of a user, and gives back the user that was serialised |
| Storage.ParseEntries | src/stores/timeEntries.ts:24 | `JSON.parse` succeeds exactly on the JSON text of an entry array, and gives back the entries that were serialised |
| Storage.WellFormed | src/stores/timeEntries.ts:31 | definition: the storage invariant, a JSON document only under `user` or `timeEntries`; every `setItem` keeps it (`SetItem`) |
| Storage.TextAt | src/services/api.ts:13 | under a token key the stored value is raw text; the result is absent exactly when the key is |
| Storage.LocalStorage.constructor | src/stores/AuthUser.ts:6-7 | storage starts with the given well-formed contents |
| Storage.LocalStorage.GetItem | src/stores/timeEntries.ts:22 | `getItem(key)` gives the value stored under `key` when present and `null` when absent, and changes nothing |
| Storage.LocalStorage.SetItem | src/stores/timeEntries.ts:31 | `setItem` overwrites exactly one key and keeps the storage invariant |
| Storage.LocalStorage.RemoveItem | src/stores/AuthUser.ts:26-27 | `removeItem` removes exactly one key |
| Text.IntToString | src/stores/timeEntries.ts:66 | definition: a number in a template literal, with a leading `-` when negative; characterised by `IntToStringRoundTrip` |
| Text.NatToStringRoundTrip | src/stores/timeEntries.ts:66 | a number in a template literal renders as decimal digits, with no leading zero, whose value is the number |
| Text.IntToStringRoundTrip | src/stores/timeEntries.ts:66 | a negative number renders as `-` and the digits of its magnitude; any other number renders as its digits, whose value is the number |
| Text.Utf16Length | src/utils/validators.ts:19 | JavaScript's `length`, in UTF-16 code units: between the number of characters and twice that, and equal to the number of characters iff no character lies outside the Basic Multilingual Plane; the exact count is `Utf16LengthChar` and `Utf16LengthConcat` |
| Text.Utf16LengthConcat | src/utils/validators.ts:19 | the length of a concatenation is the sum of the lengths |
| Text.Utf16LengthChar | src/utils/validators.ts:19 | one character counts 2 when above U+FFFF and 1 otherwise |
| Text.LessIrreflexive | src/stores/timeEntries.ts:55-58 | no timestamp string is before itself |
| Text.LessTransitive | src/stores/timeEntries.ts:55-58 | string order is transitive |
| Text.LessTotal | src/stores/timeEntries.ts:55-58 | any two different strings are ordered one way or the other |
| Text.LessAsymmetric | src/stores/timeEntries.ts:55-58 | string order is asymmetric |
| Text.LessCommonPrefix | src/stores/timeEntries.ts:55-58 | a shared prefix of two dates does not change their order |
| Text.LeadingSpace | src/utils/validators.ts:18 | counts the maximal white-space prefix: all of it is white space, and the next character is not |
| Text.TrailingSpace | src/utils/validators.ts:18 | counts the maximal white-space suffix |
| Text.TrimStart | src/utils/validators.ts:18 | definition: drop leading JavaScript white space; characterised by `TrimStartDrops` |
| Text.TrimEnd | src/utils/validators.ts:18 | definition: drop trailing JavaScript white space; characterised by `TrimEndDrops` |
| Text.Trim | src/utils/validators.ts:18 | definition: `String.prototype.trim`, both ends; see `TrimStartConcat` and `TrimEndConcat` |
| Text.TrimStartDrops | src/utils/validators.ts:18 | trimming the start removes exactly the white-space prefix |
| Text.TrimEndDrops | src/utils/validators.ts:18 | trimming the end removes exactly the white-space suffix |
| Text.TrimStartConcat | src/utils/validators.ts:18 | an all-white-space prefix vanishes under trim; any other prefix is trimmed on its own |
| Text.TrimEndConcat | src/utils/validators.ts:18 | the same for suffixes |
| Text.Split | src/utils/validators.ts:18 | `split` always yields at least one piece |
| Text.JoinSplit | src/utils/validators.ts:18 | joining the pieces of a split rebuilds the string, and no piece contains the separator |
| Text.SplitAtSeparator | src/utils/validators.ts:18 | splitting at a separator splits the two sides independently |
| Text.SplitWithoutSeparator | src/utils/validators.ts:18 | a string without the separator splits into itself |
| Text.SplitJoin | src/utils/validators.ts:18 | separator-free pieces, joined, split back into the same pieces |
| TimeEntries.TotalHours | src/stores/timeEntries.ts:50 | definition: the `reduce` summing `durationHours` from 0; its properties are `TotalHoursAppend` and `TotalHoursNonNegative` |
| TimeEntries.TotalHoursAppend | src/stores/timeEntries.ts:50 | the reduce over a concatenation is the sum of the two reduces |
| TimeEntries.TotalHoursNonNegative | src/stores/timeEntries.ts:50 | with no negative duration the total is not negative |
| TimeEntries.WithoutId | src/stores/timeEntries.ts:43 | the filter keeps exactly the entries with another id |
| TimeEntries.WithoutIdConcat | src/stores/timeEntries.ts:43 | the filter keeps the survivors in their original relative order |
| TimeEntries.WithoutAbsentId | src/stores/timeEntries.ts:42-43 | deleting an id no entry carries changes nothing |
| TimeEntries.WithoutIdIdempotent | src/stores/timeEntries.ts:42-43 | deleting the same id twice equals deleting it once |
| TimeEntries.AddThenDelete | src/stores/timeEntries.ts:35-46 | adding an entry with a fresh id and deleting that id restores the collection and its total |
| TimeEntries.LoadFrom | src/stores/timeEntries.ts:21-27 | load behaviour by stored value: absent or empty keeps the collection; a stored array replaces it; other text throws |
| TimeEntries.LoadIdempotent | src/stores/timeEntries.ts:21-27 | loading twice equals loading once (replace, not append) |
| TimeEntries.SaveThenLoad | src/stores/timeEntries.ts:21-32 | loading after a save restores exactly the saved collection |
| TimeEntries.StartsBefore | src/stores/timeEntries.ts:55-58 | definition: the comparator's order, by `(date, startTime)`; it is a strict order (`StartsBeforeAsymmetric`, `NotBeforeTransitive`) |
| TimeEntries.SameStartNotBefore | src/stores/timeEntries.ts:56-58 | entries with the same start compare equal in both directions |
| TimeEntries.StartsBeforeAsymmetric | src/stores/timeEntries.ts:56-58 | the comparator never orders two entries both ways |
| TimeEntries.NotBeforeTransitive | src/stores/timeEntries.ts:56-58 | "not earlier than" is transitive, so the comparator is consistent |
| TimeEntries.InsertByRecency | src/stores/timeEntries.ts:55-59 | definition: one step of the stable sort, inserting before the first entry that starts no later; its properties are the `InsertByRecency*` lemmas |
| TimeEntries.SortByRecency | src/stores/timeEntries.ts:54-60 | definition: the sorted copy of the collection; proved a stable newest-first permutation by the `SortByRecency*` lemmas |
| TimeEntries.InsertByRecencyPermutes | src/stores/timeEntries.ts:55 | one insertion step permutes its input |
| TimeEntries.SortByRecencyPermutes | src/stores/timeEntries.ts:55-59 | the sorted view has the same entries as the collection, each as often |
| TimeEntries.InsertByRecencyMembers | src/stores/timeEntries.ts:55 | insertion adds exactly the inserted entry |
| TimeEntries.NewestFirstCons | src/stores/timeEntries.ts:58 | a newest-first list stays so when a not-earlier entry is put in front |
| TimeEntries.InsertByRecencyNewestFirst | src/stores/timeEntries.ts:58 | insertion into a newest-first list keeps it newest first |
| TimeEntries.SortByRecencyNewestFirst | src/stores/timeEntries.ts:54-59 | the view is ordered by descending `(date, startTime)` |
| TimeEntries.StartingAtConcat | src/stores/timeEntries.ts:55 | selecting one start time distributes over concatenation |
| TimeEntries.InsertByRecencyStable | src/stores/timeEntries.ts:55 | insertion keeps equal-start entries in order |
| TimeEntries.SortByRecencyStable | src/stores/timeEntries.ts:55-59 | the sort is stable: entries with the same start keep their collection order |
| TimeEntries.SortByRecencyTotal | src/stores/timeEntries.ts:49-60 | the view's total equals the collection's total |
| TimeEntries.InsertByRecencyTotal | src/stores/timeEntries.ts:49-60 | insertion adds exactly the inserted duration to the total |
| TimeEntries.RoundHalfUp | src/stores/timeEntries.ts:65 | `Math.round`: the nearest integer, with halves rounded up |
| TimeEntries.WholeHours | src/stores/timeEntries.ts:64 | `Math.floor`: the largest integer not above the total |
| TimeEntries.LeftoverMinutes | src/stores/timeEntries.ts:65 | the leftover fraction of an hour to the nearest minute, from 0 to 60 |
| TimeEntries.FormatTotalHours | src/stores/timeEntries.ts:66 | definition: `${hours}h ${minutes}min` with those two numbers; see `FormattedMinutesCanBeSixty` and `TwoEntriesScenario` |
| TimeEntries.FormattedMinutesCanBeSixty | src/stores/timeEntries.ts:63-67 | with no carry, a total of 1.999 is shown as `1h 60min` |
| TimeEntries.TwoEntriesScenario | src/stores/timeEntries.ts:50-66 | 8 h on 2024-01-01 and 4 h on 2024-01-02: the second is listed first; the total is `12h 0min` |
| TimeEntries.TimeEntriesStore.constructor | src/stores/timeEntries.ts:17-18 | the store starts empty with a total of 0 |
| TimeEntries.TimeEntriesStore.CalculateTotalHours | src/stores/timeEntries.ts:49-51 | the total becomes the sum of the durations; the collection is untouched |
| TimeEntries.TimeEntriesStore.SaveEntries | src/stores/timeEntries.ts:30-32 | the `timeEntries` key holds exactly the collection and no other key changes |
| TimeEntries.TimeEntriesStore.LoadEntries | src/stores/timeEntries.ts:21-27 | the collection changes as `LoadFrom` says; the total is recomputed only after a successful parse; the "total is the sum" invariant is kept |
| TimeEntries.TimeEntriesStore.AddEntry | src/stores/timeEntries.ts:35-39 | the collection becomes `old + [entry]`; storage holds it; no other key changes; total = old total + duration |
| TimeEntries.TimeEntriesStore.DeleteEntry | src/stores/timeEntries.ts:42-46 | the collection becomes the id-filtered one; storage holds it; the total is its sum |
| TimeEntries.TimeEntriesStore.SortedEntries | src/stores/timeEntries.ts:54-60 | the view is newest first, a permutation of the collection, and stable |
| TimeEntries.TimeEntriesStore.FormattedTotalHours | src/stores/timeEntries.ts:63-67 | the computed text is `FormatTotalHours` of the current total, whose parts are bounded by `WholeHours` and `LeftoverMinutes` |
| AuthUser.Hydrate | src/stores/AuthUser.ts:6-10 | with absent or empty `user`: user `null`; with a serialised user: that user; with other text: `JSON.parse` throws; token is the `token` key's text or `null` |
| AuthUser.ReloadAfterSetUser | src/stores/AuthUser.ts:6-17 | a reload after `setUser(r)` restores exactly `r.user` and `r.token` |
| AuthUser.ReloadAfterLogout | src/stores/AuthUser.ts:6-28 | a reload after `logout` starts with both fields `null` |
| AuthUser.HydrateReadsSessionKeys | src/stores/AuthUser.ts:6-7 | hydration depends on the `user` and `token` keys only |
| AuthUser.UserWithoutTokenHydratesSignedIn | src/stores/AuthUser.ts:9-21 | nothing ties the keys together: a stored user with no token hydrates signed in with a `null` token |
| AuthUser.AuthStore.FromSession | src/stores/AuthUser.ts:9-10 | the fields take the hydrated values |
| AuthUser.AuthStore.Create | src/stores/AuthUser.ts:6-10 | creating the store hydrates it from storage, and throws exactly when hydration does |
| AuthUser.AuthStore.IsAuthenticated | src/stores/AuthUser.ts:19-21 | definition: true iff `user` is not `null`, independent of `token` (`UserWithoutTokenHydratesSignedIn`) |
| AuthUser.AuthStore.SetUser | src/stores/AuthUser.ts:12-21 | both fields take the response; only `user` and `token` are written; afterwards the store is authenticated |
| AuthUser.AuthStore.Logout | src/stores/AuthUser.ts:23-28 | both fields become `null`; exactly `user` and `token` are removed; afterwards not authenticated |
| Router.Flatten | src/router/index.ts:6-40 | definition: every record with its full path and its chain, children before their parent; its value on the table is `CandidatesTable` |
| Router.Lower | src/router/index.ts:6-40 | ASCII case folding: the length is kept, `A`-`Z` go to `a`-`z`, every other character is kept, and no upper-case letter remains |
| Router.MatchKey | src/router/index.ts:6-40 | definition: the folded path without one trailing slash; its partners are `MatchKeyIgnoresCase` and `MatchKeyIgnoresTrailingSlash` |
| Router.MatchKeyIgnoresCase | src/router/index.ts:6-40 | two paths equal up to ASCII case match the same way |
| Router.MatchKeyIgnoresTrailingSlash | src/router/index.ts:6-40 | a path and the same path with one trailing slash match the same way |
| Router.FindStatic | src/router/index.ts:6-40 | finds nothing iff no static candidate's folded path equals the key; otherwise gives the chain of the first static candidate whose folded path equals the key |
| Router.Match | src/router/index.ts:6-40 | definition: `to.matched`, the first static chain for the key and otherwise the catch-all's; its value on every path is `MatchTable` |
| Router.Resolve | src/router/index.ts:7-10 | definition: follow the redirect of the last matched record once; its value on every path is `ResolveTable` |
| Router.ResolveNamed | src/router/index.ts:11-15 | definition: the candidate whose last record has the given name; for `login` it is `/login` (`LoginNeverGuarded`) |
| Router.SomeRequiresAuth | src/router/index.ts:47 | `matched.some(r => r.meta.requiresAuth)`: true iff some matched record is protected |
| Router.Guard | src/router/index.ts:47-54 | redirects to `login` iff some matched record requires auth and the session is not authenticated; otherwise proceeds |
| Router.BeforeEach | src/router/index.ts:44-56 | the decision is the guard's, on the store's authentication state at the moment of the call |
| Router.Navigate | src/router/index.ts:44-56 | definition: a navigation, with the guard run once more after its `next({ name: 'login' })`; `UnauthenticatedEndsAtLogin` and `AuthenticatedArrives` give its outcome |
| Router.CandidatesTable | src/router/index.ts:6-40 | the flattened table: `/`, `/login`, `/dashboard` with child `home`, `/dashboard/employee`, `/dashboard`, then the catch-all |
| Router.FindStaticTable | src/router/index.ts:6-40 | which static record each path key selects; the catch-all is the fallback |
| Router.MatchTable | src/router/index.ts:6-40 | the matched chain of every path; a child's chain starts with `/dashboard` |
| Router.DashboardChildrenProtected | src/router/index.ts:16-47 | `home` and `employee` declare no meta but are protected through `/dashboard` |
| Router.RootResolvesToLogin | src/router/index.ts:7-15 | `/` resolves to `/login` |
| Router.UnknownPathResolvesToDashboard | src/router/index.ts:36-49 | an unmatched path resolves to `/dashboard`, which sends an unauthenticated visitor to `login` |
| Router.LoginNeverGuarded | src/router/index.ts:11-49 | the `login` route is never guarded, so a redirect to it cannot loop |
| Router.ResolveTable | src/router/index.ts:6-40 | where every path resolves once redirects are followed |
| Router.UnauthenticatedEndsAtLogin | src/router/index.ts:6-56 | every unauthenticated navigation ends on the `login` record |
| Router.AuthenticatedArrives | src/router/index.ts:47-54 | an authenticated navigation arrives where the path resolves |
| Router.ResolvedNeverRedirects | src/router/index.ts:7-40 | a resolved target never ends in a redirect, so one redirect step is enough |
| Api.AuthorizedHeaders | src/services/api.ts:13-16 | a non-empty `token` adds `Authorization: Bearer <token>`; otherwise headers are unchanged; other headers are always kept |
| Api.RequestConfig.constructor | src/services/api.ts:6-8 | a request configuration carries its headers |
| Api.InterceptRequest | src/services/api.ts:11-19 | the interceptor updates the configuration's headers in place, as `AuthorizedHeaders` says, and returns the same configuration |
| Api.InterceptorReadsOnlyToken | src/services/api.ts:13 | the result depends on the `token` key alone |
| Api.InterceptorIgnoresAuthToken | src/services/api.ts:13 | writing `authToken` never changes the headers sent |
| Api.DefaultContentTypeKept | src/services/api.ts:6-16 | the default `Content-Type: application/json` survives |
| Api.InterceptorIdempotent | src/services/api.ts:13-16 | running the interceptor twice equals running it once |
| AuthService.Login | src/services/authService.ts:7-16 | on success calls `setUser` with the response; on failure leaves store and storage unchanged; returns the outcome either way |
| AuthService.Logout | src/services/authService.ts:19-27 | removes exactly `authToken` and `user`, whether the remote call failed or not, and never fails |
| AuthService.IsAuthenticated | src/services/authService.ts:31-35 | definition: `!!(token && user)` over `authToken` and `user`; see `SessionLoginNotSeenByService`, `RefreshAfterLoginAuthenticates` and `LogoutSignsServiceOut` |
| AuthService.GetToken | src/services/authService.ts:38-40 | the `authToken` text, or `null` when the key is absent |
| AuthService.GetCurrentUser | src/services/authService.ts:43-53 | the stored user when `user` holds one, and `null` when it is absent, empty or not a user |
| AuthService.ValidateToken | src/services/authService.ts:56-64 | true exactly when the call succeeded with `valid: true` |
| AuthService.RefreshToken | src/services/authService.ts:67-77 | on success writes the new token to `authToken`; on failure changes nothing; returns the outcome |
| AuthService.CurrentUserMatchesSession | src/services/authService.ts:43-53 | the service reads the user the session store hydrates, and answers `null` where hydration throws |
| AuthService.SessionLoginNotSeenByService | src/services/authService.ts:31-35 | a session-store login leaves the service signed out while `authToken` is unset, yet the store hydrates signed in |
| AuthService.RefreshAfterLoginAuthenticates | src/services/authService.ts:31-78 | a login plus a refresh with a non-empty token makes the service's `isAuthenticated` true |
| AuthService.LogoutSignsServiceOut | src/services/authService.ts:19-53 | after the service's logout it reports signed out and no current user |
| AuthService.ServiceLogoutKeepsToken | src/services/authService.ts:25-26 | the service's logout leaves `token`: the bearer header is still sent, and a reloaded session has no user but the old token |
| Validators.NonEmpty | src/utils/validators.ts:18 | the filter keeps exactly the non-empty pieces: a word is kept iff it is a non-empty piece |
| Validators.NonEmptyConcat | src/utils/validators.ts:18 | the filter works piece by piece, so the kept words keep their order |
| Validators.NonEmptyKeepsWords | src/utils/validators.ts:18 | pieces that are all non-empty are kept unchanged |
| Validators.Words | src/utils/validators.ts:18 | the words are non-empty and contain no space |
| Validators.FullName | src/utils/validators.ts:16-20 | definition: non-empty value, at least two words, each at least two UTF-16 code units long; characterised by `FullNameOfWords` |
| Validators.FullNameEmpty | src/utils/validators.ts:17 | an empty value is rejected |
| Validators.FullNameOfWords | src/utils/validators.ts:18-19 | on non-empty words without `' '`, joined by single spaces, whose outer ends are not white space: accepted iff at least two words, each at least two UTF-16 code units long |
| Validators.FullNameCountsCodeUnits | src/utils/validators.ts:19 | two one-character words outside the Basic Multilingual Plane pass; `Jo A` does not; a tab inside a word does not split it (`Jo\tAn Li` passes) |
| Validators.FullNameIgnoresSurroundingWhitespace | src/utils/validators.ts:18 | a leading or trailing white-space character never changes the verdict |
| Validators.WordsIgnoreRepeatedSpace | src/utils/validators.ts:18 | two spaces between words give the same words as one |
| Validators.FullNameIgnoresRepeatedSpace | src/utils/validators.ts:18-19 | the verdict does not depend on how many spaces separate the words |
| Validators.SameAsPassword | src/utils/validators.ts:23-25 | the validator accepts exactly the password it was built from |
| Validators.IsEmail | src/utils/validators.ts:4 | definition: the character-level reading of `^[^\s@]+@[^\s@]+\.[^\s@]+$`; equal to its language by `EmailPattern` |
| Validators.EmailPatternSound | src/utils/validators.ts:4 | every accepted value splits into local part, `@`, domain label, `.` and rest, none empty or holding white space or `@` |
| Validators.EmailPatternComplete | src/utils/validators.ts:4 | every such decomposition is accepted |
| Validators.EmailPattern | src/utils/validators.ts:4 | `email` accepts exactly the language of its pattern |
| Validators.EmailHasOneAt | src/utils/validators.ts:4 | an accepted address holds exactly one `@` |
| Validators.IsStrongPassword | src/utils/validators.ts:7 | definition: a one-pass scan of the password's characters; characterised by `StrongPasswordPattern` |
| Validators.ClassesMeaning | src/utils/validators.ts:7 | the one-pass scan finds a class iff some character has it, and "all allowed" iff every character is |
| Validators.StrongPasswordPattern | src/utils/validators.ts:7 | accepted iff: length at least 8; every character in `[A-Za-z0-9@$!%*?&]`; at least one lower-case letter, one upper-case letter, one digit and one of `@$!%*?&` |
| Validators.IsCpf | src/utils/validators.ts:10 | definition: the character-level reading of `^\d{3}\.\d{3}\.\d{3}-\d{2}$`; characterised by `CpfPattern` |
| Validators.FormatCpf | src/utils/validators.ts:10 | every layout of eleven digits is accepted |
| Validators.CpfDigits | src/utils/validators.ts:10 | the digits of an accepted value lay out back into it |
| Validators.CpfRoundTrip | src/utils/validators.ts:10 | extracting the digits of a layout gives back the digits |
| Validators.CpfPattern | src/utils/validators.ts:10 | `cpf` accepts exactly the `000.000.000-00` layouts of eleven digits |
| Validators.ParsePhone | src/utils/validators.ts:13 | definition: a parser reading `^\(?\d{2}\)?\s?\d{4,5}-?\d{4}$` into its parts; `PhoneSound` and `PhoneComplete` relate it to `RenderPhone` |
| Validators.IsPhone | src/utils/validators.ts:13 | definition: the parse succeeds; characterised by `PhonePattern` |
| Validators.TakeChar | src/utils/validators.ts:13 | an optional literal character is taken exactly when present |
| Validators.TakeSpace | src/utils/validators.ts:13 | the optional `\s` takes exactly one leading white-space character when present |
| Validators.ParseSubscriberSound | src/utils/validators.ts:13 | a parsed subscriber number is 4 or 5 digits, an optional hyphen, then 4 digits |
| Validators.ParseSubscriberComplete | src/utils/validators.ts:13 | every such subscriber number parses back into its pieces |
| Validators.PhoneSound | src/utils/validators.ts:13 | every accepted value is the rendering of a well-formed number |
| Validators.PhoneComplete | src/utils/validators.ts:13 | every well-formed number is accepted, and reads back into exactly its pieces |
| Validators.PhonePattern | src/utils/validators.ts:13 | `phone` accepts exactly the renderings of well-formed numbers |
| Validators.HourTextValue | src/utils/validators.ts:37 | `[01]?[0-9]\|2[0-3]` is the one- and two-digit numbers up to 23 |
| Validators.MinuteTextValue | src/utils/validators.ts:37 | `[0-5][0-9]` is the two-digit numbers up to 59 |
| Validators.IsTimeFormat | src/utils/validators.ts:37 | definition: the character-level reading of `^([01]?[0-9]\|2[0-3]):[0-5][0-9]$`; characterised by `TimeFormatPattern` |
| Validators.TimeFormatPattern | src/utils/validators.ts:37 | accepts hour 0-23 in one or two digits, `:`, minute 00-59; `24:00` and `7:5` rejected; `9:05` and `09:05` accepted |
| Validators.Clock | src/utils/validators.ts:42-43 | a zero-padded `HH:MM` time is five characters long |
| Validators.Pad2 | src/utils/validators.ts:42-43 | zero padding gives two digits worth the number |
| Validators.DateMinutes | src/utils/validators.ts:42-43 | the built text is a date-time only for `HH:MM` or a bare `HH` value, and it lies at most 24 hours after midnight |
| Validators.HourMinutes | src/utils/validators.ts:42-43 | a bare hour `HH` up to 24 reads as `HH:00`, that many hours after midnight |
| Validators.HourOnlyRange | src/utils/validators.ts:40-45 | `validTimeRange("08")("17")` passes and its reverse fails; an hour-only start compares with an `HH:MM` end |
| Validators.ClockMinutes | src/utils/validators.ts:42-43 | a padded `HH:MM` denotes the instant `HH*60+MM` minutes after midnight |
| Validators.ValidTimeRange | src/utils/validators.ts:40-45 | definition: true when either time is empty, else whether the start instant is before the end instant; characterised by `ValidTimeRangeMissing`, `ValidTimeRangeOrder`, `HourOnlyRange` and `ShortHourNeverInRange` |
| Validators.ValidTimeRangeMissing | src/utils/validators.ts:41 | a missing start or end time always passes |
| Validators.ValidTimeRangeOrder | src/utils/validators.ts:42-44 | on `HH:MM` times: passes iff the start is strictly earlier than the end |
| Validators.ShortHourNeverInRange | src/utils/validators.ts:37-44 | a one-digit hour passes `timeFormat`, but any range with it fails `validTimeRange` |

## Left out

- `notFutureDate` (`src/utils/validators.ts:28-34`) compares against the wall clock.
- `errorMessages` (`src/utils/validators.ts:48-61`) is a table of constant strings with no behaviour.
- How vuelidate's `helpers.regex` treats an empty or missing value is library behaviour that is not shown; the model gives only the language of each pattern.
- `changePassword`, `requestPasswordReset` and `resetPassword` (`src/services/authService.ts:81-114`) only forward a request and rethrow its error; they touch no local state. `login`'s credentials and `logout`'s request are not modelled beyond their outcomes.
- The Axios instance (`src/services/api.ts:3-9`) is not modelled: base address, 20-second timeout and transport.
- The interceptors' error handlers, the response interceptor and the `apiService` pass-throughs (`src/services/api.ts:20-42`) return what they receive.
- `src/services/employeeService.ts` is a set of network calls returning the response body; it is not part of this model. The records of `src/types/user.ts` and `src/types/employee.ts` appear only as datatypes.
- Real JSON text is not modelled. `Storage.ParseUser`: parsing succeeds exactly on a value the client serialised itself; hand-written JSON under a key has no counterpart.
- `Storage.ParseEntries`: the same cut applies, and through it `TimeEntries.LoadFrom`. Hand-written text such as `[]` stored as raw text under `timeEntries` is a `Failure` (a throw) in the model, where `JSON.parse` would succeed.
- IEEE floating point is not modelled. `TimeEntries.TotalHours`: durations are exact reals, so rounding error in the running sum and in `Math.round` is absent.
- `TimeEntries.StartsBefore`: the sort compares `${date}T${startTime}` as `Date` timestamps. The model compares `(date, startTime)` lexicographically, which agrees only for zero-padded ISO dates and `HH:MM` times. It also ignores local time. In a daylight-saving gap or overlap, two different strings can parse to the same instant or to instants in the opposite order. An example is 02:30 and 03:30 on a spring-forward date. There the comparator returns 0 or flips the order, while the model keeps the lexicographic order. NaN from unparseable strings is not modelled.
- `Validators.DateMinutes`: accepts exactly the local-time spellings `HH:MM` and `HH` of the date-time string format. Values of the form `HH:MM` followed by an hour-only UTC offset (such as `08:00+03`, which builds `2000-01-01T08:00+03:00`) are valid dates in JavaScript but invalid in the model, because their instant depends on the local offset, which the model does not have. Also not modelled: the fallback parsers some engines apply to other spellings (such as a one-digit hour), and time-zone changes within the local day.
- `Router.Match`: this is the part of vue-router's matcher the table exercises. Static paths are compared ASCII case-insensitively with one optional trailing slash, children come before their parent, and the catch-all comes last. Non-ASCII case folding, encoding, query strings, hashes, parameters other than the catch-all, and ranking among several dynamic routes are not modelled.
- `Router.Navigate`: follows a redirect record once and runs the guard a second time after `next({ name: 'login' })`. Longer redirect chains are not modelled; the table has none (`Router.ResolvedNeverRedirects`).
- The session store's `logout` is modelled (`AuthUser.AuthStore.Logout`), although the store does not return it among its public members (`src/stores/AuthUser.ts:30-35`), so other modules cannot call it.
- Vue and Pinia reactivity, lazy imports of views, `console.error` logging and the asynchrony of service calls are not modelled. Each call is one synchronous step given its outcome, and the store singletons are explicit objects.
- Storage quota errors and unavailable storage are not modelled; `setItem` and `removeItem` always succeed.
- `AuthService.RefreshToken`: the new token is taken as a string. A response without a `token` field, which would store the text `undefined`, is not modelled.
