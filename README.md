# Activity tracker: request gate and server actions

This project models in Dafny the core of a small web application. Members sign in, keep a log of
their sport activities, and are turned away once their account is no longer active.
It covers three parts:

- **The request gate** (`proxy.ts`), which runs before every page.
  - A `/proxy/...` path is rewritten onto an external target URL when one is configured.
  - Without the backend's URL and key, the request passes through untouched.
  - Otherwise the session is resolved through the backend client. Its cookie adapter may set
    refreshed cookies on the forwarded request and on the response.
  - Public routes and `/api` paths pass through.
  - A protected path without a session is redirected to `/login`, with `next` and an `error`
    message.
  - A session whose `members` row is missing or not `active` is redirected to `/login` with
    another message.
  - Everything else passes through carrying the refreshed cookies.
- **The authentication actions** (`src/app/auth/actions.ts`):
  - `getString`, which trims a form field and reads a missing field or a file as `""`;
  - `signIn`, `signUp` and `signOut`. Each ends in a redirect, modelled as a path with at most one
    query parameter and the list of backend calls made on the way.
- **The activity actions** (`src/app/account/actions.ts`):
  - the parsers `parseNumber` and `isValidDate`;
  - `upsertActivity` and `deleteActivity`, which update the `member_activity` table.
    A file entry in `activity_type` or `notes` makes `upsertActivity` throw at its `.trim()`
    (actions.ts:28, 32) before anything is written; the model's outcome for that case is `Threw`.

Files:

| file | module | content |
|---|---|---|
| `common.dfy` | `Common` | `Option`, the session's `User`, the selected `members` row, the backend `Call`s and `LoginPath` |
| `js_text.dfy` | `JsText` | `startsWith` and ECMAScript `trim`, with its properties |
| `uri.dfy` | `UriComponent` | `encodeURIComponent` over UTF-8 and a decoder, with the round trip |
| `forms.dfy` | `Forms` | `FormData` as an ordered list of text or file entries; `get` returns the first match |
| `proxy.dfy` | `Proxy` | route classification, the rewrite, `URLSearchParams.set`, the cookie bridge (a class), the gate as a function and as a method |
| `auth_actions.dfy` | `AuthActions` | `getString`, `signIn`, `signUp`, `signOut` |
| `account_actions.dfy` | `AccountActions` | parsing, the payload, the table (a class), both activity actions as functions and as methods |

How the code's shape is kept:

- The gate is a chain of early returns. It is stated as the function `Proxy.Gate`.
- The method `Proxy.HandleRequest` performs the same steps statement by statement on a
  `CookieBridge` object, whose `SetAll` updates the request's cookies and replaces the
  pass-through response. The method is proved equal to `Gate`.
- The `member_activity` table is a class whose `rows` map the update, insert and delete statements
  change. `UpsertActivity` and `DeleteActivity` are proved equal to the functions `Upsert` and
  `Remove`, and the properties are stated about those functions.

The backend's answers are parameters: the session refreshes, the user, the member row, a store
failure and the id the store generates. The call trace records what is asked of the backend.
The JavaScript host's `Number`, `Date.parse` and clock are parameters too.

Two points of the code's behaviour deserve a note.

- **Cookies on redirects.** The two redirects (proxy.ts:105, 121) are fresh responses, so cookies
  refreshed while the session is resolved reach only pass-through responses.
  `Proxy.PassThroughCarriesRefresh` states what pass-throughs carry, and a redirect in the model
  carries no cookies.
- **Member status in `signIn`.** The gate rejects any status other than exactly `active`, including
  a missing row. `signIn` rejects only a status that is set, non-empty and not `active`.
  `AuthActions.SignInAdmitsWhatGateRefuses` shows the gap.

## Model

| member | source | states |
|---|---|---|
| `JsText.TrimIsTrimmed` | src/app/auth/actions.ts:8-9 | the result of `trim` has no leading or trailing ECMAScript whitespace |
| `JsText.TrimEmptyIffWhitespace` | src/app/auth/actions.ts:8 | `trim` gives the empty string exactly when the input is whitespace only |
| `JsText.TrimIsInnerSlice` | src/app/auth/actions.ts:9 | `trim` returns a contiguous slice of the input, with only whitespace before and after it |
| `JsText.TrimStartDropsWhitespace` | src/app/auth/actions.ts:9 | the leading pass keeps a suffix that starts with a non-whitespace character and drops only whitespace |
| `JsText.TrimEndDropsWhitespace` | src/app/auth/actions.ts:9 | the trailing pass keeps a prefix that ends with a non-whitespace character and drops only whitespace |
| `JsText.TrimIdempotent` | src/app/auth/actions.ts:9 | trimming twice equals trimming once |
| `JsText.TrimmedIsFixed` | src/app/auth/actions.ts:9 | a string without leading or trailing whitespace is returned unchanged |
| `Forms.GetFindsFirst` | src/app/auth/actions.ts:7 | `get` is empty exactly when no entry has the name; otherwise it returns the value of the first entry with that name |
| `UriComponent.DecodeEncode` | src/app/auth/actions.ts:24 | decoding the encoding of any string gives the string back, so the redirect's `error` value survives the URL intact (this is about the URL only; whatever page reads the parameter afterwards is outside this model) |
| `UriComponent.EncodeAlphabet` | src/app/auth/actions.ts:24 | the encoding uses only unreserved characters, `%` and uppercase hex digits |
| `UriComponent.EncodeUnreserved` | src/app/auth/actions.ts:33 | a string of unreserved characters encodes to itself |
| `UriComponent.DecodeEscapeOfChar` | src/app/auth/actions.ts:24 | the escapes of one non-ASCII character decode to that character and consume exactly those escapes |
| `AuthActions.HrefCarriesParam` | src/app/auth/actions.ts:24 | the redirect URL is the path, `?`, the name and `=`, and then a value that holds no `&` or `#` and decodes to the message |
| `AuthActions.PlainHref` | src/app/auth/actions.ts:17 | a parameter value of unreserved characters appears in the URL exactly as written |
| `AuthActions.MissingFieldsSignInHref` | src/app/auth/actions.ts:17 | the missing-fields redirect of `signIn` is the URL `/login?error=missing_email_or_password` |
| `AuthActions.UnableToFetchUserHref` | src/app/auth/actions.ts:33 | the encoded `unable_to_fetch_user` redirect is the URL `/login?error=unable_to_fetch_user` |
| `AuthActions.AccountSuspendedHref` | src/app/auth/actions.ts:44 | the encoded `account_suspended` redirect is the URL `/login?error=account_suspended` |
| `AuthActions.MissingFieldsSignUpHref` | src/app/auth/actions.ts:56 | the missing-fields redirect of `signUp` is the URL `/signup?error=missing_email_or_password` |
| `AuthActions.SignUpNoticeHref` | src/app/auth/actions.ts:75 | the sign-up notice redirect is the URL `/login?success=check_email_or_sign_in` |
| `AuthActions.GetString` | src/app/auth/actions.ts:6-10 | the result is trimmed; it is non-empty exactly when the entry is text with a non-whitespace character, and then it is that text trimmed |
| `AuthActions.GetStringEmpty` | src/app/auth/actions.ts:6-10 | `""` comes back exactly for a missing entry, a file, or whitespace only |
| `AuthActions.SignInNeedsBothFields` | src/app/auth/actions.ts:13-18 | an empty email or password redirects to `/login` with `missing_email_or_password` before any backend call |
| `AuthActions.SignInAuthenticates` | src/app/auth/actions.ts:13-21 | with both fields present, sign-in goes on with the trimmed email and password |
| `AuthActions.SignInCredentialError` | src/app/auth/actions.ts:21-25 | a credential error sends its message back to `/login`, after exactly one password sign-in call |
| `AuthActions.SignInWithoutUser` | src/app/auth/actions.ts:28-34 | no user after a successful sign-in redirects with `unable_to_fetch_user` after the sign-in and the user lookup |
| `AuthActions.AuthenticateWithoutUser` | src/app/auth/actions.ts:21-34 | the same, for given trimmed credentials |
| `AuthActions.SuspendedMemberSignedOut` | src/app/auth/actions.ts:42-45 | a status that is set and not `active` redirects with `account_suspended`, and the last call is a sign-out |
| `AuthActions.SignInSignsOutOnlyWhenSuspended` | src/app/auth/actions.ts:12-48 | sign-in signs the session out if and only if the fields are present, no error occurred, a user exists and the member row blocks |
| `AuthActions.AuthenticateSignsOutOnlyWhenSuspended` | src/app/auth/actions.ts:21-47 | the same if-and-only-if, for given trimmed credentials |
| `AuthActions.SignInLocations` | src/app/auth/actions.ts:12-48 | every sign-in ends on `/account` or on `/login` with an `error` parameter |
| `AuthActions.AuthenticateLocations` | src/app/auth/actions.ts:21-47 | the same, for given trimmed credentials |
| `AuthActions.SignInAdmitsWhatGateRefuses` | src/app/auth/actions.ts:42 | a missing member row or an empty or null status lets sign-in reach `/account`, while the gate redirects that member from every protected path |
| `AuthActions.SignUpOutcomes` | src/app/auth/actions.ts:50-76 | missing fields are refused with no call; otherwise exactly one sign-up call is made, with a blank full name sent as none; then the error or the success notice |
| `AuthActions.SignOutAction` | src/app/auth/actions.ts:78-82 | sign-out makes exactly one sign-out call and redirects to `/login` |
| `Proxy.PublicRouteCases` | proxy.ts:24-28 | a path is public exactly when it is one of the five routes or lies under one of them, where under `/` means starting with `//` |
| `Proxy.PublicRouteExamples` | proxy.ts:26-28 | `/login/reset`, `//x` and `/` are public; `/loginx` and `/authors` are not |
| `Proxy.ProxyPathsAreProtected` | proxy.ts:23-28 | no `/proxy/` path is a public route |
| `Proxy.StripTrailingSlash` | proxy.ts:41 | the result is the input, or the input minus one final `/`, and it is the latter exactly when the input ends with `/` |
| `Proxy.RewriteExample` | proxy.ts:37-42 | concrete rewrites: target path and suffix joined by a single `/`, the query copied, and only one trailing slash stripped |
| `Proxy.SetParamFacts` | proxy.ts:103-104 | after `set`, the name occurs exactly once with the new value, it takes the first occurrence's place or, for an absent name, is appended at the end, and the parameters of other names keep their order |
| `Proxy.SetParamKeepsOthers` | proxy.ts:103-104 | `set` does not change the value of any other name |
| `Proxy.ReplaceFirstFacts` | proxy.ts:103 | replacing a present name leaves exactly one occurrence, with the new value |
| `Proxy.WithoutTwice` | proxy.ts:103 | removing a name twice removes it once |
| `Proxy.LookupWithout` | proxy.ts:103 | removing one name does not change the lookup of another |
| `Proxy.ApplyKeys` | proxy.ts:65-67 | setting a batch of cookies adds exactly the batch's names to the jar |
| `Proxy.ApplyKeepsUnnamed` | proxy.ts:65-67 | a cookie the batch does not name keeps its value |
| `Proxy.ApplyTakesLast` | proxy.ts:65-67 | a name the batch sets holds the value of its last cookie of that name |
| `Proxy.ApplyConcat` | proxy.ts:64-67 | setting two batches in turn is setting their concatenation |
| `Proxy.AccumulatedIsFlatApply` | proxy.ts:64-74 | after several refreshes, the request's cookies are the original jar with every batch applied in order |
| `Proxy.CookieBridge.SetAll` | proxy.ts:64-74 | the request's cookies become the old ones with the batch applied, and the response becomes a new pass-through that forwards them and sets exactly this batch |
| `Proxy.HandleRequest` | proxy.ts:13-125 | the statement-by-statement handler returns the response and the backend calls of `Gate` |
| `Proxy.ProxyRewriteComesFirst` | proxy.ts:33-45 | with a target configured, a `/proxy/` request is rewritten to the joined path with its query, before any backend call |
| `Proxy.UnconfiguredProxyIsGated` | proxy.ts:33-47 | without a target, a `/proxy/` path is protected like any other |
| `Proxy.MissingCredentialsFailOpen` | proxy.ts:52-57 | without the backend's URL or key, the request passes through with its cookies and no backend call |
| `Proxy.OpenPathsPassThrough` | proxy.ts:79-95 | public and `/api` paths pass through with the refreshed cookies after the one user lookup |
| `Proxy.SignInRequired` | proxy.ts:100-106 | a protected path without a session redirects to `/login` with `next` set to the path and the sign-in message; other parameters are kept |
| `Proxy.InactiveMemberRedirected` | proxy.ts:111-122 | a missing row or a status other than `active` redirects to `/login` on the request's origin with the inactive-account message after both lookups; other parameters are kept |
| `Proxy.ActiveMemberPasses` | proxy.ts:117-124 | an active member's request passes through with the refreshed cookies |
| `Proxy.MemberQueriedOnlyWhenProtected` | proxy.ts:86-115 | the `members` table is read only for a protected path with a session, for that user's id, and after the user lookup |
| `Proxy.PassThroughCarriesRefresh` | proxy.ts:14-16 | a pass-through forwards the request's cookies with every refresh applied, and sets on the response the cookies of the last refresh |
| `Proxy.GateSuspendedExample` | proxy.ts:117-121 | a suspended member on `/dashboard` is redirected to `/login?error=...` |
| `Proxy.GateRewriteExample` | proxy.ts:33-44 | `/proxy/v1/status?x=1` with target `/gateway/` is rewritten to `/gateway/v1/status?x=1` |
| `Proxy.GateLoginExample` | proxy.ts:86-88 | `/login` without a session passes through |
| `Proxy.WithoutHasNone` | proxy.ts:103 | removing a name leaves no parameter of that name |
| `Proxy.CookieBridge.constructor` | proxy.ts:14-16 | the bridge starts with the request's cookies and a pass-through response that sets no cookie |
| `Proxy.GateApiExample` | proxy.ts:93-95 | `/api/whatever` without a session passes through |
| `AccountActions.ParseNumber` | src/app/account/actions.ts:8-11 | a text entry whose number is finite gives that number; anything else gives the fallback |
| `AccountActions.IsValidDate` | src/app/account/actions.ts:13-17 | false for a missing or empty entry; otherwise true exactly when the date parse is finite |
| `AccountActions.NotesOf` | src/app/account/actions.ts:32 | notes are absent exactly when whitespace only; otherwise they are trimmed and non-empty |
| `AccountActions.UpdateMatching` | src/app/account/actions.ts:55-59 | the update changes only the row that has both that id and that member, and adds or removes none |
| `AccountActions.DeleteMatching` | src/app/account/actions.ts:85-89 | the delete removes only the row that has both that id and that member, and leaves the rest unchanged |
| `AccountActions.MemberActivityTable.constructor` | src/app/account/actions.ts:56 | the table starts with the given rows |
| `AccountActions.MemberActivityTable.Update` | src/app/account/actions.ts:55-60 | a failed statement leaves the rows alone; otherwise the filtered update is applied |
| `AccountActions.MemberActivityTable.Insert` | src/app/account/actions.ts:63-66 | the row is added under the new id unless the statement fails or the id is taken, which is a primary-key violation |
| `AccountActions.MemberActivityTable.Delete` | src/app/account/actions.ts:85-90 | a failed statement leaves the rows alone; otherwise the filtered delete is applied |
| `AccountActions.UpsertActivity` | src/app/account/actions.ts:19-75 | the action's outcome, table and revalidated paths are those of `Upsert` |
| `AccountActions.DeleteActivity` | src/app/account/actions.ts:77-98 | the action's outcome, table and revalidated paths are those of `Remove` |
| `AccountActions.UnauthenticatedWritesNothing` | src/app/account/actions.ts:25 | without a session, upsert returns `not_authenticated` and writes nothing |
| `AccountActions.ActivityTypeIsRequired` | src/app/account/actions.ts:28-40 | a missing or blank activity type, with `notes` not a file, returns `activity_type_required` and writes nothing |
| `AccountActions.PayloadTypeIsTrimmed` | src/app/account/actions.ts:27-28 | a prepared row carries the trimmed, non-empty activity type and the id as read from the form |
| `AccountActions.PayloadNotesAreTrimmed` | src/app/account/actions.ts:32 | stored notes are trimmed and non-empty |
| `AccountActions.PayloadDateFallsBack` | src/app/account/actions.ts:33-36 | the instant is the parsed date when valid and the current instant otherwise |
| `AccountActions.PayloadNumbersAreParsed` | src/app/account/actions.ts:29-31 | the three numeric columns are the fields parsed with fallback 0 |
| `AccountActions.NonNumericFieldsReadAsZero` | src/app/account/actions.ts:8-11 | a missing, file or non-finite field reads as 0 |
| `AccountActions.PayloadIsOwned` | src/app/account/actions.ts:42-43 | the row is always owned by the signed-in user |
| `AccountActions.WriteKeepsOtherMembersRows` | src/app/account/actions.ts:53-67 | an update or insert of an owned row leaves every other member's rows unchanged |
| `AccountActions.UpsertKeepsOtherMembersRows` | src/app/account/actions.ts:19-75 | whatever the form and the store do, upsert leaves every other member's rows unchanged |
| `AccountActions.UpsertWithIdUpdates` | src/app/account/actions.ts:53-60 | with an id and when the store succeeds, upsert is the filtered update followed by revalidating `/account`, and the set of row ids stays the same |
| `AccountActions.UpdateOfForeignRowSucceedsUnchanged` | src/app/account/actions.ts:55-59 | an id that selects no row of this member still reports success, with the table unchanged |
| `AccountActions.UpsertWithoutIdInserts` | src/app/account/actions.ts:61-66 | without an id, a successful upsert adds exactly one row, the payload |
| `AccountActions.StoreErrorIsReturned` | src/app/account/actions.ts:69-71 | a store error's message is returned, with the table unchanged and nothing revalidated |
| `AccountActions.SuccessOnlyAfterWrite` | src/app/account/actions.ts:19-75 | success holds exactly when a user exists, the form is valid and the write succeeded; revalidation happens exactly on success; on any failure the table is unchanged |
| `AccountActions.RemoveOnlyOwnRow` | src/app/account/actions.ts:77-98 | delete removes at most the user's own row with that id, succeeds exactly when the store does, and leaves other members' rows unchanged |

## Left out

- Parsing `PROXY_TARGET_URL` is not modelled. The target arrives already parsed, so the exception
  `new URL` throws on a malformed value is not modelled.
- The pathname is not percent-encoded or normalised for dot segments when it is assigned.
  `Proxy.RewriteUrl` joins the strings as they are.
- A query is a list of name and value pairs. Its serialisation (`search`) is not modelled. Copying
  `search` is modelled as copying the list.
- The cookie adapter's `getAll` (proxy.ts:61-63) is not modelled. The backend's session answers
  (refreshes, user, member row) are parameters rather than functions of the cookies `getAll`
  hands it, so reading the request's cookies has no effect in the model.
- Cookie options (`path`, `maxAge`, `httpOnly` and so on) are not modelled. Each refresh batch sets
  names to values, and a later cookie of the same name wins.
- The `matcher` regular expression in `config` runs before the gate. It is not modelled: every
  request reaching the gate is taken as matched.
- `Number`, `Date.parse`, `new Date()` and `toISOString` belong to the host and are parameters
  (`Host`, `now`). `occurred_at` is kept as the parsed instant rather than as its ISO text.
- The backend client and its internals are parameters: `createServerClient`,
  `createSupabaseServerClient`, session validation, row-level security and id generation.
  Exceptions from backend calls and network failures are left out. `.single()` and `.maybeSingle()`
  are modelled only through the row they return, or its absence.
- `redirect` in a server action ends the action by throwing. Each action is modelled as returning
  the redirect's location together with the calls made before it.
- `UriComponent.Encode`: a lone surrogate, on which `encodeURIComponent` throws a `URIError`, is not
  modelled. Dafny's `char` here is a Unicode scalar value.
- `revalidatePath` is recorded as the list of paths revalidated; cache behaviour is not modelled.
- The presentational pages and components, the backend client helpers and the seeding script are
  not part of this model.
