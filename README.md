# Brand and competitor tracking: a Dafny model of the decision logic

The application lets a brand owner sign up, register one brand profile, and
keep a list of competitor social-media handles for that brand. This project
models the parts of it that decide anything:

- the Instagram handle helpers `formatInstagramHandle` and
  `validateInstagramHandle` (lib/utils.ts), together with JavaScript's `trim`
  and the two regular expressions the code uses;
- the credential guards of `signUp` and `signIn` (lib/auth.ts), up to the call
  into the hosted auth provider;
- the ownership check `verifyBrandOwnership` (lib/supabase-server.ts);
- the request handlers `GET`/`POST /api/brands` and `GET`/`POST
  /api/competitors`, run against an in-memory copy of the two database tables.

Module by module:

| module | file | models |
|---|---|---|
| `Wrappers` | wrappers.dfy | `Option`, for absent JSON fields and null columns |
| `JsString` | js_string.dfy | the ECMAScript white-space set and `String.prototype.trim` |
| `Regex` | regex.dfy | whole-string matching of `c+`, `c*` and `c{lo,hi}` over a character class |
| `Utils` | utils.ts → utils.dfy | `formatInstagramHandle`, `validateInstagramHandle` |
| `Auth` | auth.ts → auth.dfy | the email pattern and the `signUp`/`signIn` guards |
| `DatabaseTypes` | database_types.dfy | the `Brand` and `Competitor` records |
| `Http` | http.dfy | the JSON responses: a status and a data or `{ error }` body |
| `Store` | store.dfy | the two tables as a class, the `.eq`/`.single()`/`.order` queries, generated ids and timestamps, the table invariants |
| `SupabaseServer` | supabase_server.dfy | `verifyBrandOwnership` |
| `BrandsRoute` | brands_route.dfy | `GET` and `POST /api/brands` |
| `CompetitorsRoute` | competitors_route.dfy | `GET` and `POST /api/competitors` |
| `Scenario` | scenario.dfy | a caller of the two `POST` routes |

How the model is built:

- **The store.** `Store.Database` is a class with the fields `brands`,
  `competitors` and `serial`. The `POST` handlers are methods that change the
  object. Each has a pure function (`PostResult`) that gives its answer from
  the old tables, and the method promises that answer. On a 201 the method
  appends exactly one row and draws one serial number. On any other status
  nothing changes.
- **`.single()`.** PostgREST's `.single()` returns a row only when the filter
  matches exactly one row. Zero rows and several rows both give the error
  PGRST116. `Store.SelectSingle` says this, so each probe in the handlers is
  "exactly one matching row". The invariant `Store.Invariant` makes that the
  same as "some matching row". It holds that at most one brand exists per
  user, that `(brand_id, handle)` pairs are unique, that every competitor
  names an existing brand, and that generated ids are unique. Every handler
  preserves it against this store, whose queries never fail. A failed probe
  in the real code would let the insert through (see "## Left out").
- **Ids and timestamps.** The database generates these. Here a row gets the
  store's current `serial` as its timestamp, and the decimal spelling of that
  number as its id.
- **The caller.** `getServerUser()` is replaced by an `Option<UserId>`
  parameter. Body fields are `Option<string>`, with `None` for an absent
  field.

The handlers are modelled as the code has them:

- The brand's `instagram_handle` is only trimmed. It is not given a leading
  `@`, and blank becomes null.
- A competitor's handle is stored exactly as sent, with no `@` normalisation
  and no validation.
- A second brand and a duplicate competitor both get 400. There is no
  separate conflict status.
- The brand-name and industry checks run before the existing-brand check. So
  a second brand with an invalid name is refused for its name.
- The industry is not checked against the `INDUSTRIES` list (`BrandsRoute.IndustryNotChecked`).

## Model

| member | source | states |
|---|---|---|
| `JsString.Trim` | lib/utils.ts:24 | the result has no white space at either end, is a slice of the input, and everything removed at either end is white space |
| `JsString.TrimOfTrimmed` | lib/utils.ts:24 | trimming a string with no white space at its ends returns it unchanged |
| `JsString.TrimIdempotent` | lib/utils.ts:24 | trimming twice equals trimming once |
| `JsString.TrimEmptyIff` | app/api/brands/route.ts:50-51 | a string trims to empty exactly when it is all white space (the "required" checks after `trim`) |
| `Regex.StarIff` | lib/auth.ts:6 | `c*` matches a string exactly when every character is in the class |
| `Regex.PlusIff` | lib/auth.ts:6 | `c+` matches a string exactly when it is non-empty and every character is in the class |
| `Regex.RepeatIff` | lib/utils.ts:36 | `c{lo,hi}` matches a string exactly when its length is in `[lo, hi]` and every character is in the class |
| `Utils.FormatInstagramHandle` | lib/utils.ts:23-29 | the result starts with `@`, has no white space at either end, and is `@` followed by the trimmed input less at most one leading `@` |
| `Utils.FormatKeepsOrPrefixes` | lib/utils.ts:24-27 | if the trimmed input starts with `@` the result is exactly the trimmed input, otherwise it is `@` + trimmed input, one character longer |
| `Utils.FormatIdempotent` | lib/utils.ts:23-29 | formatting a formatted handle changes nothing, for every input |
| `Utils.ValidateInstagramHandle` | lib/utils.ts:35-37 | the test `^@[a-zA-Z0-9_.]{1,30}$`; a handle it accepts has 2 to 31 characters, starts with `@` and has no other `@` |
| `Utils.ValidateIff` | lib/utils.ts:35-37 | a handle is valid exactly when its first character is `@`, 1 to 30 characters follow, and each is an ASCII letter, digit, `_` or `.` |
| `Utils.ValidateRejects` | lib/utils.ts:36 | `"@"` alone, anything over 31 characters, anything without a leading `@`, and anything with a later `@`, white space or other symbol are all rejected |
| `Utils.ValidateFormatIff` | lib/utils.ts:24-37 | a formatted input is valid exactly when the trimmed input, less at most one leading `@`, is 1 to 30 allowed characters |
| `Auth.DomainMatchesIff` | lib/auth.ts:6 | `[^\s@]+\.[^\s@]+` matches exactly the strings with no white space and no `@` that contain a `.` in neither the first nor the last position |
| `Auth.EmailPatternMatches` | lib/auth.ts:6 | the test `^[^\s@]+@[^\s@]+\.[^\s@]+$`; a string it accepts has at least five characters and starts with neither white space nor `@` |
| `Auth.EmailPatternIff` | lib/auth.ts:6 | the email pattern accepts exactly the strings with no white space, exactly one `@`, a non-empty part before it and a `.` strictly inside the part after it |
| `Auth.EmailAccepted` | lib/auth.ts:25 | an email gets past the guard `!email \|\| !pattern.test(email)` exactly when it has the shape above: no white space, one `@`, a non-empty local part and a dot strictly inside the domain |
| `Auth.SignUp` | lib/auth.ts:4-13 | the provider is contacted exactly when the email has that shape and the password has at least 6 characters; a bad email is reported whatever the password is; otherwise a short password is reported |
| `Auth.SignIn` | lib/auth.ts:23-32 | the same email rule, but any non-empty password passes; an empty one is reported as missing |
| `Auth.SignUpStricterThanSignIn` | lib/auth.ts:9-11 | every credential pair sign-up lets through also passes sign-in, while a valid email with a 3-character password passes sign-in but not sign-up |
| `Store.SelectSingle` | lib/supabase-server.ts:22 | `.single()` gives a row exactly when the filter selected exactly one row, and that row is the one selected; without a failing store it never reports a query error |
| `Store.Filter` | lib/supabase-server.ts:20-21 | a row appears in the result of an `.eq` chain exactly when it is in the table and satisfies every filter; the result is never longer than the table |
| `Store.FilterCounts` | app/api/competitors/route.ts:44 | an `.eq` filter keeps each matching row as many times as the table holds it, and drops every other row |
| `Store.FilterExactlyOne` | lib/supabase-server.ts:17-22 | a `.single()` query over an `.eq` filter finds a row exactly when exactly one row of the table matches |
| `Store.HasBrandIff` | app/api/brands/route.ts:74-80 | when each user has at most one brand, the user's brand query finds a row exactly when the user has a brand |
| `Store.OrderByAddedAtDesc` | app/api/competitors/route.ts:45 | the result is ordered by `added_at`, newest first, and is a permutation of the rows it was given |
| `Store.DecimalInjective` | app/types/database.types.ts:3 | different serial numbers give different generated ids |
| `Store.Database.constructor` | app/types/database.types.ts:2-17 | the `brands` and `competitors` tables start empty, with the id and timestamp counter at 0, and satisfy every table invariant |
| `Store.AddBrandKeepsInvariant` | app/api/brands/route.ts:88-99 | inserting a brand with a fresh serial for a user who has none keeps all table invariants |
| `Store.AddCompetitorKeepsInvariant` | app/api/competitors/route.ts:105-115 | inserting a competitor with a fresh serial, under an existing brand, with a new (brand, handle) pair keeps all table invariants |
| `SupabaseServer.OwnershipVerdict` | lib/supabase-server.ts:24 | `!error && data !== null`: ownership is granted exactly when the query neither failed nor missed a single row |
| `SupabaseServer.VerifyBrandOwnership` | lib/supabase-server.ts:16-25 | true exactly when exactly one brands row has the given id and belongs to the given user |
| `SupabaseServer.FailureDenies` | lib/supabase-server.ts:24 | a query error, or a query that found no single row, never grants ownership |
| `SupabaseServer.OwnershipUnderUniqueIds` | lib/supabase-server.ts:17-24 | with unique brand ids, ownership holds exactly when the brand exists and is the user's, so an unknown brand id or another user's brand yields false |
| `BrandsRoute.Get` | app/api/brands/route.ts:7-26 | no caller gives 401; otherwise 200 with the caller's brand, or with null when the query finds no single brand (not an error) |
| `BrandsRoute.CleanHandle` | app/api/brands/route.ts:93 | the stored handle is the trimmed handle, or null when the field is absent or all white space |
| `BrandsRoute.PostResult` | app/api/brands/route.ts:37-103 | only 201, 400 or 401 are returned; 401 exactly when there is no caller; a 201 carries a brand of the caller with the trimmed 2–100 character name, the given non-empty industry, the cleaned handle and a fresh id, and only when the caller's brand query found nothing |
| `BrandsRoute.IndustryNotChecked` | app/api/brands/route.ts:65-71 | the industry is only required to be non-empty: for a user without a brand and a valid name ("Joe"), any non-empty industry outside `INDUSTRIES` gives 201 and is stored as sent |
| `BrandsRoute.PostCheckOrder` | app/api/brands/route.ts:40-85 | the first failing check, in the order name given, name length, industry, existing brand, decides the 400 message, whatever the later fields and the table hold |
| `BrandsRoute.PostCreatesExactly` | app/api/brands/route.ts:49-99 | on a table with at most one brand per user, a brand is created exactly when the caller is known, the trimmed name has 2 to 100 characters, an industry is given and the caller has no brand; so a second brand is always refused |
| `BrandsRoute.PostPreservesInvariant` | app/api/brands/route.ts:74-99 | a created brand keeps every table invariant, in particular at most one brand per user |
| `BrandsRoute.Post` | app/api/brands/route.ts:37-103 | answers as the checks say; a 201 appends exactly that brand and draws one serial; any rejection leaves both tables and the serial unchanged; the invariant is kept |
| `CompetitorsRoute.TrackedIff` | app/api/competitors/route.ts:90-97 | with unique (brand, handle) pairs, the duplicate probe finds a row exactly when the pair is already stored |
| `CompetitorsRoute.Get` | app/api/competitors/route.ts:7-49 | no caller gives 401; a caller whose brand query finds nothing gets 200 with an empty list; otherwise 200 with exactly the competitors filed under that brand, newest first, each as many times as the table holds it |
| `CompetitorsRoute.GetShowsOwnBrand` | app/api/competitors/route.ts:15-45 | on consistent tables, a caller owning a brand is listed exactly that brand's competitors, and a caller with no brand an empty list |
| `CompetitorsRoute.PostResult` | app/api/competitors/route.ts:60-119 | only 201, 400, 401 or 403 are returned; 401 exactly when there is no caller; 403 exactly when both fields are given but the caller does not own the brand; a 201 stores the handle and brand id as sent, the platform or "instagram" when absent, a fresh id, and only for an owned brand with no such handle yet |
| `CompetitorsRoute.PostCheckOrder` | app/api/competitors/route.ts:62-102 | a missing or empty handle or brand id gives 400 before ownership is consulted; non-ownership gives 403 before duplicates are consulted; a duplicate gives 400 |
| `CompetitorsRoute.PostCreatesExactly` | app/api/competitors/route.ts:72-115 | on consistent tables, a competitor is added exactly when the caller is known, both fields are given, the brand exists and is the caller's, and it does not track that handle yet |
| `CompetitorsRoute.PostPreservesInvariant` | app/api/competitors/route.ts:81-115 | an added competitor keeps every table invariant: unique (brand, handle) pairs, and every competitor under an existing brand |
| `CompetitorsRoute.Post` | app/api/competitors/route.ts:60-119 | answers as the checks say; a 201 appends exactly that competitor and draws one serial; any rejection leaves both tables and the serial unchanged; the invariant is kept |
| `Scenario.RegisterAndTrack` | app/api/competitors/route.ts:105-119 | starting from empty tables, a user who creates a brand can then add the competitor "bluebottle" under it; it is stored verbatim with platform "instagram"; a request without a session adds nothing |

## Left out

- Deleting a competitor (`DELETE /api/competitors/[id]`, app/api/competitors/[id]/route.ts) is not part of this model. The tables therefore only ever grow.
- Query failures are not modelled: the in-memory store never fails. In the code they have three different effects:
  - The brand lookup in `GET /api/brands` (app/api/brands/route.ts:22-24), the two lookups in `GET /api/competitors` (app/api/competitors/route.ts:22-34, 47) and the two inserts (app/api/brands/route.ts:101, app/api/competitors/route.ts:117) answer 500.
  - The existing-brand probe (app/api/brands/route.ts:74-80) and the duplicate-competitor probe (app/api/competitors/route.ts:90-97) ignore their error. A failed probe reads as "no row" and the handler inserts. This can create a second brand for a user, or a second row with the same (brand_id, handle) pair.
  - A failed ownership query gives false (lib/supabase-server.ts:24), hence 403 (app/api/competitors/route.ts:82-86). `SupabaseServer.OwnershipVerdict` and `SupabaseServer.FailureDenies` state this verdict, but no query of the model produces the failure.
- `BrandsRoute.PostPreservesInvariant`, `CompetitorsRoute.PostPreservesInvariant`: the table invariants are preserved only because the model's ignored probes never fail. Against a store that can fail, the code does not guarantee one brand per user or unique (brand_id, handle) pairs.
- Request fields are modelled as strings or absent. A JSON `null` behaves like an absent field in every check: `brand_name?.trim()`, `instagram_handle?.trim() || null`, `!industry`, `!handle` and `!brand_id` (app/api/brands/route.ts:50, 66, 93; app/api/competitors/route.ts:73). So `None` covers it, with the one exception on the next line.
- `CompetitorsRoute.PostResult`: the default `platform = 'instagram'` applies only to an absent field (app/api/competitors/route.ts:70). A `platform: null` skips it, and the code inserts a null platform. The model has no null platform, and gives "instagram" only for an absent field.
- Non-string field values are not modelled. Non-zero numbers, `true`, objects and arrays pass `!industry`, `!handle` and `!brand_id` and go on to the later checks. `0` and `false` are refused there like an absent field: 400 "Industry is required" (app/api/brands/route.ts:66), or 400 "Handle and brand_id are required" (app/api/competitors/route.ts:73). Any non-string `brand_name` or `instagram_handle` other than `null` makes `.trim()` throw. A body that is not valid JSON makes `request.json()` throw. A body that is the JSON literal `null` makes the destructuring throw (app/api/brands/route.ts:47, app/api/competitors/route.ts:70). Each of these throws answers 500.
- Sessions and cookies (`getServerUser`, lib/auth-server.ts) are replaced by the caller parameter. Construction of the Supabase clients from environment variables is left out.
- The auth provider calls (`supabase.auth.signUp`, `signInWithPassword`), their errors, `signOut` and `getCurrentUser` are foreign calls. They are abstracted as the outcome `ProviderCalled`.
- `formatDate` is left out: it depends on Intl date formatting and time zones.
- Concurrent requests are left out, and with them the check-then-insert race on both uniqueness invariants. Requests are sequential method calls.
- Database-generated string ids and timestamps are replaced by one serial counter: decimal ids and numeric stamps.
- `Auth.SignUp`: `password.length` counts UTF-16 code units. The model counts Unicode scalar values, so characters outside the Basic Multilingual Plane count once rather than twice.
- `BrandsRoute.PostResult`: the 2–100 length bound counts Unicode scalar values, not UTF-16 code units, for the same reason.
- `Store.OrderByAddedAtDesc`: when two rows have the same `added_at`, the database's order between them is unspecified. The model fixes one order. Under the invariant, stamps are distinct, so no ties arise.
- `CompetitorsRoute.Post` and `BrandsRoute.Post`: these promise their result and new state for any tables. They promise the invariant only when it held before.
- `Scenario.RegisterAndTrack` stops after the add; refusing the same handle a second time is stated by `CompetitorsRoute.PostCreatesExactly`.
