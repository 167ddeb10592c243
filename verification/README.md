# To-Do-Listo API: per-request task logic in Dafny

This project models the core of a small REST facade over a hosted
auth-and-database service. The core is the authenticated `tasks` resource in
`tasks.js`. `authMiddleware` pulls a bearer token out of the
`Authorization` header and asks the auth service who holds it. It then
either answers 401/500 or passes the caller on. Four routes then create,
list, update and delete tasks, always scoped to the caller's own rows.

The model is functional. The `tasks` table is a `seq<Task>`. The auth
service's `getUser` is a function value `whoIs: string -> AuthReply`. Each
route is a pure function from caller, request and table to a response and
a new table. Each query-builder chain is read as its relational meaning on
the table:

- `.insert(...).select()` appends one row and returns it.
- `.select('*').eq('user_id', u).order('created_at', desc)` is a filter and a sort.
- `.update(d).eq('id', i).eq('user_id', u)` rewrites the rows that match both keys.
- `.delete().eq('id', i).eq('user_id', u)` removes the rows that match both keys.

Whether the store call succeeds is an input (`StoreCall`). Its failures
come from the foreign client, so their causes are not modelled.

Modules:

- `Options` (options.dfy): `Option`, for headers and body fields that may be `undefined`.
- `Header` (header.dfy): JavaScript's `split(' ')`, its inverse, and bearer-token extraction.
- `Store` (store.dfy): the `Task` row and the table operations.
- `Http` (http.dfy): status codes, the literal error messages, and response shapes.
- `Auth` (auth.dfy): the authentication gate.
- `Handlers` (handlers.dfy): the four routes, and `Handle`, which runs the gate and then the route.
- `Isolation` (isolation.dfy): whole-request and multi-request properties.

The header is split on each single space character, and the token is the
second piece. The scheme word is never checked. A header with two spaces in
a row, such as `"Bearer  abc"`, has no token, because splitting on a single
space leaves an empty second piece. Error bodies carry the Spanish literals the code
sends ("Token requerido.", "Token inválido.", and so on).

## Model

| member | source | states |
|---|---|---|
| Header.Split | tasks.js:15 | `split(' ')` yields one more piece than there are spaces, and no piece contains a space |
| Header.JoinSplit | tasks.js:15 | joining the pieces with single spaces gives back the header, so splitting loses nothing |
| Header.SplitJoin | tasks.js:15 | splitting the join of space-free pieces gives those pieces back (the other half of the round trip) |
| Header.BearerToken | tasks.js:14-19 | a token is only found in a present header that has a space; it is non-empty and has no space |
| Header.TokenOfShape | tasks.js:14-19 | any scheme word, one space, a non-empty space-free token, then the end or another space: that token is extracted, whatever the scheme |
| Header.ShapeOfToken | tasks.js:14-19 | conversely, an extracted token always sits between the first space and the next space (or the end) |
| Header.NoSpaceNoToken | tasks.js:15-19 | a header without a space has no token |
| Header.EmptySecondPieceNoToken | tasks.js:15-19 | an empty second piece (trailing space, or two spaces in a row) counts as no token |
| Header.UsualHeader | tasks.js:14-19 | `"Bearer abc"` gives `"abc"` |
| Header.OtherScheme | tasks.js:14-19 | `"Basic abc def"` gives `"abc"`: the scheme word is not checked |
| Header.MissingSpace | tasks.js:14-19 | `"Bearerabc"` gives no token |
| Header.DoubleSpace | tasks.js:14-19 | `"Bearer  abc"` gives no token |
| Auth.Authenticate | tasks.js:12-49 | no token means 401 "Token requerido."; the caller is admitted exactly when the service returns a user and no error for the token; a throwing service gives 500 "Error interno de autenticación.", and a 500 arises only then; every denial is 401 or 500 |
| Auth.NoLookupWithoutToken | tasks.js:14-22 | without a token the gate's answer does not depend on the auth service at all |
| Auth.OnlyTheTokenIsLookedUp | tasks.js:22-26 | with a token, only the service's reply for that token matters |
| Auth.RejectedToken | tasks.js:24-26 | an error reply or a reply without a user is 401 "Token inválido.", even when a user came with the error |
| Store.OwnedBy | tasks.js:93 | the filtered rows are exactly the table rows owned by the user, each as often as in the table |
| Store.InsertNewestFirst | tasks.js:94 | inserting into a newest-first sequence keeps it newest-first and adds exactly that row |
| Store.OrderNewestFirst | tasks.js:94 | the ordered rows are a permutation of the input with `created_at` non-increasing |
| Store.Select | tasks.js:90-94 | the listed rows are a permutation of the caller's rows, newest first, and a row is listed iff it is in the table and owned by the caller |
| Store.Apply | tasks.js:121 | each column named in the update takes its new value, every other column keeps its value, and `id`, `user_id` and `created_at` never change |
| Store.UpdateWhere | tasks.js:119-123 | the table keeps its length and order; rows matching both `id` and `user_id` are updated, all others stay as they were |
| Store.DeleteWhere | tasks.js:142-146 | every row matching both `id` and `user_id` is gone; every other row keeps its multiplicity |
| Store.OwnedByAppend | tasks.js:62-72 | an appended row joins its owner's selection and no one else's |
| Store.UpdateSparesOthers | tasks.js:119-123 | an update filtered on a user leaves every other user's rows unchanged |
| Store.DeleteSparesOthers | tasks.js:142-146 | a delete filtered on a user leaves every other user's rows unchanged |
| Store.UpdateWithoutMatch | tasks.js:119-123 | with no row matching both keys, the update leaves the table as it was |
| Store.DeleteWithoutMatch | tasks.js:142-146 | with no row matching both keys, the delete leaves the table as it was |
| Store.ApplyIdempotent | tasks.js:114-121 | applying the same partial update twice equals applying it once |
| Store.ApplyNothing | tasks.js:114-121 | an empty update object changes nothing |
| Handlers.Failed | tasks.js:96-103 | a store error is 400 relaying the store's message, an exception is 500 "Error interno del servidor."; the table is unchanged either way |
| Handlers.Create | tasks.js:53-83 | a missing or empty title is 400 "El título es obligatorio." with the table unchanged; otherwise, on success, exactly one row is appended, owned by the caller, not completed, with the description or `""`; on store failure nothing changes |
| Handlers.List | tasks.js:86-105 | the table is never changed; on success the body is the caller's rows, newest first, and an empty list is still a 200 |
| Handlers.ChangesOf | tasks.js:114-117 | the update object has an entry for exactly the fields that are present, holding their values |
| Handlers.Update | tasks.js:108-134 | on success it is a 200 whatever matched, and the table is the two-key update; on failure the table is unchanged |
| Handlers.Delete | tasks.js:137-157 | on success it is a 200 whatever matched, and the table is the two-key delete; on failure the table is unchanged |
| Handlers.Handle | tasks.js:17-45 | a request the gate denies gets the gate's response and leaves the table unchanged; no route runs |
| Isolation.NoTokenNoEffect | tasks.js:14-19 | any request without a usable token is 401 "Token requerido." with the table unchanged |
| Isolation.InvalidTokenNoEffect | tasks.js:22-26 | any request whose token the service rejects is 401 "Token inválido." with the table unchanged |
| Isolation.AdmittedRequestIsServed | tasks.js:42-45 | a request the gate admits runs its route for the admitted caller: when the store answers, list is 200 with the caller's rows, create with a title appends the caller's new row, and update and delete give 200 with the two-key update or delete |
| Isolation.CreateSparesOthers | tasks.js:62-72 | a create, successful or not, leaves every other user's rows exactly as they were |
| Isolation.OthersUntouched | tasks.js:53-157 | after any request, every user except the authenticated caller owns exactly the same rows as before |
| Isolation.OnlyCallerRowsChange | tasks.js:53-157 | every row a request adds, changes or removes is owned by the authenticated caller |
| Isolation.TraceIsolation | tasks.js:53-157 | over any sequence of requests, a user's rows change only through that user's own authenticated requests |
| Isolation.TraceOwnership | tasks.js:62-72 | every row that appears during a sequence of requests is owned by the caller of one of them |
| Isolation.CreateThenList | tasks.js:62-100 | a task created with only a title is then listed for its creator, not completed and with an empty description; other users' listings are unchanged |
| Isolation.CreatedRowOwnedByCaller | tasks.js:62-71 | a created row's `user_id` is the caller's id whatever the body holds |
| Isolation.PartialUpdate | tasks.js:114-123 | a matched row takes exactly the fields the body carries; absent fields, unmatched rows, and every `id`, `user_id` and `created_at` stay as they were |
| Isolation.ForeignUpdateIsNoop | tasks.js:119-129 | updating a foreign or unknown id is a 200 that changes nothing |
| Isolation.ForeignDeleteIsNoop | tasks.js:142-152 | deleting a foreign or unknown id is a 200 that changes nothing |
| Isolation.DeleteThenList | tasks.js:142-146 | after a delete, the caller's listing has no task with that id and keeps every other task of theirs |

## Left out

- index.js: `/register` and `/login` only forward to the auth service and relay its answer. CORS, JSON body parsing, environment loading and `listen` are framework and startup plumbing.
- The Supabase clients (tasks.js:6-9, 29-39) are foreign library code. The caller's identity is passed to the routes as a plain value. The token-carrying client and the store's row-level-security policies are not modelled, so the handlers' own `user_id` filters are the only protection in the model.
- An exception thrown while the scoped client is built (after a successful `getUser`) also ends in the 500 of tasks.js:46-49. Only a throwing `getUser` (`AuthReply.Threw`) is modelled as leading there.
- The store assigns `id` and `created_at`. The model takes them as inputs (`Env.newId`, `Env.now`). It does not require ids to be unique.
- Store errors (400 with the store's message) and exceptions (500) are an abstract `StoreCall` outcome that leaves the table unchanged. Their causes are not modelled.
- The body that update and delete return is whatever the store reports. It is the opaque `Relayed`.
- Handlers.CreateBody and Handlers.UpdateBody hold `title` and `description` as optional strings and `completed` as an optional boolean. JSON `null`, numbers and other types in these fields are not modelled, and neither is how the store would treat them.
- Store.Apply: an empty update object is modelled as a no-op. What the store actually answers to an empty update request is store behaviour outside this code.
- Store.OrderNewestFirst: the store does not fix the order of rows with equal `created_at`. The model keeps ties in table order. Handlers.List's contract only promises non-increasing `created_at` and the exact multiset of the caller's rows.
- Console logging, concurrent requests and per-request client isolation are not modelled. Requests are handled one at a time.
