# Device-fingerprint registration gate

A model of the anti-fraud plugin of a Better Auth setup. The plugin adds a
`before` hook to email/password registration. The hook reads the optional
`deviceFingerprint` from the registration payload. An absent or empty
fingerprint (JavaScript's `!fingerprint`) lets the registration through.
Otherwise the hook selects from the `user` table the rows whose
`fingerprintHash` equals the fingerprint, limited to one row. If a row comes
back, it throws an error with code `DEVICE_FINGERPRINT_BLOCKED`, the message
"This device is already linked to an account." and status 403. If no row
comes back, the registration goes ahead.

The model is made of functions over values, as the hook is:

- `wrappers.dfy`: `Option`, for the nullable column and the optional payload field.
- `user_table.dfy` (module `UserTable`): the table row, and the query as a filter (`Where`), a `Limit` and their composition `SelectFirstByHash`. The row keeps `id`, `name`, `email`, `emailVerified` and the nullable, non-unique `fingerprintHash`. SQL equality with a NULL column is never true, so only a present hash equal to the fingerprint character for character matches.
- `anti_fraud.dfy` (module `AntiFraud`): the hook `BeforeRegister`, with `Allow` for a normal return and `Reject(code, message, status)` for the thrown error. It also holds a registration `Register` that runs the hook and then appends the new row, and the lemmas about both.

The hook only reads the table. `BeforeRegister` returns an `Outcome` and no table. `Register` returns the table unchanged on a rejection and grows it by exactly the new row on an acceptance.

The schema comment (`resources/schema-snippet.ts:9-10`) says the hash is not
unique so that several accounts per device, e.g. three, can be allowed. The
hook does not count. It refuses as soon as one row carries the fingerprint,
so it acts as a limit of one account per device. The model follows the code.
`EffectiveThresholdIsOne` and `SecondAccountOnDeviceRefused` state this.

## Model

| member | source | states |
|---|---|---|
| UserTable.HashEquals | resources/plugin-logic.ts:22 | `eq(user.fingerprintHash, fingerprint)` on one row: it holds only when the hash is present and equal to the fingerprint; a NULL hash never compares equal |
| UserTable.Linked | resources/plugin-logic.ts:20-25 | "some row matches": it holds exactly when some row of the table satisfies `HashEquals` for the fingerprint |
| UserTable.Where | resources/plugin-logic.ts:20-22 | the selected rows all come from the table, with no row taken more often than the table holds it, and carry exactly the fingerprint as a non-null hash; every table row with that hash is selected |
| UserTable.Limit | resources/plugin-logic.ts:23 | `.limit(n)` keeps `min(n, length)` rows of the result, unchanged; the model takes them from the front (see Left out on order) |
| UserTable.SelectFirstByHash | resources/plugin-logic.ts:20-25 | the query returns at most one row; it returns a row exactly when some table row's hash equals the fingerprint, and that row is such a row |
| AntiFraud.Falsy | resources/plugin-logic.ts:15-17 | JavaScript's `!fingerprint` on a value that is a string or undefined: true exactly for an absent fingerprint or the empty string |
| AntiFraud.Blocked | resources/plugin-logic.ts:26-30 | the thrown `BetterAuthError`: a rejection with code `DEVICE_FINGERPRINT_BLOCKED`, status 403 and the message "This device is already linked to an account." |
| AntiFraud.BeforeRegister | resources/plugin-logic.ts:13-32 | the outcome is Allow or the 403 `DEVICE_FINGERPRINT_BLOCKED` rejection; an absent or empty fingerprint is allowed whatever the table holds; a non-empty fingerprint is rejected if some row's hash equals it and allowed if none does |
| AntiFraud.DecisionDependsOnlyOnKnownHashes | resources/plugin-logic.ts:20-25 | two tables with the same set of non-null hashes get the same decision: row order, duplicates, NULL hashes and other columns do not matter |
| AntiFraud.NonMatchingRowIrrelevant | resources/plugin-logic.ts:22 | inserting, at any position, a row whose hash is NULL or differs from the fingerprint leaves the decision unchanged: matching is exact equality only |
| AntiFraud.NullHashesNeverReject | resources/plugin-logic.ts:20-25 | a table whose hashes are all NULL allows every registration |
| AntiFraud.MatchCount | resources/plugin-logic.ts:23-25 | the number of rows carrying the fingerprint is at most the table size, and positive exactly when some row carries it |
| AntiFraud.EffectiveThresholdIsOne | resources/plugin-logic.ts:23-31 | for a non-empty fingerprint the decision is Blocked when at least one row matches and Allow otherwise: one match and many matches give the same rejection |
| AntiFraud.RejectionPersists | resources/plugin-logic.ts:20-25 | a fingerprint rejected against a table is still rejected against any table that contains all of its rows |
| AntiFraud.Register | resources/plugin-logic.ts:12-31 | a registration is rejected exactly when the hook rejects; a rejection leaves the table identical; an acceptance appends exactly the new row and keeps every old row in place |
| AntiFraud.RegisterKeepsOneAccountPerDevice | resources/plugin-logic.ts:17-31 | if the new row stores the submitted fingerprint, a registration keeps the table free of two rows sharing a non-empty hash |
| AntiFraud.WhereReturnsEveryMatch | resources/plugin-logic.ts:20-22 | before the limit, the query returns as many rows as the table has rows carrying the fingerprint |
| AntiFraud.RegisterAll | resources/plugin-logic.ts:12-31 | after a series of registrations the table still starts with the original rows and has grown by at most one row per attempt |
| AntiFraud.RegisterAllKeepsOneAccountPerDevice | resources/plugin-logic.ts:17-31 | over any series of registrations whose new rows store the submitted fingerprint, no two rows ever share a non-empty hash |
| AntiFraud.SecondAccountOnDeviceRefused | resources/plugin-logic.ts:20-31 | with one account on device "F1", a second registration from "F1" is refused, although the schema comment speaks of allowing several per device |

## Left out

- The Better Auth plugin object, its hook registration and how a thrown `BetterAuthError` becomes an HTTP response: the model keeps only the outcome value.
- The `async`/`await` plumbing and the database connection: the query is a function of the table's contents. A failing query, which would make the hook throw a different error, is not modelled.
- Concurrency: two registrations racing on the same fingerprint can both pass the check; the model treats each registration as one atomic step.
- Payload values that are not strings (e.g. `null` or a number passed despite the `string | undefined` cast): the fingerprint is an `Option<string>`.
- The columns `image`, `createdAt` and `updatedAt`: the hook does not read them.
- The schema's constraints that `id` is a primary key and `email` is unique: `UserRow` does not enforce them, and no proved property depends on them.
- Row order: an SQL select without ORDER BY returns matching rows in no promised order, so `limit(1)` may return any matching row. The model fixes table order; the decision does not depend on it (`DecisionDependsOnlyOnKnownHashes`).
- Register: appends the new row whenever the hook allows, although the framework's own sign-up can still refuse afterwards (for example, an email already taken). The invariant lemmas only get easier when fewer rows are appended.
- Where `fingerprintHash` is written on a successful sign-up: no shown code writes it, so `Register` takes the new row as given, and `RegisterKeepsOneAccountPerDevice` states the storing of the fingerprint as a hypothesis.
- The registration and password-reset forms, the fingerprint collection on the client, the email templates and the framework configuration: UI, I/O and wiring with no decision logic.
