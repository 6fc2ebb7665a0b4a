# Customer accounts and the token gate, modelled in Dafny

This project models two parts of a small Express/MySQL backend for food ordering:

- **The customer account handlers** (`routes/users.js`). They cover registration, listing, reading and
  updating the caller's profile, and reading, updating and deleting a customer by id.
  They are methods of the class `Customers.CustomerTable`. The class holds `tbl_customers` as a map
  from `customer_id` to a row, plus the next AUTO_INCREMENT value. Each handler is one atomic step.
  It answers with a result datatype: a status and what the JSON body carries. Its contract says what
  the table is afterwards. The object invariant `Valid()` says every id was handed out by the counter
  and usernames are non-empty and unique. Every handler keeps it.
- **The authentication middleware** (`middleware/auth.js`). `Auth.ExtractToken` reads the token out of
  the `Authorization` header as `split(' ')[1]` does, and `Auth.FailureReply` maps the
  token library's error name to a reply. `Auth.VerifyToken` and `Auth.VerifyRole` are the two
  middlewares: each returns either `Next` (call `next()` once) or `Respond(status, error)`.
  `VerifyToken` also returns the request with `req.user` set.

The model uses parameters for the parts it does not see. Password hashing is a function
`hash: string -> PasswordHash`. The `password` column has type `PasswordHash`, so a plaintext string
cannot be stored there. Token verification is a function `verify: string -> VerifyResult`. It returns
the decoded payload or a failure carrying the error's name. The clock (`NOW()` and the token's
issue time) is a parameter `now`.

What the code does where a reader of the API might expect otherwise:

- A duplicate username or email is answered with 400. No 409 is ever sent.
- The two PUT handlers never change the username or the password. They write `full_name`, `email`,
  `phone` and `address` exactly as the body sends them. A missing field becomes NULL, and an
  empty string is stored as sent. Neither handler checks the email. `Customers.ContactUpdateCanDuplicateEmail`
  and the scenario `Customers.SharedEmailAfterPut` show that email uniqueness, which registration
  keeps, is therefore lost after an update.
- The header parser never checks the scheme word. Section 2.1 of RFC 6750 puts `Bearer` there, but
  `Basic x`, `bearer x` and ` x` all yield the token `x` (`Auth.AnySchemeYieldsToken`). A bare
  token with no scheme yields nothing (`Auth.NoSpaceNoToken`).
- Tokens issued at registration carry `customer_id` and `username` but no `role`.

Two client methods, `Customers.SameUsernameTwice` and `Customers.SharedEmailAfterPut`, drive the
handlers through their contracts alone.

## Model

| member | source | states |
|---|---|---|
| Auth.FieldEnd | middleware/auth.js:18 | the index of the first space, or the length: it is within the text and a space sits there when it is short of the end |
| Auth.FieldEndSpaceFree | middleware/auth.js:18 | no space occurs before `FieldEnd` |
| Auth.Split | middleware/auth.js:18 | `split(' ')` yields at least one field, the empty text included |
| Auth.SplitFieldsSpaceFree | middleware/auth.js:18 | no field of a split contains a space |
| Auth.SplitSpaceFree | middleware/auth.js:18 | a text with no space splits into one field, itself |
| Auth.SplitAfterWord | middleware/auth.js:18 | a space-free word, a space and the rest split into the word followed by the fields of the rest |
| Auth.FirstFieldEndsAtSpace | middleware/auth.js:18 | the first field of a split is the text up to the first space |
| Auth.JoinSplit | middleware/auth.js:18 | joining the fields of a header with single spaces gives the header back: splitting loses nothing |
| Auth.SplitJoin | middleware/auth.js:18 | space-free fields joined and split again give the same fields; with `JoinSplit`, split and join are inverse |
| Auth.ExtractToken | middleware/auth.js:17-20 | a token, when there is one, is non-empty and has no space, and the header contained a space |
| Auth.ExtractTokenByPosition | middleware/auth.js:17-20 | for every header, the token is the text after the first space up to the next space or the end, and there is none if that text is empty or there is no space |
| Auth.NoSpaceNoToken | middleware/auth.js:17-26 | a header with no space (a bare token) gives no token, so the request gets the 401 "No token provided" |
| Auth.AnySchemeYieldsToken | middleware/auth.js:17-18 | any space-free scheme word, the empty one included, followed by a space and a token gives that token: the scheme is not checked |
| Auth.BearerFormYieldsToken | middleware/auth.js:17-18 | the RFC 6750 form `Bearer <token>` gives the token |
| Auth.DoubleSpaceNoToken | middleware/auth.js:17-20 | two spaces after the scheme leave an empty second field and no token |
| Auth.FailureReply | middleware/auth.js:28-48 | only `TokenExpiredError` gives 401, with "Token has expired", and every other failure gives 403; "Invalid token" is answered exactly for `JsonWebTokenError`, "Token verification failed" exactly for every other name |
| Auth.VerifyToken | middleware/auth.js:16-55 | no token gives 401 "No token provided"; `next` runs exactly when there is a token and it verifies, and then `req.user` is the decoded payload; a failed verification gives FailureReply of the error's name; on every rejection the request is returned unchanged |
| Auth.VerifyRole | middleware/auth.js:62-81 | 401 "Unauthorized" exactly when no user is attached; `next` exactly when the user's role is present and in the allowed list; 403 otherwise, a missing role included; the request is not changed |
| Customers.InsertKeepsUsernamesUnique | routes/users.js:34-68 | inserting, at a fresh id, a row whose username no row has keeps usernames unique |
| Customers.InsertKeepsEmailsUnique | routes/users.js:47-68 | inserting, at a fresh id, a row whose email no row has keeps emails unique |
| Customers.ContactUpdateKeepsUsernamesUnique | routes/users.js:273-278 | overwriting one row's contact columns keeps usernames unique |
| Customers.DeleteKeepsUsernamesUnique | routes/users.js:329-332 | deleting a row keeps usernames unique |
| Customers.ContactUpdateCanDuplicateEmail | routes/users.js:185-190 | from a table with unique emails, writing another row's email through the unchecked contact update leaves two rows with that email |
| Customers.AtMostOneRowPerUsername | routes/users.js:34-44 | with unique usernames, the username lookup finds at most one row |
| Customers.InsertNewestFirst | routes/users.js:113-117 | inserting into a newest-first list adds exactly that element once (the multiset of elements grows by it), keeps all the others, and keeps the list newest first |
| Customers.CustomerTable.Register | routes/users.js:20-102 | 400 for a falsy username, password or email; then 400 for a username in use; then 400 for an email in use; each refusal leaves the table and the id counter unchanged. Success gives 201 and adds exactly one row at the next id and changes no other row. The new row stores the hash of the password, `full_name` falls back to the username, and an absent phone or address becomes NULL. The response carries the id, username, email and full name, and a token for that id and username valid for seven days. Usernames stay unique, and so do emails if they were unique before |
| Customers.CustomerTable.List | routes/users.js:111-124 | every row exactly once, projected without the password, ordered by `created_at` descending |
| Customers.CustomerTable.GetProfile | routes/users.js:143-160 | the projection of the row with the token's `customer_id`, without password or `created_at`; 404 exactly when the claim is missing or no such row exists |
| Customers.CustomerTable.PutProfile | routes/users.js:179-196 | always 200; the caller's row, if there is one, gets the body's four contact fields unchecked; otherwise nothing changes |
| Customers.CustomerTable.GetById | routes/users.js:216-235 | 404 exactly when the id is absent; otherwise the row's projection without the password |
| Customers.CustomerTable.PutById | routes/users.js:254-291 | 404 and no change for an absent id; otherwise only that row's `full_name`, `email`, `phone` and `address` are replaced, while its username, password, `created_at` and every other row stay as they were, and the body is echoed with the id |
| Customers.CustomerTable.DeleteById | routes/users.js:311-342 | 404 and no change for an absent id; otherwise exactly that row is removed and its id and username are returned |

## Left out

- Database failures and the 500 answers of every handler are left out. So are `getConnection`, `release` in `finally`, and the pool. The model treats the database as always reachable.
- The race between the uniqueness checks and the INSERT is left out. Each handler is one atomic step.
- MySQL's collation is left out: by default it compares usernames and emails case-insensitively and ignores trailing spaces. The model compares strings exactly.
- `req.params.id` is taken as a natural number. JavaScript `parseInt` and MySQL's string-to-number coercion are left out.
- AUTO_INCREMENT is a counter that starts at 1 and never reuses an id.
- bcrypt's salted hashing and the token's signing and verification are left out. The hash is a parameter. Verification is a parameter that reports a payload or an error name. Signing is represented by the claims it signs.
- The `expiresIn` check inside the token library is left out. Expiry reaches the gate only as the error name `TokenExpiredError`.
- Loading the secret at start-up (the fallback secret in routes/users.js, the exit in middleware/auth.js) is left out.
- Customers.CustomerTable.List: among rows with equal `created_at`, SQL leaves the order open. The model fixes one order and promises only the newest-first ordering.
- Response texts are kept only for the error strings of the middleware. Success and Thai messages are left out.
- The login, menu and order routes (routes/login, routes/menus) are not part of this model. So are application wiring, Swagger generation and the database configuration files.
