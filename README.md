# RossAI backend vault: access control and chunking, modelled in Dafny

The backend is a FastAPI service. It stores user accounts and project
memberships, signs JWT bearer tokens at login, and lets a principal add or
remove members of its own project. A member may upload PDFs, which are cut into
overlapping text chunks for embedding. This project models the access-control
core and the chunker, and proves properties of them:

- `Auth` models `get_current_user`. It checks the scheme, decodes the token, and
  builds the principal. An owner principal is unscoped. Everyone else carries the
  exact company/team/project of the token.
- `Access` models `ensure_same_scope`, `add_member` and `remove_member`. The roles
  form the chain owner → admin → manager → member. An actor may add or remove
  only the immediate child of the highest managing role it holds, and only inside
  its own exact scope. The owner row can never be removed.
- `Login` models `signup` and `login`. Signup refuses a taken email or user_id.
  Login checks the password, requires a membership at the requested scope, and
  signs claims that carry that scope, the single stored role, and a 12-hour expiry.
- `Gate` models `check_access`, the upload gate. Admins and owners pass. Anyone
  else needs a membership row at exactly their own user and scope.
- `Chunking` models `chunk_text`, a generator, as a loop run for a bounded number
  of chunks. It also holds a corrected chunker that stops after the chunk reaching
  the end of the text.
- `Flows` relates the handlers to each other. An owner principal is always out of
  scope. Real principals add only managers and members. A login token decodes
  to a principal at the requested scope. That principal passes the gate only if
  the MongoDB membership collection, which the gate reads, holds its key, and
  nothing in this code writes that collection.

The two tables (`users` and `memberships`) are fields of one `Store.Database`
object, which the state-changing handlers (`AddMember`, `RemoveMember`,
`Signup`) update in place. `AddMember` and `RemoveMember` are proved against a
decision function (`AddDecision`, `RemoveDecision`), and the properties are
lemmas about those functions. `Signup`'s contract states its new state
directly.

Every add and remove is checked against the actor's exact company/team/project
(app/access.py:11-18), and the owner guard is per project (app/access.py:63-83).

## Model

| member | source | states |
|---|---|---|
| Common.Reason.Status | app/access.py:18-242 | The HTTP status of every refusal, as raised in app/access.py, app/auth.py, app/login.py and app/main.py. MalformedClaims (the uncaught KeyError of an owner token without user_id) is the only 500. The 401s are exactly the scheme, token, missing-claim and password failures. 404 is exactly a missing membership on remove. 400 is exactly an invalid role, an existing owner, a taken membership key or a taken signup. Every other refusal (scope, privilege, role, owner removal, login without membership, upload gate) is 403 |
| Auth.FirstMissing | app/auth.py:38-41 | Nothing is missing iff every required claim is present; otherwise the result is the first field, in the checking order, that the payload lacks |
| Auth.Principal | app/auth.py:30-49 | A payload with the owner role gives an unscoped principal with roles exactly ["owner"], or a server error when it has no user_id. Any other payload succeeds iff all four fields are present, copies them verbatim, and otherwise names the first missing one. Owner ⇔ unscoped and non-owner ⇔ fully scoped |
| Auth.GetCurrentUser | app/auth.py:17-52 | A non-bearer scheme is refused (401). A token that does not decode is refused (401). A bearer token that decodes gives exactly the principal built from its payload, or that builder's refusal (MissingClaim 401, MalformedClaims 500) |
| Auth.SchemeIgnoresCase | app/auth.py:18-19 | "Bearer", "BEARER" and "bearer" are accepted as the scheme and "Basic" is not |
| Access.EnsureSameScope | app/access.py:11-18 | Passes iff the actor's company, team and project all equal the target's; otherwise OutOfScope (403). An unscoped actor never passes |
| Access.ChildRole | app/access.py:52-109 | An actor can assign a role iff it holds owner, admin or manager. The assignable role is the child of the highest such role held, and never owner |
| Access.AddDecision | app/access.py:40-130 | The checks run in order: scope (OutOfScope), then role name (InvalidRole), then privilege (NotPrivileged), then role (CannotAssign), then, for owner actors, an existing owner row (OwnerExists), then a taken key (AlreadyMember). The request is accepted exactly when all of these pass, and the accepted role is the requested one, the child of the actor's highest role |
| Access.AddMember | app/access.py:21-152 | Returns exactly AddDecision on the old table. It inserts exactly the one new row iff accepted, leaves users unchanged, and keeps the unique indexes |
| Access.RemoveDecision | app/access.py:173-242 | The checks run in order: scope (OutOfScope), then privilege (NotPrivileged), then existence (MembershipNotFound). After those, the row at the target key decides. An owner row gives OwnerPermanent. A row of the actor's child role is removed. Any other row gives CannotRemove |
| Access.RemoveMember | app/access.py:155-264 | Returns exactly RemoveDecision on the old table. It deletes exactly that row iff accepted, leaves users unchanged, and keeps the unique indexes |
| Access.AddKeepsInvariants | app/access.py:111-146 | An accepted add keeps membership keys unique and leaves the set of owner rows unchanged |
| Access.RemoveKeepsInvariants | app/access.py:209-259 | An accepted remove keeps keys unique and leaves the set of owner rows unchanged |
| Access.AddTwiceRejected | app/access.py:111-130 | Repeating an accepted add is refused as AlreadyMember |
| Access.AddThenRemove | app/access.py:111-259 | After an accepted add, the same actor may remove the same row, and that restores the table |
| Login.Signup | app/login.py:41-80 | Refused (UserExists) iff an account already has the email or the user_id. Otherwise it inserts exactly one account holding the hashed password, and touches no membership |
| Login.LoginClaims | app/login.py:91-148 | BadCredentials iff no account matches both email and password. NoProjectAccess iff the matching account has no membership at the requested key. Success yields claims with the requested scope, the stored role as the only role, and expiry now + 12 h |
| Login.Login | app/login.py:83-154 | Succeeds iff LoginClaims does, and then returns the signed claims with token type "bearer". Errors pass through unchanged |
| Login.SignupThenLogin | app/login.py:43-136 | Right after signup, login with the same password succeeds iff a membership already names the new user_id at the requested scope: signup grants no access |
| Gate.CheckAccess | app/main.py:36-48 | Passes iff the principal holds admin or owner, or is scoped and a membership row has exactly its user and scope; otherwise refused (403) |
| Gate.RoleNotConsulted | app/main.py:40-45 | The gate's answer depends only on the keys in the table, never on the stored roles |
| Chunking.PySlice | app/pdf_utils.py:56 | Python slicing: inside bounds it is the Dafny slice, and it is never longer than the string |
| Chunking.ChunkText | app/pdf_utils.py:46-59 | The loop yields exactly the first `fuel` chunks of the generator, and reports whether it returned |
| Chunking.StartAfterStep | app/pdf_utils.py:57-59 | The start after i + 1 iterations is one more step from the start after i |
| Chunking.ChunkShape | app/pdf_utils.py:55-59 | Chunk i is text[s:min(len, s + chunk_size)] at the i-th start s, which lies inside the text. The chunk is non-empty and at most chunk_size long |
| Chunking.FirstChunk | app/pdf_utils.py:51-56 | Empty text yields nothing and returns at once. Otherwise the first chunk is the prefix of length min(len, chunk_size) |
| Chunking.NoOverlapCovers | app/pdf_utils.py:54-59 | With overlap 0 and start ≤ len, the generator returns within len − start chunks, and they join back to text[start:] |
| Chunking.NoOverlapTerminates | app/pdf_utils.py:54-59 | With overlap 0 the generator returns, and concatenating its chunks gives the text back |
| Chunking.OverlapNeverFinishes | app/pdf_utils.py:54-59 | With a positive overlap and non-empty text the generator never returns, whatever the chunk budget |
| Chunking.TailRepeats | app/pdf_utils.py:54-59 | Started at len − overlap, the generator yields the last `overlap` characters again and again |
| Chunking.EndSendsBack | app/pdf_utils.py:55-58 | After a chunk that reaches the end, the next start is len − overlap |
| Chunking.StuckAtZero | app/pdf_utils.py:54-59 | If the overlap is at least the chunk size and the text is longer than a chunk, every chunk is the first one |
| Chunking.RepeatsOnShortText | app/pdf_utils.py:54-59 | With the configured sizes (800, 200) the text "abc" yields "abc" three times without returning |
| Chunking.TailsCover | app/pdf_utils.py:54-59 | In the corrected chunker, dropping the overlap from each chunk from `start` on gives back the text from start + overlap |
| Chunking.ChunkTextFixed | app/pdf_utils.py:54-59 | The loop with the intended stop yields exactly the corrected chunk sequence |
| Chunking.FixedStitch | app/pdf_utils.py:54-59 | Round trip: the first corrected chunk, followed by every later chunk minus its overlap, gives the text back |
| Chunking.FixedIsPrefix | app/pdf_utils.py:54-59 | Up to and including the first chunk that reaches the end, the corrected chunker yields exactly what chunk_text yields |
| Flows.OwnerPrincipalOutOfScope | app/auth.py:31-35 | Any owner principal that get_current_user produces is refused as OutOfScope by both add and remove, for every target |
| Flows.RealPrincipalsAddOnlyManagersAndMembers | app/access.py:52-103 | Through get_current_user, add_member never reaches the owner-exists refusal, and every row it inserts is a manager or member row |
| Flows.LoginTokenAuthenticates | app/login.py:138-150 | A login token that decodes to the claims it was made from gives a principal whose roles are exactly the claims' roles, a single role. For an owner role the principal is unscoped. Otherwise it has the requested scope, and it passes check_access on a MongoDB collection that holds every key of the SQL table login read |
| Flows.LoginTokenRefusedWithoutMongoRow | app/main.py:36-48 | A manager or member who logs in with a valid token is refused at the upload gate (AccessDenied) whenever the MongoDB collection lacks the key that login found in SQL, as it does when the collection is empty |

## Left out

- HTTP framing, FastAPI dependency injection, response messages and logging are not modelled. A refusal is a `Reason`, and `Reason.Status` gives its HTTP status code.
- JWT signing, verification and expiry checks are parameters (`encode`, `decode`). bcrypt hashing and checking are parameters too (`hashpw`, `checkpw`), and the random salt is an input. Their cryptographic properties are not modelled.
- The clock is an input (`now`), in seconds.
- The generated `id` column of `users` is not modelled.
- Claim values that are JSON null or of a type other than the modelled one are not modelled. The identity and scope claims are strings, `roles` is a list of strings and `exp` is an integer, each either present or absent.
- The scheme comparison lower-cases ASCII letters only.
- E-mail syntax validation of the request models is not modelled.
- Concurrent requests and transactions are not modelled. Each handler runs atomically on the tables, so the race between the duplicate check and the insert is not captured.
- The default `role="member"` of `add_member` is the caller's business: the role is always an explicit argument.
- `fetchone()` without an ordering returns an arbitrary matching row. The model picks one with `:|`. With unique keys the row is determined. No unique constraint on the SQL tables is part of this model: they are assumed to have the same unique keys as the MongoDB indexes (app/db_indexes.py:11-18). `Signup`, `AddMember` and `RemoveMember` keep `Database.Valid()`, and the constructor starts from empty tables, so every state they reach meets the `requires` of `LoginClaims`.
- `check_access` reads memberships from MongoDB (app/main.py:40-45), while `access.py` and `login.py` read and write them in SQL. The handlers take the two stores as separate sets of `Membership` rows. Nothing in this code writes the MongoDB collection: `add_member` inserts only into SQL (app/access.py:132-146). Any copy from SQL to MongoDB made elsewhere is not part of this model.
- Flows.LoginTokenAuthenticates: the gate clause holds only under the requirement that every SQL membership key is also in the MongoDB collection. The code shown never establishes this, so a member added through `add_member` who then logs in is refused at upload (Flows.LoginTokenRefusedWithoutMongoRow).
- Chunking.ChunkText: the generator is modelled as a loop that stops after `fuel` chunks. Whether it returned is reported separately. Lazy evaluation, and the caller's stop at 100 chunks, are represented only by that bound.
- `upload_pdf`, `iter_pages_text`, `read_page_with_timeout`, and the S3, Pinecone, embedding, search and chat modules are I/O around the core and are not part of this model.

## Findings

| source | as written | input that shows it | evidently intended | confidence | as-written member | corrected member |
|---|---|---|---|---|---|---|
| app/pdf_utils.py:54-59 | After the chunk that reaches the end of the text, `start` is set back to `len - overlap`, which is still `< len` when overlap > 0. The loop therefore never exits and repeats the tail forever. The caller's 100-chunk cap (app/main.py:130-131) stops it only when the repeated tail is not blank: a blank chunk is skipped by `continue` at app/main.py:127-128 before the cap is tested, so a page whose last `overlap` characters are whitespace keeps `upload_pdf` looping | text "abc", chunk_size 800, overlap 200 yields "abc", "abc", "abc", … without end | Stop after yielding the chunk whose end is `len`. That stop is enough only when overlap < chunk_size. With overlap ≥ chunk_size the start stays at 0 (Chunking.StuckAtZero) and the chunker never advances, so the corrected chunker requires 0 ≤ overlap < chunk_size | not executed | Chunking.RepeatsOnShortText | Chunking.FixedStitch |
