# ICT Innovations Africa backend: request handlers in Dafny

This project models the decision logic of the backend's FastAPI handlers.
Each handler is a short run of checks followed by a few table writes.

- **Database.** The SQLAlchemy database is a `Session` object. It has one
  table field per ORM table: users, hosting plans, plan features, hosting
  payments, Paystack payments, events, tags and event images.
  - A table is a map from auto-incremented key to row, plus the next key
    (module `Tables`).
  - `query(...).filter(p).all()` lists the matching keys in ascending order.
  - `.first()` takes the smallest matching key.
  - Both orders are a modelling choice; the queries have no `ORDER BY`
    (see Left out).
  - `db.add` plus `db.commit()` stores a row under the next key.
- **Writing handlers** are methods. Their `modifies` clause names only the
  tables they touch, so "nothing else changes" is part of every contract.
- **Read-only handlers** are functions over table values.
- **Outcomes.** A handler's outcome is `Ok(body)`, or `Fail(Error(status,
  detail, bearer challenge))` for an `HTTPException`. Any other exception
  reaches main.py's catch-all and is answered with 500 "An unexpected error
  occurred" (`UNEXPECTED`).
- **Oracles.** These are parameters, not modelled code:
  - The Paystack gateway is a pair of functions: initialize and verify. A
    handler also returns the list of gateway calls it made, in order.
  - Password verification, password hashing, JWT encoding and JWT decoding
    are functions.
  - `engine.connect()` is a function of the attempt number.
  - File existence is a function of the path.
  - The authenticated user is passed as the `Result` of `GetCurrentUser`,
    which stands for the `Depends(get_current_user)` parameter.

Modules:

| module | source file |
|---|---|
| `Connection` | database/database.py |
| `Auth` | auth/dependancies.py |
| `AuthController` | controllers/auth_controller.py |
| `PaystackController` | controllers/paystack_controller.py |
| `HostingPayments` | controllers/hosting_payment_controller.py |
| `HostingPlans` | controllers/hosting_plans_controller.py |
| `Events` | controllers/events_controller.py |

`Http`, `Tables`, `Paystack` and `Schema` hold what these modules share.

routes.py mounts only the Paystack router. The other controllers are modelled
as written, because their routers are defined and complete.

Notes on the payment flow as the code implements it:

- The callback writes "completed", never "success" or "abandoned".
- A gateway status other than "success" is answered with 400 and writes
  nothing.
- No unique constraint on the payment reference is visible. The callback
  updates the first row that has the reference.
- A confirmed callback does not succeed. It commits, then answers 500 (see
  Findings).

## Model

| member | source | states |
|---|---|---|
| Http.NatToString | controllers/events_controller.py:109 | `str()` of a key: non-empty decimal digits, no leading zero, whose value is the key |
| Tables.Where | controllers/hosting_plans_controller.py:25-26 | a filtered query lists exactly the keys of the matching rows, each once, in strictly ascending order |
| Tables.All | controllers/events_controller.py:135 | `.all()` lists every row once with its key, in key order, and nothing else |
| Tables.First | auth/dependancies.py:26 | `.first()` is the matching row with the smallest key; None exactly when no row matches |
| Tables.Insert | controllers/auth_controller.py:68-70 | an add and commit stores the row under the next key; no existing row changes |
| Tables.InsertAll | controllers/hosting_plans_controller.py:66-73 | adding rows one by one gives them consecutive new keys in order; existing rows are kept |
| Tables.InsertEach | controllers/hosting_plans_controller.py:66-73 | the add loop stores the same table as `InsertAll` |
| Tables.Update | controllers/hosting_payment_controller.py:144-145 | assigning to a loaded row and committing changes that row only; the keys stay the same |
| Tables.Delete | controllers/events_controller.py:195-196 | deleting rows removes exactly those keys; every other row is unchanged |
| Tables.WhereInsert | controllers/paystack_controller.py:71-72 | an inserted row comes last in every query it matches and is absent from the others |
| Tables.CountAfterInsert | controllers/paystack_controller.py:71-72 | the number of matching rows grows by one exactly when the inserted row matches |
| Tables.FirstAfterUpdate | controllers/hosting_payment_controller.py:139-145 | an update the filter cannot see does not change which row `.first()` finds |
| Tables.WhereInsertAllMatching | controllers/hosting_plans_controller.py:66-73 | inserting rows that all match a filter appends their new keys, in order, to that query |
| Tables.WhereInsertAllOthers | controllers/hosting_plans_controller.py:66-73 | inserting rows that do not match a filter leaves that query as it was |
| Connection.ConnectWithRetry | database/database.py:15-37 | at most 5 attempts; the first attempt that connects is returned and no later one is made; one wait follows each failure, the k-th lasting min(2^k, 5) s; after 5 failures the error message is returned with waits 1, 2, 4, 5, 5 |
| Connection.BackoffStep | database/database.py:33-34 | the loop's update min(timeout * 2, 5) computes the next wait |
| Connection.BackoffBounds | database/database.py:33-34 | every wait lies between min_timeout 1 and max_timeout 5 |
| Connection.BackoffMonotone | database/database.py:33-34 | the waits never shrink |
| Connection.BackoffCapped | database/database.py:33-34 | from the fourth failure on, the wait is the cap of 5 s |
| Connection.BackoffSchedule | database/database.py:16-34 | the five waits are 1, 2, 4, 5 and 5 seconds |
| Auth.CheckIfUsernameIsEmail | auth/dependancies.py:72-78 | true iff the value is present and contains "@"; a missing value gives false |
| Auth.GetUser | auth/dependancies.py:24-29 | a non-empty username is looked up by username and the email is ignored; otherwise a non-empty email is looked up by email; otherwise nobody; None exactly when nobody matches; the result is the first match |
| Auth.AuthenticateUser | auth/dependancies.py:32-42 | the user `GetUser` finds, if the password verifies against that user's hash; no user otherwise |
| Auth.UsernameTakesPrecedence | auth/dependancies.py:34-37 | with a username given, the email plays no part in the result |
| Auth.GetCurrentUser | auth/dependancies.py:45-69 | 401 with the Bearer challenge iff the token does not decode, has no "sub", or names nobody; a sub containing "@" is matched by email, any other by username |
| AuthController.LoginWithJson | controllers/auth_controller.py:36-51 | a token whose subject is the submitted login exactly when the login is non-empty and the first user (in key order) that it names (by email if it has "@", else by username) has a matching password; otherwise 401 with challenge, even if a later user of that name would match |
| AuthController.LoginWithForm | controllers/auth_controller.py:23-33 | as written: success requires a user whose username equals the form's password and whose hash verifies the form's username |
| AuthController.LoginWithFormIntended | controllers/auth_controller.py:23-33 | intended: success iff the form's username exists and its first such user's hash verifies the form's password |
| AuthController.FormLoginSwapsFields | controllers/auth_controller.py:24-25 | the form login as written equals the intended one with username and password swapped |
| AuthController.FormLoginRefusesValidCredentials | controllers/auth_controller.py:24-25 | a registered user with the right password is refused by the form login as written and accepted by the intended one |
| AuthController.Signup | controllers/auth_controller.py:54-71 | a taken username gives 400 and writes nothing, emails unchecked; otherwise exactly one user row is stored, holding the password's hash, with the new key returned; unique usernames are preserved |
| AuthController.ReadUsersMe | controllers/auth_controller.py:74-76 | succeeds iff the token authenticates; the result is the stored fields, without the hash, of the user the token names (matched by email when the subject holds '@', else by username) |
| PaystackController.PaymentDetails | controllers/paystack_controller.py:26-35 | amount, email and callbackUrl are forwarded unchanged; the metadata holds exactly amount, email and name; no currency or channels |
| PaystackController.InitializePayment | controllers/paystack_controller.py:18-42 | one gateway call with that payload; success iff the gateway answers; a body that is not a JSON object or a gateway failure gives 500; no table is touched |
| PaystackController.Recorded | controllers/paystack_controller.py:64-69 | the stored row takes amount, email and name from the gateway metadata and the reference from data.reference |
| PaystackController.VerifyPayment | controllers/paystack_controller.py:45-78 | empty reference: 400, no gateway call; a missing metadata key or gateway failure: 500; non-success status: 400 "Transaction: <status>"; a failure writes nothing; success inserts exactly that one row |
| PaystackController.ReplayStoresEveryTime | controllers/paystack_controller.py:64-73 | verifying the same reference n times stores n more rows with that reference |
| HostingPayments.PaymentDetails | controllers/hosting_payment_controller.py:40-55 | amount 100 x annual price, currency KES, channels mobile_money and card, metadata with the unscaled price, email, name and phone |
| HostingPayments.InitializePayment | controllers/hosting_payment_controller.py:22-80 | plan checked before email and name; each failure is re-wrapped to 500 "Error initializing payment: 400: ..." before any gateway call; a gateway failure gives 500; success adds exactly one "pending" row with the gateway reference and the request's fields |
| HostingPayments.VerifyPayment | controllers/hosting_payment_controller.py:83-116 | empty reference: 400 with no call; failures and non-success statuses: 500 "Failed to verify payment"; on success the stored row for the gateway's reference with "Payment already exists", or a null body when none; never writes |
| HostingPayments.CallbackEffect | controllers/hosting_payment_controller.py:137-145 | only the first row with the reference changes, and only when the gateway confirms; only its status changes, to "completed" |
| HostingPayments.CallbackReply | controllers/hosting_payment_controller.py:119-156 | as written: never succeeds; 400 for an empty reference or a non-success status, 404 when no row matches, 500 for a gateway failure and for the confirmed case |
| HostingPayments.CallbackReplyIntended | controllers/hosting_payment_controller.py:146 | intended: 200 with the completed row exactly when the gateway confirms and the row exists; otherwise as written |
| HostingPayments.Callback | controllers/hosting_payment_controller.py:119-156 | no gateway call for an empty reference; otherwise one verify call; the store becomes `CallbackEffect` and the answer is `CallbackReply` |
| HostingPayments.CallbackIdempotent | controllers/hosting_payment_controller.py:139-145 | a second callback with the same gateway answer changes nothing and answers the same |
| HostingPayments.CallbackKeepsStatusesKnown | controllers/hosting_payment_controller.py:139-145 | stored statuses stay within "pending" and "completed" |
| HostingPayments.CallbackCommitsBeforeFailing | controllers/hosting_payment_controller.py:143-146 | when confirmed, the row is completed and the caller gets 500, where the intended reply is 200 |
| HostingPayments.GetPayments | controllers/hosting_payment_controller.py:159-162 | every stored payment once, with its key, in key order, and nothing else |
| HostingPlans.FeaturesOf | controllers/hosting_plans_controller.py:39-40 | a plan's features are rows linked to it, in key order |
| HostingPlans.FeaturesOfComplete | controllers/hosting_plans_controller.py:39-40 | every feature row linked to the plan is listed |
| HostingPlans.ViewAt | controllers/hosting_plans_controller.py:24-26 | the i-th listed plan carries the i-th plan's fields and its own features |
| HostingPlans.GetAllHostingPlans | controllers/hosting_plans_controller.py:20-27 | the loop builds the catalogue: every plan in key order with its features |
| HostingPlans.CatalogueListsEveryPlan | controllers/hosting_plans_controller.py:23-27 | the catalogue lists every stored plan exactly once, in key order, and nothing else |
| HostingPlans.CatalogueShowsEachPlan | controllers/hosting_plans_controller.py:24-26 | each catalogue entry is its plan's fields with exactly its own features |
| HostingPlans.GetHostingPlan | controllers/hosting_plans_controller.py:30-41 | 404 iff the plan is absent; otherwise the plan's id, title, subtitle and both prices, and exactly the feature rows linked to it, each with its key and text, in key order |
| HostingPlans.Linked | controllers/hosting_plans_controller.py:66-70 | one feature row per submitted feature, each linked to the new plan |
| HostingPlans.CreateHostingPlan | controllers/hosting_plans_controller.py:44-76 | a taken title gives 400 and writes nothing; otherwise the plan is stored under the next key (the client's id ignored), then its features; unique titles and feature links are preserved |
| HostingPlans.CreateKeepsInvariants | controllers/hosting_plans_controller.py:50-73 | a fresh title keeps titles unique; the new features link to a handed-out key |
| HostingPlans.CreatedPlanListsItsFeatures | controllers/hosting_plans_controller.py:66-73 | afterwards the new plan lists exactly the submitted features, in order |
| HostingPlans.CreateKeepsOtherFeatures | controllers/hosting_plans_controller.py:66-73 | every other plan's feature list is unchanged |
| HostingPlans.DeleteHostingPlan | controllers/hosting_plans_controller.py:79-87 | as written: 204 whether or not the plan exists; nothing is written |
| HostingPlans.DeletedPlanStillServed | controllers/hosting_plans_controller.py:79-87 | after a "successful" delete the plan is still served |
| HostingPlans.DeleteHostingPlanIntended | controllers/hosting_plans_controller.py:79-87 | intended: 404 iff absent; otherwise exactly the plan and its features are removed, so the plan is no longer served |
| Events.NewEvent | controllers/events_controller.py:79-89 | the stored event copies every field of the request and takes the given tag ids; eventDate "TBA" when none is given |
| Events.CheckUploads | controllers/events_controller.py:75-77 | true iff every upload's content type is allowed |
| Events.UploadPath | controllers/events_controller.py:109 | the path lies under uploads/events/event_ and ends with the upload's file name |
| Events.UploadPathInjective | controllers/events_controller.py:109 | two uploads get the same path only when both the event key and the file name are equal |
| Events.UploadedImages | controllers/events_controller.py:104-124 | one record per upload, described by the eventImages entry at the same index; none when an entry is missing |
| Events.UploadRecords | controllers/events_controller.py:104-124 | the image loop computes `UploadedImages` |
| Events.GetOrCreate | controllers/events_controller.py:95-100 | one tag id per name; only names with no committed tag add tags; committed tags are kept |
| Events.GetOrCreateLinks | controllers/events_controller.py:95-100 | each id names a tag of that name: the first committed one when there is one, else a new one |
| Events.FreshRow | controllers/events_controller.py:95-100 | an occurrence whose id is not a committed tag's has a new key, below the new next key, holding a tag of its own name |
| Events.FreshDistinct | controllers/events_controller.py:95-100 | an occurrence's new id appears at no later occurrence |
| Events.CreatedForSomeName | controllers/events_controller.py:95-100 | every key the request added is the id of some occurrence and holds that occurrence's name |
| Events.GetOrCreateNewRows | controllers/events_controller.py:95-100 | for all new keys at once: each is some occurrence's id and holds that occurrence's name |
| Events.GetOrCreateNewIdsDistinct | controllers/events_controller.py:95-100 | for all occurrences at once: no two share a new id |
| Events.NewNameEachOccurrence | controllers/events_controller.py:96-99 | two occurrences of a name with no committed tag get two distinct new rows, each holding that name |
| Events.ResolveTags | controllers/events_controller.py:95-100 | the tag loop computes `GetOrCreate` |
| Events.AllKnownCreatesNothing | controllers/events_controller.py:96-97 | when every name has a committed tag, no tag is created |
| Events.GetOrCreateSettles | controllers/events_controller.py:95-100 | repeating a request's tags after it committed creates nothing |
| Events.RepeatedNewNameCreatesTwoTags | controllers/events_controller.py:96-99 | a new name given twice in one request creates two tags of that name |
| Events.GetOrCreateIntended | controllers/events_controller.py:95-100 | intended: lookups also see this request's new tags; one id per name, and every existing tag is kept unchanged |
| Events.IntendedLinkAt | controllers/events_controller.py:95-100 | intended: the i-th id names a stored tag called names[i] |
| Events.IntendedKeepsUnique | controllers/events_controller.py:95-100 | intended: tag names that were unique stay unique |
| Events.IntendedSharesRepeatedNames | controllers/events_controller.py:95-100 | intended: equal names in one request get one tag |
| Events.CreateRefusal | controllers/events_controller.py:61-77 | the checks in order: token, JSON (400), model (500), "image" key (400), content types (400 unless all are JPEG or PNG) |
| Events.StoreEvent | controllers/events_controller.py:79-129 | the event is committed first; a missing image description leaves only that row; otherwise it gets its tag list, and the tags and image records are stored |
| Events.CreateEvent | controllers/events_controller.py:56-129 | a refusal writes nothing; otherwise the result of `StoreEvent` |
| Events.GetEvent | controllers/events_controller.py:139-145 | 404 iff absent; otherwise the stored event |
| Events.GetAllEvents | controllers/events_controller.py:132-136 | every event once, in key order |
| Events.GetAllTags | controllers/events_controller.py:200-204 | every tag once, with its key, in key order, and nothing else |
| Events.GetAllEventImages | controllers/events_controller.py:207-211 | every image row once, with its key, in key order, and nothing else |
| Events.GetEventImages | controllers/events_controller.py:231-239 | 404 iff the event has no image row; otherwise exactly its image rows, each once, in key order |
| Events.DownloadEventImage | controllers/events_controller.py:305-316 | 404 "Image not found" for an unknown id, 404 "File not found" when the file is missing, else the stored path |
| Events.Replacement | controllers/events_controller.py:176-182 | as written: one row per entry with url and description and no title |
| Events.UpdateEvent | controllers/events_controller.py:148-186 | token, then 404, then no eventImages gives 500, all writing nothing; otherwise the fields are overwritten, the tag list rebuilt and the event's images replaced; 500 after the commit when any image was added |
| Events.ReplacementNotRenderable | controllers/events_controller.py:176-182 | the added rows can be rendered only when there are none |
| Events.ReplacementIntended | controllers/events_controller.py:176-182 | intended: the rows keep the requested title, so they can always be rendered |
| Events.ModelDump | controllers/events_controller.py:222 | the dump is exactly the sent fields with their sent values, each once, in declaration order |
| Events.Patched | controllers/events_controller.py:221-223 | each of the eight fields takes the sent value when sent and keeps the stored value otherwise; the tags are untouched |
| Events.SetAllIsPatch | controllers/events_controller.py:222-223 | the setattr loop over the dump yields `Patched` |
| Events.PatchIdempotent | controllers/events_controller.py:221-223 | applying the same patch twice is applying it once |
| Events.UpdateEventPartial | controllers/events_controller.py:214-228 | 404 iff absent, writing nothing; otherwise only that event changes, to its patched version |
| Events.DeleteEvent | controllers/events_controller.py:189-197 | token, then 404, writing nothing; otherwise exactly that event row is removed |
| Events.DeleteEventImage | controllers/events_controller.py:242-258 | 404 unless the image exists and belongs to that event; otherwise exactly that image is removed |
| Events.UpdateEventImages | controllers/events_controller.py:261-302 | 404 for an unknown event; any type other than JPEG, PNG or WebP gives 400 and writes nothing; otherwise the event's images become one row per upload |
| Events.ReplacedImagesAreTheUploads | controllers/events_controller.py:292-299 | afterwards the event's images are exactly the new rows, in upload order |

## Left out

- HTTP, request parsing and response rendering are left out. This includes the
  FastAPI request-model validation that answers 422 before a handler runs.
  Request bodies are given already parsed.
- The 404 handler in main.py (lines 44-49) replaces the detail of every 404
  with "Path ... not found". The WWW-Authenticate header is also dropped
  there (lines 36-41). The model keeps each handler's own detail and records
  the challenge as a flag.
- A JSON-response callback answer (404 "Payment not found", 400 "Payment
  failed or not successful") is modelled as a `Fail` with that status and
  message. In the source it is a returned response, not a raised exception.
- The Paystack HTTP client is left out; it is network I/O. Its answers are
  the `Gateway` oracle. The gateway's reply is assumed to carry `data`,
  `data.status`, `data.reference` and `data.metadata` whenever it succeeds.
- Password hashing, password verification and JWT encoding and decoding are
  foreign code, passed in as functions.
- File writes, reads and unlinks are left out; they are I/O. Only the database
  rows are modelled, and the file system appears only as the existence test
  of the download endpoint.
- The SMTP mail controller is I/O and is not part of this model.
- Engine, session and table creation at import time are plumbing. So are the
  printing and logging calls.
- The ORM table classes are not visible. No unique constraint other than the
  primary key is assumed. Whether deleting an event cascades to its image
  rows is unknown, so `Events.DeleteEvent` leaves image rows in place.
- Prices are floats in the source. They are modelled as integers, without
  rounding.
- Concurrent requests and async suspension are not modelled. Each handler
  runs alone against the committed state.
- An explicit `null` sent to the partial update is not modelled. The model
  has only sent and unsent fields.
- The create_hosting_plan response renders the plan object. The model
  returns the new key and the stored plan row instead.
- `if not hosting_plan` in create_hosting_plan (line 47) cannot fire: a
  parsed request model is always truthy.
- The "image" key check of create_event (line 71) is modelled. It is
  unreachable in practice, because the request model already requires
  `image`, and a missing key is answered with 500 first.
- Events.NewEvent: the request's eventDate is optional in the model. The
  request model requires it, so the "TBA" branch cannot be reached in
  practice.
- Events.CreateEvent: eventImages entries are matched to uploads by
  position. `images.index(image)` is the position of an upload as long as no
  two uploads compare equal, and uploads are distinct objects.
- Events.UpdateEvent: the response is modelled as the event's key. The
  rendered event and tag lists are not modelled.
- Row order: the source has no `ORDER BY`, so SQL fixes no order for
  `.all()` and `.first()`. The model takes ascending key order for both, as
  a modelling choice. This choice decides which row wins when rows share a
  value: duplicate emails or usernames in `Auth.GetUser` and
  `AuthController.LoginWithJson`, duplicate payment references in
  `HostingPayments.CallbackEffect`, `HostingPayments.CallbackIdempotent` and
  `HostingPayments.VerifyPayment`, and duplicate tag names in
  `Events.GetOrCreate`.
- Image rows without a title: `EventImageResponse` requires `imageTitle`
  (models/event_model.py:10,17), so after `Events.UpdateEvent` stores such
  rows, rendering fails with 500 in `Events.GetEvent`, `Events.GetAllEvents`,
  `Events.GetAllEventImages` and `Events.GetEventImages` whenever such a
  row is part of the response. These readers answer `Ok` in the model, because it does not render
  responses (see Findings).
- Connection.ConnectWithRetry: the returned connection object is modelled
  as the number of the attempt that succeeded.

## Findings

| source | as written | input that shows it | evidently intended | confidence | as-written member | corrected member |
|---|---|---|---|---|---|---|
| controllers/auth_controller.py:25 | `authenticate_user(db, form_data.username, form_data.password)` passes the username as the password and the password as the username | user "alice" with password "secret" submits exactly that form and gets 401 | the form's username names the user and its password is checked | high (not executed) | AuthController.FormLoginRefusesValidCredentials | AuthController.LoginWithFormIntended |
| controllers/hosting_payment_controller.py:144-146 | after the commit, the success reply puts the ORM row into a `JSONResponse`, whose rendering raises; the catch-all answers 500 | a callback that the gateway confirms, for a stored reference | 200 "Payment processed successfully" with the completed row | medium (not executed) | HostingPayments.CallbackCommitsBeforeFailing | HostingPayments.CallbackReplyIntended |
| controllers/hosting_plans_controller.py:79-87 | the plan is looked up and never deleted; the 404 is returned, not raised, so the answer is 204 either way | DELETE of an existing plan, then GET of it: still 200 | 404 for an absent plan, otherwise remove the plan and its features | high (not executed) | HostingPlans.DeletedPlanStillServed | HostingPlans.DeleteHostingPlanIntended |
| controllers/events_controller.py:176-182 | the replacement image rows get no `imageTitle`, which the event response model requires, so the request fails after its commit | PUT /event/{id} with one entry in eventImages | rows keep the requested title | medium (not executed) | Events.ReplacementNotRenderable | Events.ReplacementIntended |
| controllers/events_controller.py:95-100 | with autoflush off, the tag lookup does not see tags that the same request added | tags ["news", "news"] when no tag "news" exists: two tags named "news" | one tag per distinct name | medium (not executed) | Events.RepeatedNewNameCreatesTwoTags | Events.IntendedSharesRepeatedNames |
