# Quiz backend core: repositories, unit of work and services

This project models the data-access and service layer of a quiz-taking
backend (users, multiple-choice questions, answer submissions and score
histories) and proves properties of that model in Dafny.

What is modelled:

- **Repositories** over the tables `mcqs`, `user_history`,
  `user_history_details`, `user_submissions` and `users`. Each table is a
  sequence of immutable rows in insertion order. Each repository method is a
  pure function: keyed lookup (`.first()`), owner/type filters with Python
  truthiness, partial updates, delete-with-bool, distinct types, and the
  tolerant `sort_by`/`order` listing of histories.
- **The unit of work** as a transaction state machine. A session is an
  uncommitted view of the database. Commit publishes it, rollback and close
  drop it, and an event log records which session was acquired, committed,
  rolled back and closed.
- **The services**: `fetch_mcq_types` and `add_mcq` for questions, and
  `get`, `add`, `get_all`, `update`, `delete`, `login` and
  `check_user_access` for users. Each takes a unit of work and returns the
  new unit of work plus a result or the failure it raises (an HTTP status
  with its detail text, a `ValueError`, a failed flush, or an
  `AttributeError`).
- **`model_to_dict`**: the type-dispatched value formatter, including
  `str(uuid)` as 8-4-4-4-12 hex digits.

Files: `wrappers.dfy` (Option, Result), `seqs.dfy` (filter / first-match
helpers), `models.dfy` (records), `unit_of_work.dfy`, one file per
repository, `mcq_services.dfy`, `user_services.dfy` (it also holds
`UserStore`, the repository the user service calls), and `model_to_dict.dfy`.

Collaborators that are not modelled in full become parameters:

- the password hasher is `hash: string -> string`;
- the password verifier is `verify: (string, string) -> bool`;
- Python's `eval` of a braced string is `eval: string -> Option<PyValue>`, where None means it raised;
- database-assigned UUIDs are a `freshId` argument.

The schema is the one `app/models/data_models.py` maps. Where any
migration differs from it, the model follows `data_models.py`. There are two
exceptions, both taken from the migrations: the unique constraint
`uq_mcqs_question` on the question text (`50801e3035e7`), and the
`user_history_details` table with its foreign keys to `user_history` and
`mcqs` (`15f7c001ff58`). The differences, and what they would mean against
the migrated database:

- `users.email` is NOT NULL and UNIQUE in the initial migration
  (`96cd159c6b79`), and `User` never sets it. Against that schema every
  insert of `UserRepository.add` would fail its flush. The repository would
  report the failure as ValueError "Username already exists", so
  `UserRepository.Add` and `UserServices.Add` would refuse every
  registration. The model has no `email` column.
- The `mcqs` answer column is `correct_option` in the initial migration and
  `correct_answer` in `data_models.py`. The model uses the latter.
- The attempt table `submissions` (`cc71eb328f03`) is a separate table
  alongside `user_submissions`, and `data_models.py` does not map it. The
  model's `UserSubmission` is the `user_submissions` row (an answer to one
  question).
- `UserHistory` has the six columns declared in `data_models.py`. The
  migrations also add `certificate` and a NOT NULL `submission_id`, which
  `HistoryRepository.add` never sets. In the model these are not attributes
  that `sort_by` can name.

Points where the model keeps the code's behaviour as written:

- A non-admin gets 403 from `add_mcq` but 401 from the user
  administration services.
- A duplicate question text is not mapped to a conflict error. The flush
  fails and the `IntegrityError` propagates (`IntegrityError` in the model).
- An unknown `sort_by` is ignored, not rejected.

## Model

| member | source | states |
|---|---|---|
| `UnitOfWork.Enter` | src/app/services/unit_of_work.py:16-63 | entering acquires a session never seen before, whose view is the committed database, and binds exactly the subclass's repositories, all to that one session |
| `UnitOfWork.Exit` | src/app/services/unit_of_work.py:20-25 | a normal exit commits the session's view and logs commit then close, with no rollback; an exceptional exit leaves the committed state as it was and logs rollback then close, with no commit |
| `UnitOfWork.Leave` | src/app/services/unit_of_work.py:20-25 | leaving a `with` block returns the body's outcome unchanged, so a raised failure propagates and is never swallowed |
| `UnitOfWork.Commit` | src/app/services/unit_of_work.py:27-28 | commit publishes the session's view as the committed state |
| `UnitOfWork.Rollback` | src/app/services/unit_of_work.py:30-31 | rollback discards the session's uncommitted changes and leaves the committed state as it was |
| `UnitOfWork.WithBlock` | src/app/services/unit_of_work.py:16-25 | a whole `with` block is all-or-nothing: the body's changes are committed exactly when it succeeds; it touches one fresh session, acquired, then committed or rolled back, then closed |
| `Models.RoleOfValue` | src/app/models/data_models.py:23-25 | a string names a role exactly when it is that role's value ("admin" or "user") |
| `McqRepository.Get` | src/app/repositories/mcq_repository.py:23-33 | returns a stored question carrying the id, or None exactly when no row has that id |
| `McqRepository.GetUnique` | src/app/repositories/mcq_repository.py:23-33 | with unique ids, looking up a row's id returns that very row |
| `McqRepository.GetAll` | src/app/repositories/mcq_repository.py:45-50 | a falsy type returns the whole table; otherwise every question of that type, as many times as stored, and no other question |
| `McqRepository.GetAllMembers` | src/app/repositories/mcq_repository.py:47-48 | a question is listed for a non-empty type exactly when it is stored with that type |
| `McqRepository.AddThenGet` | src/app/repositories/mcq_repository.py:52-59 | after adding a question with a free id, lookup finds it and every other lookup gives the same answer as before |
| `McqRepository.Update` | src/app/repositories/mcq_repository.py:71-74 | an absent id changes nothing; otherwise only the first matching row changes, and only in the supplied fields |
| `McqRepository.UpdateThenGet` | src/app/repositories/mcq_repository.py:71-74 | an update keeps ids unique, and a later lookup returns the old row with the patch applied |
| `McqRepository.Delete` | src/app/repositories/mcq_repository.py:83-87 | returns False and leaves the database unchanged when the id is absent; returns True when it is present, removing exactly one copy of the looked-up question and, through the `submissions` cascade (src/app/models/data_models.py:87-89), exactly the submissions answering that question; users, histories and details are untouched |
| `McqRepository.DeleteThenGet` | src/app/repositories/mcq_repository.py:83-87 | with unique ids, the deleted question can no longer be found, every other question still can, and ids stay unique |
| `McqRepository.DeleteLeavesNoOrphans` | src/app/models/data_models.py:87-89 | after a successful delete no remaining submission answers the deleted question |
| `McqRepository.GetMcqTypes` | src/app/repositories/mcq_repository.py:89-96 | lists every type present in the table once, with no duplicates and no other strings |
| `McqRepository.GetMcqTypeRows` | src/app/repositories/mcq_repository.py:96 | the query yields a one-column row for exactly the types present in the table, no row twice; rows, not the type strings themselves |
| `HistoryRepository.Get` | src/app/repositories/history_repository.py:33-38 | returns a stored history carrying the id, or None exactly when no row has that id |
| `HistoryRepository.ColumnOf` | src/app/repositories/history_repository.py:58-59 | a sort key is known exactly when it names one of the six mapped columns, and it then denotes the column of that name |
| `HistoryRepository.DescendingWords` | src/app/repositories/history_repository.py:61 | examples: "desc", "DESC" and "Desc" mean descending; "asc", the empty string and "descending" mean ascending |
| `HistoryRepository.DescendingExactly` | src/app/repositories/history_repository.py:61 | for every order string: descending exactly when it is "desc" in some capitalisation |
| `HistoryRepository.SortBy` | src/app/repositories/history_repository.py:60-62 | ordering by a column yields a permutation of the rows in which every pair is in the requested direction |
| `HistoryRepository.GetAll` | src/app/repositories/history_repository.py:52-64 | the result is a permutation of the owner's histories (all when no owner is given); with a known column it is ordered by it, descending exactly when the lower-cased order is "desc"; an absent or unknown key applies no ordering and raises nothing |
| `HistoryRepository.GetAllComplete` | src/app/repositories/history_repository.py:54-55 | every history of the user appears in that user's listing, whatever the sort |
| `HistoryRepository.AddThenGetAll` | src/app/repositories/history_repository.py:66-73 | after adding a history, its owner's unsorted listing gains exactly that row at the end and other users' listings are unchanged |
| `HistoryRepository.Update` | src/app/repositories/history_repository.py:85-87 | on a present id only the supplied fields of that history change and every other row is unchanged; on an absent id an empty update is a no-op and any other update raises AttributeError |
| `HistoryDetailsRepository.Get` | src/app/repositories/history_details_repository.py:31-36 | filters on the owning history id, not on the detail id; returns a detail of that history, or None exactly when the history has none |
| `HistoryDetailsRepository.GetAll` | src/app/repositories/history_details_repository.py:45-50 | a falsy id returns every detail; otherwise exactly the details of that history, with their multiplicities |
| `HistoryDetailsRepository.GetIsFirstOfGetAll` | src/app/repositories/history_details_repository.py:31-50 | `get(x)` is the first element of `get_all(x)`, or None when that list is empty |
| `HistoryDetailsRepository.AddThenGetAll` | src/app/repositories/history_details_repository.py:52-59 | after adding a detail, its history's listing gains exactly that detail and every other history's listing is unchanged |
| `SubmissionRepository.Get` | src/app/repositories/submission_repository.py:32-37 | returns the list of submissions with that id; it is empty exactly when none has it, never None |
| `SubmissionRepository.GetAll` | src/app/repositories/submission_repository.py:46-51 | a falsy user returns every submission; otherwise exactly that user's submissions |
| `SubmissionRepository.AddThenGetAll` | src/app/repositories/submission_repository.py:53-60 | after adding a submission, only its own user's listing changes, by exactly that row at the end |
| `SubmissionRepository.AddThenGet` | src/app/repositories/submission_repository.py:53-60 | after adding a submission, looking up its id lists it after the earlier rows with that id |
| `UserRepository.Add` | src/app/repositories/user_repository.py:18-28 | with a free username and id, the new user carries the given username, password and role (USER when none is given) and is committed; otherwise the session is rolled back, nothing is committed, and ValueError "Username already exists" is raised |
| `UserRepository.AddKeepsUsernamesUnique` | src/app/repositories/user_repository.py:18-28 | a successful add never creates a second user with the same username |
| `UserRepository.GetOne` | src/app/repositories/user_repository.py:12-13 | stub: returns None and leaves the unit of work unchanged |
| `UserRepository.GetAll` | src/app/repositories/user_repository.py:15-16 | stub: returns None and leaves the unit of work unchanged |
| `UserRepository.Update` | src/app/repositories/user_repository.py:30-31 | stub: returns None and leaves the unit of work unchanged |
| `UserRepository.Delete` | src/app/repositories/user_repository.py:33-34 | stub: returns None and leaves the unit of work unchanged |
| `McqServices.FetchMcqTypes` | src/app/services/mcq_services.py:8-19 | returns exactly what the repository's distinct-type listing returns for the committed table, in a block of its own that commits nothing new |
| `McqServices.AddMcq` | src/app/services/mcq_services.py:22-53 | a non-admin gets 403 and the unit of work is untouched, even when the type is unknown; an admin with an unknown type gets 400 "Invalid mcq type input."; an insert succeeds exactly for an admin, a known type, a free question text and id, and a `created_by` naming a stored user (the foreign key of src/app/models/data_models.py:83, checked at the flush); a refused flush raises `IntegrityError`; success commits exactly one new row carrying the request's fields; every failure commits nothing |
| `McqServices.AddMcqSwapsSession` | src/app/services/mcq_services.py:44-53 | the nested `fetch_mcq_types` block acquires a second session and both exits act on it: in the unit of work's event log the session acquired first is never committed, rolled back or closed by the unit of work |
| `McqServices.FetchMcqTypeRows` | src/app/services/mcq_services.py:18-19 | as written, the existing types reach `add_mcq` as one-column rows, one per distinct type |
| `McqServices.AddMcqAsWritten` | src/app/services/mcq_services.py:40-43 | as written, a non-admin still gets 403 and the unit of work is untouched |
| `McqServices.AsWrittenRejectsEveryType` | src/app/services/mcq_services.py:47-49 | as written, a type string is never found among the rows, so every admin request gets 400 and nothing is committed |
| `McqServices.AsWrittenRefusesKnownType` | src/app/services/mcq_services.py:47-53 | concrete case: with a "python" question and its author stored, the author adding another "python" question is refused as written and accepted as intended |
| `UserStore.Find` | src/app/services/user_services.py:50 | the user lookup returns a stored user with that id, or None exactly when there is none |
| `UserStore.FindByUsername` | src/app/services/user_services.py:182 | the username lookup returns a stored user with that name, or None exactly when there is none |
| `UserStore.ApplyKwargs` | src/app/services/user_services.py:145 | setting the keyword arguments changes only the username and role named, and never the id or password |
| `UserStore.Update` | src/app/services/user_services.py:145 | the repository update changes only the target row and returns it; nothing changes when the id is absent |
| `UserStore.Delete` | src/app/services/user_services.py:166 | the repository delete reports True exactly when the user exists; it then removes exactly that user and, through the cascades of src/app/models/data_models.py:37-45 and 87-89, exactly the questions it created, its histories, and the submissions that are its own or answer a removed question; details are untouched |
| `UserStore.DeleteLeavesNoOrphans` | src/app/models/data_models.py:37-45 | after a user delete no question, submission or history refers to the deleted user, and no submission answers a question the cascade removed |
| `UserServices.Get` | src/app/services/user_services.py:29-55 | a non-admin gets 401 before any session is opened; an admin gets the stored user's details, or 404 "User not found"; nothing is changed |
| `UserServices.Add` | src/app/services/user_services.py:58-81 | succeeds exactly when the username and id are free and then commits the user with the hashed password and returns its id; a repository ValueError becomes 400 with the same message and nothing is committed |
| `UserServices.AddTrail` | src/app/services/user_services.py:71-81 | a refused registration is rolled back three times (repository, service, exit) before the close; an accepted one is committed twice |
| `UserServices.GetAll` | src/app/services/user_services.py:84-107 | a non-admin gets 401 with the unit of work untouched; an admin gets every user's details in table order |
| `UserServices.UpdateKwargs` | src/app/services/user_services.py:138-143 | the keyword arguments hold exactly the fields that are not None, with the role given as its string value |
| `UserServices.UpdateKwargsApply` | src/app/services/user_services.py:138-145 | applying those arguments sets exactly the requested username and role; converting the role to a string loses nothing |
| `UserServices.Update` | src/app/services/user_services.py:110-146 | a non-admin gets 401 with the unit of work untouched; an admin succeeds exactly when the user exists; a missing user gets 404 and nothing changes; on success the supplied fields are committed and the updated user is returned |
| `UserServices.Delete` | src/app/services/user_services.py:149-168 | a non-admin gets 401 with the unit of work untouched; a missing user gets 404; an existing user whose histories or created questions a history detail still refers to gets `IntegrityError` (the detail table's foreign keys have no cascade); an admin succeeds exactly when neither applies, and then commits the repository's cascading delete: that user is gone, and no remaining question, submission or history refers to it; every failure changes nothing |
| `UserServices.DetailBlocksDelete` | src/app/services/user_services.py:165-168 | concrete case: a user with one history that a detail row refers to cannot be deleted, and the committed state stays as it was |
| `UserServices.CheckUserAccess` | src/app/services/user_services.py:213-228 | access is granted exactly when the user exists and the verifier accepts the password |
| `UserServices.Login` | src/app/services/user_services.py:171-189 | fails with 401 "Incorrect username or password" exactly when the access check fails; otherwise returns the identity of a stored user with that name whose password verifies; nothing is changed |
| `UserServices.NonAdminTouchesNothing` | src/app/services/user_services.py:44-47 | for every admin operation a non-admin gets 401 and the unit of work is left exactly as it was |
| `ModelToDict.FormatValue` | src/app/utils/model_to_dict.py:24-45 | a UUID becomes the 36-character lower-case 8-4-4-4-12 text (hyphens at positions 8, 13, 18 and 23, hex digits everywhere else) that parses back to it; an Enum becomes its value; a datetime becomes a 7-tuple that reads back as the same datetime; a braced string becomes what eval gives, or stays as it is when eval raises; any other value is returned unchanged |
| `ModelToDict.UuidRoundTrip` | src/app/utils/model_to_dict.py:25-26 | the string form of a UUID determines the UUID |
| `ModelToDict.ParseHexRoundTrip` | src/app/utils/model_to_dict.py:25-26 | reading back the hex digits of a number recovers it modulo 16^width |
| `ModelToDict.EnumBeforeString` | src/app/utils/model_to_dict.py:27-28 | a string-valued enum whose value looks braced is returned as its value and is never evaluated |
| `ModelToDict.ModelToDict` | src/app/utils/model_to_dict.py:18-47 | the keys are exactly the column keys, and each key maps to the formatted value of the last column with that key |
| `ModelToDict.ColumnKeysMembership` | src/app/utils/model_to_dict.py:18-21 | a key is in the dictionary's key set exactly when some mapped column carries it |
| `ModelToDict.DistinctColumns` | src/app/utils/model_to_dict.py:18-45 | with distinct column keys, every column's own value appears, formatted, under its key, and the dict has one entry per column |

## Findings

| source | as written | input that shows it | evidently intended | confidence | as-written member | corrected member |
|---|---|---|---|---|---|---|
| src/app/services/mcq_services.py:47-48 | `mcq.type not in existing_types` compares a string with the one-column rows of `session.query(distinct(MCQ.type)).all()`. A row equals only a tuple, so the test is always true | an admin adds a "python" question while a "python" question is stored: 400 "Invalid mcq type input." | accept a type whose name is among the stored types | medium (depends on how the row type compares with a string); not executed | `McqServices.AddMcqAsWritten` (with `McqServices.AsWrittenRejectsEveryType`, `McqServices.AsWrittenRefusesKnownType`) | `McqServices.AddMcq` |

## Left out

- Scoring of submitted answers, question pagination, attempt tracking and certificate issuance: that code is not part of this model.
- Password hashing and verification: the hasher and the verifier are parameters.
- JWT creation and decoding (`create_access_token`, `get_current_user`): `UserServices.Login` returns the identity that would go into the token, not the token.
- The `eval` of braced strings is an opaque parameter, not Python evaluation.
- S3 upload, the FastAPI routers, engine and session configuration, the server entry point, and the migrations. The migrations are used only as evidence for unique constraints and columns.
- `bulk_add_mcqs` (called from the admin router): its source is not part of this model.
- `SubmissionRepository.update`/`delete` and `HistoryRepository.delete` are not modelled. The first two call `setattr`/`delete` on a list; the last relies on ORM failure behaviour for a missing id.
- The session factory is a fresh session number. The close that runs when the `get_db` generator is finalised is not modelled.
- Concurrency, and the database's own row order: unsorted queries return rows in insertion order.
- Floats are reals, timestamps are integers, and UUIDs are natural numbers (below 2^128 in `model_to_dict`).
- HistoryRepository.GetAll: only the six mapped columns count as attributes. Other names for which `hasattr` holds (the `user` relationship, `metadata`, dunder names) would reach `order_by` in the source; the model treats them as unknown.
- HistoryRepository.GetAll: ties under `ORDER BY` are in no specified order, so the contract states order and permutation only. `str.lower` is modelled for ASCII letters only.
- HistoryRepository.Update and McqRepository.Update: keyword arguments are limited to the declared non-key columns. Setting the primary key (`history_id`, `mcq_id`) and arbitrary attribute names are not modelled.
- UserServices.GetAll: the in-memory repository always yields a list, so the 404 for a `None` listing cannot occur in the model. The `get_all` of `UserRepository` in `app/repositories/user_repository.py` is a stub that returns None, which would make the service always answer 404.
- UserServices.Update: the unique-username constraint is checked only on insert. A flush failure at commit after a rename is not modelled.
- UserServices.Get and UserServices.GetAll build the output record directly instead of through `model_to_dict`. So a username that `model_to_dict` evaluates (src/app/utils/model_to_dict.py:39-41) is returned as stored; for example `"{}"` becomes an empty dict in the source, `UserOutput` rejects it, and the source fails where the model returns the user.
- The `UserUpdate` schema is not part of the model. It is taken to carry an optional username and an optional role, the fields of `UserBase`.
- The user services run against an abstract repository (`UserStore`), because the `UserRepository` in `app/repositories/user_repository.py` has other method names (`get_one`, no `get` or `check_username_exists`) and stub bodies.
- UserServices.Delete: the attempt table `submissions` is not modelled. Its `user_id` foreign key to `users` (`cc71eb328f03`) has no cascade and no ORM relationship, so the source refuses at commit to delete a user who has attempt rows. The model answers Ok there.
- The repositories are given the meaning of their method bodies, although as written four of them cannot be loaded. `McqRepository`, `HistoryRepository`, `HistoryDetailsRepository` and `SubmissionRepository` subclass `BaseRepository[...]` (src/app/repositories/mcq_repository.py:12, history_repository.py:12, history_details_repository.py:10, submission_repository.py:11). `BaseRepository` is a plain `ABC` with no `Generic` base (src/app/repositories/base_repository.py:4), so the subscript raises `TypeError` when the module is imported. Since `app/services/unit_of_work.py` imports all four modules, every service fails at import. Even without the subscript, none of the four defines the abstract `get_one`, so `__enter__` could not create them. `history_details_repository.py` also imports `UserHistoryDetail`, which `data_models.py` does not define.
- UserServices.Add: the service calls `unit_of_work.user.add(user=new_user)` (src/app/services/user_services.py:75), but `UserRepository.add` takes `username`, `password` and `role` (src/app/repositories/user_repository.py:18). As written the call raises `TypeError`, which `except ValueError` does not catch, so every registration fails. The model passes the fields to `UserRepository.Add` instead.
- UnitOfWork.Exit: a commit never fails in the model. In the source, a commit that raises inside `__exit__` (src/app/services/unit_of_work.py:21-22) skips the rollback and the close at line 25, and its error replaces the block's result. This affects a rename to a taken username in `UserServices.Update`. The one refusal at commit that the model does state, the user delete blocked by `user_history_details` rows in `UserServices.Delete`, is modelled as a failure of the block: the log shows a rollback and a close that the source skips.
- McqServices.AddMcqSwapsSession: the lemma is about the unit of work's own log. The first session is still closed by `get_db`'s `finally` (src/app/config/database.py:31-34) when its generator is finalised, which is not modelled.
