# User management dashboard — a Dafny model

This project models the state-transition core of the `UserManagementDashboard`
component (`src/App.js`). The component keeps four state cells: the ordered list
of users, the draft record behind the add/edit form, an editing flag and an
optional error message. Its handlers change those cells after a remote call
completes. The model has three modules:

- `Records` (`records.dfy`) holds the record shapes and the two per-record
  computations. The first is ingest, which turns a directory record
  `{id, name, email, company?}` into a User. It splits `name` with `split(" ")`
  and falls back to `"Unknown"` for the department. The second is the draft's
  field edit (`{ ...formData, [name]: value }`).
- `Collection` (`collection.dfy`) holds the three list operations applied after a
  confirmed save or delete:
  - the update `map`, which replaces entries by id;
  - the create append, which uses id `users.length + 1`;
  - the delete `filter`.
  It also has lemmas about id uniqueness.
- `Dashboard` (`dashboard.dfy`) holds the class `UserManagement`. Its fields are
  the four state cells, and it has one method per handler. Every remote call is
  reduced to a boolean outcome `ok`. A few client methods drive the handlers
  through whole scenarios.

The model follows what the code does. Four of its behaviours may surprise a
reader:

- The last name is the second space-separated token (`name.split(" ")[1]`,
  src/App.js:18). It is not "everything after the first space". So
  `"Ada King Lovelace"` gives `"King"`, and `"Ada  Lovelace"` gives `""`.
- The department falls back to `"Unknown"` when the company's name is empty, as
  well as when it is missing, because the fallback uses `||` (src/App.js:20).
- Update and delete act on every entry whose id matches, not only on the first
  (src/App.js:49 and :67).
- Create assigns `users.length + 1` (src/App.js:51). After a delete, this can repeat an id that
  is still in use: delete id 1 from ids [1, 2, 3], then create, and the new user
  also gets id 3 (`Collection.CreateAfterDeleteDuplicates`). The model keeps
  this behaviour as written. For the same reason, the class invariant does not
  include id uniqueness.

A success never clears the error message. Each handler's contract says so.

The draft starts with the empty string as its id. An edited draft carries a
numeric id. `Records.Id` has the cases `Blank` and `Num(n)`, so equality of ids
behaves like JavaScript's `===` on those values.

## Model

| member | source | states |
|---|---|---|
| Records.Split | src/App.js:17-18 | `split(" ")` always yields at least one token |
| Records.SplitNoSpace | src/App.js:17-18 | a name without a space splits into the name itself |
| Records.SplitAtSpace | src/App.js:17-18 | the first space ends the first token; splitting continues on the remainder |
| Records.JoinSplit | src/App.js:17-18 | every token is space-free, and joining the tokens with single spaces gives back the name |
| Records.SplitJoin | src/App.js:17-18 | splitting a join of space-free tokens gives back those tokens, so Split and Join are inverse |
| Records.FirstTokenIsPrefix | src/App.js:17 | the first token of `split(" ")` is a space-free prefix that ends at the first space or at the end of the text |
| Records.SecondToken | src/App.js:18 | with no space there is one token; otherwise the tokens after the first are the tokens of the text after the first space |
| Records.FirstNameOf | src/App.js:17 | the first name is space-free, a prefix of the name, and ends at the first space or at the end of the name |
| Records.LastNameOf | src/App.js:18 | the last name is "" when the name has no space; otherwise it is the space-free run that starts right after the first space and ends at the next space or at the end (so "" after a double space) |
| Records.DepartmentOf | src/App.js:20 | department is `company.name` when present and non-empty; otherwise (no company, no name, empty name) "Unknown" |
| Records.IngestOne | src/App.js:16-20 | an ingested user keeps the record's id (as a number) and its email unchanged |
| Records.Ingest | src/App.js:15-21 | ingest keeps the length, and position i of the result is the ingest of record i |
| Records.IngestAppend | src/App.js:15-21 | ingest commutes with concatenation, so the directory's order is kept |
| Records.NameWithoutSpace | src/App.js:17-18 | a name with no space gives first name = the whole name and last name = "" |
| Records.NameWithSpace | src/App.js:17-18 | for `a + " " + b + rest` with space-free a, b and rest empty or starting with a space: first name a, last name b |
| Records.IngestExample | src/App.js:15-21 | `{1, "Ada Lovelace", "a@x.com"}` without a company ingests to `{1, "Ada", "Lovelace", "a@x.com", "Unknown"}` |
| Records.LastNameExamples | src/App.js:18 | "Ada King Lovelace" gives last name "King"; "Ada  Lovelace" gives "" |
| Records.With | src/App.js:30 | the edited field reads back as the new value; every other field and the id are unchanged |
| Records.WithIdempotent | src/App.js:30 | repeating the same field edit changes nothing more |
| Records.WithCommutes | src/App.js:30 | edits of two different fields can be applied in either order |
| Collection.CountId | src/App.js:67 | the number of entries carrying an id is at most the list length |
| Collection.CountIdZero | src/App.js:67 | the count is zero exactly when no entry carries the id |
| Collection.Replaced | src/App.js:49 | update keeps the length; entries with the draft's id become the draft; all others stay in place unchanged |
| Collection.ReplacedNoMatch | src/App.js:49 | with no entry carrying the draft's id, update leaves the list equal |
| Collection.ReplacedUnique | src/App.js:49 | with unique ids and entry k matching, update is the single-position replacement `users[k := draft]` |
| Collection.ReplacedKeepsIds | src/App.js:49 | update keeps the id at every position, so it preserves unique ids |
| Collection.ReplacedIdempotent | src/App.js:49 | saving the same draft twice equals saving it once |
| Collection.Appended | src/App.js:51 | create adds one entry, leaves the prefix untouched, and the new last entry is the draft with id length + 1 |
| Collection.AppendedUniqueIff | src/App.js:51 | after create the ids are unique exactly when they were unique before and no entry already had id length + 1 |
| Collection.Without | src/App.js:67 | delete never lengthens the list and leaves no entry carrying the id; WithoutMembers, WithoutLength and WithoutAppend fix the rest of its value |
| Collection.WithoutLength | src/App.js:67 | delete shortens the list by the number of entries carrying the id |
| Collection.WithoutCons | src/App.js:67 | delete drops the head entry exactly when it carries the id, then deletes from the rest |
| Collection.WithoutMembers | src/App.js:67 | every kept entry comes from the list and has a different id; every entry with a different id is kept |
| Collection.WithoutAppend | src/App.js:67 | delete commutes with concatenation, so the kept entries keep their relative order |
| Collection.WithoutNoMatch | src/App.js:67 | with no entry carrying the id, delete leaves the list equal |
| Collection.WithoutKeepsUnique | src/App.js:67 | delete preserves unique ids |
| Collection.WithoutKeepsLast | src/App.js:67 | a last entry that is kept stays last |
| Collection.CountUnique | src/App.js:67 | with unique ids, a present id occurs exactly once |
| Collection.WithoutUniqueRemovesOne | src/App.js:67 | with unique ids, deleting a present id shortens the list by exactly one and removes the id |
| Collection.CreateAfterDeleteDuplicates | src/App.js:51-67 | for users numbered 1..n and any k < n, delete k then create: the new user gets id n, which the last kept user also has, so the ids are no longer unique |
| Collection.BlankIdReplacesNothing | src/App.js:49 | when every stored id is numeric, an update with the draft's empty id leaves the list equal |
| Collection.BlankIdDeletesNothing | src/App.js:67 | when every stored id is numeric, a delete of the empty id leaves the list equal |
| Collection.CreateAfterDeleteExample | src/App.js:51-67 | delete id 1 from ids [1, 2, 3], then create: the list is [2, 3, draft with id 3] |
| Dashboard.UserManagement.constructor | src/App.js:5-8 | the initial state: empty list, all-empty draft, not editing, no error |
| Dashboard.UserManagement.FetchCompleted | src/App.js:11-24 | success replaces the list with the ingested records; failure sets "Failed to fetch users." and keeps the list; draft and mode unchanged |
| Dashboard.UserManagement.HandleChange | src/App.js:28-31 | the draft becomes the draft with the named field replaced; list, mode and error unchanged |
| Dashboard.UserManagement.HandleSubmit | src/App.js:34-60 | success: update by id in editing mode, append with id length + 1 otherwise, then draft reset and editing off, error kept; an update whose draft has the empty id leaves the list equal; failure: list, draft and mode unchanged, error "Failed to save user." |
| Dashboard.UserManagement.HandleDelete | src/App.js:63-73 | success removes the entries with the id and keeps the error (the empty id removes nothing); failure keeps the list and sets "Failed to delete user."; draft and mode unchanged |
| Dashboard.UserManagement.HandleEdit | src/App.js:76-79 | editing on, and the draft is exactly the chosen user; list and error unchanged |
| Dashboard.IngestUnique | src/App.js:15-21 | directory records with distinct ids ingest to users with unique ids |
| Dashboard.FetchOneScenario | src/App.js:11-24 | after fetching `{1, "Ada Lovelace", "a@x.com"}` the list is the single expected user and there is no error |
| Dashboard.EditEmailScenario | src/App.js:28-79 | fetch (distinct ids), edit user k, change the email, save: same length, only user k's email changed |
| Dashboard.DeleteThenCreateScenario | src/App.js:46-73 | fetch users 1..n, delete k < n, create: the length is back to n and the last two users both have id n |
| Dashboard.FailedSaveScenario | src/App.js:46-59 | a failed save leaves the list as it was and sets "Failed to save user." |

## Left out

- HTTP is left out: the `fetch` calls, URLs, methods, headers and `JSON.stringify`. Each remote call is replaced by its boolean outcome `ok`. For save and delete, a non-ok status and a network error are both failures (src/App.js:47 and :66).
- The JSON decode is left out. Ingest takes already-decoded records whose `id` is an integer and whose `name` and `email` are strings. JSON ids may be any number; non-integer ids are not modelled. A record without a string `name` would make `split` throw, and the fetch error would then be set. The model does not cover that case.
- Dashboard.UserManagement.FetchCompleted: `ok` means that the response body decoded to an array of such records. The initial fetch never reads `response.ok` (src/App.js:12-14), so a non-ok HTTP status whose body decodes to an array is ingested and stored like a success. A rejected `fetch` (a network error) at src/App.js:12, a failing `response.json()`, `data.map` or `split` reaches the error at src/App.js:24; a non-ok status alone does not.
- React machinery is left out: `useState` and `useEffect` scheduling, `preventDefault`, and completions of concurrent requests arriving in any order over stale closures. Each handler runs against the current state, one at a time.
- The model does not enforce that the initial fetch runs exactly once. `FetchCompleted` can be called at any time.
- Rendering is left out, including the browser's `required` and `type="email"` input checks. `HandleSubmit` does not require non-empty fields, because the handler itself does not check them.
- Records.With: only the four form inputs are editable fields. The source's computed key `[name]` could write any key, but the rendered form only ever passes these four names.
