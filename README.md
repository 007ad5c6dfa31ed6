# User collection of a minimal CRUD service

The service keeps every user in one process-wide array, `users`, in the
order the users were created. Four HTTP handlers work on that array:

- listing returns it;
- creating appends a record `{id, name, age}` whose id is a fresh UUID;
- updating replaces a record in place, keeping its id;
- deleting splices a record out.

Updating and deleting first run a lookup middleware. The middleware scans
the array for the first record with the requested id and answers
"User not found" (404) when there is none.

This project models that collection in Dafny (`users.dfy`, module `Users`):

- `User` is a datatype `User(id, name, age)`. The name and the age are type
  parameters, because the handlers accept whatever the request body holds.
- `UserStore` is a class whose field `users: seq<User>` the handler methods
  reassign. Its invariant `Valid()` says that ids are unique.
- `IndexOf` is the reference definition of the find-first lookup, and
  `UserStore.Locate` is the scanning loop, proved equal to it.
- `NotFound` is the outcome value that stands for the 404.
- The fresh UUID becomes a parameter of `Insert`, with the precondition
  that no record carries it yet.

## Model

| member | source | states |
|---|---|---|
| `Users.IndexOf` | index.js:17-22 | the result is the position of the first record whose id equals the requested id, and it is `None` exactly when no record carries that id |
| `Users.RemoveAt` | index.js:60 | cutting out position `i` shortens the sequence by one, keeps the entries before `i` in place, shifts the entries after `i` down by one, and loses only the entry at `i` (as a multiset) |
| `Users.LocateExact` | index.js:2-17 | with unique ids, the lookup finds position `i` if and only if the record at `i` carries the id |
| `Users.AppendLocate` | index.js:40-41 | after an append, ids already present are found where they were; a new id is found at the old length, and any other id is still not found |
| `Users.AppendKeepsUnique` | index.js:40-41 | appending a record whose id is not yet present keeps the ids unique |
| `Users.ReplaceKeepsLookups` | index.js:49-52 | replacing a record by one with the same id keeps the ids unique and leaves the lookup of every id unchanged |
| `Users.RemoveForgets` | index.js:59-60 | with unique ids, splicing out a position keeps the ids unique, and the removed id is then not found |
| `Users.RemoveShiftsLookups` | index.js:59-60 | splicing out position `i` leaves the lookup of ids found before `i` unchanged and moves the lookup of ids found after `i` down by one; ids not found stay not found |
| `Users.UserStore.constructor` | index.js:12 | the collection starts empty and valid |
| `Users.UserStore.List` | index.js:32-35 | listing returns the current sequence and changes nothing, so two listings with nothing between them return the same sequence |
| `Users.UserStore.Locate` | index.js:15-29 | the linear scan returns exactly `IndexOf` of the current collection: the first matching position, or `None` (the 404) |
| `Users.UserStore.Insert` | index.js:38-43 | the new record `{id, name, age}` is appended at the end, everything before it is unchanged, ids stay unique, the new id is found at the old length, and the whole collection is returned |
| `Users.UserStore.Update` | index.js:46-55 | `NotFound` exactly when no record has the id, and then nothing changes; otherwise only the located position changes, to `{id, name, age}` with the requested id, that record is returned, ids stay unique and every lookup gives the same answer as before |
| `Users.UserStore.Remove` | index.js:58-62 | `NotFound` exactly when no record has the id, and then nothing changes; otherwise exactly the located entry is spliced out, the length drops by one and the others keep their order; either way the id is not found afterwards |

## Left out

- The Express application, route registration, `express.json()` body parsing, status codes and JSON response bodies (index.js:1, 4-5, 21, 42, 54, 61): the model keeps only the values the handlers compute, with `NotFound` for the 404.
- `uuid.v4()` (index.js:2, 40) is a foreign library call. `Insert` takes the id as a parameter and requires that it is fresh. The negligible chance that a UUID collides is not modelled.
- `app.listen` and `console.log` (index.js:65-67) are process I/O.
- Passing the located index through `request.userIndex` and `request.userId` (index.js:25-26, 48-49) becomes the value `Locate` returns inside `Update` and `Remove`. The id stored by `Update` is the requested id, which equals the located record's id.
- Requests run one at a time in the model. The source has no synchronisation between requests, and interleavings are not modelled.
- `Array.prototype.splice` and indexed assignment are modelled as sequence operations on a field that is reassigned. Aliasing of the array by a response that has already been sent is not modelled.
