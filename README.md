# noteful-v4 entity store, in Dafny

noteful-v4 is an Express/MongoDB note-taking API. Users register. Folders and
tags belong to a user. Notes belong to a user and point at one optional folder
and any number of tags. This project models the part of the API that decides
outcomes and changes data:

- the route handlers for notes, folders, tags and user registration;
- the schema rules of the Folder, Tag and User models;
- the mapping from handler outcomes to HTTP statuses.

The database is one object, `EntityStore.Store`. Its fields are the four
collections as sequences of records, plus an abstract clock. Its methods are the
write routes. Each write route is first stated as a pure transition: a function
from the old collection and the request to a response and the new collection.
The method's `ensures` ties the new state to that function. The function's own
`ensures`, and the lemmas beside it, state what the route promises:

- which check answers first, and with which status and message;
- that a failed request leaves the collections as they were;
- that the schema invariants are kept: unique ids, unique `(name, userId)` per
  folder and per tag, unique usernames, and required fields;
- that references stay intact: a note's folder and tags belong to the note's own
  owner, and no tag is listed twice (for requests that run one at a time);
- that timestamps stay ordered.

Reads (list, get) are pure functions over the collections.

Modules:

- `ObjectIds`: `mongoose.Types.ObjectId.isValid`.
- `Text`: JavaScript `trim` and the case-insensitive search.
- `Http`: the outcome mapping of server.js.
- `Collections`: keyed sequence helpers.
- `Models`: the records, their invariants and the output views.
- `Sorting`: the name and recency orders.
- `Labels`: folders and tags. The two routers are the same code with different
  messages.
- `Cascade`: the `$unset` and `$pull` a folder or tag delete runs on notes.
- `Notes`, `Users`: the other two routers.
- `EntityStore`: the store.

Behaviour of the routes that a reader might not expect, which the model keeps:

- A tag list with a repeated id is refused with 400 'The tags array contains an
  invalid id', because the validator compares the number of matching tags with
  the list's length (routes/notes.js:56-63).
- Note update looks the note up by id alone and makes the caller its owner
  (routes/notes.js:170, 205). `Notes.UpdateTakesOverForeignNote` exhibits this.
- The delete cascades are not scoped to the caller. They run whether or not a
  folder or tag was removed (routes/folders.js:162-165, routes/tags.js:150-153).
- Folder create without a user id answers 400 with an empty message, because the
  route sets `messge` (routes/folders.js:74).

## Model

| member | source | states |
|---|---|---|
| ObjectIds.ValidityExamples | test/notes-test.js:263 | "DOESNOTEXIST" (12 characters) is a valid id; "NOT-A-VALID-ID", the empty string and a 24-character string with a non-hex character are not; 24 hex digits are |
| Text.Trim | routes/users.js:46-49 | the result is one contiguous slice of the input with only white space cut from either end, and itself has no leading or trailing white space; a string is left unchanged exactly when it has no surrounding white space |
| Text.TrimIdempotent | routes/users.js:99 | trimming an already trimmed fullname again changes nothing |
| Text.ContainsIgnoreCaseAt | routes/notes.js:79-81 | the search term matches a text exactly when some position of the text starts a case-insensitive occurrence of it |
| Text.NameLeTotal | routes/folders.js:22 | any two names are ordered one way or the other by the name sort |
| Text.NameLeAntisymmetric | routes/folders.js:22 | names ordered both ways are equal |
| Text.NameLeTransitive | routes/folders.js:22 | the name order is transitive |
| Collections.Count | routes/notes.js:27-28 | the count is at most the collection size, is positive exactly when a match exists, and is at most 1 on a unique key |
| Collections.RemoveFirst | routes/folders.js:158 | findOneAndRemove deletes one matching document if there is one and nothing otherwise; every other document keeps its multiplicity; on a unique key no match remains |
| Models.SameNameOtherOwner | models/folder.js:10-12 | two users may each own a folder (or tag) of the same name |
| Users.RegisteredUserValidatesDigest | models/user.js:31-33 | a user created by registration validates exactly its stored digest, so the plaintext password validates only when the digest equals it |
| Models.LabelView | models/folder.js:18-24 | the output of a folder (tags.js:18-24 is identical) has exactly the keys id, name, userId, createdAt and updatedAt, each with the document's value; `_id` and `__v` are gone |
| Models.UserView | models/user.js:22-28 | the output of a user has no password, `_id` or `__v`; it has exactly id, username, createdAt, updatedAt and fullname when set, each with the document's value |
| Sorting.SortByName | routes/folders.js:20-23 | the result is sorted by name and is a permutation of the input |
| Sorting.SortByRecency | routes/notes.js:92-93 | the result is sorted by updatedAt, newest first, and is a permutation of the input |
| Labels.List | routes/folders.js:17-28 | exactly the caller's folders (tags: routes/tags.js:17-28), each as often as stored, sorted by name |
| Labels.Get | routes/folders.js:32-55 | a malformed id is 400 ('The `id` is not valid' for folders, 'The `id` is invalid' for tags); no document of `(id, userId)` is 404, so another user's document looks absent; otherwise the caller's document with that id |
| Labels.CreateCheck | routes/folders.js:66-77 | a falsy name is 400 'Missing `name` in request body' before anything else; then a missing user id is 400; otherwise the checks pass |
| Labels.UpdateCheck | routes/folders.js:104-121 | the id is checked first, then the user id, then the name, each with its 400 message; the checks pass exactly when all three hold |
| Labels.InsertKeepsValid | models/folder.js:5-12 | inserting a document with a fresh id, a name, an owner and an unused `(name, userId)` keeps the collection valid |
| Labels.RenameKeepsValid | routes/folders.js:123-126 | a rename the unique index admits keeps the collection valid and changes no document's id or owner |
| Labels.RemoveKeepsValid | routes/folders.js:158 | removing `(id, userId)` keeps the collection valid, leaves no match, and a second removal changes nothing |
| Labels.Create | routes/folders.js:59-95 | failed checks answer their error, a malformed owner id is 500 and a taken `(name, userId)` is 400 'Folder name already exists' (tags: 'Tag name already exists', routes/tags.js:58-91), each leaving the collection unchanged; otherwise exactly the new document is appended and returned with 201; validity is preserved |
| Labels.Rename | routes/folders.js:98-142 | failed checks answer their error; no document of `(id, userId)` is 404; a name taken by another document of the caller is 400; otherwise only that document is renamed and stamped and is returned; the collection stays valid and every document keeps its id and owner (tags: routes/tags.js:94-134) |
| Cascade.UnsetFolder | routes/folders.js:162-165 | no note is removed; no note keeps the folder; notes without it are untouched; notes with it lose the folder and are stamped, nothing else changes |
| Cascade.Without | routes/tags.js:152 | `$pull` removes every occurrence of the id, keeps the multiplicity of every other id, and keeps a list without repeats without repeats |
| Cascade.WithoutAbsent | routes/tags.js:152 | `$pull` leaves a list unchanged exactly when the id is not in it |
| Cascade.WithoutConcat | routes/tags.js:152 | pulling keeps the remaining tags in their order: it distributes over concatenation |
| Cascade.PullTag | routes/tags.js:150-153 | no note is removed; no note keeps the tag; notes without it are untouched; notes with it get that tag pulled and are stamped, nothing else changes |
| Cascade.UnsetFolderIdempotent | routes/folders.js:162-165 | running the folder cascade again, at any time, changes nothing |
| Cascade.PullTagIdempotent | routes/tags.js:150-153 | running the tag cascade again, at any time, changes nothing |
| Cascade.FolderDeleteKeepsRefs | routes/folders.js:157-165 | after the folder is removed and the cascade runs, every note still references only its owner's folder and tags |
| Cascade.TagDeleteKeepsRefs | routes/tags.js:148-153 | after the tag is removed and the cascade runs, every note still references only its owner's folder and tags |
| Notes.ValidateFolderId | routes/notes.js:17-37 | a falsy folder id passes; every failure is 400 'The `folderId` is invalid'; a truthy id passes exactly when it is well formed and names a folder of the caller, so a foreign folder looks like a missing one |
| Notes.TagCountExact | routes/notes.js:56-63 | with unique tag ids, the number of the caller's tags among the requested ids equals the list's length exactly when the list repeats no id and every id names a tag of the caller |
| Notes.ValidateTagIds | routes/notes.js:39-65 | omitted tags pass; a non-array is 400 'The `tags` must be an array'; a malformed id is 400 'The tags `id` is invalid'; otherwise the list passes exactly when it has no repeated id and only ids of the caller's tags, and fails with 'The tags array contains an invalid id' |
| Notes.Filter | routes/notes.js:72-91 | the result holds each stored note that satisfies the filter, as often as stored, and nothing else |
| Notes.List | routes/notes.js:68-99 | a truthy folderId or tagId that is not an ObjectId is 500; otherwise exactly the matching notes, newest first |
| Notes.ListedNotesMatch | routes/notes.js:72-91 | every listed note is stored, belongs to the caller and satisfies the search term (title or content), folder and tag filters |
| Notes.Get | routes/notes.js:103-127 | a malformed id is 400 'The `id` is invalid'; no note of `(id, userId)` is 404; otherwise the caller's note with that id |
| Notes.FirstRejection | routes/notes.js:17-66 | both validators pass exactly when neither rejects; when one passes the answer is the other's; a malformed folder id settles first; otherwise a non-array or malformed tag list settles before the folder lookup; when both fail only after their lookups, the folder's error is taken |
| Notes.CreateCheck | routes/notes.js:130-150 | a falsy title is 400 'Missing `title` in request body'; otherwise the first validator rejection to settle, with omitted tags read as an empty list; the checks pass exactly when the title is present and both validators pass |
| Notes.CreateBadTagBeatsForeignFolder | routes/notes.js:50-55 | a malformed tag id on create is answered 'The tags `id` is invalid' even when the folder belongs to no document of the caller |
| Notes.FolderRef | routes/notes.js:142-144 | a falsy folder id is stored as no folder, any other is stored as given |
| Notes.NewNote | routes/notes.js:131-133 | the created note has the given id, the caller as owner, the request's title, content, folder and tags, and the creation time as both timestamps |
| Notes.CreatedNoteRefsOk | routes/notes.js:146-152 | a note created after the checks pass references only the caller's folder and tags and lists no tag twice |
| Notes.UpdateCheck | routes/notes.js:173-202 | the id is checked before the title, a truthy non-array tags value then throws (500), a malformed tag id is 400 before any lookup, then the first validator rejection to settle; the checks pass exactly when all hold |
| Notes.UpdateNullTagsBeatsForeignFolder | routes/notes.js:43-47 | a falsy non-array tags value on update is answered 'The `tags` must be an array' even when the folder belongs to no document of the caller |
| Notes.Replacement | routes/notes.js:168-170 | the updated note keeps its id and creation time, takes every other field from the request with the caller as owner (omitted content and tags are cleared, a falsy folder becomes none) and is stamped |
| Notes.ReplacedNoteRefsOk | routes/notes.js:198-206 | a note replaced after the checks pass references only the caller's folder and tags, whoever owned it before |
| Notes.UpdateTakesOverForeignNote | routes/notes.js:204-206 | a caller to whom GET answers 404 for a note passes every update check, finds the note by id and becomes its owner |
| Notes.InsertKeepsInvariant | routes/notes.js:152 | inserting a titled note with a fresh id and intact references keeps the Note collection valid and intact |
| Notes.ReplaceKeepsInvariant | routes/notes.js:204-206 | replacing a note by a titled note with the same id and intact references keeps the Note collection valid and intact |
| Notes.RemoveKeepsInvariant | routes/notes.js:233-234 | removing `(id, userId)` keeps the collection valid and intact, removes at most one note, leaves no match, and a repeat changes nothing |
| Notes.Create | routes/notes.js:130-163 | failed checks answer their error and a malformed owner id is 500, the collection unchanged; otherwise exactly the new note is appended and returned with 201; validity and references are preserved |
| Notes.Update | routes/notes.js:166-218 | failed checks answer their error, a malformed owner id is 500, and no note with that id is 404, each leaving the collection unchanged; otherwise only that note is replaced and returned; validity and references are preserved |
| Notes.Remove | routes/notes.js:221-243 | a malformed id is 400; otherwise 204, at most one note goes, the other notes keep their multiplicity, no note of `(id, userId)` remains, and validity and references are preserved |
| Notes.RemoveIdempotent | routes/notes.js:233-238 | a second identical delete answers the same and changes nothing |
| Notes.SearchExample | test/notes-test.js:117-128 | of "A ways to cook" and "B topic", a search for "ways" returns exactly the first |
| Users.FieldCheck | routes/users.js:18-90 | all failures are 422; missing username, then missing password, then a non-string field, then surrounding white space, then username shorter than 6, password shorter than 8, password longer than 72, each with its message; the checks pass exactly when none of these holds |
| Users.RegistrationAsWritten | routes/users.js:10-102 | a truthy non-string fullname throws (500) before any check; a body that passes every check without a fullname throws at fullname.trim() (500); only bodies with a string fullname are accepted |
| Users.Registration | routes/users.js:10-102 | accepted exactly when the checks pass, with the given credentials and, when sent, the trimmed fullname; every rejection is the first failing 422 check |
| Users.Register | routes/users.js:93-116 | a rejected body answers its error; an empty digest is 500; a taken username is 400 'The username already exists'; otherwise exactly the new user is appended and returned with 201; the User collection stays valid. Built on the intended reading `Users.Registration`, so a body without fullname is created (see Findings) |
| Users.AsWrittenDiffersOnlyOnFullname | routes/users.js:14-16 | the route as written and the intended registration differ exactly on a truthy non-string fullname and on an acceptable body without a fullname |
| Users.MissingFullnameCrashes | routes/users.js:99 | any body that passes every check but has no fullname is 500 as written and is accepted, without a fullname, as intended |
| Users.ExampleCredentialsAcceptable | test/user-test.js:18-19 | the test credentials "exampleUser" / "examplePassword" pass every check |
| Users.NumericFullnameCrashes | routes/users.js:14-16 | a numeric fullname is 500 as written and 422 'Incorrect field type: expected string' as intended |
| EntityStore.UnsetFolderLoop | routes/folders.js:162-165 | the note-by-note `$unset` produces exactly the folder cascade |
| EntityStore.PullTagLoop | routes/tags.js:150-153 | the note-by-note `$pull` produces exactly the tag cascade |
| EntityStore.DeleteFolderIdempotent | routes/folders.js:158-165 | a second identical folder delete changes neither folders nor notes |
| EntityStore.DeleteTagIdempotent | routes/tags.js:148-153 | a second identical tag delete changes neither tags nor notes |
| EntityStore.ForeignFolderDeleteClearsOwnersNotes | routes/folders.js:158-165 | a folder delete by a user who does not own the folder leaves the folder but clears it from its owner's notes |
| EntityStore.ForeignTagDeleteStripsOwnersNotes | routes/tags.js:148-153 | a tag delete by a user who does not own the tag leaves the tag but pulls it from its owner's notes |
| EntityStore.Store.RegisterUser | routes/users.js:93-116 | the users become what `Users.Register` prescribes, on the intended reading of the fullname handling; the other collections are unchanged; the store stays valid |
| EntityStore.Store.CreateLabel | routes/folders.js:59-95 | the folders (or tags) become what `Labels.Create` prescribes; nothing else changes; the store stays valid |
| EntityStore.Store.RenameLabel | routes/folders.js:98-142 | the folders (or tags) become what `Labels.Rename` prescribes; nothing else changes; the store stays valid |
| EntityStore.Store.DeleteFolder | routes/folders.js:145-177 | a malformed id is 400 with nothing changed; otherwise 204, the folder `(id, userId)` is removed and the folder cascade runs on all notes; the store stays valid |
| EntityStore.Store.DeleteTag | routes/tags.js:137-166 | a malformed id is 400 with nothing changed; otherwise 204, the tag `(id, userId)` is removed and the tag cascade runs on all notes; the store stays valid |
| EntityStore.Store.CreateNote | routes/notes.js:130-163 | the notes become what `Notes.Create` prescribes; nothing else changes; the store stays valid |
| EntityStore.Store.UpdateNote | routes/notes.js:166-218 | the notes become what `Notes.Update` prescribes; nothing else changes; the store stays valid |
| EntityStore.Store.DeleteNote | routes/notes.js:221-243 | the notes become what `Notes.Remove` prescribes; nothing else changes; the store stays valid |

## Left out

- Authentication: the caller's user id is a parameter. routes/auth.js and the
  passport strategies are not part of this model.
- Password hashing: `User.hashPassword` (routes/users.js:94) is not defined in
  models/user.js. Its digest is a parameter of registration.
- New document ids are parameters. The store requires them to be unused, as
  MongoDB guarantees.
- Time: `createdAt` and `updatedAt` are values of an abstract counter, the store's
  `clock`. Every write request advances the clock once, even one that fails.
- Ids are compared as strings. The model does not capture these:
  - that a 12-character id and its 24-hex spelling name the same ObjectId;
  - hex case;
  - non-string ids in bodies and queries.
- A caller id that is not an ObjectId is compared literally in reads, validator
  lookups and the three deletes (routes/notes.js:233, routes/folders.js:158,
  routes/tags.js:148). There MongoDB would fail the cast with 500, but
  `Notes.Remove`, `EntityStore.Store.DeleteFolder` and `EntityStore.Store.DeleteTag`
  answer 204. Writes that store the caller id (folder, tag and note create, note
  update) do model that cast as 500.
- Request bodies:
  - note and label fields are strings or absent, and JavaScript falsiness is
    absent or the empty string;
  - a non-string `title`, `name`, `content` or `folderId` is not modelled;
  - non-array `tags` are modelled only as truthy or falsy.
- Notes.Update: what Mongoose does with `undefined` in the update document is a
  library detail. The model's rule is that an omitted `content` or `tags` is
  cleared. The preserved reference invariant depends on that rule: if omitted
  tags were kept instead, an update that takes over another user's note would
  keep that user's tag ids on a note the caller now owns.
- Users.Register: follows the intended reading `Users.Registration`, not the route
  as written. A body that passes every check but has no fullname is created here,
  where routes/users.js:99 answers 500; a truthy non-string fullname is 422 here,
  where routes/users.js:14-16 answers 500. `Users.RegistrationAsWritten` models the
  route as written.
- EntityStore.Store.RegisterUser: applies `Users.Register`, so it follows the same
  intended reading of the fullname handling.
- Notes.Matches: the search term is a case-insensitive substring over ASCII letters.
  `RegExp` metacharacters and Unicode case folding are not modelled.
- Users.FieldCheck, Users.Registration, ObjectIds.IsValidObjectId: lengths are
  counted in code points, where JavaScript's `.length` counts UTF-16 code units
  (routes/users.js:68-90; the 12-character rule of ObjectId.isValid). A password of
  40 copies of U+1F600 is 80 code units, so the route answers 422 'at most 72
  characters', while the model accepts it.
- Notes.FirstRejection: when both validators fail only after their database
  lookups (a foreign folder and a foreign tag id), which error the route answers
  depends on which lookup returns first. The model answers the folder's error.
- Requests run one at a time: each route is one atomic transition of the store.
  The route validates references in one step (routes/notes.js:146-150, 196-200)
  and writes in a later one (routes/notes.js:152, 203-205), so a concurrent
  folder or tag delete can interleave. For example, a `DELETE /api/folders/:id`
  can run between a note create's `Folder.count` and its `Note.create`; the new
  note then points at a folder that no longer exists. `RefsIntact`, and with it
  `EntityStore.Store.Valid`, is proved only for requests that run one after
  another.
- `populate('tags')` is not modelled. Responses carry the stored note with tag ids.
- Whether `res.json` applies the schemas' `toObject` transform is a library
  detail. `Models.LabelView` and `Models.UserView` state the transform itself.
- The error handler copies the error's own properties into the response body
  (server.js:53). The model keeps only the status and the message.
- server.js wiring, request logging, static files, public/scripts/api.js and
  utils/seed-database.js are plumbing or I/O. models/note.js is not part of this
  model; the Note record follows its use in routes/notes.js.

## Findings

| source | as written | input that shows it | evidently intended | confidence | as-written member | corrected member |
|---|---|---|---|---|---|---|
| routes/users.js:99 | `fullname.trim()` is called even when no fullname was sent, so the request fails with 500 | `{ "username": "exampleUser", "password": "examplePassword" }` | fullname is optional (models/user.js:6-8): the user is created without one | not executed | Users.MissingFullnameCrashes | Users.Registration |
| routes/users.js:14-16 | a truthy non-string fullname is trimmed before the type check, so `trim` is not a function and the request fails with 500 | `{ "username": "exampleUser", "password": "examplePassword", "fullname": 5 }` | the type check (routes/users.js:32-43) answers 422 'Incorrect field type: expected string' | not executed | Users.NumericFullnameCrashes | Users.Registration |
