# Travel-journal backend: owner-scoped entries, accounts and image uploads

This project models the rules of the travel-journal REST backend: the route
handlers of `backend/index.js`, the journal-entry schema of
`backend/models/journalEntry.model.js` and the upload rules of `backend/multer.js`.
The database is replaced by in-memory tables held in sequences in their natural
(insertion) order. Each table has a counter that hands out fresh ids.

- `Common` (common.dfy): `Option`, the natural-order `findOne` (`FirstIndex`) and
  `find` (`Select`), case-insensitive substring search, and decimal numerals.
- `PathRules` (paths.dfy): POSIX `path.basename` and `path.extname`, including the
  trailing-slash, dot-file and `..` cases.
- `JournalSchema` (schema.dfy): the entry document, its required paths (`Valid`) and
  `Create`, which fills in the defaults and validates the document the way `save()` does.
- `Uploads` (uploads.dfy): the multer file filter, the stored-file name, the
  destination `./uploads/` (the constant `UploadDir`), the image-upload route and the
  delete-image route.
- `Accounts` (accounts.dfy): the class `AccountRegistry` with the user table and
  `Register`, plus the read-only routes `Login` and `GetUser` as functions.
- `Entries` (entries.dfy): the class `EntryStore` with the entry table and the
  state-changing routes `Add`, `Edit`, `SetFavourite` and `Delete`. The read-only
  routes `GetAll`, `Search` and `FilterByDate` are functions over the table.

Modelling choices:

- Request fields follow JavaScript truthiness. A missing or empty string is `""`.
  A missing `tag` or `journalDate` is `None`. An empty `tag` list is present and passes.
  Edit also rejects `journalDate == 0`.
- The add-entry handler does not check `journalDate`. It always stores
  `new Date(parseInt(journalDate))`, which is an invalid date when the field is
  missing. `save()` fails to cast that value to a date, and the handler's catch
  answers 400. The model leaves the document's date unset in that case, so `Create`
  refuses it.
  The model reports this as `InvalidDocument`.
- `bcrypt.hash` is the uninterpreted function `hash`, fixed when the registry is
  created. `bcrypt.compare(pw, stored)` is `hash(pw) == stored`. A token is
  `Token(userId)`.
- The caller's user id is a parameter. It stands for the identity that token
  verification attaches to a request.
- Clock readings (`Date.now()`) are parameters in milliseconds. So is the set of file
  names present in the uploads directory.
- `sort({isFavourite: -1})` is modelled as a stable partition: favourites first, then
  the rest, each group in natural order. The contracts promise only what the source
  promises: the caller's entries, each as often as stored, with no favourite after a
  non-favourite.
- Every state-changing entry method also proves tenant isolation. Every query of
  another owner (`Find(entries, q)` with `q.owner != caller`) answers the same
  before and after the call.

Behaviours of the code that are easy to misread, which the model keeps as written:

- get-user returns the whole stored user document, password hash included. It
  does not return a hash-free profile.
- The upload filter's rejection does not reach the route. multer passes the error
  on with the message "Only images are allowed".
- delete-entry does not special-case the placeholder image. It asks to unlink
  `uploads/placeholder.png`. `PlaceholderNeverUploaded` shows that no upload is ever
  stored under that name, so no user's file is affected.
- Duplicate emails are rejected by a lookup followed by an insert
  (backend/index.js:35-48). The User schema is not part of this model, so neither
  is any unique index it may declare.

## Model

| member | source | states |
|---|---|---|
| `Accounts.AccountRegistry.Register` | backend/index.js:26-64 | Missing fullName, email or password gives MissingFields. A known email gives UserExists. Both leave the table unchanged. Otherwise exactly one user is appended with the hash of the password; the response holds only fullName and email plus a token for the new id; a later login with the same credentials succeeds. |
| `Accounts.Login` | backend/index.js:67-98 | Both fields required. No user with the email gives UserNotFound. A stored hash that differs from the password's gives InvalidCredentials. Success returns that user's profile and token. Login is a function, so it changes no table. |
| `Accounts.LoginSucceedsIff` | backend/index.js:74-82 | With unique emails, login of a known user succeeds exactly when the stored hash equals the password's hash, and fails with InvalidCredentials exactly otherwise. |
| `Accounts.LoginFindsNewUser` | backend/index.js:40-48 | A user stored under a fresh email with the hash of a password is found by login with that password. |
| `Accounts.GetUser` | backend/index.js:101-114 | 401 exactly when no user has the id; otherwise the stored user with that id, hash included. |
| `Accounts.FindByEmail` | backend/index.js:35-36 | Finds a user with the email, or reports that none has it. |
| `JournalSchema.Create` | backend/models/journalEntry.model.js:4-13 | A document is saved exactly when title, notes and imageUrl are non-empty and userId and journalDate are present. tag defaults to [], isFavourite to false, createdOn to the current time. Supplied values are kept. |
| `JournalSchema.CreateOfSaved` | backend/models/journalEntry.model.js:4-13 | A saved entry rebuilt from its own fields is the same entry. |
| `Uploads.FileFilter` | backend/multer.js:15-21 | Accepts a file exactly when its MIME type starts with "image/". Otherwise rejects it with "Only images are allowed". |
| `Uploads.StoredFilename` | backend/multer.js:9-11 | The stored name is a string of decimal digits whose value is the millisecond clock reading, with no leading zero, followed by the original name's extension. It contains no '/', starts with a digit, and its own extension is the original file's extension. |
| `Uploads.StoredFilenamesDistinct` | backend/multer.js:10 | Uploads in different milliseconds never share a stored name. |
| `Uploads.ImageUpload` | backend/index.js:117-131 | No file gives the placeholder URL. A rejected file gives the filter's message. An accepted file is stored under its generated name; the returned URL's base name is that name. |
| `Uploads.DeleteImage` | backend/index.js:134-161 | A missing imageUrl is an error. Otherwise the target is the URL's base name in the uploads directory. A base name of "", "." or ".." names a directory, so the unlink throws and the route answers 500. Otherwise the file is deleted exactly when it is present, and a missing file is the soft "Image not found". |
| `Uploads.DeleteAfterUpload` | backend/index.js:145-154 | delete-image on the URL returned by an upload deletes exactly the file that upload stored. |
| `Uploads.PlaceholderNeverUploaded` | backend/index.js:274-278 | The file an entry with the placeholder image points at is never a stored upload's name. |
| `PathRules.Extname` | backend/multer.js:10 | path.extname is a suffix of the path's base name. It is non-empty exactly when that base name has a '.' after its first character and is not "..". It then starts at the last '.' and contains no other '.' and no '/'. |
| `PathRules.ExtensionOf` | backend/multer.js:10 | The extension of a base name is non-empty exactly when the name has a '.' after its first character and is not "..". It is then the suffix that starts at the name's last '.'. |
| `PathRules.Basename` | backend/index.js:145 | path.basename is the last '/'-free segment of the path once trailing '/' are removed. It is all of the trimmed path or follows a '/', and it never contains a '/'. |
| `PathRules.BasenameAfterSeparator` | backend/index.js:145 | path.basename of a directory ending in '/' followed by a slash-free name is that name. |
| `Common.Contains` | backend/index.js:330-332 | True exactly when the query occurs as a contiguous substring of the text. |
| `Entries.ImageOrPlaceholder` | backend/index.js:188-190 | The image URL is the supplied one when it is non-empty, otherwise the placeholder, and never empty. |
| `Entries.Edited` | backend/index.js:242-246 | Edit overwrites title, notes, tag, imageUrl and journalDate. Id, owner, createdOn and isFavourite are unchanged. |
| `Entries.Lookup` | backend/index.js:232 | Finds an entry with both the given id and the caller as owner, or reports that there is none. |
| `Entries.ForeignEntryLooksMissing` | backend/index.js:262-268 | With distinct ids, looking up another user's entry gives the same answer as looking up an absent one. |
| `Entries.EntryStore.Add` | backend/index.js:168-199 | A missing title, notes or tag gives MissingFields; a missing journalDate gives InvalidDocument. Both leave the table unchanged. Otherwise one entry is appended, with a fresh id, the caller as owner, the image or the placeholder, the given date, createdOn now and isFavourite false. Other owners' queries are unchanged. |
| `Entries.EntryStore.Edit` | backend/index.js:215-253 | Missing fields (including journalDate 0) are checked first. Then an entry not found under (id, caller) gives NotFound. Both leave the table unchanged. Otherwise only that entry is replaced by its edited form. Other owners' queries are unchanged. |
| `Entries.EntryStore.SetFavourite` | backend/index.js:294-315 | NotFound, with the table unchanged, unless the caller owns an entry with the id. Otherwise only that entry's isFavourite changes. |
| `Entries.EntryStore.Delete` | backend/index.js:256-291 | NotFound, with the table unchanged, unless the caller owns an entry with the id. Otherwise exactly that entry is removed, no entry with the id remains, and the unlink targets the base name of its imageUrl in the uploads directory. |
| `Entries.RemovedIdIsGone` | backend/index.js:271 | Removing one entry keeps ids distinct and leaves no entry with the removed id. |
| `Entries.FavouritesFirst` | backend/index.js:205-207 | The result is a permutation of the input, and no favourite comes after a non-favourite. |
| `Entries.Find` | backend/index.js:202-362 | The query shared by get-all (lines 205-207), search (lines 327-334) and filter-by-date (lines 353-356). It returns each stored entry that satisfies the owner-scoped query as often as stored, and nothing else, favourites first. |
| `Entries.GetAll` | backend/index.js:202-212 | Returns exactly the caller's entries, favourites first. |
| `Entries.Search` | backend/index.js:318-340 | An empty query is refused. Otherwise returns exactly the caller's entries whose title, notes or some tag contains the query case-insensitively, favourites first. |
| `Walkthrough.SearchFinds` | backend/index.js:318-340 | Searching "beach" finds an entry whose notes read "Beach Day": the match ignores case and looks at the notes as well as the title. |
| `Entries.FilterByDate` | backend/index.js:343-362 | Returns exactly the caller's entries with start <= journalDate <= end, favourites first. |
| `Entries.InvertedRangeIsEmpty` | backend/index.js:349-356 | A range with start after end yields an empty list, not an error. |
| `Entries.FavouriteListedFirst` | backend/index.js:205-207 | Every favourite of the caller's is listed before every non-favourite of the caller's. |

## Left out

- HTTP routing, middleware, CORS, JSON parsing and static file serving: framework plumbing.
- Token signing, verification and the 72-hour expiry: cryptography and wall-clock time. The token is the opaque `Token(userId)`, and `authenticateToken` lives in `backend/utilities.js`, which is not part of this model.
- bcrypt's salting and cost factor: the hash is a fixed uninterpreted function.
- Database I/O and its failures: every 500 answer from a caught database error, and ObjectId cast errors for malformed ids. Ids are natural numbers.
- Concurrency: two concurrent registrations with one email, and races between edits and deletes of one entry.
- Filesystem effects: the existence check, `unlinkSync` and the unawaited `fs.unlink` with logging on error. Only the targeted file name is modelled. The base names "", "." and ".." make `path.join` name the uploads directory or its parent. For delete-image these are modelled as the 500 answer (`Uploads.UnlinkFailed`). delete-entry's unawaited unlink only logs such an error, so there the name is reported as is.
- `Entries.Search`: MongoDB `$regex` semantics are approximated by a plain substring test. Regex metacharacters in the query are taken literally, and case folding covers ASCII letters only.
- `Entries.FavouritesFirst`: the source leaves the order within the favourite and non-favourite groups unspecified. The model fixes natural order, and the contracts promise nothing about it.
- `parseInt`/`new Date` edge cases such as NaN dates, and JavaScript truthiness of non-string, non-number request values (for example a numeric title or a non-boolean `isFavourite`).
- `Uploads.StoredFilename`: JavaScript writes very large numbers (from 10^21 up) in exponent notation. The model always writes plain decimal digits, which matches every realistic clock reading.
- The frontend (React pages and components, axios calls, Tailwind configuration): UI state and rendering. Its client-side checks repeat the server's rules.
