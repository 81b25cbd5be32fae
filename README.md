# Auth blueprint of a small Flask blog, modelled in Dafny

This project models the `auth` blueprint of a multi-user blog (`flaskr/auth.py`):
registration, login and logout, the `login_required` gate, the profile update
with its avatar upload, and the follow graph with its two list queries.

The SQL tables become the fields of one class, `Auth.Store`:

- `users` is the `user` table, a map from id to a `User` record. The record holds
  username, password hash, email, nickname, website, about text, avatar path
  (`pfp`), user type and last login.
- `follow` is the `follow` table, a sequence of `Edge(follower, followed)` rows.
  The schema has no uniqueness constraint on it.
- `session` is the `user_id` entry of the client's session.
- `nextId` stands for the store's id generator.

`Valid()` is the store's invariant: ids are below `nextId`, usernames are unique, and no follow edge is stored twice. Every handler keeps it.

Each handler is a method. Its `ensures` gives the response (a redirect or a
rendered view, with the flashed message) and the whole new state. The pure parts
are functions with their own lemmas:

- the extension allowlist (`Validation`);
- the website normalisation (`Validation`);
- the follow-table updates and the two join queries (`SocialGraph`).

Four things are parameters, not computations:

- the password hash stored at registration (`passwordHash`);
- the password check at login (`check`);
- the login time (`now`);
- the file name an avatar is saved under (`storedName`).

## Model

| member | source | states |
|---|---|---|
| `Validation.LastIndexOf` | flaskr/auth.py:143-144 | the position `rsplit('.', 1)` splits at: -1 iff there is no '.', otherwise a '.' with no '.' after it |
| `Validation.LastDotUnique` | flaskr/auth.py:143-144 | a name has exactly one last dot, and it is the one `LastIndexOf` finds |
| `Validation.AllowedFile` | flaskr/auth.py:140-144 | true iff the name has a '.' and the text after its last '.', lower-cased, is png, jpg, jpeg or gif |
| `Validation.AllowedFileAccepts` | flaskr/auth.py:140-144 | "a.PNG", ".png" and "photo.v2.JpEg" are accepted: the extension's case does not matter, nor does what precedes the last dot |
| `Validation.AllowedFileRejects` | flaskr/auth.py:140-144 | "png" (no dot), "a.png.exe" (a disallowed last extension), "a." (an empty extension) and "" are rejected |
| `Validation.AllowedFileNonEmpty` | flaskr/auth.py:171-175 | an allowed name is never empty, so the empty-file branch can never store an avatar |
| `Validation.NormaliseWebsite` | flaskr/auth.py:156-157 | the result starts with http:// or https://; it equals the input iff the input already did; otherwise it is "http://" followed by the input |
| `Validation.NormaliseWebsiteIdempotent` | flaskr/auth.py:156-157 | normalising twice gives the same string as normalising once |
| `SocialGraph.NoDupCount` | flaskr/auth.py:206-213 | in a table without duplicate rows, every row occurs at most once |
| `SocialGraph.CountsNoDup` | flaskr/auth.py:206-213 | a table in which every row occurs at most once has no duplicate rows |
| `SocialGraph.FollowRows` | flaskr/auth.py:206-213 | afterwards the edge is present; existing rows stay as they were; an edge already present is not added again; no other row changes; a table without duplicates stays without duplicates |
| `SocialGraph.FollowIdempotent` | flaskr/auth.py:206-213 | following twice gives the same table as following once |
| `SocialGraph.RemoveEdge` | flaskr/auth.py:225-232 | afterwards no matching row remains; every other row keeps its count; nothing new appears; no-op when the edge is absent |
| `SocialGraph.RemoveEdgeAppend` | flaskr/auth.py:229-231 | deleting the rows of a concatenated table is the same as deleting from each part |
| `SocialGraph.RemoveEdgeNoDup` | flaskr/auth.py:225-232 | unfollowing keeps a table without duplicate rows without duplicates |
| `SocialGraph.UnfollowIdempotent` | flaskr/auth.py:225-232 | unfollowing twice gives the same table as unfollowing once |
| `SocialGraph.FollowUnfollowRoundTrip` | flaskr/auth.py:206-232 | follow then unfollow, from a table without the edge, restores the original table exactly |
| `SocialGraph.UnfollowFollowRoundTrip` | flaskr/auth.py:206-232 | unfollow then follow, on a duplicate-free table holding the edge, restores the same rows |
| `SocialGraph.ReinsertSingleRow` | flaskr/auth.py:206-232 | deleting and re-inserting a row that occurs once gives back the same rows |
| `SocialGraph.RemoveSingleRow` | flaskr/auth.py:229-231 | deleting a row that occurs once removes exactly that one row and nothing else |
| `SocialGraph.Join` | flaskr/auth.py:241-245 | every result row is an existing user with their record, and the table holds a row that links them to the anchored id |
| `SocialGraph.JoinCount` | flaskr/auth.py:241-259 | an existing user appears in the join exactly as often as the table holds the row linking them to the anchored id |
| `SocialGraph.FollowShowsInFollowing` | flaskr/auth.py:206-245 | from a duplicate-free table (every `Valid` store), after A follows an existing user B, B appears exactly once in following(A) |
| `SocialGraph.FollowShowsInFollowers` | flaskr/auth.py:206-259 | from a duplicate-free table (every `Valid` store), after an existing user A follows B, A appears exactly once in followers(B) |
| `SocialGraph.UnfollowHidesInBoth` | flaskr/auth.py:225-259 | after A unfollows B, B is not in following(A) and A is not in followers(B) |
| `Auth.Store.CurrentUser` | flaskr/auth.py:38-49 | the logged-in user is the session's id when that id names a stored user, and no one otherwise |
| `Auth.Store.LoginRequired` | flaskr/auth.py:25-35 | a request with no logged-in user is refused with a redirect to login; any other request goes through |
| `Auth.Store.Register` | flaskr/auth.py:59-93 | errors in the order empty username, empty password, missing or empty email, taken username, each leaving the store unchanged; on success exactly one user is added under a fresh id, with the hash and email; usernames stay unique |
| `Auth.Store.Login` | flaskr/auth.py:99-137 | an unknown username gives "Incorrect username." and a rejected password gives "Incorrect password.", both with nothing changed; on success the session holds exactly that user's id, only that user's last_login changes, and the redirect goes to the admin page iff user_type is 'admin' |
| `Auth.Store.Logout` | flaskr/auth.py:264-268 | the session is empty afterwards and no user is logged in; only the session changes, and the store stays valid |
| `Auth.Store.Update` | flaskr/auth.py:147-195 | an anonymous request changes nothing; a file part with an empty name changes nothing; otherwise only the current user's nickname, about text and normalised website change, and the avatar changes only when an allowed file is supplied |
| `Auth.Store.RegisterThenLogin` | flaskr/auth.py:80-133 | registering a fresh username and then logging in with a password the check accepts against the stored hash leaves that new user logged in, with last_login set to the login time and a redirect to the blog index |
| `Auth.Store.Follow` | flaskr/auth.py:198-214 | anonymous: redirect to login with the table unchanged; otherwise the table becomes `FollowRows` of the old one for (session user, id); the store stays valid, so no edge is stored twice; nothing else changes |
| `Auth.Store.Unfollow` | flaskr/auth.py:216-233 | anonymous: redirect to login with the table unchanged; otherwise the table becomes `RemoveEdge` of the old one for (session user, id); the store stays valid, so no edge is stored twice; nothing else changes |
| `Auth.Store.Following` | flaskr/auth.py:235-247 | anonymous: redirect to login; otherwise the list of users that `id` follows, as `Join` gives it |
| `Auth.Store.Followers` | flaskr/auth.py:249-261 | anonymous: redirect to login; otherwise the list of users who follow `id`, as `Join` gives it |

## Left out

- Flask plumbing is not modelled: routing, `render_template`, `flash` and `url_for`. Responses are `Response` values: the endpoint or template, plus the flashed message.
- `print` calls in `update` are not modelled; they have no effect on state.
- GET requests are not modelled. On GET, `register`, `login` and `update` only render their form; `follow` and `unfollow` return nothing.
- Password hashing is a black box. `Register` takes the hash value as `passwordHash` because `generate_password_hash` is salted and random. `Login` takes `check_password_hash` as the total function parameter `check`.
- The login time is the parameter `now`. Reading the clock and the America/New_York time zone are not modelled.
- File upload plumbing is not modelled. `uuid4`, `secure_filename`, the upload directory and `file.save` are replaced by the parameter `storedName`, the name the file was saved under.
- Validation.AllowedFile: lower-cases ASCII letters only, while Python's `str.lower` also folds non-ASCII letters. The two can differ only on a name whose extension has a non-ASCII letter that Python lower-cases to a letter of png, jpg, jpeg or gif.
- The SQL engine is replaced by a map and a sequence. The join queries return rows in follow-table order, because SQL gives no order without ORDER BY. A row whose user is missing is dropped, as in an inner join.
- Id generation is modelled by the counter `nextId`. The schema's AUTOINCREMENT behaviour is not part of this model.
- Columns the `INSERT` in `register` leaves out are considered NULL (`None`), including `user_type`. Schema defaults are not part of this model.
- One client's session is modelled. Several clients, and the race between two concurrent follow or unfollow requests, are concurrency and not modelled.
- The admin views (`admin`, `adminusers`, `adminposts`) are not modelled. They render a template or read the whole user table.
- Storage failures are not modelled. They surface as unhandled errors.
- A request missing a required form field gets Werkzeug's 400 error. That is not modelled; `username`, `password`, `nickname`, `aboutme` and `website` are always present, and only the optional `useremail` is an `Option`.
