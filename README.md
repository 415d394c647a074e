# KSpot backend: comment graph, favorites and request guards in Dafny

KSpot is a fan site for K-pop groups and soloists. Its Express backend keeps
groups, soloists, users and comments in MongoDB. This project models the
backend's request handlers that change those documents:

- the comment handlers of the group and soloist controllers: add, reply,
  delete (one-level cascade) and like toggle;
- the group member handlers `addMemberToGroup` and `updateMember`;
- the user handlers `addFavorite`, `removeFavorite` and `deleteAccount`;
- the authentication middleware and the admin check;
- the `.env` loader and the Google credentials check run at start-up;
- the CORS origin callback and the global error handler of the server.

The four collections become one `Schema.State` value and one
`Schema.Database` class with the same fields. Each handler is a method that
`modifies` the database and returns the HTTP status. Its `ensures` ties the
status and the new store to a specification function of the old store, such
as `Comments.AddCommentSpec`. Lemmas state the properties of those
functions. Every handler keeps the store invariant `Schema.Consistent`:

- ids are drawn from one counter;
- each comment's `likes` holds every user at most once;
- a reply is listed by a parent that is older than it.

The group and soloist controllers hold the same comment code, so each
comment handler is written once over an `ArtistRef`. The soloist
`replyToComment` differs from the group one and has its own member.

Files: `common.dfy` (Option, Result, ids), `seqs.dfy` (array `indexOf`,
`splice`, `push` and Mongoose `pull` on sequences), `jsstring.dfy`
(JavaScript `trim` and `split`), `schema.dfy`, `comments.dfy`,
`members.dfy`, `users.dfy`, `auth.dfy`, `envconfig.dfy` and `server.dfy`.

Where the code and the design description of the system disagree, the model
follows the code:

- addComment with a `parentCommentId` that names no comment: the design
  calls this NotFound. The code skips the parent link and stores the
  comment anyway (`Comments.AddCommentParentLink`).
- The design says each comment belongs to exactly one artist. deleteComment
  never checks that the comment belongs to the artist in the path
  (`Comments.DeleteIgnoresOwnership`).
- The design treats `likes` as a set. The code keeps a list, toggled with
  `indexOf`/`splice`/`push`. That list stays duplicate-free only because
  every handler keeps the invariant (`Comments.ToggleFlips`,
  `Comments.ToggleTwiceWithDuplicate`).
- The design says the stack trace is suppressed outside development. The
  code suppresses it only when `NODE_ENV` is exactly `production`
  (`Server.ErrorResponse`).

## Model

| member | source | states |
|---|---|---|
| Schema.KindName | backend/models/UserModel.js:22-25 | the type stored in a favorite is 'Group' or 'Soloist' |
| Comments.AddCommentSpec | backend/controllers/group.js:215-257 | 404 iff the artist is missing; 400 iff the artist exists and the text is missing or empty; 201 iff both checks pass; every failure leaves the store as it was |
| Comments.AddCommentCreates | backend/controllers/group.js:226-248 | a successful add stores a comment by the caller with the given parent and no likes; its id is new and is appended exactly once at the end of the artist's `comments`; other artists and the users are unchanged |
| Comments.AddCommentParentLink | backend/controllers/group.js:234-240 | an existing parent gets the new id at the end of its `replies`; a parent id that names no comment is skipped silently and the comment is still stored with that `parentComment` |
| Comments.AddCommentKeepsConsistent | backend/controllers/group.js:226-248 | addComment preserves the store invariants (fresh ids, duplicate-free likes, replies linked from their parent) |
| Comments.AddComment | backend/controllers/soloistController.js:112-154 | the handler, for groups and soloists alike: status and new store are exactly AddCommentSpec of the old store, and the invariants hold after it |
| Comments.ReplyToCommentSpec | backend/controllers/group.js:322-360 | 404 iff the artist or the parent comment is missing; 400 iff both exist and the text is invalid; failures write nothing |
| Comments.ReplyIsAddWithParent | backend/controllers/group.js:333-351 | with an existing parent, a reply is exactly addComment with that parent; with a missing parent the reply answers 404 where addComment would answer 201 |
| Comments.ReplyLinksBoth | backend/controllers/group.js:346-351 | the reply's id ends up at the end of both the parent's `replies` and the artist's `comments`, its `parentComment` is the parent, and the store stays consistent |
| Comments.ReplyToComment | backend/controllers/group.js:322-360 | the handler: status and new store are exactly ReplyToCommentSpec of the old store |
| Comments.SoloistReplyAlwaysFails | backend/controllers/soloistController.js:225 | as written, the soloist reply answers 400 and leaves the store unchanged, even for an existing soloist, an existing parent and valid text, where the intended reply answers 201 and writes |
| Comments.SoloistReplyToComment | backend/controllers/soloistController.js:219-257 | the handler as written: the lookup through the unimported `Group` throws and the catch answers 400 with nothing written |
| Comments.DeleteCommentSpec | backend/controllers/group.js:259-296 | guards in order: 404 missing artist, 404 missing comment, 403 unless author or admin; each failure leaves the store unchanged; 200 iff all three pass |
| Comments.DeleteCommentEffects | backend/controllers/group.js:278-290 | a successful delete removes exactly the comment and its direct replies; the id is pulled from this artist's `comments` and from the parent's `replies`; every other comment, artist and user is unchanged |
| Comments.DeleteLeavesGrandchildren | backend/controllers/group.js:289-290 | the cascade stops after one level: a reply to a deleted reply survives and points at a missing comment, and the deleted reply's id stays in the artist's `comments` |
| Comments.DeleteIgnoresOwnership | backend/controllers/soloistController.js:161-187 | a comment not listed by the artist in the path is still deleted, with 200, and that artist's list stays as it was |
| Comments.DeleteCommentKeepsConsistent | backend/controllers/group.js:278-290 | deleteComment preserves the store invariants |
| Comments.DeleteComment | backend/controllers/soloistController.js:156-193 | the handler, for groups and soloists: status and new store are exactly DeleteCommentSpec of the old store |
| Comments.Toggle | backend/controllers/group.js:308-313 | an absent caller is appended at the end; a present caller loses one occurrence; every other user's count is unchanged |
| Comments.ToggleFlips | backend/controllers/group.js:308-313 | on a duplicate-free list the toggle keeps it duplicate-free and flips the caller's membership |
| Comments.ToggleTwiceMembership | backend/controllers/group.js:308-313 | two toggles by the same user restore who is in `likes` |
| Comments.ToggleTwiceFromAbsent | backend/controllers/group.js:308-313 | starting without the caller's like, two toggles restore the exact list |
| Comments.ToggleTwiceFromPresent | backend/controllers/group.js:308-313 | starting with the caller's like, two toggles move it to the end, so the order is not restored |
| Comments.ToggleTwiceWithDuplicate | backend/controllers/group.js:308-313 | without the duplicate-free invariant two toggles do not restore membership: from [u, u] both likes go |
| Comments.LikeCommentSpec | backend/controllers/group.js:298-320 | 404 iff the comment is missing, with no change; otherwise 200 and the comment's `likes` becomes the toggle of the old `likes` by the caller; no other comment, artist or user changes, and the artist id is never read |
| Comments.LikeOnce | backend/controllers/group.js:303-315 | on a consistent store one like flips whether the caller likes the comment, leaves every other user's like as it was, and keeps `likes` duplicate-free |
| Comments.LikeCommentKeepsConsistent | backend/controllers/group.js:303-315 | likeComment preserves the store invariants |
| Comments.LikeTwice | backend/controllers/group.js:298-316 | liking twice restores membership of `likes`, and restores the whole store when the caller had not liked the comment |
| Comments.LikeComment | backend/controllers/soloistController.js:195-217 | the handler, for groups and soloists: status and new store are exactly LikeCommentSpec of the old store |
| Members.FirstMissing | backend/controllers/group.js:100-105 | None iff every required field has a truthy value; otherwise names a required field whose value is falsy |
| Members.FirstMissingIsFirst | backend/controllers/group.js:101-104 | the field named is the first falsy one in the order name, stageName, birthday, position |
| Members.NumberField | backend/controllers/group.js:112-113 | the Number cast fails exactly for 'N/A'; a missing value is stored as null |
| Members.SplitPosition | backend/controllers/group.js:118 | one trimmed piece per piece of the split on ',' |
| Members.CopyTexts | backend/controllers/group.js:107-117 | the String cast fails iff a copied path holds an array; otherwise exactly the paths the body gives, each with the body's string |
| Members.AddMemberSpec | backend/controllers/group.js:89-137 | 404 iff the group is missing; 400 with "Il campo <f> è obbligatorio" for the first missing field; 201 iff the group exists, nothing is missing and the casts succeed; every failure writes nothing |
| Members.AddMemberAppends | backend/controllers/group.js:107-127 | a successful add appends exactly one member at the end, with the body's strings and the uploaded photo; on a consistent store its id differs from every existing member id of every artist, so a lookup by that id finds the new member; existing members and every other document are unchanged |
| Members.AddMemberFreshId | backend/controllers/group.js:125-127 | on a consistent store no member of any artist has the new member's id, and `members.id` of that id finds the appended member |
| Members.AddMemberPosition | backend/controllers/group.js:118 | a string position becomes one more piece than it has commas, no piece holds a comma or starts or ends with white space; an array is stored as given |
| Members.SplitPositionShape | backend/controllers/group.js:118 | `split(',')` then `trim`: one more piece than the text has commas, no piece holds a comma, none starts or ends with white space |
| Members.AddMemberKeepsConsistent | backend/controllers/group.js:125-127 | adding a member preserves the store invariants |
| Members.CheckRequiredFields | backend/controllers/group.js:100-105 | the loop over the required fields returns the first falsy one, in order, or none |
| Members.AddMemberToGroup | backend/controllers/group.js:89-137 | the handler: status, message and new store are exactly AddMemberSpec of the old store, and the store invariants hold afterwards |
| Members.PushNewMember | backend/controllers/group.js:125-127 | `push` then `save`: a failed cast answers 400 and writes nothing; otherwise the member is appended to that group and the id counter moves on |
| Members.FindMember | backend/controllers/group.js:172-175 | -1 iff no member has the id; otherwise the first member with it |
| Members.UpdateField | backend/controllers/group.js:177-184 | one assignment succeeds iff the save will accept it: 'N/A' fails a Number path, an array fails a String path, an empty name fails `required`; the member id is kept |
| Members.ApplyFieldsSucceeds | backend/controllers/group.js:177-190 | the whole update is accepted iff every body entry is, whatever the member held before |
| Members.ApplyFieldsIsOverwrite | backend/controllers/group.js:177-184 | the `forEach`, entry by entry, equals an independent overwrite: every path the body names takes the body's value, every other path keeps its own |
| Members.UpdateFieldsTwice | backend/controllers/group.js:177-184 | sending the same accepted update twice leaves the member as sending it once |
| Members.UpdateIgnoresUnknownKeys | backend/controllers/group.js:177-184 | keys that are not member paths change nothing |
| Members.WithPhoto | backend/controllers/group.js:186-188 | an upload sets `photo` to the file path; without one the member is unchanged; no other path changes |
| Members.StoredTwice | backend/controllers/group.js:177-190 | the member as stored after an update is a fixed point of the same update and upload |
| Members.UpdateMemberSpec | backend/controllers/group.js:163-196 | 404 iff the group or the member is missing; 400 iff some entry is rejected; every failure writes nothing |
| Members.UpdateMemberEffects | backend/controllers/group.js:172-190 | a successful update rewrites only the member with that id, to the overwrite with the upload applied; no other member or document changes |
| Members.UpdateMemberTwice | backend/controllers/group.js:163-196 | repeating a successful update answers 200 and changes nothing more |
| Members.UpdateRejectsEmptyName | backend/controllers/group.js:177-194 | a body with an empty name is rejected with 400 and nothing is stored |
| Members.UpdateMemberKeepsConsistent | backend/controllers/group.js:163-196 | updating a member preserves the store invariants |
| Members.UpdateMember | backend/controllers/group.js:163-196 | the handler, whose loop assigns the entries in order: status, message and new store are exactly UpdateMemberSpec of the old store |
| Users.NormalizeKind | backend/controllers/user.js:57 | the stored type is 'Group' iff the request's type is 'Group', and is the request's type when that is 'Group' or 'Soloist' |
| Users.FindFavorite | backend/controllers/user.js:54 | None iff no entry has the id and, as written, the request's type; otherwise a matching entry of the list |
| Users.AddFavoriteList | backend/controllers/user.js:54-59 | unchanged when a matching entry exists; otherwise the normalised entry is appended at the end |
| Users.RemoveFavoriteList | backend/controllers/user.js:79-81 | exactly the non-matching entries are kept, each with its count |
| Users.RemoveFavoriteAppend | backend/controllers/user.js:79-81 | `filter` keeps order: filtering a concatenation is concatenating the filtered parts |
| Users.RemoveAbsent | backend/controllers/user.js:79-81 | removing a pair that is not there leaves the list as it was |
| Users.AddThenRemove | backend/controllers/user.js:54-81 | with a valid type, add then remove leaves no entry for the pair, and equals removing alone |
| Users.RemoveAppendMatch | backend/controllers/user.js:79-81 | a matching entry appended at the end is filtered out with the rest |
| Users.AddFavoriteIdempotent | backend/controllers/user.js:54-59 | with a valid type, adding the same favorite twice is adding it once |
| Users.AddFavoriteDuplicates | backend/controllers/user.js:54-58 | as written, two adds with type 'group' leave two ('Soloist', id) entries |
| Users.AddFavoriteListNormalized | backend/controllers/user.js:54-58 | corrected add: the normalised entry is present afterwards, appended only when absent |
| Users.AddFavoriteNormalizedIdempotent | backend/controllers/user.js:54-58 | the corrected add is idempotent for every type and agrees with the source's for 'Group' and 'Soloist' |
| Users.AddFavoriteSpec | backend/controllers/user.js:40-67 | 404 iff the user is missing, with no change; otherwise 200, only that user's `preferiti` is rewritten, and the old list is a prefix of the new one, at most one longer |
| Users.RemoveFavoriteSpec | backend/controllers/user.js:69-91 | 404 iff the user is missing, with no change; otherwise 200 and the user's list is the filter of the old list: the old non-matching entries, in their order and with their counts |
| Users.FavoritesKeepConsistent | backend/controllers/user.js:40-91 | both favorites handlers preserve the store invariants |
| Users.AddFavorite | backend/controllers/user.js:40-67 | the handler: status, returned list and new store are exactly AddFavoriteSpec of the old store |
| Users.RemoveFavorite | backend/controllers/user.js:69-91 | the handler: status, returned list and new store are exactly RemoveFavoriteSpec of the old store |
| Users.DeleteAccountSpec | backend/controllers/user.js:118-161 | 500 iff the user is missing, and then nothing changes; 200 otherwise; no id is created |
| Users.DeleteAccountEffects | backend/controllers/user.js:125-149 | the user and exactly their comments are gone; no `likes` or `favorites` lists them; other users, remaining comments apart from likes, and the artists apart from favorites are unchanged |
| Users.DeleteAccountKeepsConsistent | backend/controllers/user.js:125-151 | deleteAccount preserves the store invariants |
| Users.DeleteAccount | backend/controllers/user.js:118-161 | the handler, all or nothing: status and new store are exactly DeleteAccountSpec of the old store |
| Auth.BearerToken | backend/middlewares/authMiddleware.js:13-20 | a token is returned only when the header is exactly "Bearer", one space and that token, which holds no space |
| Auth.Authenticate | backend/middlewares/authMiddleware.js:4-38 | every rejection is 401; 'Token mancante' iff the header is missing or empty; `next` iff the header is well formed, the token verifies and the user exists, and then `req.user` is that user |
| Auth.BearerFormat | backend/middlewares/authMiddleware.js:13-20 | "Bearer " + t yields t exactly when t holds no space |
| Auth.TwoSpacesRejected | backend/middlewares/authMiddleware.js:13-18 | a header with two or more spaces is rejected |
| Auth.SchemeIsCaseSensitive | backend/middlewares/authMiddleware.js:16-18 | "bearer <token>" is rejected as badly formatted |
| Auth.CheckAdminPermission | backend/middlewares/authMiddleware.js:40-46 | `next` with the same user iff a user is present and is an admin; 403 with the fixed message otherwise |
| EnvConfig.KeptLines | backend/config/passportConfig.js:18 | exactly the lines that are not blank once trimmed and do not start with '#' as written |
| EnvConfig.KeptLinesAppend | backend/config/passportConfig.js:18 | `filter` keeps the file's order: filtering a concatenation of lines is concatenating the filtered parts |
| EnvConfig.ParseLine | backend/config/passportConfig.js:20-21 | a line throws iff it holds no '=' |
| EnvConfig.AssignFails | backend/config/passportConfig.js:19-23 | the reduce fails iff some line throws |
| EnvConfig.ParseFails | backend/config/passportConfig.js:16-23 | the parse fails iff some kept line holds no '=' |
| EnvConfig.Store | backend/config/passportConfig.js:21 | `acc[key] = value` on a plain object: the key takes the value and no other key changes, except that `__proto__` goes to the prototype setter, which ignores a string, so nothing is stored |
| EnvConfig.AssignSnoc | backend/config/passportConfig.js:19-23 | one more line is one more assignment to the accumulator, a line naming `__proto__` none |
| EnvConfig.AssignLastWins | backend/config/passportConfig.js:19-23 | a key present after the parse takes the value of the last line that stores it; a key stored by no line (`__proto__` among them) keeps its value |
| EnvConfig.FileLastWins | backend/config/passportConfig.js:16-23 | in a file that parses, the key set by a kept line holds that line's value whenever no later kept line sets it: of two lines setting one key, the later wins |
| EnvConfig.IndentedHashIsEntry | backend/config/passportConfig.js:18-21 | a line indented with white space before its '#' (such as "  #x=1") is not a comment: it is kept and read as an entry whose key starts with '#' |
| EnvConfig.ValueTruncated | backend/config/passportConfig.js:20-21 | the value stops at the second '=' |
| EnvConfig.SecondEqualsTruncates | backend/config/passportConfig.js:20-21 | a line `key=a=b` reads exactly as `key=a`: everything from the second '=' on is dropped (so "K=a=b" stores "a" under "K") |
| EnvConfig.ParseLineWhole | backend/config/passportConfig.js:20-21 | corrected parser: throws iff there is no '=' |
| EnvConfig.ParseLineWholeRoundTrip | backend/config/passportConfig.js:20-21 | with the corrected parser, `key=value` reads back as written, whatever '=' the value holds |
| EnvConfig.ParseLineAgrees | backend/config/passportConfig.js:20-21 | the corrected parser agrees with the source's on every line with at most one '=' |
| EnvConfig.LoadedEnv | backend/config/passportConfig.js:9-30 | the environment is untouched when both credentials are set, when the file is unreadable and when it fails to parse; otherwise every parsed entry overwrites it and every other variable is kept |
| EnvConfig.CheckCredentials | backend/config/passportConfig.js:35-37 | success iff both credentials are set and non-empty; otherwise the error 'Google OAuth credentials are missing' |
| EnvConfig.StartupSucceeds | backend/config/passportConfig.js:33-37 | start-up succeeds iff the credentials were set already or the parsed file supplies the missing ones |
| EnvConfig.ProcessEnv.LoadEnvIfNeeded | backend/config/passportConfig.js:9-30 | `process.env` afterwards is LoadedEnv of its old value |
| EnvConfig.Configure | backend/config/passportConfig.js:33-37 | load, then check: the result is CheckCredentials of the loaded environment |
| Server.CorsOriginWith | backend/server.js:43-61 | in development every origin passes; otherwise an origin passes iff it is absent, empty or equal to a whitelist entry; a refusal carries 'PERMESSO NEGATO - CORS' |
| Server.CorsExact | backend/server.js:46-60 | outside development a non-empty origin passes iff it equals one of the three entries character for character |
| Server.VercelFrontendRefused | backend/server.js:48 | no serialized origin matches the Vercel entry: outside development every origin other than the two remaining entries is refused, including the production frontend |
| Server.FixedWhitelistAdmitsFrontend | backend/server.js:46-50 | corrected whitelist: every entry is a serialized origin, the Vercel frontend passes, and every other origin is decided as before |
| Server.ErrorResponse | backend/server.js:90-97 | always 500 with 'Internal Server Error' and the error's message; the stack is replaced by the placeholder exactly when NODE_ENV is 'production' |

## Left out

- I/O, logging, timestamps (`date`, `timestamps: true`) and the ObjectId generator's real values. New ids come from one counter in the store.
- Concurrency and partial failure: each handler is one atomic step. This hides the racy like toggle and the non-transactional writes of add, reply and delete. Only deleteAccount runs in a transaction in the source.
- `populate` of the response bodies: the responses are reduced to status codes and messages.
- Invalid ObjectIds in paths or bodies. A cast error throws and the handler answers 400, 401 or 500. Ids in the model are always well formed.
- Comments.DeleteCommentSpec: assumes every comment has an author. A comment without one makes `author.toString()` throw, which answers 400.
- Members.AddMemberSpec: does not model the Date cast of `birthday`. A string that is not a date fails the save with 400 in the source; the model stores it as text.
- Members.UpdateMemberSpec: the 400 body's message is a placeholder, not Mongoose's exact validation text. The birthday Date cast is not modelled. `_id` and any other key outside the member schema are treated as ignored, as strict mode does for unknown paths.
- Members.UpdateMemberSpec: requires distinct body keys, which every JavaScript object has.
- Members.AddMemberSpec, Members.UpdateMemberSpec: a body value is text or a list of text, as a multipart form sends it. The numbers, booleans and `null` a JSON body can carry are not modelled; the String cast and the `required` check treat them differently.
- Height and weight: `parseFloat(x) || null` is the `parseNumber` parameter, because floating-point parsing is not modelled.
- File upload: the Cloudinary path is the `file` parameter.
- JSON Web Token verification and the user lookup are the `verify` parameter of Auth.Authenticate. A lookup that throws falls under verification failure (401 'Token non valido').
- The `if (!user.preferiti)` and `if (!group.comments)` initialisations: Mongoose array paths default to `[]`, so these branches cannot be taken.
- The `.env` file's path and its read: the file's text is the `envFile` parameter, None when the read fails.
- The Google OAuth strategy, sessions and passport serialisation (backend/config/passportConfig.js:39-80): a third-party protocol.
- Password hashing with bcrypt in the user model: a foreign call.
- The error handlers registered after the global one in backend/server.js, the routes and the frontend. Routes are wiring only: no reply route is mounted, and the admin routes file is never mounted.
- The other controller operations (listing, search, group and soloist CRUD, getFavorites): outside this model.

## Findings

| source | as written | input that shows it | evidently intended | confidence | as-written member | corrected member |
|---|---|---|---|---|---|---|
| backend/controllers/soloistController.js:225 | the soloist reply looks the soloist up through `Group`, which the file never imports (imports at lines 1-2); the ReferenceError is caught and answered with 400 | any reply to an existing comment on an existing soloist, with valid text | look the soloist up with `Soloist.findById` and behave like the group reply | not executed | Comments.SoloistReplyAlwaysFails | Comments.ReplyLinksBoth |
| backend/controllers/user.js:54-58 | deduplication compares the request's raw `artistType` with the stored, normalised type | two `addFavorite` calls with type 'group' for the same id store two ('Soloist', id) entries | deduplicate on the type actually stored | not executed | Users.AddFavoriteDuplicates | Users.AddFavoriteNormalizedIdempotent |
| backend/server.js:48 | the Vercel whitelist entry ends with '/', which no browser origin does (section 6.1 of RFC 6454) | NODE_ENV 'production', Origin 'https://kspot.vercel.app' is refused | the entry 'https://kspot.vercel.app' | not executed | Server.VercelFrontendRefused | Server.FixedWhitelistAdmitsFrontend |
| backend/config/passportConfig.js:20-21 | `line.split('=')` destructured into two names keeps only the text between the first and second '=' | the line `K=a=b` stores 'a' under 'K' | the value is everything after the first '=' | not executed | EnvConfig.SecondEqualsTruncates | EnvConfig.ParseLineWholeRoundTrip |
