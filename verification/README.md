# AI-AGENT collaborative workspace: a Dafny model of its core

This project models the core of a collaborative project workspace. Users
register, create projects, add collaborators and chat in a realtime room per
project. A message that mentions `@savana` is also answered by a generated
reply from the assistant.

The model covers these parts:

- **The realtime room server** (`backend/server.js`):
  - the `io.use` handshake guard;
  - the `connection` handler, which puts a socket in its project's room;
  - the `project-message` router: it relays chat to the other members, detects `@savana`, strips the first marker to form the prompt, and broadcasts the assistant reply to every member;
  - the silent leave on `disconnect`.
- **The HTTP authentication gate** (`backend/middleware/auth.middleware.js`) and the token blacklist that logout fills.
- **The project store**: the schema (`backend/models/project.model.js`) and the services (`backend/services/project.service.js`). This covers ordered argument checks, creation, `$addToSet`/`$each` membership growth, lookups and file-tree replacement.
- **The user store**: the schema (`backend/models/user.model.js`) and the services (`backend/services/user.Service.js`). This covers email normalisation and bounds, the unique index, the hidden password, password checking and the token payload.
- **The project screen's state transitions** (`frontend/src/screens/Project.jsx`):
  - collaborator selection;
  - open files;
  - editor edits and saves;
  - send and receive;
  - message classification;
  - the highlight language.

Library and I/O calls appear as function-typed parameters:

- `ObjectId.isValid` (`isValidId`);
- `findById`;
- `jwt.verify` and `jwt.sign`;
- `bcrypt.hash` and `bcrypt.compare`;
- `generateResult`;
- `JSON.parse`.

Where the model needs a property of one of these, it is stated as a predicate that the lemma requires:

- `Jwt.SignedTokensVerify`: a signed token verifies to its payload;
- `UserModel.HashMatches`: `compare` accepts a password against its own hash.

Stores are classes over maps. Every mutation is a method. The method's contract ties the new state to a pure outcome function of the old state, and the store's invariant is kept:

- stored names and emails are in normal form;
- they are unique;
- member lists have no duplicates;
- rooms are never empty.

The JavaScript string operations the code relies on are defined in module `Text`: truthiness, `length` in UTF-16 code units, `includes`, `indexOf`, `replace` with a string pattern, `split`, `trim`, `toLowerCase` and `endsWith`.

## Where the code and the intended design differ

The model follows the code in each of these places. Each one is stated as a lemma.

- **The socket handshake never consults the token blacklist.** A token that logout has revoked is refused by the HTTP gate but still admitted to a room (`Realtime.LoggedOutTokenIsStillAdmitted`).
- **The handshake does not refuse a project id that resolves to nothing.** `socket.project` is then absent, and the connection handler fails when it reads the project's `_id` (`backend/server.js:59`). In the model the socket joins no room and gets no message handler (`Realtime.AdmissionIgnoresProjectExistence`, `Realtime.RealtimeServer.OnConnection`).
- **`message.includes('@savana')` is evaluated before the relay** (`backend/server.js:70-71`). A message whose text is missing throws before anything is sent. So the relay is not unconditional: such a message reaches nobody (`Realtime.Route`).
- **A falsy token in the HTTP gate gets a 401 without returning.** The blacklist lookup and verification still run (`AuthMiddleware.FalsyTokenIsStillLookedUp`).
- **The project screen stops saving edits once its project has loaded.** The load stores the response's `project`, which is the array `find` returns (`backend/services/project.service.js:99`), as the screen's project. Its `_id` is then undefined, so every later `saveFileTree` returns early (`frontend/src/screens/Project.jsx:169-173`, `:248`). Edits still change the screen's tree but are never persisted (`ProjectScreen.Screen.LoadProject`, `ProjectScreen.Screen.EditAfterLoad`).
- **The project screen drops every received message whose text is not JSON**, or is JSON `null`. A plain chat line relayed from another member is therefore not shown (`ProjectScreen.PlainTextIsNotShown`).

## Model

| member | source | states |
|---|---|---|
| Text.IndexOf | backend/server.js:70 | `indexOf` is -1 exactly when the marker does not occur, and otherwise the leftmost occurrence |
| Text.IncludesIffInfix | backend/server.js:70 | `includes` holds exactly when the text is some prefix, the pattern, then some suffix |
| Text.FirstOccurrenceIsIndexOf | backend/server.js:76 | the leftmost occurrence is unique, so `indexOf` finds exactly it |
| Text.ReplaceFirst | backend/server.js:76 | `replace` with a string pattern leaves a text without the pattern unchanged, and otherwise changes its length by the replacement minus the pattern |
| Text.ReplaceFirstAt | backend/server.js:76 | `replace` cuts out exactly the first occurrence and splices the replacement in |
| Text.ReplaceFirstKeepsLaterOccurrence | backend/server.js:76 | after removing the first marker, a later non-overlapping marker is still present |
| Text.JoinSplit | backend/middleware/auth.middleware.js:6 | joining the pieces of `split(' ')` gives the header back |
| Text.SplitJoin | backend/middleware/auth.middleware.js:6 | splitting a join of separator-free words gives the words back |
| Text.Piece | backend/middleware/auth.middleware.js:6 | `split(' ')[k]` is undefined exactly when there are at most k pieces, and never contains a space |
| Text.BearerPiece | backend/middleware/auth.middleware.js:6 | the second word of `"<scheme> <token>"` is the token |
| Text.Split | backend/middleware/auth.middleware.js:6 | `split(' ')` yields at least one piece and no piece contains the separator |
| Text.Trim | frontend/src/screens/Project.jsx:235 | `trim` returns a slice with only white space outside it and no white space at its ends |
| Text.TrimIdempotent | frontend/src/screens/Project.jsx:235 | trimming twice is trimming once |
| Text.TrimOfUnpadded | frontend/src/screens/Project.jsx:235 | a text with no white space at either end is its own `trim` |
| Text.TrimIgnoresPadding | backend/models/project.model.js:9 | surrounding white space does not change the trimmed value |
| Text.ToLower | backend/models/project.model.js:10 | `toLowerCase` maps each character in place, leaves no upper-case letter, and keeps white space at both ends |
| Text.ToLowerIdempotent | backend/models/project.model.js:10 | lower-casing twice is lower-casing once |
| Text.TrimCommutesWithLower | backend/models/project.model.js:9-10 | trimming and lower-casing commute |
| Text.Normalized | backend/models/project.model.js:9-10 | the stored form of a `trim`/`lowercase` path is in normal form and no longer than the input |
| Text.NormalIsFixpoint | backend/models/project.model.js:9-10 | the values in normal form are exactly those storing leaves unchanged |
| Text.NormalizedIdempotent | backend/models/project.model.js:9-10 | storing a stored value again changes nothing |
| Text.NormalizedIgnoresPadding | backend/models/project.model.js:9-11 | names differing by surrounding white space have the same stored form |
| Text.NormalizedIgnoresCase | backend/models/project.model.js:10-11 | names differing by letter case have the same stored form |
| Text.NormalizedOfWhitespace | backend/models/user.model.js:11-13 | a value of white space only is stored as the empty string |
| Text.JsLength | backend/models/user.model.js:15-16 | `length` counts at least one and at most two code units per character |
| Text.JsLengthOfBmp | backend/models/user.model.js:15-16 | a text without characters outside the Basic Multilingual Plane has one code unit per character |
| Text.JsLengthAppend | backend/models/user.model.js:15-16 | the lengths of concatenated texts add up |
| Collections.Dedup | frontend/src/screens/Project.jsx:436 | `[...new Set(s)]` has no duplicates and the same elements as `s`, and is no longer |
| Collections.DedupSnoc | frontend/src/screens/Project.jsx:436 | adding one element at the end appends it exactly when it is new |
| Collections.DedupOfNoDup | frontend/src/screens/Project.jsx:436 | a sequence with no duplicates is left as it is |
| Collections.DedupOfDedupedPrefix | backend/services/project.service.js:75-79 | de-duplicating a prefix first does not change the result |
| Persistence.Code | backend/services/project.service.js:24 | the error code is 11000 exactly for a duplicate-key error |
| Jwt.VerifyToken | backend/server.js:44 | a falsy token makes `jwt.verify` throw before any signature check; a truthy one is handed to the verifier |
| ProjectModel.NewProject | backend/services/project.service.js:17-20 | the created document holds the stored form of the name and an empty file tree |
| ProjectModel.Validate | backend/models/project.model.js:6-19 | the name fails as required exactly when its stored form is empty; users fail exactly when some id is not an ObjectId; no other path fails |
| ProjectModel.Save | backend/models/project.model.js:6-12 | saving succeeds exactly when validation passes and the name is not taken; a valid document with a taken name fails with a duplicate key |
| ProjectService.AddToSet | backend/services/project.service.js:72-85 | old members are kept in order, every added id becomes a member, only new ids are appended, and no duplicate is introduced |
| ProjectService.AddToSetIsDedup | backend/services/project.service.js:75-79 | `$addToSet`/`$each` on a duplicate-free list is `[...new Set([...old, ...ids])]` |
| ProjectService.AddToSetIdempotent | backend/services/project.service.js:75-79 | adding the same ids twice changes nothing the second time |
| ProjectService.CreateOutcome | backend/services/project.service.js:5-32 | name is checked before user; with both present, an empty stored name or an invalid user id fails validation on exactly those paths; otherwise creation succeeds exactly when the stored name is not taken, and fails only with "Project name already Exists"; a created project has exactly `[userId]` as members, the stored name and an empty tree; a duplicate key never escapes |
| ProjectService.StoredNameCollides | backend/services/project.service.js:23-26 | a name whose stored form is taken gets "Project name already Exists" |
| ProjectService.DuplicateNameIsReported | backend/services/project.service.js:23-26 | a duplicate-key error from saving the new project becomes "Project name already Exists" |
| ProjectService.NameCollisionIsReported | backend/models/project.model.js:9-11 | a name that differs from a stored one only by padding or case gets "Project name already Exists" |
| ProjectService.AddUsersOutcome | backend/services/project.service.js:44-86 | the checks in order, each with its own failure: missing project id, invalid project id, missing users, users not an array of valid ids, missing caller id, a caller id that cannot be cast, a caller who is not a member; when all pass the call succeeds, with the members grown by `$addToSet` |
| ProjectService.AddedMembersAreKept | backend/services/project.service.js:66-85 | after a successful add, the caller, every old member and every added id are members, each once |
| ProjectService.UpdateTreeOutcome | backend/services/project.service.js:103-128 | the three checks in order; when they pass the call succeeds, with null exactly when no project has the id, and otherwise the project with only its file tree replaced |
| ProjectService.InsertKeepsValid | backend/models/project.model.js:6-24 | inserting a fresh, well-formed project with an unused name keeps ids, stored forms, duplicate-free members and unique names |
| ProjectService.ReplaceKeepsValid | backend/models/project.model.js:6-24 | replacing a project by one with the same name and duplicate-free members keeps the collection valid |
| ProjectService.ProjectStore.CreateProject | backend/services/project.service.js:5-32 | the collection stays valid and gains the created project, or is unchanged on any error |
| ProjectService.ProjectStore.GetAllProjectsById | backend/services/project.service.js:34-42 | a missing user id is refused; an id that cannot be cast gives a cast error on `users`; a valid id gives exactly the stored projects listing the user |
| ProjectService.ProjectStore.AddUserToProject | backend/services/project.service.js:44-86 | the collection stays valid; only the named project changes, to the outcome; any failure changes nothing |
| ProjectService.ProjectStore.GetProjectById | backend/services/project.service.js:88-101 | missing and invalid ids are refused (with the code's "Inavlid projectId"); a valid id succeeds, with at most one project, present exactly when stored |
| ProjectService.ProjectStore.UpdateFileTree | backend/services/project.service.js:103-128 | the collection stays valid and only the named project's tree changes |
| UserModel.EmailFailure | backend/models/user.model.js:9-17 | the first failing email validator: required for empty, then min length 6, then max length 50, lengths counted in UTF-16 code units; none exactly for lengths 6 to 50 |
| UserModel.LengthCountsCodeUnits | backend/models/user.model.js:15-16 | a five-character address with one character outside the Basic Multilingual Plane meets the minimum of 6; five ASCII characters do not |
| UserModel.StoredEmailPassesIffValid | backend/models/user.model.js:13-16 | a stored email passes validation exactly when it is a valid email |
| UserModel.BlankEmailFailsAsRequired | backend/models/user.model.js:11-13 | an email of white space only is stored empty and fails as required |
| UserModel.Selected | backend/models/user.model.js:19-22 | a default query returns the id and email but not the password |
| UserModel.IsValidPassword | backend/models/user.model.js:35-38 | `bcrypt.compare` fails exactly when the candidate or the hash is missing, and otherwise answers `compare(candidate, hash)` |
| UserModel.SelectedCannotCheckPassword | backend/models/user.model.js:19-38 | a document from a default query cannot check any password |
| UserModel.GeneratedTokenVerifies | backend/models/user.model.js:40-43 | a `generateJWT` token is non-empty and verifies to the email claim alone |
| UserService.CreateOutcome | backend/services/user.Service.js:3-16 | a missing email or password is refused; a created user holds the stored email and `hash(password)`; invalid emails give the validator failure; a valid email fails exactly when taken, with a duplicate key |
| UserService.CreatedUserAcceptsPassword | backend/services/user.Service.js:9-14 | a created user accepts the password it was created with |
| UserService.StoredEmailCollides | backend/models/user.model.js:12 | an email whose stored form is taken gets a duplicate-key error |
| UserService.EmailCollisionIsReported | backend/models/user.model.js:12-14 | an email that differs from a stored one only by padding or case gets a duplicate-key error |
| UserService.InsertKeepsValid | backend/models/user.model.js:9-17 | inserting a fresh user with a valid, unused email and a hash keeps the collection valid |
| UserService.UserStore.CreateUser | backend/services/user.Service.js:3-16 | the collection stays valid and gains the created user, or is unchanged on any error |
| UserService.UserStore.GetAllUsers | backend/services/user.Service.js:19-25 | every stored user is listed, without password, exactly when its id is not the caller's |
| AuthMiddleware.RequestToken | backend/middleware/auth.middleware.js:6 | a truthy cookie wins; without one, a missing header throws, and a present header gives its second space-separated word (`split(' ')[1]`), which has no space |
| AuthMiddleware.Gate | backend/middleware/auth.middleware.js:4-26 | a throw during extraction gives exactly one 401; every run ends with a 401 or with `next`; a falsy token is answered with 401 first and never reaches `next` |
| AuthMiddleware.FalsyAnswer | backend/middleware/auth.middleware.js:7-9 | a 401 exactly for a falsy token |
| AuthMiddleware.Checked | backend/middleware/auth.middleware.js:11-25 | the lookup comes first and once; the run ends with a 401 or `next`; the cookie is cleared exactly for a blacklisted token; `next` is called exactly for an unblacklisted token that verifies |
| AuthMiddleware.CheckedRun | backend/middleware/auth.middleware.js:11-25 | after extraction, a blacklisted or failing token gets exactly one 401 and no `req.user`; otherwise no status is sent and `req.user` is the decoded payload |
| AuthMiddleware.NextIffVerified | backend/middleware/auth.middleware.js:18-20 | `next` is called exactly for a truthy, unblacklisted token that verifies, and the run is then lookup, `req.user`, `next` |
| AuthMiddleware.AnswersOrContinues | backend/middleware/auth.middleware.js:4-26 | every run either calls `next` or answers 401, never both |
| AuthMiddleware.BlacklistedTokenIsRefused | backend/middleware/auth.middleware.js:13-16 | the cookie is cleared exactly for a blacklisted token, and the run then ends with that and a 401 without `next` |
| AuthMiddleware.LookupPrecedesDecoding | backend/middleware/auth.middleware.js:11-19 | the blacklist is consulted immediately before the token is decoded |
| AuthMiddleware.FalsyTokenIsStillLookedUp | backend/middleware/auth.middleware.js:7-11 | a falsy token gets a 401 and is then still looked up, and `next` is not called |
| AuthMiddleware.Logout | backend/controllers/user.Controllers.js:89-102 | logout fails exactly when extraction throws; otherwise it adds the request's token to the blacklist and nothing else |
| AuthMiddleware.LoggedOutTokenIsRefused | backend/middleware/auth.middleware.js:11-16 | after logout, a request with the same token is refused with a cleared cookie |
| AuthMiddleware.LogoutBehindGate | backend/routes/user.routes.js:28 | a request that reaches logout through the gate carries a truthy token not yet blacklisted, and logout adds exactly that token |
| AuthMiddleware.IssuedTokenPasses | backend/middleware/auth.middleware.js:6-20 | a `generateJWT` token passes the gate as a cookie or as `"<scheme> <token>"`, with `req.user` the email claim |
| AuthMiddleware.GateRun | backend/middleware/auth.middleware.js:4-26 | the whole gate's statuses, `req.user`, cookie clearing and `next` call are the falsy-token 401 followed by those of the part after extraction; a throw during extraction gives one 401 and nothing else |
| AuthMiddleware.Exchange.Authenticate | backend/middleware/auth.middleware.js:4-26 | a throw during extraction adds one 401 and changes nothing else; otherwise a falsy token adds a 401, and then the statuses, cookie, `req.user`, `next` flag and lookups change as the part after extraction says |
| AuthMiddleware.Exchange.Check | backend/middleware/auth.middleware.js:11-20 | the same for the part after token extraction |
| Realtime.HandshakeToken | backend/server.js:31 | `auth.token` when truthy, else the second header word, else undefined (no throw) |
| Realtime.Admit | backend/server.js:29-56 | invalid project id first; then a falsy token, a verifier throw and a falsy decode each refuse with their messages; admission exactly for a verified truthy payload, carrying the looked-up project (possibly none) |
| Realtime.AdmissionIgnoresProjectExistence | backend/server.js:38-51 | admission and refusal messages are the same whether or not the project exists |
| Realtime.LoggedOutTokenIsStillAdmitted | backend/server.js:29-56 | a logged-out token is refused by the HTTP gate but admitted by the handshake |
| Realtime.Join | backend/server.js:64 | the socket is added to exactly that room; other rooms are unchanged; no room becomes empty |
| Realtime.Leave | backend/server.js:97 | the socket is removed from exactly that room; other rooms are unchanged; no empty room is kept |
| Realtime.JoinIdempotent | backend/server.js:64 | joining twice is joining once |
| Realtime.LeaveNonMember | backend/server.js:97 | leaving a room one is not in changes nothing |
| Realtime.LeaveUndoesJoin | backend/server.js:95-98 | leaving a room one had just joined restores the registry exactly |
| Realtime.Prompt | backend/server.js:76 | without the marker the prompt is the text; with it, the prompt is one marker shorter |
| Realtime.PromptCutsFirstMarker | backend/server.js:76 | the prompt is the text around the first marker, and a later marker survives |
| Realtime.Route | backend/server.js:66-94 | a missing text sends nothing; otherwise the relay goes first, unchanged, to all members but the sender; a second emit, to all members with the assistant sender, happens exactly when the marker occurs and generation succeeds |
| Realtime.DeliveredTo | backend/server.js:71-86 | a socket receives nothing exactly when no emit names it |
| Realtime.SenderGetsOnlyTheReply | backend/server.js:71-86 | the sender receives only the assistant reply, if any |
| Realtime.PeerGetsRelayThenReply | backend/server.js:71-86 | every other member receives the message, then the reply, if any |
| Realtime.OutsiderGetsNothing | backend/server.js:71-86 | a socket outside the room receives nothing |
| Realtime.Socket.RunHandshake | backend/server.js:29-56 | the guard admits exactly as `Admit` says; a missing or invalid project id is refused before any lookup, leaving `socket.project` as it was; with a valid id `socket.project` is the lookup's result, even if the token is refused later |
| Realtime.RealtimeServer.OnConnection | backend/server.js:58-64 | with a project, the room id is its id and the socket joins it; without one, nothing changes |
| Realtime.RealtimeServer.Connect | backend/server.js:29-64 | only a socket the guard admits reaches the connection handler: a refused socket joins no room and the rooms are unchanged; an admitted socket joins its project's room exactly when the project exists |
| Realtime.RealtimeServer.OnProjectMessage | backend/server.js:66-94 | the outbox grows by exactly the routed emits for the socket's room, and rooms are unchanged, so no room is empty |
| Realtime.RealtimeServer.OnDisconnect | backend/server.js:95-98 | the socket leaves its room and nothing is emitted |
| ProjectScreen.Toggle | frontend/src/screens/Project.jsx:201-205 | the clicked id flips membership; every other id keeps its membership |
| ProjectScreen.ToggleTwice | frontend/src/screens/Project.jsx:201-205 | clicking twice restores the selection |
| ProjectScreen.OpenFile | frontend/src/screens/Project.jsx:436 | the open files have no duplicates and include the file |
| ProjectScreen.OpenFileAppendsOnce | frontend/src/screens/Project.jsx:436 | the file is appended exactly when it is not open yet, and the order is kept |
| ProjectScreen.WithContents | frontend/src/screens/Project.jsx:519-526 | only the current file's entry is replaced, by `{file: {contents}}` |
| ProjectScreen.LastEditWins | frontend/src/screens/Project.jsx:519-526 | two edits of one file keep only the last contents |
| ProjectScreen.HighlightLanguage | frontend/src/screens/Project.jsx:533-535 | `javascript` exactly for names ending in `.js` or `.jsx`, otherwise `plaintext` |
| ProjectScreen.HighlightByExtension | frontend/src/screens/Project.jsx:533-535 | `.js` and `.jsx` names are JavaScript, `.json` names are not |
| Text.EndsWithIffSuffix | frontend/src/screens/Project.jsx:533 | `endsWith` holds exactly when the text is some prefix followed by the suffix |
| ProjectScreen.Outgoing | frontend/src/screens/Project.jsx:237-240 | the sent message carries the input and the user |
| ProjectScreen.OutgoingClassification | frontend/src/screens/Project.jsx:375 | one's own messages are outgoing; with no user loaded, a sender-less message is too |
| ProjectScreen.AssistantClassification | frontend/src/screens/Project.jsx:318 | assistant replies render as assistant messages, and are outgoing only for a user whose id is `savana` |
| ProjectScreen.IsAi | frontend/src/screens/Project.jsx:318 | a message renders as the assistant's exactly when it has a sender whose id is `savana` |
| ProjectScreen.IsOutgoing | frontend/src/screens/Project.jsx:375 | a message is outgoing exactly when its sender id equals the user's, counting a missing sender and a missing user as equal |
| ProjectScreen.CanSend | frontend/src/screens/Project.jsx:235 | the input is sent exactly when some character of it is not white space |
| ProjectScreen.BlankInputIsNotSent | frontend/src/screens/Project.jsx:235 | input of white space only is never sent |
| ProjectScreen.Receive | frontend/src/screens/Project.jsx:143-166 | a message is accepted exactly when its text is present and parses to non-null JSON; it is kept unchanged with the parsed file tree |
| ProjectScreen.PlainTextIsNotShown | frontend/src/screens/Project.jsx:150 | a text that is not JSON is dropped |
| ProjectScreen.Screen.HandleUserClick | frontend/src/screens/Project.jsx:201-205 | the selection becomes its toggle and every other state variable is unchanged |
| ProjectScreen.Screen.OpenFileClick | frontend/src/screens/Project.jsx:434-437 | the current file is set and the open files grow by it at most once, keeping no duplicates; every other state variable is unchanged |
| ProjectScreen.Screen.EditorBlur | frontend/src/screens/Project.jsx:510-529 | without a current file in the tree nothing changes; otherwise only that entry is replaced, and the new tree is added to the saved trees exactly when a project id was loaded; nothing else changes |
| ProjectScreen.Screen.SaveFileTree | frontend/src/screens/Project.jsx:247-256 | the tree is added to the saved trees exactly when the screen's project id is present (the route's id until the load clears it), and nothing else changes |
| ProjectScreen.Screen.LoadProject | frontend/src/screens/Project.jsx:168-173 | a successful load leaves the screen without a project id and changes nothing else; a failed one changes nothing |
| ProjectScreen.Screen.EditAfterLoad | frontend/src/screens/Project.jsx:168-173 | after the load, a blur still edits the current file's entry but adds nothing to the saved trees |
| ProjectScreen.Screen.Send | frontend/src/screens/Project.jsx:234-245 | blank input changes nothing; otherwise the message is emitted once, appended once, and the input cleared, with every other state variable unchanged |
| ProjectScreen.Screen.OnMessage | frontend/src/screens/Project.jsx:143-166 | an accepted message is appended and its file tree, if any, replaces the screen's tree; a dropped one changes nothing; no other state variable changes |
| ProjectScreen.Screen.AddCollaborators | frontend/src/screens/Project.jsx:207-216 | a request with the selection is recorded only with a project id and a non-empty selection, and nothing else changes |

## Left out

- Transport and asynchrony are not modelled: socket.io connections, CORS, `server.listen`, Express routing, controllers, express-validator chains and HTTP bodies. The gate's responses are recorded as effects; the middleware's own `next` is a flag.
- `generateResult` is a function of the prompt that may fail. Its latency and the interleaving of other events while it runs are not modelled. The reply's recipients are the room's members at the moment of the message, not at the moment generation completes.
- socket.io's own room per socket id, and its leave-all on disconnect, are not modelled. Only the project room that the code joins and leaves is.
- Realtime.RealtimeServer.OnConnection: the `TypeError` thrown for a missing project is modelled as "no join and no handlers". The process-level unhandled error is not.
- `jwt.verify`, `jwt.sign`, `bcrypt.hash`, `bcrypt.compare`, `ObjectId.isValid`, `findById` and `JSON.parse` are parameters. Their internals are not modelled: signatures, expiry, salt rounds, the ObjectId format and JSON syntax.
- Token expiry (`expiresIn: '24h'`) and the blacklist's 24-hour TTL are not modelled. The lifetime is carried in the sign request; the blacklist is a plain set that never expires entries.
- AuthMiddleware.Gate: a blacklist lookup of an `undefined` token is taken to find nothing. What the Redis client does with `get(undefined)` is not modelled. The second 401 on a falsy token is an attempted effect; the "headers already sent" failure it causes in Express is not modelled.
- AuthMiddleware.Logout: an `undefined` token is not stored. The Redis client's rejection of `set(undefined, …)` is not awaited by the controller, so the response is still success.
- ObjectId canonicalisation is not modelled. Ids are strings compared as written, so two spellings of one ObjectId count as different ids.
- Mongo queries are modelled by their results on an in-memory map. `populate('users')` in `getProjectById`, the `new: true` option, and the order of `find` results are not modelled. `getAllProjectsById` and `getAllUsers` return sets.
- Mongoose reports only the first failing validator of a path; the model does the same. Mongoose's message texts for validation errors are not modelled, only the failing path and validator.
- Text.ToLower lower-cases ASCII letters only. JavaScript's `toLowerCase` also maps non-ASCII letters.
- Realtime.Route: `newmessage` is a string or missing. Other JSON values are not modelled. A number throws at `includes` before the relay. An array has its own `includes`, so the relay happens, and an array containing `@savana` then throws at `replace`.
- ProjectScreen.Receive: a parsed value is `null` or a value with an optional file tree. A truthy `fileTree` that is not an object is not modelled. Mounting the tree in the WebContainer, rendering, markdown, syntax highlighting and the run/preview flow are not modelled.
- ProjectScreen.Screen.AddCollaborators: the request's follow-ups (closing the modal, reloading the project) are not modelled. `Array.from` of the selection is kept as a set, so its order is not captured.
- Loading the user list when the screen mounts is not modelled. The project id starts as the route's project id and is cleared by `ProjectScreen.Screen.LoadProject`. The reload after adding collaborators, which stores the same kind of array, is not modelled.
