# File-sharing server: access control, share tokens and sessions in Dafny

This project models the decision logic of a small file-sharing server written in
C++ on Poco, together with the checks its browser client makes before it sends a
request. It covers:

- who may download a file;
- how share tokens are created, deduplicated, scoped to a recipient, expired and
  resolved;
- the owner-guarded mutations of the `files` table;
- the session table that authenticates requests;
- how the HTTP layer turns paths and headers into those calls and their results into
  status codes.

Layout, one module per file:

- `cpp_string.dfy` (`CppString`): the C++ library behaviour the decisions rest on.
  - `std::stoi` is `Stoi`. Its two exceptions are `None`.
  - `s.find(p) == 0` is `StartsWith`.
  - The decimal rendering used by `std::stringstream` is `IntToString`.
- `file_manager.dfy` (`FileManager`): the `files` and `file_shares` tables.
  - Pure functions state each query and decision.
  - The class `FileStore` holds the tables and the blob store as fields. Its methods
    are proved against those functions.
  - The corrected access decision (`DecideFixed`, `DownloadFixed`,
    `AccessSharedFixed`) sits beside the original.
- `users.dfy` (`Users`): the `users` and `user_sessions` tables and the class
  `UserStore`. The password hash is an uninterpreted function fixed when the store is
  built.
- `web_server.dfy` (`WebServer`): dispatch, the `Bearer ` parse, path extraction,
  the defaults of `/share`, and the status codes of the handlers.
- `frontend.dfy` (`Frontend`): the username checks, `getFileIcon`, and the share
  request payload, over JavaScript string semantics:
  - `length` counts UTF-16 code units;
  - `trim` strips JavaScript white space.

Modelling choices:

- Every table is a sequence of rows in insertion order, so a query with `LIMIT 1`
  returns the first matching row.
- Time is one integer clock in microseconds.
- Token generation is a `newToken` parameter that must be non-empty and unused.
- A failing `INSERT` is a `storeOk` flag. A failing blob save is `diskOk`.

The code, not the intended design, is modelled:

- Shares without a recipient are never deduplicated.
- A share or a session is live only while its expiry is strictly later than now.
- A negative or zero number of hours is accepted and gives a share that is already
  expired.

## Model

| member | source | states |
|---|---|---|
| CppString.Stoi | src/FileManager.cpp:247 | `std::stoi` yields a value within the 32-bit `int` range, and only when the text holds a digit; otherwise it throws (`None`) |
| CppString.SignedDecimal | src/WebServer.cpp:196 | after the white space, an optional sign and the digit run give a value in the `int` range, and only when a digit is there |
| CppString.DecimalRun | src/WebServer.cpp:196 | the digit run at the start, negated after a minus sign, gives a value in the `int` range, and only when a digit is there |
| CppString.SkipSpaces | src/WebServer.cpp:196 | the leading white space `std::stoi` skips is exactly a prefix of spaces, and what is left does not start with one |
| CppString.DigitRun | src/WebServer.cpp:196 | the digits `std::stoi` reads are the longest run of digits at the start of the text |
| CppString.DecimalString | src/Utils.cpp:46 | the rendering of a natural number is a non-empty string of digits, one digit long exactly below 10 |
| CppString.IntToString | src/Utils.cpp:46 | the rendering of a timestamp is non-empty and contains no `_` |
| CppString.DigitsValueOfDecimal | src/Utils.cpp:46 | reading the digits of a rendering back gives the number rendered |
| CppString.DecimalInjective | src/Utils.cpp:46 | different natural numbers have different decimal renderings |
| CppString.StoiOfDecimal | src/WebServer.cpp:196 | `std::stoi` parses the decimal rendering of every non-negative `int` back to that number |
| CppString.StoiOfRendering | src/FileManager.cpp:247 | after any white space and before any non-digit, `std::stoi` reads back the rendering of every integer: that value when it fits an `int`, and out of range otherwise |
| CppString.StoiOfPaddedDigits | src/FileManager.cpp:247 | white space, digits and a non-digit tail are read as the digits' value, or out of range above `INT_MAX` |
| CppString.StoiOfPaddedNegated | src/FileManager.cpp:247 | white space, a minus sign, digits and a non-digit tail are read as the negated value, or out of range below `INT_MIN` |
| CppString.SignedDecimalOfDigits | src/WebServer.cpp:196 | unsigned digits followed by a non-digit are read as their value when it fits |
| CppString.SignedDecimalOfNegated | src/WebServer.cpp:196 | a minus sign and digits followed by a non-digit are read as the negated value when it fits |
| CppString.DecimalRunOfPrefix | src/WebServer.cpp:196 | a digit run that is exactly `d` is read as the value of `d`, negated or not |
| CppString.StoiWithoutDigits | src/FileManager.cpp:247 | with no digit after the white space and an optional sign, `std::stoi` throws (`None`) |
| CppString.SignedDecimalWithoutDigits | src/WebServer.cpp:196 | an optional sign followed by no digit is read as nothing |
| CppString.SkipSpacesOfPadded | src/WebServer.cpp:196 | skipping white space from any all-space prefix lands exactly at the first non-space |
| CppString.DigitRunOfDigits | src/WebServer.cpp:196 | the digit run of digits followed by a non-digit is exactly those digits |
| CppString.IntToStringInjective | src/Utils.cpp:46 | different timestamps render differently |
| CppString.SplitAtSeparator | src/Utils.cpp:46 | a string joined at `_` from a `_`-free prefix splits back uniquely |
| FileManager.UniqueFilename | src/Utils.cpp:43-48 | the stored name (timestamp, `_`, original name) is never empty |
| FileManager.UniqueFilenameInjective | src/Utils.cpp:43-48 | two uploads share a stored name only when the microsecond and the original name are both equal |
| FileManager.FindFile | src/FileManager.cpp:108-115 | the metadata lookup finds a row with that id exactly when one exists, and it is the first such row |
| FileManager.FindOwnedFile | src/FileManager.cpp:314-320 | deleteFile's lookup finds a row exactly when one matches both the id and the owner |
| FileManager.OwnerOf | src/FileManager.cpp:216-222 | shareFile's ownership query reads the owner of the first row with the id, and 0 when no row has it |
| FileManager.CountActiveShares | src/FileManager.cpp:132-140 | the share count is positive iff some unexpired row shares this file with this user |
| FileManager.FindActiveShare | src/FileManager.cpp:225-233 | the dedup query finds a row iff an unexpired share of this file to this recipient exists |
| FileManager.FindLiveToken | src/FileManager.cpp:284-291 | the token lookup finds a row iff an unexpired row carries the token |
| FileManager.Decide | src/FileManager.cpp:118-142 | the owner is always admitted; otherwise access is granted iff the file is public, the requester is 0, or a positive requester holds an unexpired share of this file |
| FileManager.Download | src/FileManager.cpp:98-163 | content and info are produced only for an existing row, an admitted requester and a readable blob, and they are that blob and that row |
| FileManager.Resolve | src/FileManager.cpp:284-297 | an unknown or expired token fails; a scoped token resolves only for its recipient; a resolved id is non-zero and comes from a live row with that token |
| FileManager.AccessShared | src/FileManager.cpp:272-306 | a shared access succeeds only through a live row with that token whose scope admits the requester, and then it equals downloadFile for that row's file and the same requester id |
| FileManager.AccessSharedByRow | src/FileManager.cpp:284-302 | with distinct tokens, a row's token gives downloadFile for that row's file and the same requester exactly when the row is active, names a file and admits the requester; otherwise nothing |
| FileManager.AccessSharedWithoutLiveRow | src/FileManager.cpp:284-291 | a token that no active row carries opens nothing, for any requester |
| FileManager.ResolveByRow | src/FileManager.cpp:284-297 | with distinct tokens, a row's token fails when the row has expired or names no file, is refused to anyone but a positive recipient, and otherwise resolves to the row's file |
| FileManager.InsertShare | src/FileManager.cpp:242-263 | shareFile throws exactly when `std::stoi` throws on the hours; a successful insert returns the new token and the table gains exactly the new row, expiring that many hours after now; a failed insert returns "" and changes nothing |
| FileManager.Share | src/FileManager.cpp:211-269 | a caller who is not the stored owner (a missing file reads as owner 0) gets "" and no change; for the owner and a positive recipient with an active share, that share's token is returned and nothing is inserted; otherwise the outcome is exactly that of the insert (`InsertShare`) with `std::stoi` of the hours; the table either stays as it was or gains exactly the new row |
| FileManager.RemoveFile | src/FileManager.cpp:323-326 | the delete removes exactly the rows matching both the id and the owner |
| FileManager.RemoveFileOrdered | src/FileManager.cpp:323-326 | deleting rows keeps ids and upload dates in table order |
| FileManager.WithPublicFlag | src/FileManager.cpp:347-350 | the update changes the flag of exactly the rows matching both the id and the owner and nothing else |
| FileManager.FileStore.UploadFile | src/FileManager.cpp:53-96 | a failed save returns -1 and changes nothing; a failed insert returns -1 and leaves the blob behind; otherwise the next id is returned and its row (not public) is appended |
| FileManager.FileStore.DownloadFile | src/FileManager.cpp:98-163 | the step-by-step permission chain computes exactly `Download` |
| FileManager.FileStore.AccessSharedFile | src/FileManager.cpp:272-306 | the token check, the recipient check and the delegation compute exactly `AccessShared` |
| FileManager.FileStore.ShareFile | src/FileManager.cpp:211-269 | the result and the new share table are those of `Share`, and tokens stay distinct |
| FileManager.FileStore.InsertRow | src/FileManager.cpp:242-263 | the result and the new share table are those of `InsertShare`, and tokens stay distinct |
| FileManager.FileStore.DeleteFile | src/FileManager.cpp:309-341 | true iff a row matched both id and owner; that row is removed with its blob, and on a mismatch nothing changes |
| FileManager.FileStore.SetFilePublic | src/FileManager.cpp:343-358 | the flag changes only on the matching row, and the result is true even when no row matched |
| FileManager.FileStore.GetUserFiles | src/FileManager.cpp:166-209 | the list holds exactly the user's files, newest first with no repeats |
| FileManager.AppendDistinctToken | src/FileManager.cpp:243-260 | a row under an unused token keeps tokens distinct |
| FileManager.RemoveNothing | src/FileManager.cpp:323-326 | with no matching row the delete leaves the table as it was |
| FileManager.FlagKeepsFilesValid | src/FileManager.cpp:347-350 | setting the flag keeps every id, upload date and stored name, so the table stays ordered and valid |
| FileManager.FindActiveShareAppend | src/FileManager.cpp:228-231 | after an insert the dedup query still returns an earlier match first, and otherwise the new row when it qualifies |
| FileManager.LiveTokenIsItsRow | src/FileManager.cpp:284-291 | with distinct tokens a token's row is found exactly while it is unexpired |
| FileManager.DownloadGrantedWhenAllowed | src/FileManager.cpp:115-157 | an existing row, an admitted requester and a readable blob always give the content and the row |
| FileManager.ExpiredTokenRefused | src/FileManager.cpp:285-291 | once its row has expired a token opens nothing, for any requester |
| FileManager.ShareIdempotent | src/FileManager.cpp:225-239 | repeating a share for the same positive recipient while the first share is live returns the same token and leaves the table unchanged |
| FileManager.ShareThenResolve | src/FileManager.cpp:211-306 | a returned token names a row for the requested file and scope; while live it resolves to that file (for the named recipient only, if any), after expiry it does not resolve, and accessSharedFile with it equals downloadFile for that file exactly for the admitted requesters |
| FileManager.ShareNamesRow | src/FileManager.cpp:225-263 | a non-empty token from shareFile is carried by a row of the new table, for the requested file and scope, and tokens stay distinct |
| FileManager.UnscopedLinkRefusedWhenSignedIn | src/FileManager.cpp:300 | a live recipient-less token for a private file is refused to a signed-in non-owner without a share of their own, yet served to a caller with no session |
| FileManager.ZeroRequesterReadsEveryFile | src/FileManager.cpp:128-131 | requester id 0 reads every existing file whose blob is present, public or not |
| FileManager.DecideFixed | src/FileManager.cpp:118-142 | corrected chain: never grants by a zero id; access iff owner, public, a resolved token, or an unexpired share to the signed-in user |
| FileManager.DownloadFixed | src/FileManager.cpp:98-163 | the corrected download produces content only for an existing row and an admitted requester |
| FileManager.AccessSharedFixed | src/FileManager.cpp:272-306 | the corrected shared access succeeds only through a live row with the token that admits the requester, as the corrected download of that row's file; and it always succeeds for such a row when the file exists with its blob |
| FileManager.FixedAnonymousDirectReadsPublicOnly | src/FileManager.cpp:128-131 | without a token the corrected chain gives a caller with no session public files only |
| FileManager.FixedAgreesForUserIds | src/FileManager.cpp:118-142 | for every non-zero user id the corrected download decides exactly as the original |
| FileManager.FixedLinkServesEveryone | src/FileManager.cpp:294-300 | under the corrected chain a live recipient-less token serves every caller |
| Users.FindUser | src/User.cpp:50-53 | the lookup by name returns the first row with that name, or none exactly when no row has it |
| Users.StoredHash | src/User.cpp:46-55 | the stored hash is that of the first row with the name; an unknown name reads as "" |
| Users.FindSession | src/User.cpp:108-111 | a session row is found iff one carries the token and expires strictly after now |
| Users.Validate | src/User.cpp:101-118 | success iff the final user id is positive; the id is the first live row's user when the token has one, and the caller's value otherwise |
| Users.Unexpired | src/User.cpp:141-143 | cleanup keeps exactly the rows whose expiry is not before now |
| Users.UserStore.RegisterUser | src/User.cpp:11-40 | a successful registration appends a row holding hash(password), never the password; a failed insert returns false and changes nothing |
| Users.UserStore.AuthenticateUser | src/User.cpp:42-76 | true iff the first row with the name has a non-empty stored hash equal to hash(password) |
| Users.UserStore.CreateSession | src/User.cpp:79-99 | a new session row (token, user, now plus one day) is appended and its token returned; a failed insert returns "" and changes nothing |
| Users.UserStore.ValidateSession | src/User.cpp:101-118 | the result and the written-back user id are those of `Validate` |
| Users.UserStore.CleanupExpiredSessions | src/User.cpp:136-148 | the table becomes exactly the rows not yet expired, and tokens stay distinct |
| Users.UnexpiredKeepsTokens | src/User.cpp:141-143 | deleting rows keeps session tokens distinct |
| Users.CleanupPreservesValidation | src/User.cpp:108-143 | cleanup at time t changes no validation outcome at t |
| Users.BoundaryRowNeitherValidNorDeleted | src/User.cpp:109-142 | a row expiring exactly at t is neither valid at t nor deleted by cleanup at t |
| Users.ValidateFromUnset | src/User.cpp:108-113 | starting from a non-positive id, validation succeeds iff the token's row is live and names a positive user, and yields that user |
| Users.UnknownTokenRejected | src/User.cpp:108-113 | a token nobody holds never validates for a caller starting from a non-positive id |
| Users.CreateThenValidate | src/User.cpp:82-113 | a new session validates, from 0, exactly before one day has passed, as its user |
| Users.RegisterThenAuthenticate | src/User.cpp:14-70 | after registering an unused name, authentication succeeds exactly for passwords hashing to the registered hash, and never when that hash is empty |
| WebServer.Dispatch | src/WebServer.cpp:21-71 | OPTIONS is answered first and only for OPTIONS; download and token routes need GET and their prefix |
| WebServer.FirstRoute | src/WebServer.cpp:40-66 | the first matching rule of a table gives the route; no matching rule gives NotFound |
| WebServer.FirstRouteStep | src/WebServer.cpp:40-66 | one rule of the table is checked before the rest |
| WebServer.RouteRulesMatch | src/WebServer.cpp:40-66 | each rule of the table matches exactly the method and path test of its branch |
| WebServer.DispatchFollowsTable | src/WebServer.cpp:40-66 | the if/else chain equals the route table read top to bottom |
| WebServer.RulesDisjoint | src/WebServer.cpp:40-66 | no request matches two routes, so the order of the chain decides nothing |
| WebServer.SharedWithMeIsNotTokenAccess | src/WebServer.cpp:58-62 | "/shared-with-me" reaches the shared-with-me handler, not token access |
| WebServer.AuthenticateRequest | src/WebServer.cpp:320-327 | without the exact "Bearer " prefix the result is false and the id unchanged; with it, the id is the live session's user for the token after the prefix, or the caller's value when there is none; success needs the prefix and a positive id |
| WebServer.BearerRoundTrip | src/WebServer.cpp:322-324 | "Bearer " + token is parsed back to that token |
| WebServer.NoBearerIgnoresSessions | src/WebServer.cpp:320-327 | without the prefix the session table is never consulted |
| WebServer.RequireAuth | src/WebServer.cpp:216-221 | the guard passes iff the header has the prefix and the final id is positive; that id is the live session's user when the token has one, and otherwise the uninitialised value |
| WebServer.GarbageUserIdPassesGuard | src/WebServer.cpp:217-218 | a positive leftover id passes the guard with any unknown token, as that id |
| WebServer.RequireAuthFixed | src/WebServer.cpp:198-199 | the guard starting from 0 succeeds only for a live session with the header's token, as its user |
| WebServer.FixedGuardNeedsLiveSession | src/WebServer.cpp:198-199 | starting from 0, a token without a live session never passes |
| WebServer.HandleDownload | src/WebServer.cpp:190-214 | an unparsable id is 500; otherwise 200 with the content when downloadFile succeeds for the parsed id and the header's user or 0, and 404 when it fails |
| WebServer.AnonymousDownloadOfAnyFile | src/WebServer.cpp:195-204 | "/download/<id>" with no credentials is dispatched to handleDownload and serves every existing file |
| WebServer.DownloadPathDispatches | src/WebServer.cpp:49-50 | every GET whose path starts with "/download/" reaches handleDownload |
| WebServer.HandleDownloadFixed | src/WebServer.cpp:190-214 | the corrected handler keeps the 500 for an unparsable id; otherwise 200 with the content when the corrected download succeeds for the guard's user (none without a live session), and 404 when it fails |
| WebServer.AnonymousFixedDownloadIsPublicOnly | src/WebServer.cpp:195-213 | under the corrected decision a private file is 404 without credentials |
| WebServer.HandleSharedAccess | src/WebServer.cpp:255-288 | an empty token is 400; 200 iff accessSharedFile succeeds with the path's token, with its content; a refusal is 401 for requester 0 and 404 otherwise |
| WebServer.SharedPathRoundTrip | src/WebServer.cpp:245-273 | the share URL's path reaches token access with the issued token |
| WebServer.HandleShare | src/WebServer.cpp:216-253 | 401 exactly when the guard fails, and a missing file id is 500; both leave the table unchanged; otherwise the table is that of shareFile for the guard's user and the body's defaults, and a throw is 500, "" is 400 and a token is 200 with it |
| WebServer.StoiTwentyFour | src/WebServer.cpp:231 | the default expiry "24" parses to 24 |
| WebServer.DefaultShareIsUnscopedForADay | src/WebServer.cpp:230-239 | a share naming only the file, from the owner's live session, adds an unscoped row expiring 24 hours later and returns its token |
| Frontend.Utf16Length | frontend/script.js:125-133 | `length` is between the number of characters and twice it, and equals it iff all characters are in the BMP |
| Frontend.TrimStart | frontend/script.js:120 | the leading white space removed is all white space, and what is left does not start with any |
| Frontend.TrimEnd | frontend/script.js:120 | the trailing white space removed is all white space, and what is left does not end with any |
| Frontend.Trim | frontend/script.js:120 | the result is a slice of the input with only white space around it and at neither end |
| Frontend.TrimCore | frontend/script.js:120 | what trimming the start and then the end leaves is the slice between the leading and trailing white space |
| Frontend.TrimIdempotent | frontend/script.js:120 | trimming twice equals trimming once |
| Frontend.CheckUsername | frontend/script.js:120-140 | accepted iff the trimmed name has 3 to 50 characters, all from `[a-zA-Z0-9_-]`; too short and too long are decided on UTF-16 length, in that order |
| Frontend.FiftyIsTheLimit | frontend/script.js:130-133 | 50 allowed characters are accepted, 51 are too long |
| Frontend.AstralPairIsBadCharacters | frontend/script.js:125-140 | two characters outside the BMP pass the length checks and fail the character check |
| Frontend.FileIcon | frontend/script.js:331-341 | images always get the image icon; the generic icon means neither a text type nor a PDF mention |
| Frontend.FirstIcon | frontend/script.js:331-341 | the first rule that fires gives the icon, and none firing gives 'fas fa-file' |
| Frontend.FirstIconStep | frontend/script.js:331-341 | one rule is checked before the rest |
| Frontend.FiresByTests | frontend/script.js:337-338 | a rule with two alternatives fires when either holds |
| Frontend.IconRulesFire | frontend/script.js:331-341 | each rule of the table fires exactly on the test of its branch |
| Frontend.FileIconFollowsTable | frontend/script.js:331-341 | getFileIcon equals the rule table read in source order |
| Frontend.PdfBeforeText | frontend/script.js:335-339 | "text/x-pdf" gets the PDF icon, since the PDF test comes first |
| Frontend.ShareRequest | frontend/script.js:410-434 | nothing is sent without a selected file or for a private share with an empty user id; otherwise the payload carries the file and expiry as given, and a recipient iff the share is private |
| Frontend.PrivateShareNamesSomeone | frontend/script.js:417-434 | a private share that is sent always carries the parsed user id the user typed |

## Left out

- Database connection, the CLI in src/main.cpp and the thread pool are not part of this model. So is the race between shareFile's dedup query and its insert, which needs concurrency.
- Password hashing (SHA-256) and token generation are not modelled. They are an uninterpreted `hash` and a `newToken` parameter that is required to be unused.
- SQL text, JSON bodies and response headers are reduced to table operations, decoded request fields and a status with its payload. The path is taken as already URI-decoded.
- Only failing inserts (`storeOk`) and failing blob saves (`diskOk`) are modelled. A failing query in downloadFile, accessSharedFile, validateSession, authenticateUser, getUserFiles, deleteFile or setFilePublic would make it return false or empty; that path is not modelled.
- FileManager.FileStore.DeleteFile: assumes the blob removal succeeds. If `Poco::File::remove` threw after the row was deleted, the source would return false.
- FileManager.FileStore.DeleteFile: share rows of a deleted file are kept, because the schema's cascade rules are not visible.
- FileManager.FileStore.UploadFile: requires that `now` is not before any stored upload date. This keeps `ORDER BY upload_date DESC` equal to newest-id-first. Ties in `upload_date` are listed by id.
- FileManager.FileStore.UploadFile: assumes `is_public` defaults to false and `upload_date` to the upload time.
- Poco's wall clock and the database's `CURRENT_TIMESTAMP` are taken to be one clock. Overflow of `Poco::Timespan` for huge hour counts is not modelled.
- `getUserInfo` is not modelled: no handler calls it.
- handleRegister, handleLogin and isUsernameExists (the 409 for a taken name) are not modelled.
- Of handleUpload, handleList and handleSharedWithMe, only the common guard is modelled (`RequireAuth`). The listing and the shared-with-me join are row marshalling.
- WebServer.HandleShare: a malformed JSON body, or a `shared_with_user_id` of the wrong type, throws and gives 500; only an absent `file_id` is modelled among these.
- Frontend.ShareRequest: `parseInt` is a parameter, and so is the way a NaN recipient is serialised.
- `formatFileSize` is not modelled: it uses floating point.
- DOM, `fetch`, `localStorage` and timers are not modelled.

## Findings

| source | as written | input that shows it | evidently intended | confidence | as-written member | corrected member |
|---|---|---|---|---|---|---|
| src/WebServer.cpp:198-204 | handleDownload passes requester 0 when there are no credentials, and downloadFile admits requester 0 to every file (src/FileManager.cpp:128-131) | `GET /download/7` with no Authorization header, where file 7 is private | requester 0 was meant only for access already checked by accessSharedFile; an anonymous direct download should see public files only | high (not executed) | WebServer.AnonymousDownloadOfAnyFile | WebServer.AnonymousFixedDownloadIsPublicOnly |
| src/FileManager.cpp:300 | accessSharedFile hands the signed-in requester's id to downloadFile, whose share count only knows scoped shares | `GET /shared/<t>` with a valid session of user 5, where `t` is a live recipient-less token of user 2's private file | anyone holding a live recipient-less link gets the file, signed in or not | high (not executed) | FileManager.UnscopedLinkRefusedWhenSignedIn | FileManager.FixedLinkServesEveryone |
| src/WebServer.cpp:217-218 | `int userId;` is uninitialised in handleShare (likewise handleUpload, handleList and handleSharedWithMe), and validateSession leaves it unchanged when no session matches | `POST /share` with `Authorization: Bearer bogus` while the variable happens to hold a positive value | the guard should start from 0, as handleDownload does, so an unknown token is refused | medium (not executed; the value of an uninitialised variable is undefined) | WebServer.GarbageUserIdPassesGuard | WebServer.FixedGuardNeedsLiveSession |
