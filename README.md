# worlds-be-nest, modelled in Dafny

worlds-be-nest is the NestJS backend of a mentoring app for multicultural families. It has:

- accounts, with sign-up, sign-in and JWT sessions;
- a question board with comments, replies, likes and reports;
- one-to-one chat rooms with read receipts and per-side hiding;
- QR pairing, which opens a chat room between two users;
- a crawler that stores family-programme listings from two public sites;
- OCR and AI translation of photographed school problems.

Almost all of it reads and writes a Prisma database. This project models the rules the services enforce on that database, together with the pure gates, validators and string functions around them. It proves what those rules guarantee.

## How the model is built

- **One module per source file.** Each core file becomes one module (`UserService`, `ChatService`, `PairingService`, …).
- **Shared modules.** Six modules hold what several files share:
  - `Db` holds the row types and the `Database` class.
  - `Query` and `Sorting` model Prisma's `findFirst` / `findMany` / `count` / `orderBy` / `skip` / `take` over a table.
  - `JsString` models the JavaScript string operations the code relies on.
  - `Js` models JavaScript values and truthiness.
  - `Http` models the exception kinds.
- **The database.** `Db.Database` holds every table as a sequence of rows in insertion order. Its `Valid()` states the schema's constraints:
  - autoincrement ids;
  - unique e-mail addresses and pairing tokens;
  - one like per (user, comment);
  - one chat room per ordered pair (smaller id, larger id).
- **Service methods.** Each service operation is a method on the `Database`. It modifies only the tables it writes, keeps `Valid()`, and is tied by its postcondition to a pure function of the old tables. Those functions carry the lemmas:
  - `UserService.Block`, `UserService.ReportAuthor` and `UserService.ReportThenStore`;
  - `CommentService.ReportCommentEffect` and `ChatService.ReportMessageEffect`;
  - `ChatService.SetHidden`;
  - `PairingService.CreateOrGetRoom` and `PairingService.CheckClaim`;
  - `QuestionService.DeleteQuestionRows`;
  - `CommentLikeService.Unlike`;
  - `SchedulerService.Merge`.
- **Errors.** A thrown exception is an `Err(kind, status)` of `Http.Result`. A failing call writes nothing, with one exception: the two report paths raise the author's count before they insert the report row, so a failed insert leaves the raised count behind. The kinds follow the exception classes: `BadRequest`, `Unauthorized`, `Forbidden`, `NotFound`, `InternalServerError`, and `Plain` for a bare `Error`.
- **Prisma failures.** An `update` whose `where` matches no row throws in Prisma, and so does an insert that breaks a unique column or a foreign key. The model turns both into `Err(Plain, 500)`. The foreign keys checked are those the code relies on: a comment's author and question, a message's room and sender, a report's reporter and question, a like's user and comment, a question's author.
- **Foreign code becomes parameters.** These are left to the caller:
  - the bcrypt hash and compare, the random pairing token, and the current time;
  - the blob upload;
  - the e-mail and date shape checks;
  - the OCR and chat-model calls;
  - the pages the crawler's browser yields.

## Model

| member | source | states |
|---|---|---|
| UserService.StoredRefreshToken | src/user/user.service.ts:24 | the stored token is `''` (no session) exactly when the given token is null or empty, and otherwise the token itself |
| UserService.UpdateRefreshToken | src/user/user.service.ts:14-30 | fails, writing nothing, exactly when no account with that id is both undeleted and unblocked; otherwise only that row's refresh token changes, every other column and row kept |
| UserService.FindUserForTokenRefresh | src/user/user.service.ts:33-47 | finds nothing exactly when no active (undeleted, unblocked) account has the id; otherwise returns that account's selected columns |
| UserService.FindUserById | src/user/user.service.ts:50-67 | the profile of the active account with the id, and nothing for a deleted or blocked one |
| UserService.FindUserForValidation | src/user/user.service.ts:70-85 | finds nothing exactly when no undeleted account has the e-mail; a blocked account is still returned, with its blocked flag |
| UserService.FindUserForResetPassword | src/user/user.service.ts:88-100 | id and password hash of the active account with the id, nothing for a deleted or blocked one |
| UserService.SignInWithEmail | src/user/user.service.ts:103-137 | BadRequest whose body says 404 exactly when no active account has the e-mail; Unauthorized 401 when the hash comparison rejects the password; otherwise the stored active account with that e-mail |
| UserService.FindUserForPasswordReset | src/user/user.service.ts:140-163 | searches on the lower-cased, trimmed e-mail; NotFound 404 exactly when no undeleted account has it, otherwise that account's id and hash |
| UserService.NormalizeEmail | src/user/user.service.ts:141 | the normalised e-mail has no white space at either end, no upper-case letter, and is no longer than the input |
| UserService.Block | src/user/user.service.ts:171-191 | the account with the id is blocked with its refresh token cleared when its report count is at least 10, and is otherwise unchanged; every other row is unchanged |
| UserService.BlockKeepsKeys | src/user/user.service.ts:171-191 | blocking keeps ids increasing and e-mails unique |
| UserService.BlockIdempotent | src/user/user.service.ts:178-188 | blocking twice leaves the same table as blocking once |
| UserService.BlockUser | src/user/user.service.ts:171-191 | the users table becomes `Block` of the old one |
| UserService.Increment | src/comment/comment.service.ts:149-156 | only the reported account's report count changes, by exactly one |
| UserService.ReportAuthorEffect | src/comment/comment.service.ts:149-161 | after a report every other account is unchanged; the reported account's count goes up by exactly one, and it is blocked with its session cleared exactly when the new count reaches 10 |
| UserService.ReportOutcome | src/chat/chat.service.ts:157-164 | the increment throws exactly when no account has the id; otherwise it returns that account's count plus one |
| UserService.ReportUser | src/chat/chat.service.ts:157-169 | the increment followed by blockUser at 10 or more: the table becomes `ReportAuthor` of the old one, or stays as it was when the update throws |
| UserService.IncrementAt | src/comment/comment.service.ts:149-161 | a report on an existing account is the one-row update of that account, followed by a block at 10, and keeps ids and e-mails unique |
| UserService.ReportAuthorKeepsKeys | src/comment/comment.service.ts:149-161 | reporting keeps ids increasing and e-mails unique |
| UserService.ReportAuthor | src/comment/comment.service.ts:149-161 | only the reported account changes: its count goes up by one, its id stays, and it ends blocked exactly when it was blocked or its new count is at least 10 |
| UserService.ReportAuthorKeepsAccounts | src/comment/comment.service.ts:149-161 | reporting neither adds nor removes an account |
| UserService.ReportThenStore | src/comment/comment.service.ts:149-171 | no author row: a plain error, nothing written; otherwise the author is reported, then the row is inserted exactly when its reporter and question exist; a failed insert is a plain error that keeps the raised count and adds no row |
| UserService.StoreReport | src/chat/chat.service.ts:157-178 | the result and both tables follow `ReportThenStore` on the old tables |
| UserService.BlockedAccountCannotSignIn | src/user/user.service.ts:103-137 | once an account is blocked, sign-in with its e-mail fails as if no account existed (BadRequest, body 404) |
| AuthService.SaltRounds | src/auth/auth.service.ts:20 | an unset or empty SALT_ROUNDS gives 10 rounds; any other setting gives what `parseInt` reads from it |
| AuthService.FindByEmail | src/auth/auth.service.ts:45-47 | finds nothing exactly when no stored account has exactly that e-mail |
| AuthService.SignUp | src/auth/auth.service.ts:15-41 | fails, writing nothing, exactly when the lower-cased, trimmed e-mail is taken; otherwise appends one account with that e-mail, the hash (never the password), refresh token `''` and report count `reportedCount` or 0, and returns 201 |
| AuthService.AppendAccountKeepsKeys | src/auth/auth.service.ts:23-34 | the new account keeps ids increasing and e-mails unique |
| AuthService.CheckEmailUnique | src/auth/auth.service.ts:44-57 | Unauthorized 401 exactly when an account has exactly that e-mail (not normalised), otherwise status 200 |
| AuthService.NormalizeEmailIdempotent | src/auth/auth.service.ts:17 | normalising an already normalised e-mail changes nothing |
| AuthService.SignUpThenLookups | src/auth/auth.service.ts:15-41 | after sign-up the normalised e-mail is taken, and the password-reset lookup with the e-mail as typed finds the new account |
| AuthService.SaltRoundsParsed | src/auth/auth.service.ts:20 | a SALT_ROUNDS of white space, digits and anything not a digit gives the digits' decimal value; with no digits the rounds are NaN (nothing) |
| CommentService.CommentAuthor | src/comment/comment.service.ts:140-147 | finds nothing exactly when no comment has the id; otherwise returns that comment's author |
| CommentService.CreateComment | src/comment/comment.service.ts:17-43 | a plain error, writing nothing, exactly when the author or the question does not exist; otherwise appends exactly one top-level comment with the next id, the author, question and content |
| CommentService.CreateReplyComment | src/comment/comment.service.ts:46-80 | a plain error (500), writing nothing, exactly when the parent is missing or the author has no account; otherwise one new comment that records its parent and inherits the parent's question |
| CommentService.GetCommentsByQuestion | src/comment/comment.service.ts:83-97 | exactly that question's comments, each once, in ascending id order |
| CommentService.GetMyComments | src/comment/comment.service.ts:100-115 | exactly the user's comments, each once, newest first |
| CommentService.ReportComment | src/comment/comment.service.ts:118-172 | the result and the users and reports tables are those `ReportCommentEffect` gives for the old tables |
| CommentService.ReportCommentEffect | src/comment/comment.service.ts:118-172 | checks in order: a repeat report is BadRequest, `etc` without text is BadRequest, a missing comment is NotFound, each writing nothing; otherwise the comment's author is reported and the row stored as `ReportThenStore` says |
| CommentService.FailedReportRepeats | src/comment/comment.service.ts:149-171 | when the row's insert fails, the call is a plain error that still raises the author's count, and the same call again raises it once more |
| CommentService.SecondReportRefused | src/comment/comment.service.ts:123-132 | after `ReportCommentEffect` stores a report, the same reporter's next report of that comment on the new tables is BadRequest (400) and changes neither table |
| CommentService.DeleteComment | src/comment/comment.service.ts:175-186 | a plain error, writing nothing, exactly when the comment is missing or not the caller's; otherwise only its deleted flag becomes true and the row stays |
| CommentLikeService.IsLiked | src/comment/comment-like.service.ts:30-35 | true exactly when a row for the (user, comment) pair exists |
| CommentLikeService.LikeComment | src/comment/comment-like.service.ts:9-19 | returns the failure message object, writing nothing, exactly when the pair is already stored or the user or comment is missing; otherwise appends the pair |
| CommentLikeService.Unlike | src/comment/comment-like.service.ts:38-42 | no row for the pair is left, and every other row is kept |
| CommentLikeService.CommentUnlike | src/comment/comment-like.service.ts:38-42 | the like table becomes `Unlike` of the old one; the count is the number of rows deleted |
| CommentLikeService.UnlikeKeepsUnique | src/comment/comment-like.service.ts:38-42 | unliking keeps one row per pair |
| CommentLikeService.UnlikeAbsentNoChange | src/comment/comment-like.service.ts:39-41 | unliking a pair that was never liked changes nothing |
| CommentLikeService.LikeCount | src/comment/comment-like.service.ts:23-27 | a new like adds one to that comment's count and leaves every other comment's count alone |
| CommentLikeService.CommentLikeCount | src/comment/comment-like.service.ts:23-27 | at most the number of likes, and zero exactly when no like is for the comment |
| CommentLikeService.UnlikeCount | src/comment/comment-like.service.ts:23-42 | unliking a liked pair takes exactly one from that comment's count; otherwise the count stays |
| ChatService.SideOf | src/chat/chat.service.ts:262-278 | the caller is side A when it is userA, side B when it is userB but not userA, and no side otherwise |
| ChatService.WithHidden | src/chat/chat.service.ts:264-276 | sets one side's hidden flag and keeps the other side's flag, the participants and both read pointers |
| ChatService.ReplaceRoomKeepsKeys | src/chat/chat.service.ts:264-276 | rewriting a room's flags keeps ids increasing and one room per pair |
| ChatService.UploadAttachment | src/chat/chat.service.ts:18-34 | no file is a plain error; otherwise the uploaded URL with the file's type, name and size |
| ChatService.OrNull | src/chat/chat.service.ts:40-41 | an empty or missing value becomes null, any other value is kept |
| ChatService.SaveMessage | src/chat/chat.service.ts:39-61 | a plain error, writing nothing, exactly when the room or the sender does not exist; otherwise appends exactly one unread message with the next id; a file's upload URL and type override the request's, otherwise empty values are stored as null |
| ChatService.GetUserChatRooms | src/chat/chat.service.ts:64-76 | exactly the rooms the user takes part in, newest first |
| ChatService.VisibleRooms | src/chat/chat.service.ts:81-94 | exactly the rooms the user takes part in and has not hidden, newest first |
| ChatService.GroupBy | src/chat/chat.service.ts:101-109 | one group per listed room with unread messages from others, carrying that number |
| ChatService.UnreadCount | src/chat/chat.service.ts:101-109 | at most the number of messages, and zero exactly when no unread message in the room comes from someone else |
| ChatService.ToMap | src/chat/chat.service.ts:111-112 | the map has a key for every group and each value comes from a group |
| ChatService.GroupedLookup | src/chat/chat.service.ts:115-118 | looking a room up in the map, with 0 when absent, gives its unread count |
| ChatService.GroupedLookupAll | src/chat/chat.service.ts:98-118 | the lookup gives the unread count for every listed room |
| ChatService.RoomIds | src/chat/chat.service.ts:98 | the ids of the listed rooms, in order |
| ChatService.AttachCounts | src/chat/chat.service.ts:115-118 | one entry per room, in order, with that room's looked-up count |
| ChatService.GetUserChatRoomsWithUnread | src/chat/chat.service.ts:79-119 | one entry per room of `VisibleRooms`, in its order (so each visible room once, newest first), each with the number of unread messages in it not sent by the caller (0 when there are none) |
| ChatService.GetMessagesDetail | src/chat/chat.service.ts:122-129 | the page is the run of the room's history (`RoomHistory`) that starts `skip` (0) messages in; its length is `take` (20), or what is left after `skip`, or 0 when `skip` is past the end |
| ChatService.RoomHistory | src/chat/chat.service.ts:123-125 | exactly the room's messages, each as often as stored, ordered by `createdAt` ascending |
| ChatService.MessageSender | src/chat/chat.service.ts:137-155 | finds nothing exactly when no message has the id; otherwise returns that message's sender |
| ChatService.MessageSenderUnique | src/chat/chat.service.ts:137-155 | with increasing ids, the sender found is the sender of the row with that id |
| ChatService.ReportMessage | src/chat/chat.service.ts:135-178 | the result and the users and reports tables are those `ReportMessageEffect` gives for the old tables |
| ChatService.ReportMessageEffect | src/chat/chat.service.ts:135-178 | a missing message is NotFound and one's own message is BadRequest, both writing nothing; otherwise the sender is reported and a row with no etc text stored, as `ReportThenStore` says |
| ChatService.MarkRead | src/chat/chat.service.ts:187-193 | the selected messages become read, and every other field and message is unchanged |
| ChatService.MarkReadKeepsKeys | src/chat/chat.service.ts:187-193 | marking messages read keeps message ids increasing |
| ChatService.MarkMessagesAsRead | src/chat/chat.service.ts:182-194 | an empty list changes nothing and counts 0; otherwise exactly the listed messages not sent by the caller are marked read |
| ChatService.OwnMessagesUntouched | src/chat/chat.service.ts:187-230 | neither read-marking call changes a message the caller sent |
| ChatService.Max | src/chat/chat.service.ts:233 | the largest id of a non-empty list: a member of the list, no smaller than any |
| ChatService.AdvancePointer | src/chat/chat.service.ts:233-250 | the new pointer is at least the old one (0 when null) and every listed id, and is one of them |
| ChatService.WithLastRead | src/chat/chat.service.ts:236-249 | sets one side's last-read pointer and keeps the other side's pointer, both hidden flags and the participants |
| ChatService.MarkMessagesAsReadInRoom | src/chat/chat.service.ts:197-253 | an empty list returns (0, null) and changes nothing; a missing room is NotFound; for an existing room, a non-participant gets BadRequest and a participant succeeds; failures write nothing; on success only the room's listed messages from others become read and only the caller's pointer advances |
| ChatService.SetHidden | src/chat/chat.service.ts:255-310 | NotFound exactly when no room has the id; BadRequest when the caller is neither participant; a flag already at the value reports `already` and changes nothing; otherwise only the caller's flag in that room changes |
| ChatService.LeaveRoom | src/chat/chat.service.ts:255-281 | the rooms table and the result follow `SetHidden` with the flag set |
| ChatService.UnhideRoom | src/chat/chat.service.ts:284-310 | the rooms table and the result follow `SetHidden` with the flag cleared |
| ChatService.ApplySetHidden | src/chat/chat.service.ts:255-310 | applies `SetHidden` to the rooms table, keeping its constraints |
| ChatService.SetHiddenIdempotent | src/chat/chat.service.ts:263-272 | a second leave (or unhide) reports `already` and changes nothing |
| ChatService.LeaveThenUnhide | src/chat/chat.service.ts:255-310 | from a visible room, leaving and then unhiding restores the table |
| PairingService.ExpiresAt | src/pairing/pairing.service.ts:15-21 | the expiry is now plus the lifetime in minutes times 60000 ms, 10 minutes by default |
| PairingService.CreatePairingToken | src/pairing/pairing.service.ts:15-29 | an unknown owner is NotFound and writes nothing; otherwise exactly one unused token row with the owner and that expiry is stored |
| PairingService.ClaimError | src/pairing/pairing.service.ts:37-51 | the exception of each failed check: NotFound, BadRequest (used), BadRequest (expired), Forbidden, NotFound (account missing) |
| PairingService.CheckClaim | src/pairing/pairing.service.ts:36-51 | each outcome holds exactly when its check is the first to fail: unknown token, already used, expiry strictly before now, the claimer's own token, a missing account; claimable exactly when all pass, with the token's row and owner |
| PairingService.FirstTokenUnique | src/pairing/pairing.service.ts:37 | at most one row is the first with a given token string |
| PairingService.CreateOrGetRoom | src/pairing/pairing.service.ts:68-88 | the room is stored as (smaller id, larger id); an existing room for the pair is returned unchanged, otherwise exactly one new room is added |
| PairingService.CreateOrGetRoomSymmetric | src/pairing/pairing.service.ts:69 | the result does not depend on argument order |
| PairingService.CreateOrGetRoomKeepsKeys | src/pairing/pairing.service.ts:71-88 | find-or-create keeps one room per pair and increasing ids |
| PairingService.CreateOrGetRoomIdempotent | src/pairing/pairing.service.ts:71-79 | asking again for the same pair returns the same room and adds nothing |
| PairingService.MarkUsedKeepsTokensUnique | src/pairing/pairing.service.ts:57-60 | stamping a token as used keeps token strings unique |
| PairingService.ClaimPairingToken | src/pairing/pairing.service.ts:36-63 | every failed check throws and writes nothing; a claimable token returns the pair's room, found or created, and is marked used |
| PairingService.ClaimIsOneShot | src/pairing/pairing.service.ts:57-60 | after a successful claim, any later claim of the token by anyone fails as already used |
| PairingService.ExpiryInstantIsClaimable | src/pairing/pairing.service.ts:40 | a token expiring exactly now can still be claimed, and one instant later it is expired |
| QuestionService.NewAttachments | src/question/question.service.ts:24 | one attachment per URL, in order, for the new question |
| QuestionService.Urls | src/question/question.service.ts:78 | the attachments' URLs, in order |
| QuestionService.UrlsOfNewAttachments | src/question/question.service.ts:24 | reading back the URLs of new attachments gives the URLs supplied |
| QuestionService.AppendBatchKeepsIncreasing | src/question/question.service.ts:24 | the new attachments keep attachment ids increasing |
| QuestionService.CreateQuestion | src/question/question.service.ts:13-31 | an unknown author makes the insert fail and nothing is written; otherwise one question plus one attachment per supplied URL (none without a list) |
| QuestionService.ListedQuestions | src/question/question.service.ts:35-46 | exactly the undeleted questions, of the category when one is given, each once, newest first |
| QuestionService.GetQuestionList | src/question/question.service.ts:34-54 | one entry per listed question, in order, whose answer count is the number of that question's answers |
| QuestionService.GetQuestionListLength | src/question/question.service.ts:48-53 | the list has exactly as many entries as there are listed questions |
| QuestionService.GetQuestionDetail | src/question/question.service.ts:57-80 | NotFound exactly when no undeleted question has the id; a plain error exactly when it exists but its author row does not; otherwise its fields, the author's name from the author row, answer count and attachment URLs in stored order |
| QuestionService.AttachmentsOfNewQuestion | src/question/question.service.ts:24 | the new batch is all the attachments the new question has |
| QuestionService.NewQuestionFound | src/question/question.service.ts:58-65 | the appended question is the first live row with its id |
| QuestionService.CreateThenDetail | src/question/question.service.ts:57-80 | a question just posted reads back in detail with its URLs as supplied |
| QuestionService.DeleteQuestionRows | src/question/question.service.ts:84-103 | NotFound exactly when no undeleted question has the id; someone else's question is a plain error; otherwise only that row's deleted flag becomes true |
| QuestionService.DeleteQuestion | src/question/question.service.ts:84-103 | the questions table and the result follow `DeleteQuestionRows` |
| QuestionService.DeleteTwiceNotFound | src/question/question.service.ts:89-91 | the same question deleted again, by anyone, is NotFound |
| QuestionService.DeletedQuestionHidden | src/question/question.service.ts:35-80 | a deleted question is neither listed nor shown in detail |
| SchedulerService.Merge | src/crawling/scheduler.service.ts:21-41 | stored rows are kept as a prefix; each added row comes from the batch with a URL not stored before; distinct URLs stay distinct |
| SchedulerService.NewRecordStored | src/crawling/scheduler.service.ts:24-37 | a crawled record whose save succeeds has its URL stored by the end of the run, a failed save of another record notwithstanding |
| SchedulerService.FindByUrl | src/crawling/scheduler.service.ts:24-28 | finds nothing exactly when no row has the URL |
| SchedulerService.ScheduleCrawlGov | src/crawling/scheduler.service.ts:14-43 | the government table becomes `Merge` of the old one with the crawled batch |
| SchedulerService.ScheduleCrawlKo | src/crawling/scheduler.service.ts:46-75 | the Korean-class table becomes `Merge` of the old one with the crawled batch |
| Crawling.Item | src/crawling/crawling.service.ts:116-118 | a scraped text exists exactly when the index is within the list |
| Crawling.SplitHasSecondPart | src/crawling/crawling.service.ts:110 | `split` has a second part exactly when the separator occurs |
| Crawling.SplitFirstPartFree | src/crawling/crawling.service.ts:111 | the first part of a split is a prefix free of the separator |
| Crawling.KoTitle | src/crawling/crawling.service.ts:110 | the title parse fails exactly when the text has no ']' |
| Crawling.KoBorough | src/crawling/crawling.service.ts:111-114 | fails exactly when no '[' comes before the first ']'; the borough never contains '가족센터' |
| Crawling.KoLocation | src/crawling/crawling.service.ts:118-122 | the trimmed 9th text when it is non-empty, otherwise the borough followed by '가족센터'; never empty |
| Crawling.ParseKoRecord | src/crawling/crawling.service.ts:102-135 | fails with InternalServerError exactly when the title text or image is missing or empty or the title does not parse; otherwise the parsed record with the page's URL |
| Crawling.KoRecords | src/crawling/crawling.service.ts:63-136 | exactly one record per link, in order, or InternalServerError; a link whose container does not appear fails the crawl |
| Crawling.KoRecordsStep | src/crawling/crawling.service.ts:63-136 | one more link either fails the crawl (no container, content not loaded, or a bad parse) or adds exactly its record |
| Crawling.CrawlerKoreanProgram | src/crawling/crawling.service.ts:19-146 | no links gives InternalServerError; otherwise one record per link in order, or InternalServerError as soon as one link fails |
| Crawling.FailureSticks | src/crawling/crawling.service.ts:138-145 | once a link fails, the whole crawl fails |
| Crawling.KeepTitleChars | src/crawling/crawling.service.ts:222 | each character not a word character, white space or Hangul becomes a space, the rest are kept |
| Crawling.FirstUnderscoreReplaced | src/crawling/crawling.service.ts:222 | replacing the first '_' adds only ':' and ' ' |
| Crawling.GovTitle | src/crawling/crawling.service.ts:222 | a title exists exactly when the scraped title is non-empty, and has only kept characters and ':' |
| Crawling.GovTitleHasNoAngleBrackets | src/crawling/crawling.service.ts:222 | the government title keeps no tag brackets |
| Crawling.GovBorough | src/crawling/crawling.service.ts:233 | a borough exists exactly when the first text contains '> ' |
| Crawling.GovLocation | src/crawling/crawling.service.ts:239 | exists exactly when there is a 9th text; it is a prefix of it without '오시는길' |
| Crawling.GovTarget | src/crawling/crawling.service.ts:241-245 | a lone '-' becomes '누구나 참여 가능'; any other 4th text is kept as is |
| Crawling.GovRecord | src/crawling/crawling.service.ts:233-258 | each field of the record comes from its scraped text |
| Crawling.GovPages | src/crawling/crawling.service.ts:170-262 | the records of the pages in order, or InternalServerError |
| Crawling.CrawlerGovernmentProgram | src/crawling/crawling.service.ts:152-272 | the crawl's result is the records of result pages 1 to 4 in order, or InternalServerError |
| Crawling.GovFailureSticks | src/crawling/crawling.service.ts:263-270 | a failure on any page fails the whole crawl |
| Crawling.GovPagesAreOneToFour | src/crawling/crawling.service.ts:170 | exactly the pages 1, 2, 3 and 4 are read, in order |
| Ocr.OcrPreflight | src/ocr/ocr.service.ts:39-45 | BadRequest exactly when a setting is missing or there are no files |
| Ocr.AiPreflight | src/ocr/ocr.service.ts:189-228 | in order: a missing setting is a plain error, an unknown or deleted user NotFound, no files BadRequest |
| Ocr.OcrLineSplitsBack | src/ocr/ocr.service.ts:86 | words without spaces are read back from their line by splitting on ' ' |
| Ocr.LinesOf | src/ocr/ocr.service.ts:84-90 | one text per OCR line across all regions |
| Ocr.RegionLines | src/ocr/ocr.service.ts:85-89 | each line of a region becomes its words joined by single spaces, in order |
| Ocr.CollectLines | src/ocr/ocr.service.ts:81-97 | no regions is BadRequest; otherwise every line of every region, in order |
| Ocr.RemoveFence | src/ocr/ocr.service.ts:295-296 | removing every fence and the newline after it never lengthens the text |
| Ocr.StripFences | src/ocr/ocr.service.ts:294-297 | the cleaned reply has no white space at either end |
| Ocr.NoFenceOnlyTrimmed | src/ocr/ocr.service.ts:294-297 | a reply without backticks is only trimmed |
| Ocr.OpeningFenceRemoved | src/ocr/ocr.service.ts:295 | the opening '```json' fence and its newline are removed |
| Ocr.ClosingFenceRemoved | src/ocr/ocr.service.ts:296 | the closing '```' fence is removed |
| Ocr.FencedJsonUnwrapped | src/ocr/ocr.service.ts:294-297 | a trimmed body wrapped in a json code block comes back unchanged |
| Ocr.Spread | src/ocr/ocr.service.ts:318-319 | spreading succeeds exactly for arrays and strings, with as many elements as their length |
| Ocr.AppendAiResult | src/ocr/ocr.service.ts:302-319 | a missing text array or unequal lengths is BadRequest; otherwise both arrays are appended in full, keeping the two lists the same length |
| Ocr.SanitizeText | src/ocr/ocr.service.ts:397-399 | each line is sanitised on its own, and the number of lines is kept |
| Ocr.RemovedForGood | src/ocr/ocr.service.ts:399-413 | an English word a rule removes never reappears, since later rules only write Hangul and spaces |
| Ocr.SanitizedHasNoEnglishTriggers | src/ocr/ocr.service.ts:399-413 | no sanitised line contains 'removal', 'conquest', 'revolution' or 'independence' |
| Ocr.HairRemovalFirstRules | src/ocr/ocr.service.ts:399-400 | the first two rules turn 'hair removal' into '모발 제거' |
| Ocr.HairRemovalReplacedWhole | src/ocr/ocr.service.ts:399-413 | because of the rule order, 'hair removal' becomes '모발 제거', not 'hair 제거' |
| Ocr.Solution | src/ocr/ocr.service.ts:355-535 | succeeds exactly when the user is live, has an OCR record, and the chat call on the sanitised problem succeeds; every failure becomes the same BadRequest |
| CreateUserDto.PasswordPatternMeaning | src/auth/dto/CreateUserDto.ts:23-29 | the password pattern accepts exactly 8 to 16 allowed characters drawn from at least two of the classes letter, digit and special |
| CreateUserDto.ClassesDisjoint | src/auth/dto/CreateUserDto.ts:24 | each negative lookahead excludes exactly the passwords whose characters all come from one class |
| CreateUserDto.PasswordPatternImpliesMinLength | src/auth/dto/CreateUserDto.ts:18-24 | a password the pattern accepts also meets the minimum length of 8 |
| CreateUserDto.MentorCodePatternAsWrittenOnlyEmpty | src/auth/dto/CreateUserDto.ts:59-65 | as written, the mentor-code pattern matches only the empty string |
| CreateUserDto.MentorCodeExampleRejected | src/auth/dto/CreateUserDto.ts:59-68 | as written, the documented example 'H23L4J' is rejected |
| CreateUserDto.MentorCodePatternMeaning | src/auth/dto/CreateUserDto.ts:63 | the intended rule: six upper-case letters or digits, mixing both |
| CreateUserDto.MentorCodeExampleAccepted | src/auth/dto/CreateUserDto.ts:68 | the intended rule accepts 'H23L4J' |
| CreateUserDto.ReportedCountOrZero | src/auth/dto/CreateUserDto.ts:75 | a falsy value (undefined, null, 0, NaN, `''`, false) becomes 0; any truthy value is kept as is |
| CreateUserDto.ValidateSignUp | src/auth/dto/CreateUserDto.ts:6-81 | with the mentor-code pattern as written: accepted exactly when the other field rules hold on the trimmed e-mail, the mentor code is undefined, null or `''`, and the defaulted report count is an integer number; a rejection is BadRequest; an accepted form has the trimmed e-mail, the mentor code and the defaulted count |
| CreateUserDto.ValidateSignUpIntended | src/auth/dto/CreateUserDto.ts:6-81 | the same validation with the mentor-code rule the message describes; rejection is BadRequest; an accepted request becomes the same form |
| CreateUserDto.MentorCodeDecides | src/auth/dto/CreateUserDto.ts:59-68 | with the other fields valid, 'H23L4J' passes only the intended validator and `''` passes only the validator as written |
| SignInDto.ValidateSignIn | src/auth/dto/SignInDto.ts:6-27 | accepted exactly when the e-mail, untrimmed, is non-empty and email-shaped and the password matches the pattern; otherwise BadRequest |
| SignInDto.EmptyPasswordRejected | src/auth/dto/SignInDto.ts:15 | an empty password is always rejected |
| SetProfileImageDto.ExactlyFourImages | src/auth/dto/SetProfileImageDto.ts:6-11 | exactly the numbers 1, 2, 3 and 4 are accepted |
| SetProfileImageDto.OutOfRangeRejected | src/auth/dto/SetProfileImageDto.ts:8-10 | 0, 5, 2.5 and NaN are rejected |
| JwtStrategy.Construct | src/auth/jwt.strategy.ts:8-17 | construction fails with a plain error exactly when JWT_SECRET is unset or empty; otherwise the secret is the key |
| JwtStrategy.Validate | src/auth/jwt.strategy.ts:19-29 | accepted exactly when `type` is the string 'access', otherwise Unauthorized; the user is {id: sub, username, email} |
| JwtStrategy.ValidateReadsFourClaims | src/auth/jwt.strategy.ts:25-29 | payloads that agree on type, sub, username and email validate alike, whatever other claims they carry |
| JwtAuthGuard.HandleRequest | src/auth/jwt-auth.guard.ts:10-28 | a truthy error is rethrown even with a user; no error and no user is a 401 with the fixed body; otherwise the user passes unchanged |
| JwtAuthGuard.PassExactly | src/auth/jwt-auth.guard.ts:17-27 | the guard passes exactly when there is no error and a truthy user, so it never passes a falsy user |
| IpCheckMiddleware.ClientIp | src/common/middleware/ip-check.middleware.ts:7 | the request's ip, falling back to the socket address when the ip is missing or empty |
| IpCheckMiddleware.AllowedIps | src/common/middleware/ip-check.middleware.ts:19 | unset gives an empty list; any setting, `''` included, gives at least one entry, and `''` gives `['']` |
| IpCheckMiddleware.Use | src/common/middleware/ip-check.middleware.ts:6-30 | next() exactly when there is a client address and the allowlist is empty or lists it exactly; every refusal is 403 with error 'Forbidden' and the request's path |
| IpCheckMiddleware.UnsetAllowsEveryAddress | src/common/middleware/ip-check.middleware.ts:19-30 | with ALLOWD_IPS unset every request with an address passes |
| IpCheckMiddleware.EmptySettingRefusesEveryone | src/common/middleware/ip-check.middleware.ts:19-21 | with ALLOWD_IPS set to `''` every request is refused |
| HttpExceptionFilter.GetErrorType | src/common/interceptor/http-exception.filter.ts:50-65 | 'UnknownError' exactly for a status other than 400, 401, 403, 404 and 500, which have fixed names |
| HttpExceptionFilter.EveryKindNamed | src/common/interceptor/http-exception.filter.ts:50-65 | every exception kind the model throws has a named error type |
| HttpExceptionFilter.GetMessage | src/common/interceptor/http-exception.filter.ts:30-47 | always one message; for 403 it is the IP text exactly when the message contains 'IP' or 'Forbidden' |
| HttpExceptionFilter.Strs | src/common/interceptor/http-exception.filter.ts:18 | the table's texts as a list of string values, in order |
| HttpExceptionFilter.Catch | src/common/interceptor/http-exception.filter.ts:6-28 | the body carries the exception's status and the request URL; an object response supplies message and error, falling back to the exception message and 'Error'; any other response takes both from the tables |
| HttpExceptionFilter.BareForbiddenReadsAsIpDenied | src/common/interceptor/http-exception.filter.ts:36-39 | a bare Forbidden exception is reported with the IP text |
| HttpExceptionFilter.StringResponseUsesTable | src/common/interceptor/http-exception.filter.ts:17-20 | a string response never leaks its own text into the body |
| ResponseInterceptor.MapResponse | src/common/interceptor/response.interceptor.ts:9-21 | the result is always an envelope; an envelope passes unchanged, anything else is wrapped with status 200 and the original value as data |
| ResponseInterceptor.MapResponseIdempotent | src/common/interceptor/response.interceptor.ts:11-20 | mapping twice is mapping once |
| Db.FindUser | src/pairing/pairing.service.ts:17-18 | finds nothing exactly when no account has the id |
| Db.NextId | src/pairing/pairing.service.ts:81-82 | the next autoincrement id exceeds every stored id |
| Query.FindFirst | src/question/question.service.ts:58-65 | the first row satisfying the filter, or nothing exactly when no row does |
| Query.Filter | src/question/question.service.ts:35-46 | exactly the rows satisfying the filter, in table order |
| Query.CountZero | src/comment/comment-like.service.ts:23-27 | a count is zero exactly when no row matches |
| Sorting.SortBy | src/comment/comment.service.ts:95 | a sorted permutation of the rows |
| Sorting.FindMany | src/comment/comment.service.ts:83-97 | exactly the matching rows, each as often as stored, in ascending key order |
| Sorting.Page | src/chat/chat.service.ts:126-127 | at most `take` rows, starting at `skip`; short only when the rows run out |
| Js.Get | src/common/interceptor/http-exception.filter.ts:15-16 | a property that is not there reads as undefined |
| JsString.TrimStart | src/auth/auth.service.ts:17 | the result is a suffix, only white space is removed, and it does not start with white space |
| JsString.TrimEnd | src/auth/auth.service.ts:17 | the result is a prefix, only white space is removed, and it does not end with white space |
| JsString.Trim | src/auth/dto/CreateUserDto.ts:9 | the result is never longer than the input and has no white space at either end |
| JsString.TrimResultTrimmed | src/auth/dto/CreateUserDto.ts:9 | the result of `trim` has no white space at either end, and a string without any is left alone |
| JsString.TrimIdempotent | src/auth/dto/CreateUserDto.ts:9 | trimming twice is trimming once |
| JsString.TrimAppendWhitespace | src/ocr/ocr.service.ts:297 | trailing white space appended to a trimmed string is exactly what `trim` removes |
| JsString.ToLowerCase | src/auth/auth.service.ts:17 | same length, each character lower-cased |
| JsString.LowerCaseIsLower | src/auth/auth.service.ts:17 | no upper-case letter is left after lower-casing |
| JsString.LowerOfTrimmedLower | src/user/user.service.ts:141 | lower-casing a normalised e-mail again changes nothing |
| JsString.DigitPrefix | src/auth/auth.service.ts:20 | the longest prefix made of decimal digits |
| JsString.ParseIntTen | src/auth/auth.service.ts:20 | the default '10' parses as 10 |
| JsString.ParseIntSkipsWhitespace | src/auth/auth.service.ts:20 | `parseInt` ignores leading white space |
| JsString.ParseIntDigits | src/auth/auth.service.ts:20 | white space, an optional sign and a run of digits read as the digits' decimal value, negated after '-', whatever follows the run |
| JsString.ParseIntNoDigits | src/auth/auth.service.ts:20 | with no digit after the white space and the optional sign, `parseInt` is NaN (nothing) |
| JsString.IndexOf | src/crawling/crawling.service.ts:110-113 | the first index where the pattern occurs, or nothing exactly when it never occurs |
| JsString.Contains | src/common/interceptor/http-exception.filter.ts:37 | true exactly when the pattern occurs somewhere |
| JsString.Split | src/crawling/crawling.service.ts:110-113 | a split always has at least one part |
| JsString.JoinSplit | src/crawling/crawling.service.ts:110-113 | joining the parts of a split with the separator gives back the string |
| JsString.SplitJoin | src/ocr/ocr.service.ts:86 | splitting on a character undoes a join of parts that do not contain it |
| JsString.ReplaceAllRemoves | src/ocr/ocr.service.ts:399-413 | a global replacement by text sharing no character with the pattern leaves no occurrence |
| JsString.ReplaceAllAbsent | src/ocr/ocr.service.ts:399-413 | a pattern that does not occur leaves the text unchanged |
| JsString.ReplaceAllWhole | src/ocr/ocr.service.ts:400 | a text that is exactly the pattern becomes exactly the replacement |
| JsString.ReplaceAllKeepsAbsent | src/ocr/ocr.service.ts:399-413 | a replacement sharing no character with an absent word cannot create it |

## Left out

- The OCR, translation and chat-model HTTP calls, the blob upload, and the crawler's browser navigation and waits are network I/O. Their results are parameters of the model (`upload`, `ask`, `page`, `visit`), or the code around them is not modelled.
- The OCR flows run `files.map(async …)` with `Promise.all`, so results from different files may arrive in any order. The model states nothing about order across files; `Ocr.CollectLines` covers one image only.
- `ocr` and `ocrAndTranslateByAI` also write a translations row, and `solution` parses the chat reply, strips its fences with a second pair of expressions and updates the latest translations row. The model keeps only these parts:
  - the checks before any external call (`Ocr.OcrPreflight`, `Ocr.AiPreflight`);
  - the line joining;
  - the reply cleanup and checks;
  - the sanitising;
  - the error wrapping of `solution`.
  The translations table is not part of the model.
- `getMyOcr` in src/ocr/ocr.service.ts and `getCrawlData` in src/crawling/crawling.service.ts are read-only projections. They are not part of this model.
- bcrypt hashing and comparison, the random pairing token and the clock are foreign code. They are parameters: `passwordHash`, `compare`, `token`, `now`.
- The e-mail and date shape checks of class-validator are library code and are parameters (`isEmail`, `isDate`).
- Atomicity of the database `increment` is not modelled: each operation runs to completion before the next starts.
- The `include` and `select` projections of room lists are not modelled: user names and the last message are not part of the result.
- `Sorting.SortBy` is stable. Where two rows share a `createdAt`, the database's order among them is unspecified, and the model's order is only one of the allowed ones.
- Controllers, modules, the chat gateway and the Prisma client wrapper only route calls. `main.ts` imports `ValidationPipe` but never installs it, so no class-validator decorator runs on a request; see the next lines. The pairing controller's default lifetime of 10 minutes is folded into `PairingService.ExpiresAt`.
- The following files are not part of this model:
  - src/answer/, which holds superseded copies of the comment services;
  - src/comment/comment-report.service.ts;
  - src/translate/translate.service.ts;
  - both azure-storage services;
  - the response-shape DTOs and the profile-image table.
- JsString.ToLowerCase: only the ASCII letters are lower-cased, not the rest of Unicode.
- AuthService.SaltRounds: `parseInt` is modelled for decimal digits with leading white space and a sign only. A SALT_ROUNDS in hexadecimal (`0x…`) is not modelled.
- ChatService.GetMessagesDetail: `take` and `skip` are natural numbers, so a negative value, which Prisma would reject or read backwards, is not modelled.
- CreateUserDto.ValidateSignUp: only the mentor code and the report count are JavaScript values. The other fields are typed as strings and booleans, so the `@IsString` and `@IsBoolean` rejections of other types are not modelled.
- The Prisma schema is not part of this model. The foreign keys listed under "Prisma failures" are taken from the id columns the code writes (`userId`, `questionId`, `roomId`, `senderId`, `reporterId`), and no other constraint of the schema is modelled.
- Crawling.KeepTitleChars: the title regex at src/crawling/crawling.service.ts:222 has no `u` flag, so it works on UTF-16 code units and turns a character outside the Basic Multilingual Plane (an emoji, say) into two spaces. The model works on characters and turns it into one.
- Crawling.GovTitle: inherits the difference above, so an emoji in a government title leaves one space in the model where the source leaves two.
- Ocr.JsLength: a string's `.length` (src/ocr/ocr.service.ts:310) counts UTF-16 code units. The model counts characters, so strings containing characters outside the Basic Multilingual Plane can compare differently.
- PairingService.ExpiresAt: the lifetime is an integer number of minutes. The pairing controller passes `Number(ttlMinutes)`, which may be fractional (0.5 gives 30 seconds); fractional lifetimes are not modelled.
- The service models take inputs of the DTO types (`SignUpForm`, `ReportRequest`, `ReportReason` and the like), as if the DTO rules had held. This revision installs no `ValidationPipe`, so a request body reaches the services untransformed and unchecked; a non-string field or a missing value is not modelled.
- CreateUserDto.ValidateSignUp, CreateUserDto.ValidateSignUpIntended, SignInDto.ValidateSignIn and the SetProfileImageDto lemmas state what the DTO decorators would accept, not what runs: no pipe applies them.
- ChatService.ReportMessage: the reason is a `ReportReason`, so an invalid reason is not modelled. In the source (src/chat/chat.service.ts:134-177) such a reason raises the sender's count and then makes the report insert fail.
- Crawling.CrawlerGovernmentProgram: each result page's records come from the parameter `visit`. The loop over a page's detail links (src/crawling/crawling.service.ts:193-261) is not modelled step by step; `Crawling.GovRecord` states what one detail visit yields. As in the Korean-class crawl, the container wait throws on a missing container, so such a link is a failing `visit`, not a skipped one.
- Ids, counts and times are unbounded integers. JavaScript numbers are doubles, so the model does not capture precision loss above 2^53.

## Where the model follows the code over its description

- **Korean-class crawl with no links.** `crawlerKoreanProgram` throws a BadRequest when there are no links. The throw happens inside the `try`, so the caller sees an InternalServerError, and the model returns that.
- **Korean-class link without a container.** The code checks `if (container)` after `waitForSelector`, but that wait throws when its time runs out, so a missing container never reaches the check. The throw is caught and becomes an InternalServerError, so in the model a missing container fails the whole crawl.
- **Missing author row on a report.** When no account has the author's id, the report update throws a plain error. That is the model's error in `ReportComment` and `ReportMessage`.
- **Reports are not atomic.** The author's count is raised before the report row is inserted, in two separate writes. When the insert fails, the raised count stays and the call still throws (`CommentService.FailedReportRepeats`).
- **Blocked accounts on sign-in.** `findUserForValidation` returns blocked accounts. `signInWithEmail` does not, so a blocked account's sign-in reads as "no such account".

## Findings

| source | as written | input that shows it | evidently intended | confidence | as-written member | corrected member |
|---|---|---|---|---|---|---|
| src/auth/dto/CreateUserDto.ts:59-68 | `^(?!…)(?!…)(?!…){6}$` quantifies a zero-width lookahead group, so nothing is consumed and only the empty string matches | the documented example `H23L4J` is rejected | six characters, upper-case letters and digits, mixing both, as the message says | high, not executed | CreateUserDto.ValidateSignUp | CreateUserDto.ValidateSignUpIntended |
