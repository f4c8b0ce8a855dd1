# Blog post service — a Dafny model

This project models the core of a small blogging application. The backend is an Express server over PostgreSQL. The clients are two React front ends.

On the server side the model covers:
- the `blogs` and `users` tables;
- the SQL queries of the two model files;
- the post and account services;
- the route handlers for posts and for sign-up / sign-in;
- the bearer-token middleware;
- the CORS allowlist.

On the client side it covers:
- the nine-button page window;
- the normalisation of API records in both copies of `useFetchBlogs`;
- `mapBlogData` and the header-image decision of the single post page;
- the request that the create/edit form builds.

Everything is pure: tables are immutable sequences and every operation returns its new state together with a `Result`. Time is an integer. The OTP draw and the token and hash libraries are parameters.

The file `app.dfy` connects the pieces:
- the router (the path segments below `/api/blogs`) and the middleware in front of each handler;
- the client's page count against the server's pagination;
- the edit form against the card record that feeds it.

Behaviour of the code that a reader of the API might not expect, and that the model follows:
- `updateBlog` validates the fields before it looks the post up. A missing title on an unknown id is therefore a validation error, answered with status 500, not 404.
- `deleteBlog` removes the image file before the row. The file is found with `path.join(process.cwd(), image_url)`, which normalises the text, so `uploads/x`, `/uploads/./x` and `/uploads/x` all name the same file. A post whose `image_url` was edited to another upload's path therefore deletes that other post's file. A trailing `/` survives the join, though: `/uploads/x/` reaches the same segments but names no regular file, so `existsSync` fails and `x` stays.
- `upload.single('image')` refuses a file sent in any other form field. Multer's error reaches Express's default handler, which answers 500 with an error page before the route runs; nothing is stored.
- A failed sign-up with a taken email still uses up one value of the `users` id sequence, because PostgreSQL does not give a sequence value back when the insert fails.
- `LIMIT` and `OFFSET` are bound as `bigint`. A page or limit whose offset leaves the 64-bit range makes the listing fail, even when the offset would lie past the last row anyway.
- `register` answers with a token at once. Neither `register` nor `login` consults `is_verified`, so an unverified account can sign in.
- The `verify-otp` and `resend-otp` routes call service functions that do not exist. Each therefore always answers 400 with the runtime's "is not a function" message. The OTP rules exist only at the user-model level, and they are modelled there.
- PostgreSQL reads a path id's digits before it looks at what follows them, and it checks for overflow during that read. So `/api/blogs/99999999999x` fails with "value … is out of range for type integer", not with "invalid input syntax", and that message reaches the client in the 500 answer.
- `register` sends no mail. The handler's branch for mail-transport errors is unreachable from sign-up.
- The allowlist in `cors.js` is not applied: `server.js` installs the default `cors()`. `Cors` models the predicate on its own.
- The `src` client requests a user's posts at `/api/blogs/user/{id}`. The server has no such route, so that request never reaches a handler.
- The edit form sends back the card's display URL as `image_url`. An edit that keeps the picture therefore stores the server address in front of the stored path, or stores the placeholder URL for a post that had no picture.
- `multer` stores an uploaded file before the handler runs. A create or update that is then refused with 401 or 403 still leaves the file behind.
- The page count uses `Math.ceil(totalCount / limit)`, which is `null` in JSON for a zero limit. A negative `limit` or `page` survives `parseInt(...) || default` and makes the query fail. Both cases are modelled.

## Model

| member | source | states |
|---|---|---|
| Paging.Offset | blog-post/backend/models/blogModel.js:8 | The offset of a page from 1 on, with a non-negative limit, is never negative. |
| Paging.OffsetIsProduct | blog-post/backend/models/blogModel.js:8 | The offset is (page − 1) · limit for every page and limit, negative ones included. |
| Paging.CeilDiv | blog-post/backend/models/blogModel.js:11-13 | There are 0 pages iff there are 0 rows, and never more pages than rows. |
| Paging.CeilDivBounds | blog-post/backend/models/blogModel.js:11-13 | For a non-empty table, the page count r satisfies (r-1)·limit < count ≤ r·limit. |
| Paging.CeilDivUnique | blog-post/backend/models/blogModel.js:81-83 | The ceiling bounds determine the page count uniquely. |
| Paging.PageLength | blog-post/backend/models/blogModel.js:25 | A page holds `limit` rows when the table has that many from the offset on, otherwise the rest of the table, and none from an offset past the end. |
| Paging.PageSlice | blog-post/backend/models/blogModel.js:25 | `LIMIT/OFFSET` keeps the rows at offset, offset+1, … in order, as many as `PageLength` allows. |
| Paging.PagesPartition | blog-post/backend/models/blogModel.js:7-36 | Reading pages 1 to totalPages returns every row of the ordered result exactly once and in order. |
| Paging.ReadPagesFrom | blog-post/backend/models/blogModel.js:8 | Reading the remaining pages from any page offset returns the rest of the ordered result. |
| Paging.ReadWithPages | blog-post/backend/models/blogModel.js:7-36 | Any page reader that returns each page's `LIMIT/OFFSET` slice reads, page after page, exactly the rows `ReadPages` reads. |
| Paging.PastLastPageEmpty | blog-post/backend/models/blogModel.js:25 | A page beyond totalPages starts past the end and is empty. |
| Numerals.NatToString | blog-post/backend/models/userModel.js:10 | `toString` of a number is a non-empty digit string without a leading zero. |
| Numerals.NatToStringValue | blog-post/backend/models/userModel.js:10 | Reading a decimal numeral back gives the number. |
| Numerals.NatToStringInjective | blog-post/backend/models/userModel.js:10 | Different numbers have different numerals. |
| Numerals.NatToStringLength | blog-post/backend/models/userModel.js:10 | A number in [10^(k-1), 10^k) has a k-digit numeral. |
| JsParseInt.ParseDecimalStart | blog-post/backend/routes/blogRoutes.js:30-31 | `parseInt` of text starting with a decimal digit is the value of its leading digit run. |
| JsParseInt.ParseNumeral | blog-post/backend/routes/blogRoutes.js:30-31 | `parseInt` reads a numeral back even when non-digit text follows it. |
| JsParseInt.ParseIntToString | blog-post/backend/routes/blogRoutes.js:30-31 | `parseInt(String(i))` is i for every integer, negative ones included. |
| JsText.ContainsIff | blog-post/src/pages/SingleBlogPage.jsx:103 | `includes` holds exactly when the substring occurs at some position. |
| JsText.Split | blog-post/backend/middleware/auth.js:12 | `split` returns at least one field, and no field contains the separator. |
| JsText.JoinSplit | blog-post/backend/middleware/auth.js:12 | Joining the fields of a split gives back the string. |
| JsText.SplitJoin | blog-post/backend/middleware/auth.js:12 | Splitting a join of separator-free fields gives back the fields. |
| JsText.SplitSnoc | blog-post/backend/views/blogView.js:71 | Appending a separator to a text adds one empty piece after its pieces. |
| JsText.LastIndexOf | blog-post/frontend/src/components/CreateBlogForm.jsx:228 | The index holds the character, or is -1, and no later position holds it. |
| JsText.AfterLast | blog-post/frontend/src/components/CreateBlogForm.jsx:228 | The text after the last separator is a separator-free suffix that follows a separator or is the whole string. |
| JsText.LastIndexOfSplit | blog-post/frontend/src/components/CreateBlogForm.jsx:228 | In a + c + b with c not in b, the last c is at index \|a\|. |
| JsText.AfterLastSplit | blog-post/frontend/src/components/CreateBlogForm.jsx:228 | In a + c + b with c not in b, the text after the last c is b. |
| NodePath.JoinPath | blog-post/backend/views/blogView.js:71 | The segments `path.join` reaches from a normalised working directory form a normalised path: no empty, `.` or `..` segment. A trailing separator is kept apart, by `TrailingSeparator`. |
| NodePath.SeparatorAppended | blog-post/backend/views/blogView.js:71 | Appending `/` to a non-empty path gives one with a trailing separator that reaches the same segments. |
| NodePath.ResolveAppend | blog-post/backend/views/blogView.js:71 | Resolving two runs of segments is resolving the first and then the second from where it ended. |
| NodePath.ResolvePlain | blog-post/backend/views/blogView.js:71 | Plain segments are appended as they are. |
| NodePath.DownAndUp | blog-post/backend/views/blogView.js:71 | A plain segment followed by `..` lands where it started. |
| BlogModel.PgInteger | blog-post/backend/models/blogModel.js:45-48 | Binding path text to an integer column yields a value in the 32-bit range, or an error. |
| BlogModel.ScanAt | blog-post/backend/models/blogModel.js:45-48 | PostgreSQL's digit loop, resumed after any prefix of the digit run, reads to the end of the run and yields its value and length. It fails instead exactly when a digit of the run arrives while the value read so far exceeds 214748364. |
| BlogModel.PgIntegerCases | blog-post/backend/models/blogModel.js:45-48 | The result is exactly one of three outcomes. Accepted: the text is optional white space, an optional sign, digits and optional white space, and the signed value is in the 32-bit range; it then binds to that value. Out of range: the digit run overflows while it is read, or the well-formed value lies outside the range. Invalid syntax: every other case. |
| BlogModel.PgIntegerOfInt | blog-post/backend/models/blogModel.js:45-48 | `String(i)` of every integer in the 32-bit range, negative ones included, binds to i. |
| BlogModel.PgIntegerOfId | blog-post/backend/models/blogModel.js:45-48 | `String(id)` of a post id up to 2^31 - 1 binds to that id. |
| BlogModel.PgIntegerRejectsForeign | blog-post/backend/models/blogModel.js:45-48 | A text containing a character that is no digit, sign or white space is invalid integer syntax. The exception is a digit run that has already overflowed, which makes the text out of range. |
| BlogModel.PgIntegerOverflowFirst | blog-post/backend/models/blogModel.js:45-48 | Digits whose value without the last digit exceeds 214748364 are out of range, whatever text follows them. |
| BlogModel.PgIntegerRunThenForeign | blog-post/backend/models/blogModel.js:45-48 | Digits whose value without the last digit is at most 214748364, followed by a character that is no digit, sign or white space, are invalid syntax. |
| BlogModel.PgIntegerOverflowExample | blog-post/backend/models/blogModel.js:45-48 | Binding the id `99999999999x` is an out-of-range error, not invalid syntax. |
| BlogModel.PgIntegerCutoffExample | blog-post/backend/models/blogModel.js:45-48 | Binding the id `2147483648x` is invalid syntax: before its last digit its value is exactly 214748364, so the scan never overflows. |
| BlogModel.PgIntegerRejectsBlank | blog-post/backend/models/blogModel.js:45-48 | Blank text, alone or followed by a bare sign, is invalid integer syntax. |
| BlogModel.PagingError | blog-post/backend/models/blogModel.js:25 | `LIMIT`/`OFFSET` are accepted iff both lie in [0, 2^63 − 1]; for in-range values a negative offset is reported before a negative limit. |
| BlogModel.IsOwnerIff | blog-post/backend/models/blogModel.js:15-20 | `is_owner` holds iff a present, non-zero viewer equals the author; an anonymous viewer owns nothing. |
| BlogModel.InsertByDate | blog-post/backend/models/blogModel.js:25 | Insertion adds exactly one row and keeps every other row. |
| BlogModel.InsertByDateOrdered | blog-post/backend/models/blogModel.js:25 | Inserting into a newest-first sequence keeps it newest first. |
| BlogModel.NewestFirst | blog-post/backend/models/blogModel.js:25 | `ORDER BY created_at DESC` gives a permutation of the table ordered newest first. |
| BlogModel.NewestFirstOfOrdered | blog-post/backend/models/blogModel.js:25 | A table already in newest-first order comes back unchanged. |
| BlogModel.GetAll | blog-post/backend/models/blogModel.js:7-36 | Succeeds iff the offset (page − 1)·limit and the limit both lie in [0, 2^63 − 1]; a failure is the first of bigint range, negative offset, negative limit. On success the pagination is (count of all posts, ceiling, page, limit), and the rows are the offset slice of the newest-first table, each with its `is_owner`. |
| BlogModel.PagePosts | blog-post/backend/models/blogModel.js:7-36 | The posts of a page have as many entries as the listing's rows, and a rejected page shows none. |
| BlogModel.GetAllPage | blog-post/backend/models/blogModel.js:7-36 | For a positive limit and a page from 1 on, the query succeeds whenever the offset fits in bigint, and the posts shown are that page's slice of the newest-first table; a page whose offset does not fit shows nothing and lies past the last row anyway. |
| BlogModel.FindPost | blog-post/backend/models/blogModel.js:45-49 | It finds a post of the table with the id, and finds none exactly when no post has it. |
| BlogModel.FindPostAt | blog-post/backend/models/blogModel.js:45-49 | With unique ids, looking up a post's id finds that post. |
| BlogModel.GetById | blog-post/backend/models/blogModel.js:39-50 | A malformed id is a database error. Otherwise there is no row iff no post has the id; a returned row is a table post with that id and its `is_owner`. |
| BlogModel.Create | blog-post/backend/models/blogModel.js:53-59 | Appends a post with the next id, the given fields, author `userId` and both timestamps at now; the id sequence moves on by one and ids stay valid. |
| BlogModel.Edited | blog-post/backend/models/blogModel.js:64 | An edit keeps id, author and creation time. |
| BlogModel.Update | blog-post/backend/models/blogModel.js:62-68 | A malformed id fails. Otherwise only the row with the id gets the new title, description, content, image and update time; the returned row is that row after the edit. |
| BlogModel.RemoveId | blog-post/backend/models/blogModel.js:72 | Keeps exactly the posts with a different id. |
| BlogModel.Delete | blog-post/backend/models/blogModel.js:71-74 | A malformed id fails. Otherwise the table keeps exactly the posts with another id, and the id sequence is unchanged. |
| BlogModel.ByAuthor | blog-post/backend/models/blogModel.js:81-90 | `author_id = $1` keeps exactly that author's posts; a NULL author keeps none. |
| BlogModel.ByAuthorNone | blog-post/backend/models/blogModel.js:81-90 | `author_id = NULL` matches no row. |
| BlogModel.GetByUserId | blog-post/backend/models/blogModel.js:77-106 | The same success condition and error order as `GetAll`, restricted to the author's posts: count and page count cover only those posts, the rows are their newest-first slice, and every row is marked owned. |
| BlogModel.CreateThenGetById | blog-post/backend/models/blogModel.js:39-59 | After `create`, `getById` on the new id returns the stored fields unchanged, with the viewer's `is_owner`. |
| BlogModel.UpdatePreservesValid | blog-post/backend/models/blogModel.js:62-68 | An update keeps ids positive, unique and below the sequence. |
| BlogModel.UpdateReturnsEdited | blog-post/backend/models/blogModel.js:62-68 | Updating an existing post returns the edited row, whose author is unchanged. |
| BlogModel.RemoveIdAbsent | blog-post/backend/models/blogModel.js:72 | Deleting an id no post has leaves the table as it was. |
| BlogModel.RemoveIdDistinct | blog-post/backend/models/blogModel.js:72 | Deleting keeps ids unique. |
| BlogModel.RemoveIdPresent | blog-post/backend/models/blogModel.js:72 | With unique ids, deleting a present id removes exactly one row. |
| BlogModel.DeletePreservesValid | blog-post/backend/models/blogModel.js:71-74 | `delete` keeps the table valid. It removes one row when the id exists, and changes nothing otherwise. |
| BlogModel.ListedPostsArePages | blog-post/backend/models/blogModel.js:7-36 | The posts shown on successive `getAll` pages are successive slices of the newest-first table. |
| BlogModel.EveryPostListedOnce | blog-post/backend/models/blogModel.js:7-36 | Walking pages 1..totalPages shows every post exactly once, newest first. |
| BlogModel.OwnListingIsOwned | blog-post/backend/models/blogModel.js:77-106 | Every post in a user's own listing is a table post by that user, and the user owns it. |
| BlogModel.AnonymousOwnListingEmpty | blog-post/backend/models/blogModel.js:81-95 | Without a user id the own listing is empty, with a count of 0. |
| BlogView.MessagesDistinct | blog-post/backend/views/blogView.js:16-66 | The four service messages are pairwise distinct. |
| BlogView.GetBlogById | blog-post/backend/views/blogView.js:13-19 | Fails with 'Blog not found' iff no post has the id. Otherwise returns that post with its `is_owner`; a malformed id is a database error. |
| BlogView.CreateBlog | blog-post/backend/views/blogView.js:22-32 | Fails with the required-fields error iff a field is falsy, and then nothing changes. Otherwise inserts the post with the caller as author. |
| BlogView.UpdateBlog | blog-post/backend/views/blogView.js:35-55 | Validation comes first, then not-found, then ownership: each error iff its condition. Errors change nothing. Success means the caller owns the post, and the table is the model's update. |
| BlogView.RemoveImage | blog-post/backend/views/blogView.js:69-75 | A truthy `image_url` without a trailing `/` removes the file that `path.join(cwd, image_url)` names, if there is one, and every other file stays. A falsy one, or one ending in `/`, removes nothing. |
| BlogView.SlashAppendedKeepsFile | blog-post/backend/views/blogView.js:70-74 | `image_url + "/"` reaches the same segments as `image_url`, yet deleting its post keeps every file, while `image_url` itself removes that file. |
| BlogView.DeleteBlog | blog-post/backend/views/blogView.js:58-79 | A malformed id is a database error; then not-found, then ownership: each error iff its condition, and errors change nothing. Success means the caller owns the post; its row goes, every other row stays, and the files change as `RemoveImage` says for its `image_url`. |
| BlogRoutes.QueryInt | blog-post/backend/routes/blogRoutes.js:30-31 | `parseInt(q) \|\| d` is a parsed non-zero value or the default. |
| BlogRoutes.QueryIntOfNumeral | blog-post/backend/routes/blogRoutes.js:30-31 | The numeral of i reads back as i, except that 0 gives the default. |
| BlogRoutes.QueryIntFallback | blog-post/backend/routes/blogRoutes.js:30-31 | A missing, empty or non-numeric value gives the default. |
| BlogRoutes.TrimEnd | blog-post/backend/routes/blogRoutes.js:17 | Dropping trailing separators leaves a prefix that does not end in one. |
| BlogRoutes.SegmentExt | blog-post/backend/routes/blogRoutes.js:17 | The extension of a name is empty, or a dot followed by dot-free text taken from the name. |
| BlogRoutes.Extname | blog-post/backend/routes/blogRoutes.js:17 | `path.extname` is empty, or a dot followed by text with no dot or slash. |
| BlogRoutes.ExtnameOfName | blog-post/backend/routes/blogRoutes.js:17 | The extension of `stem.ext` is `.ext`. |
| BlogRoutes.ExtnameEmpty | blog-post/backend/routes/blogRoutes.js:17 | Names without a dot, dot files, `..` and the empty name have no extension. |
| BlogRoutes.UploadFilename | blog-post/backend/routes/blogRoutes.js:16-18 | The stored name is fieldname, '-', timestamp, then the original name's extension. |
| BlogRoutes.UploadUrl | blog-post/backend/routes/blogRoutes.js:75 | The image URL is `/uploads/` followed by the stored name. |
| BlogRoutes.UploadFilenamePlain | blog-post/backend/routes/blogRoutes.js:16-18 | The stored name of a file from the `image` field is one plain path segment without a slash. |
| BlogRoutes.UploadUrlResolves | blog-post/backend/views/blogView.js:71 | `/uploads/<name>` joined to the working directory names `<name>` in its `uploads` directory. |
| BlogRoutes.UploadRoundTrip | blog-post/backend/routes/blogRoutes.js:12-20 | The URL given to an upload joins back to the path it was stored at, that file is in the store, and removing by that URL takes away exactly the new file. |
| BlogRoutes.AliasedImageUrls | blog-post/backend/views/blogView.js:71 | `uploads/<name>` and `/uploads/./<name>` name the same file as `/uploads/<name>`. |
| BlogRoutes.MessageIdentifies | blog-post/backend/routes/blogRoutes.js:107-112 | Comparing the message identifies not-found and each forbidden error; no database message collides with them. |
| BlogRoutes.FailureStatus | blog-post/backend/routes/blogRoutes.js:106-113 | 404 iff not found, 403 iff the route's forbidden message, 500 otherwise. |
| BlogRoutes.ErrorText | blog-post/backend/routes/blogRoutes.js:85 | The body carries the error's own message, which is never empty, so the fallback text is unused. |
| BlogRoutes.ListBlogsStatus | blog-post/backend/routes/blogRoutes.js:28-39 | The defaulted limit is never 0; the listing answers 200 iff limit and offset lie in [1, 2^63 − 1] and [0, 2^63 − 1], and the generic 500 otherwise. |
| BlogRoutes.ListBlogsDefault | blog-post/backend/routes/blogRoutes.js:28-39 | Without query parameters the answer is 200 with page 1, page size 6 and the six newest posts. |
| BlogRoutes.ListMyBlogsShowsOwn | blog-post/backend/routes/blogRoutes.js:42-52 | 200 under the same condition as the general listing, else the user-blogs 500. Every row shown is a post of the caller, and a signed-out caller sees an empty page, not 401. |
| BlogRoutes.OwnRowsAreCallers | blog-post/backend/models/blogModel.js:77-106 | Every row of a user's listing is a table post by that user. |
| BlogRoutes.ShowBlog | blog-post/backend/routes/blogRoutes.js:55-65 | 200 iff the post is found, 404 iff not found, and any other failure is 500 with a generic message. |
| BlogRoutes.CreateRoute | blog-post/backend/routes/blogRoutes.js:68-87 | A file in a field other than `image` is a 500 error page and changes nothing. Otherwise the upload is stored; signed out gives 401 with the posts untouched; signed in gives 201 with the post, or 500 with the service message. |
| BlogRoutes.CreatedImageStored | blog-post/backend/routes/blogRoutes.js:68-82 | A post created with an upload in the `image` field carries that upload's URL, and the URL joins to a file in the store. |
| BlogRoutes.UpdateRoute | blog-post/backend/routes/blogRoutes.js:90-115 | A file in a field other than `image` is a 500 error page and changes nothing. Otherwise the upload is stored; signed out gives 401 with the posts untouched; signed in gives 200 with the row, or the error's 404/403/500 with its message. |
| BlogRoutes.DeleteRoute | blog-post/backend/routes/blogRoutes.js:118-135 | Signed out: 401 and nothing changes. Signed in: 200, or the error's 404/403/500 with its message. |
| BlogRoutes.UpdateMissingFieldsIs500 | blog-post/backend/routes/blogRoutes.js:106-113 | An update with a missing field is a 500 carrying the validation message, whatever the id, and the table is untouched. |
| BlogRoutes.UpdateByOtherIs403 | blog-post/backend/routes/blogRoutes.js:110-111 | Another user's update of an existing post is 403 and changes nothing. |
| BlogRoutes.DeleteByOwnerRemovesPost | blog-post/backend/routes/blogRoutes.js:118-125 | The author's delete answers 200; the post is gone and every other post remains. |
| UserModel.OtpText | blog-post/backend/models/userModel.js:10 | The OTP is six decimal digits with value 100000 + draw, in [100000, 999999]. |
| UserModel.OtpTextInjective | blog-post/backend/models/userModel.js:10 | Different draws give different OTPs. |
| UserModel.FindUser | blog-post/backend/models/userModel.js:21-36 | A lookup by email or by id finds a user row with that key, and finds none exactly when no row has it. |
| UserModel.Create | blog-post/backend/models/userModel.js:8-18 | An empty password fails in the hasher and changes nothing. Otherwise the insert draws the next id: a taken email fails with 23505 iff some user has it, the users stay and the id is used up; a free email appends an unverified user with the hash, the OTP and expiry now + 600000 ms, and returns id, name, email, creation time and OTP. |
| UserModel.CreatePreservesValid | blog-post/backend/models/userModel.js:13-17 | Creating a user, successful or not, keeps ids and emails unique and below the sequence. |
| UserModel.FindByEmail | blog-post/backend/models/userModel.js:21-27 | Returns the user row with that email, or nothing iff there is none. |
| UserModel.FindById | blog-post/backend/models/userModel.js:30-36 | Returns the public columns of the user with the id, or nothing iff there is none. |
| UserModel.GetAllListsFound | blog-post/backend/models/userModel.js:30-42 | The user list agrees with the lookup by id: a user found by id is listed, and with unique ids the listed user with an id is what the lookup returns. |
| UserModel.PublicHidesSecrets | blog-post/backend/models/userModel.js:32-40 | The public view does not depend on hash, OTP or expiry. |
| UserModel.VerifyRows | blog-post/backend/models/userModel.js:48 | Exactly the rows the condition accepts are verified. |
| UserModel.FirstAccepted | blog-post/backend/models/userModel.js:48 | A returned row is one the condition accepts; none is returned iff no row is accepted. |
| UserModel.VerifyOtp | blog-post/backend/models/userModel.js:46-52 | Succeeds iff a user has the id, the same OTP and an expiry strictly after now. That user becomes verified with OTP and expiry cleared; on failure nothing changes. |
| UserModel.VerifyOtpPreservesValid | blog-post/backend/models/userModel.js:46-52 | Verification keeps the table valid. |
| UserModel.VerifyOtpOnce | blog-post/backend/models/userModel.js:48 | A second verification with the same code, at the same time or later, fails. |
| UserModel.ReplaceOtp | blog-post/backend/models/userModel.js:61 | Only the row with the id gets the new OTP and expiry. |
| UserModel.UpdateOtp | blog-post/backend/models/userModel.js:56-65 | An unknown id fails. Otherwise the OTP and an expiry of now + 600000 ms replace the old ones, nothing else changes, and the new OTP is returned. |
| UserModel.UpdatedOtpAccepted | blog-post/backend/models/userModel.js:46-65 | A replaced OTP verifies exactly until ten minutes after the replacement. |
| UserModel.CreatedOtpAccepted | blog-post/backend/models/userModel.js:10-11 | A new user's OTP verifies exactly until ten minutes after creation. |
| AuthView.TokenClaims | blog-post/backend/views/authView.js:10-16 | The payload is {user_id, name}, issued at the current second, with a 24-hour lifetime. |
| AuthView.Register | blog-post/backend/views/authView.js:19-50 | A falsy field fails before any insert. A duplicate email becomes 'This email is already registered'; other errors pass through. Failures leave the users as they were. Success returns the new user's token and {id, name, email}. |
| AuthView.RegisterTakenEmail | blog-post/backend/views/authView.js:43-48 | A taken email gives the duplicate-email error; the users are unchanged and the id sequence has moved on by one. |
| AuthView.RegisterSessionBeforeVerification | blog-post/backend/views/authView.js:27-42 | A session is issued while the new user is still unverified. |
| AuthView.Login | blog-post/backend/views/authView.js:53-85 | Missing fields fail with 'Email and password are required'. An unknown email and a wrong password both fail with 'Invalid email or password'. Success is a token for the found user. |
| AuthView.LoginSucceedsIff | blog-post/backend/views/authView.js:61-71 | Login succeeds iff a user has the email and the password matches that user's hash. |
| AuthView.FindEmailIgnoresFlag | blog-post/backend/views/authView.js:62 | The email lookup finds the same user whatever its verification flag. |
| AuthView.LoginIgnoresVerification | blog-post/backend/views/authView.js:53-85 | Changing any user's `is_verified` leaves every login outcome unchanged. |
| AuthRoutes.SignUpFailure | blog-post/backend/routes/authRoutes.js:12-22 | The duplicate-email message gives 409; EAUTH/EENVELOPE give 500 with the mail text; anything else gives the generic 500. |
| AuthRoutes.SignUpStatuses | blog-post/backend/routes/authRoutes.js:8-23 | Sign-up never answers with the mail text. It answers 409 iff the email is taken, and missing fields give the generic 500. |
| AuthRoutes.VerifyOtpRoute | blog-post/backend/routes/authRoutes.js:26-35 | Always 400 with the missing-function message; the table is untouched. |
| AuthRoutes.ResendOtpRoute | blog-post/backend/routes/authRoutes.js:38-47 | Always 400 with the missing-function message; the table is untouched. |
| AuthRoutes.SignIn | blog-post/backend/routes/authRoutes.js:51-62 | 200 with the session on success, 401 iff the credentials are invalid, and any other error is the generic 500. |
| AuthRoutes.SignInMissingFieldsIs500 | blog-post/backend/routes/authRoutes.js:55-60 | A sign-in without an email is a 500, not a 401. |
| AuthRoutes.SignInDoesNotRevealEmails | blog-post/backend/routes/authRoutes.js:51-62 | An unknown email and a known email with a wrong password get the identical 401 response. |
| AuthMiddleware.BearerToken | blog-post/backend/middleware/auth.js:10-12 | No header gives no token, and an empty header gives an empty token. Otherwise there is a token iff the header has a space, and the token has no space. |
| AuthMiddleware.BearerTokenOfHeader | blog-post/backend/middleware/auth.js:10-12 | The token of `Bearer <token>` is the token. |
| AuthMiddleware.Authenticate | blog-post/backend/middleware/auth.js:9-29 | No token means anonymous. An empty, unverifiable or expired token is rejected. Otherwise the caller is the payload's `user_id`. |
| AuthMiddleware.NoSpaceIsAnonymous | blog-post/backend/middleware/auth.js:14-17 | An absent header, or one without a space, continues anonymously. |
| AuthMiddleware.EmptyTokenRejected | blog-post/backend/middleware/auth.js:12-24 | `""` and `"Bearer "` are rejected with 403. |
| AuthMiddleware.IssuedTokenIdentifies | blog-post/backend/middleware/auth.js:19-27 | A token issued at login identifies its user for 24 hours, and is rejected afterwards. |
| Cors.CheckOrigin | blog-post/backend/middleware/cors.js:13-20 | An origin is allowed iff it is absent or empty, or a listed entry; otherwise the error is 'Not allowed by CORS'. |
| Cors.NoOriginAllowed | blog-post/backend/middleware/cors.js:15-16 | Requests without an origin are allowed. |
| Cors.ListedOriginsAllowed | blog-post/backend/middleware/cors.js:5-16 | Each of the three listed origins is allowed. |
| Cors.ExtendedOriginRefused | blog-post/backend/middleware/cors.js:15-19 | A listed origin with anything appended, such as a trailing slash, is refused. |
| Cors.OtherOriginsRefused | blog-post/backend/middleware/cors.js:15-19 | Another port, or https for the listed host, is refused. |
| PageWindow.Range | blog-post/src/components/Pagination.jsx:19 | `Array.from` yields n consecutive integers from the start. |
| PageWindow.Window | blog-post/src/components/Pagination.jsx:7-20 | The buttons are consecutive increasing pages within [1, totalPages]. |
| PageWindow.SmallWindowIsAllPages | blog-post/src/components/Pagination.jsx:8-19 | With at most 9 pages, the window is every page. |
| PageWindow.LargeWindowIsClampedRun | blog-post/src/components/Pagination.jsx:10-19 | With more than 9 pages, the window is the 9 pages from currentPage-4, clamped into range. |
| PageWindow.LargeWindow | blog-post/src/components/Pagination.jsx:10-19 | With more than 9 pages, the window has 9 entries and contains an in-range currentPage. |
| PageWindow.Render | blog-post/src/components/Pagination.jsx:22-60 | Nothing is rendered iff totalPages ≤ 1. Previous is shown iff currentPage > 1, and Next iff currentPage < totalPages. |
| PageWindow.EllipsisMarksHiddenPages | blog-post/src/components/Pagination.jsx:34-54 | Each ellipsis appears iff there are more than 9 pages and the first (resp. last) page is not in the window. |
| BlogFeed.Placeholder | blog-post/src/hooks/useFetchBlogs.js:60 | The placeholder URL is the placehold.co prefix followed by the title, or 'Blog Post'. |
| BlogFeed.DateLabel | blog-post/src/hooks/useFetchBlogs.js:62-64 | The formatted date when `created_at` is truthy, else 'Date Unknown'. |
| BlogFeed.CardImage | blog-post/src/hooks/useFetchBlogs.js:58-60 | The server base followed by `image_url` when it is truthy, else the placeholder. |
| BlogFeed.NormaliseBlog | blog-post/src/hooks/useFetchBlogs.js:51-66 | Id, content and `is_owner` pass through. Title, description and author get their defaults. Image, category and date are as above. |
| BlogFeed.NormaliseBlogs | blog-post/frontend/src/hooks/useFetchBlogs.js:36-49 | The mapping is one to one, preserving order and length. |
| BlogFeed.NormaliseBlogsAppend | blog-post/src/hooks/useFetchBlogs.js:51 | Normalising two lists one after the other is the same as normalising their concatenation. |
| BlogFeed.NumberOr | blog-post/src/hooks/useFetchBlogs.js:70-71 | `n \|\| d` keeps a present non-zero number, else gives the default. |
| BlogFeed.FeedState | blog-post/frontend/src/hooks/useFetchBlogs.js:51-55 | The cards are the normalised records, totalCount defaults to 0, and totalPages defaults to 1 and is never 0. |
| BlogFeed.FetchRequest | blog-post/src/hooks/useFetchBlogs.js:26-35 | The 'my' view with a truthy user id requests `/user/{id}`, otherwise the general list, always with the page and limit 6. The bearer header is present iff there is a token. |
| BlogFeed.ServiceRequest | blog-post/frontend/src/hooks/useFetchBlogs.js:24-30 | The 'my' view with a truthy user id calls `getUserBlogs(id, page, 6)`, otherwise `getAllBlogs(page, 6)`. |
| BlogFeed.CopiesAgree | blog-post/frontend/src/hooks/useFetchBlogs.js:24-30 | Both hook copies pick the same list for the same view, page and user. |
| SingleBlog.MapBlogData | blog-post/src/pages/SingleBlogPage.jsx:21-33 | The title and description defaults apply, the raw `image_url` is used (else the placeholder), the category is 'User Generated', and the date label is as for cards. |
| SingleBlog.HeaderImage | blog-post/src/pages/SingleBlogPage.jsx:103-104 | The header image is null iff the mapped URL is empty or contains 'placehold.co'; otherwise it is that URL. |
| SingleBlog.HeaderImageOfPost | blog-post/src/pages/SingleBlogPage.jsx:103-104 | A post shows no header image iff it has no `image_url`, or one naming placehold.co. |
| SingleBlog.DetailMatchesCard | blog-post/src/pages/SingleBlogPage.jsx:21-33 | The detail page and the card agree on every field, except that the card puts the server base in front of a stored image. |
| BlogForm.BuildPayload | blog-post/frontend/src/components/CreateBlogForm.jsx:80-99 | Title, description and content are always sent. The image is sent iff a file is chosen, and `removeImage` iff editing. `image_url` is sent iff editing, not removing, no new file and a current image. |
| BlogForm.HandleSubmit | blog-post/frontend/src/components/CreateBlogForm.jsx:68-107 | Not signed in or no token: no request, only the error message. Otherwise a bearer request: PUT `/blogs/{id}` when editing, POST `/blogs` otherwise. |
| BlogForm.CurrentImageName | blog-post/frontend/src/components/CreateBlogForm.jsx:225-228 | Shown iff editing with a current image; the name is the text after the last '/'. |
| BlogForm.CurrentImageNameOfUpload | blog-post/frontend/src/components/CreateBlogForm.jsx:228 | The shown name of `/uploads/<file>` is the file name. |
| App.Dispatch | blog-post/backend/routes/blogRoutes.js:42-55 | Only paths of at most one segment match, and GET `/my-posts` reaches the own-posts handler, not `/:id`. |
| App.Serve | blog-post/backend/routes/blogRoutes.js:28-135 | An unmatched path changes nothing and reaches no handler. A rejected token answers 403 before any upload or handler. |
| App.ReadsChangeNothing | blog-post/backend/routes/blogRoutes.js:28-65 | GET requests never change the tables or the files. |
| App.AnonymousCannotWrite | blog-post/backend/routes/blogRoutes.js:68-121 | Without a token the posts are untouched. Every delete, and every create or update whose file field is acceptable, is 401; a file in another field is the 500 error page. |
| App.OwnPostsPathHasNoRoute | blog-post/src/hooks/useFetchBlogs.js:26-27 | The client's `/user/{id}` request matches no route and changes nothing. |
| App.ClientPageCount | blog-post/src/hooks/useFetchBlogs.js:70-71 | For a page and limit the server accepts, the client shows the server's count and page count, except that an empty table's 0 pages shows as 1. |
| App.ClientQueryReadBack | blog-post/src/hooks/useFetchBlogs.js:27-29 | The page and limit the client writes into the query read back unchanged on the server. |
| App.EditKeepsDisplayUrl | blog-post/frontend/src/components/CreateBlogForm.jsx:96-98 | An edit that keeps the picture stores the card's display URL (server base + path, or the placeholder) instead of the stored path. |
| App.RemoveImageClearsPicture | blog-post/frontend/src/components/CreateBlogForm.jsx:93-98 | An edit that ticks "remove" sends no `image_url`, so the server stores none. |

## Left out

- Database and server I/O: connections, the start-up test, `db-manager.js` and the `/api/users` route. Tables are in-memory sequences.
- Concurrency: the count query and the page query are separate statements. They are modelled as one atomic read.
- The `JOIN users` and `author_name`: the model assumes the foreign key holds. The client record carries its own optional author name.
- Schema: `init_db.sql` is not part of this model. A unique email column and a serial id are assumed.
- Password hashing and token signing: bcrypt and jsonwebtoken are parameters. `hash`, `compare`, `sign` and `decode` are functions that are given.
- Token verification: a token is rejected when the verifier refuses it or when its expiry second has passed. Signature algorithms and clock skew are not modelled.
- Nodemailer is not modelled; `register` never calls it.
- Randomness and clocks: `Math.random()` is an integer draw in [0, 900000), and `Date.now()` / `NOW()` are integer milliseconds passed in.
- Dates: `toLocaleDateString` is a formatting function parameter, because its output depends on the locale.
- Express routing details are not modelled: case-insensitive and trailing-slash matching, repeated query keys (arrays) and body parsing.
- Multer and fs: the disk write and the unlink are modelled as a set of stored regular-file paths. Directories and symbolic links are not modelled.
- BlogView.DeleteBlog: an `image_url` naming a directory, such as `/uploads` or `/`, passes `existsSync` and makes `unlinkSync` throw, so the real handler answers 500 and keeps the row. The model holds regular files only, so its unlink never fails.
- BlogRoutes.CreateRoute: the body of Express's HTML error page for an unexpected upload field is modelled only by its message.
- `BlogModel.PgInteger` accepts an optional sign, digits and surrounding white space. Other integer spellings are treated as errors: Postgres' underscores and non-decimal literals.
- BlogModel.PgInteger: the overflow check while reading follows PostgreSQL 16 and later. PostgreSQL 15 and earlier flag an overflow during the scan as soon as the value read passes 2147483648. For a few texts, such as `2147483649x`, those versions report out of range where the model reports invalid syntax.
- JavaScript numbers are modelled as unbounded integers: `parseInt` beyond 2^53 and query values that are not integers are outside the model.
- BlogModel.GetAll: JavaScript computes the offset as a double, which rounds above 2^53 and prints values from 10^21 on in exponent form. The model computes the offset exactly, so near or beyond 2^63 the error kind and its text can differ from PostgreSQL's (for example 'invalid input syntax for type bigint' instead of 'out of range'). The same holds for BlogModel.GetByUserId.
- BlogModel.EveryPostListedOnce: posts with equal `created_at` are assumed to come back in the same relative order on every page query. The model keeps table order among them; PostgreSQL promises no order among ties, so a tie straddling a page boundary can be shown twice or not at all.
- BlogModel.ListedPostsArePages: rests on the same assumption about ties in `created_at`.
- Rendering, React state, effects and `fetch` error handling on the client are not modelled.
- `BlogForm.HandleSubmit`: the success and error handling after the response is not modelled.
- The CORS predicate is modelled, but its installation is not, because `server.js` does not install it.
